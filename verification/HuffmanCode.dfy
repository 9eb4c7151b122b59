/**
 What the Huffman builder delivers: code lengths between 1 and 15 for every counted symbol,
 the histogram of the lengths, and a complete code.
 */
module HuffmanCode {
  import opened Bits
  import opened Canonical
  import opened HuffmanHeap
  import opened HuffmanTree
  import opened HuffmanCost
  import opened HuffmanBuild
  import opened HuffmanWalk
  import opened HuffmanShortest

  const MAX_LEN := 15

  //////////////////////////////////////////////////////////////////////////////
  // The leaves of a tree fill the code space
  //////////////////////////////////////////////////////////////////////////////

  // code space taken by a list of coded symbols
  function SpaceAt(e: seq<Coded>, l: nat): nat {
    if l == 0 then 0 else 2 * SpaceAt(e, l - 1) + CountAt(e, l)
  }

  lemma {:induction false} CountAtConcat(a: seq<Coded>, b: seq<Coded>, l: nat)
    ensures CountAt(a + b, l) == CountAt(a, l) + CountAt(b, l)
    decreases |b|
  {
    if b == [] {
      assert a + b == a;
    } else {
      assert (a + b)[..|a + b| - 1] == a + b[..|b| - 1];
      CountAtConcat(a, b[..|b| - 1], l);
    }
  }

  lemma {:induction false} SpaceAtConcat(a: seq<Coded>, b: seq<Coded>, l: nat)
    ensures SpaceAt(a + b, l) == SpaceAt(a, l) + SpaceAt(b, l)
    decreases l
  {
    if l > 0 {
      SpaceAtConcat(a, b, l - 1);
      CountAtConcat(a, b, l);
    }
  }

  lemma {:induction false} SpaceAtOne(c: Coded, l: nat)
    requires c.len >= 1
    ensures SpaceAt([c], l) == if l < c.len then 0 else Pow2(l - c.len)
    decreases l
  {
    if l > 0 {
      SpaceAtOne(c, l - 1);
      assert [c][..0] == [];
    }
  }

  // A subtree at depth d takes one d-th level word of the code space.
  lemma {:induction false} TreeSpace(t: Tree, d: nat, l: nat)
    requires d >= 1 && d + Height(t) <= l
    ensures SpaceAt(LeafList(t, d), l) == Pow2(l - d)
  {
    match t
    case Leaf(s, _) =>
      SpaceAtOne(Coded(s, d), l);
    case Node(_, a, b) =>
      TreeSpace(a, d + 1, l);
      TreeSpace(b, d + 1, l);
      SpaceAtConcat(LeafList(a, d + 1), LeafList(b, d + 1), l);
  }

  lemma RootSpace(t: Tree, l: nat)
    requires t.Node? && Height(t) <= l
    ensures SpaceAt(LeafList(t, 0), l) == Pow2(l)
  {
    TreeSpace(t.l, 1, l);
    TreeSpace(t.r, 1, l);
    SpaceAtConcat(LeafList(t.l, 1), LeafList(t.r, 1), l);
  }

  //////////////////////////////////////////////////////////////////////////////
  // From the list of leaves to the table of lengths
  //////////////////////////////////////////////////////////////////////////////

  ghost predicate NoSymTwice(e: seq<Coded>) {
    forall i, j :: 0 <= i < j < |e| ==> e[i].sym != e[j].sym
  }

  lemma {:induction false} LeavesDistinct(t: Tree, d: nat)
    requires Distinct(t)
    ensures NoSymTwice(LeafList(t, d))
    ensures forall x :: x in Syms(t) <==> exists i :: 0 <= i < |LeafList(t, d)| && LeafList(t, d)[i].sym == x
  {
    if t.Node? {
      var a, b := LeafList(t.l, d + 1), LeafList(t.r, d + 1);
      LeavesDistinct(t.l, d + 1);
      LeavesDistinct(t.r, d + 1);
      JoinDistinct(a, b, Syms(t.l), Syms(t.r));
    } else {
      assert LeafList(t, d)[0].sym == t.sym;
    }
  }

  lemma JoinDistinct(a: seq<Coded>, b: seq<Coded>, sa: set<nat>, sb: set<nat>)
    requires NoSymTwice(a) && NoSymTwice(b) && sa !! sb
    requires forall x :: x in sa <==> exists i :: 0 <= i < |a| && a[i].sym == x
    requires forall x :: x in sb <==> exists i :: 0 <= i < |b| && b[i].sym == x
    ensures NoSymTwice(a + b)
    ensures forall x :: x in sa + sb <==> exists i :: 0 <= i < |a + b| && (a + b)[i].sym == x
  {
    forall i, j | 0 <= i < j < |a + b| ensures (a + b)[i].sym != (a + b)[j].sym {
      if i < |a| <= j { assert a[i].sym in sa && b[j - |a|].sym in sb; }
    }
    forall x | x in sa + sb ensures exists i :: 0 <= i < |a + b| && (a + b)[i].sym == x {
      if x in sa {
        var i :| 0 <= i < |a| && a[i].sym == x;
        assert (a + b)[i].sym == x;
      } else {
        var i :| 0 <= i < |b| && b[i].sym == x;
        assert (a + b)[|a| + i].sym == x;
      }
    }
    forall x | exists i :: 0 <= i < |a + b| && (a + b)[i].sym == x ensures x in sa + sb {
      var i :| 0 <= i < |a + b| && (a + b)[i].sym == x;
      if i < |a| { assert a[i].sym == x; } else { assert b[i - |a|].sym == x; }
    }
  }

  // every symbol of e got its length, and no other place changed
  lemma {:induction false} OverwrittenAt(v: seq<nat>, e: seq<Coded>)
    requires NoSymTwice(e)
    ensures forall i :: 0 <= i < |e| && e[i].sym < |v| ==> Overwritten(v, e)[e[i].sym] == e[i].len
    ensures forall x :: 0 <= x < |v| && (forall i :: 0 <= i < |e| ==> e[i].sym != x) ==> Overwritten(v, e)[x] == v[x]
    decreases |e|
  {
    if e != [] {
      var d := e[..|e| - 1];
      OverwrittenAt(v, d);
      forall i | 0 <= i < |e| && e[i].sym < |v| ensures Overwritten(v, e)[e[i].sym] == e[i].len {
        if i < |e| - 1 { assert d[i] == e[i]; }
      }
      forall x | 0 <= x < |v| && (forall i :: 0 <= i < |e| ==> e[i].sym != x) ensures Overwritten(v, e)[x] == v[x] {
        assert forall i :: 0 <= i < |d| ==> d[i] == e[i];
        assert e[|e| - 1].sym != x;
      }
    }
  }

  lemma {:induction false} CountUpdate(w: seq<nat>, s: nat, d: nat, l: nat)
    requires s < |w|
    ensures Count(w[s := d], l) == Count(w, l) - (if w[s] == l then 1 else 0) + (if d == l then 1 else 0)
    decreases |w|
  {
    var n := |w| - 1;
    if s < n {
      assert w[s := d][..n] == w[..n][s := d];
      CountUpdate(w[..n], s, d, l);
    } else {
      assert w[s := d][..n] == w[..n];
    }
  }

  // With zeros underneath, the table has as many entries l as e.
  lemma {:induction false} CountOverwritten(v: seq<nat>, e: seq<Coded>, l: nat)
    requires NoSymTwice(e) && l >= 1 && forall i :: 0 <= i < |e| ==> e[i].sym < |v|
    requires forall x :: 0 <= x < |v| ==> v[x] == 0
    ensures Count(Overwritten(v, e), l) == CountAt(e, l)
    decreases |e|
  {
    if e == [] {
      CountZero(v, l);
    } else {
      var d, c := e[..|e| - 1], e[|e| - 1];
      CountOverwritten(v, d, l);
      OverwrittenAt(v, d);
      CountUpdate(Overwritten(v, d), c.sym, c.len, l);
    }
  }

  lemma {:induction false} CountZero(v: seq<nat>, l: nat)
    requires l >= 1 && forall x :: 0 <= x < |v| ==> v[x] == 0
    ensures Count(v, l) == 0
    decreases |v|
  {
    if v != [] { CountZero(v[..|v| - 1], l); }
  }

  lemma {:induction false} SpaceOverwritten(w: seq<nat>, e: seq<Coded>, l: nat)
    requires forall k :: 1 <= k <= l ==> Count(w, k) == CountAt(e, k)
    ensures Space(w, l) == SpaceAt(e, l)
    decreases l
  {
    if l > 0 { SpaceOverwritten(w, e, l - 1); }
  }

  // The table made from a finished tree: every symbol of the tree has a length, and the code is complete.
  lemma TableOfTree(root: Tree, ts: seq<ChTab>, cnt: map<nat, nat>, v: seq<nat>, w: seq<nat>)
    requires Built(root, ts, cnt) && (forall x :: x in cnt ==> x < |v|)
    requires w == Overwritten(v, LeafList(root, 0)) && forall x :: 0 <= x < |v| && x !in cnt ==> v[x] == 0
    ensures |w| == |v|
    ensures forall x :: 0 <= x < |w| ==> if x in cnt then 1 <= w[x] <= MAX_LEN else w[x] == 0
    ensures forall l :: l >= 1 ==> Count(w, l) == CountAt(LeafList(root, 0), l)
    ensures Complete(w, MAX_LEN)
  {
    hide Built, Distinct, TreeOk, LeafList, Overwritten, Count, CountAt, Space, SpaceAt, Fits, Height, Pow2;
    var e := LeafList(root, 0);
    BuiltFacts(root, ts, cnt);
    LeavesDistinct(root, 0);
    AllBounds(root, ts, cnt, |v|);
    OverwrittenAt(v, e);
    forall x | 0 <= x < |w| ensures if x in cnt then 1 <= w[x] <= MAX_LEN else w[x] == 0 {
      if x in cnt {
        var i :| 0 <= i < |e| && e[i].sym == x;
        assert e[i] in e;
      }
    }
    var z := seq(|v|, _ => 0);
    OverwrittenAt(z, e);
    assert w == Overwritten(z, e) by { SameTable(v, z, w, e, cnt); }
    forall l | l >= 1 ensures Count(w, l) == CountAt(e, l) {
      CountOverwritten(z, e, l);
    }
    SpaceOverwritten(w, e, MAX_LEN);
    RootSpace(root, MAX_LEN);
  }

  lemma BuiltFacts(root: Tree, ts: seq<ChTab>, cnt: map<nat, nat>)
    requires Built(root, ts, cnt)
    ensures root.Node? && Distinct(root) && Syms(root) == cnt.Keys && Height(root) <= MAX_LEN
  {
  }

  lemma SameTable(v: seq<nat>, z: seq<nat>, w: seq<nat>, e: seq<Coded>, cnt: map<nat, nat>)
    requires |z| == |v| && w == Overwritten(v, e) && NoSymTwice(e)
    requires forall x :: x in cnt <==> exists i :: 0 <= i < |e| && e[i].sym == x
    requires forall x :: 0 <= x < |v| ==> z[x] == 0 && (x !in cnt ==> v[x] == 0)
    ensures w == Overwritten(z, e)
  {
    hide Overwritten;
    OverwrittenAt(v, e);
    OverwrittenAt(z, e);
    forall x | 0 <= x < |v| ensures w[x] == Overwritten(z, e)[x] {
      if x in cnt { var i :| 0 <= i < |e| && e[i].sym == x; }
    }
  }

  //////////////////////////////////////////////////////////////////////////////
  // The builders
  //////////////////////////////////////////////////////////////////////////////

  ghost predicate AtMost(s: seq<nat>, m: nat) {
    forall i :: 0 <= i < |s| ==> s[i] <= m
  }

  // b is a, halved some number of times, rounding up
  ghost predicate Halvings(a: seq<nat>, b: seq<nat>) {
    exists k: nat :: b == Reduced(a, k)
  }

  // No code takes fewer bits for these counts; a single symbol has one bit.
  ghost predicate BestFor(c: seq<nat>, l: seq<nat>) {
    && |c| == |l|
    && if TwoCounted(c) then Shortest(c, l) else forall i :: 0 <= i < |c| && c[i] > 0 ==> l[i] == 1
  }

  lemma BestTable(root: Tree, ts: seq<ChTab>, cnt: map<nat, nat>, c: seq<nat>, v: seq<nat>, w: seq<nat>)
    requires Built(root, ts, cnt) && |c| == |v| && forall x :: x in cnt ==> x < |v|
    requires if TwoCounted(c) then cnt == Counted(c) else |cnt.Keys| <= 2
    requires w == Overwritten(v, LeafList(root, 0)) && forall i :: 0 <= i < |c| && c[i] > 0 ==> i in cnt
    ensures BestFor(c, w)
  {
    hide Built, Distinct, LeafList, Overwritten, TwoCounted, Shortest;
    var e := LeafList(root, 0);
    BuiltFacts(root, ts, cnt);
    LeavesDistinct(root, 0);
    AllBounds(root, ts, cnt, |v|);
    OverwrittenAt(v, e);
    if TwoCounted(c) {
      forall x | x in e ensures x.sym < |w| && w[x.sym] == x.len {
        var i :| 0 <= i < |e| && e[i] == x;
      }
      TableShortest(root, ts, cnt, c, w);
    } else {
      TwoLeaves(root, ts, cnt);
      forall i | 0 <= i < |c| && c[i] > 0 ensures w[i] == 1 {
        var j :| 0 <= j < |e| && e[j].sym == i;
        assert e[j] in e;
      }
    }
  }

  // sq_huffman: the lengths go to ch_blen from off on
  method SqHuffman(chCn: array<nat>, lens: array<nat>, off: nat, blcn: array<nat>, codNum: nat, t: array<ChTab>)
    requires 2 <= codNum <= chCn.Length && codNum <= MAX_SYMS && codNum < t.Length <= 0x800
    requires off + codNum <= lens.Length && blcn.Length >= 16
    requires chCn != lens && chCn != blcn && lens != blcn
    modifies chCn, lens, blcn, t
    ensures forall i :: 0 <= i < codNum ==> (chCn[i] > 0 <==> old(chCn[i]) > 0) && chCn[i] <= old(chCn[i])
    ensures chCn[codNum..] == old(chCn[codNum..])
    ensures lens[..off] == old(lens[..off]) && lens[off + codNum..] == old(lens[off + codNum..])
    ensures Complete(lens[off..off + codNum], MAX_LEN)
    ensures forall i :: 0 <= i < codNum && chCn[i] > 0 ==> lens[off..off + codNum][i] >= 1
    ensures blcn[0] == 0 && forall l :: 1 <= l < blcn.Length ==> blcn[l] == Count(lens[off..off + codNum], l)
    ensures !AtMost(lens[off..off + codNum], 7) && codNum < 55 ==> !AtMost(chCn[..codNum], 1)
    ensures Halvings(old(chCn[..codNum]), chCn[..codNum])
    ensures BestFor(chCn[..codNum], lens[off..off + codNum])
  {
    hide Built, LeafList, Overwritten, CountAt, Complete, TwoCounted, Shortest, Reduced, Height;
    ghost var root, cnt, k;
    root, cnt, k := BuildTree(chCn, codNum, t);
    ClearLens(lens, off, codNum);
    ghost var v := lens[off..off + codNum];
    Walk(t, lens, off, codNum, blcn, root, cnt);
    ghost var w := lens[off..off + codNum];
    TableOfTree(root, t[..], cnt, v, w);
    NoRootLeaf(root, t[..], cnt, codNum);
    BestTable(root, t[..], cnt, chCn[..codNum], v, w);
    if !AtMost(w, 7) && codNum < 55 {
      ghost var i :| 0 <= i < codNum && w[i] > 7;
      LongHasCount(root, t[..], cnt, codNum, v, i);
    }
  }

  method ClearLens(lens: array<nat>, off: nat, n: nat)
    requires off + n <= lens.Length
    modifies lens
    ensures lens[off..off + n] == Copies(0, n)
    ensures lens[..off] == old(lens[..off]) && lens[off + n..] == old(lens[off + n..])
  {
    var i := 0;
    while i < n
      invariant i <= n && lens[..off] == old(lens[..off]) && lens[off + n..] == old(lens[off + n..])
      invariant lens[off..off + i] == Copies(0, i)
    {
      lens[off + i] := 0;
      assert lens[off..off + i + 1] == lens[off..off + i] + [0];
      i := i + 1;
    }
  }

  // no leaf at depth 0
  lemma NoRootLeaf(root: Tree, ts: seq<ChTab>, cnt: map<nat, nat>, n: nat)
    requires Built(root, ts, cnt) && forall x :: x in cnt ==> x < n
    ensures CountAt(LeafList(root, 0), 0) == 0
  {
    AllBounds(root, ts, cnt, n);
    CountAbsent(LeafList(root, 0), 0);
  }

  lemma {:induction false} CountAbsent(e: seq<Coded>, l: nat)
    requires forall c :: c in e ==> c.len != l
    ensures CountAt(e, l) == 0
    decreases |e|
  {
    if e != [] {
      assert e[|e| - 1] in e;
      CountAbsent(e[..|e| - 1], l);
    }
  }

  // a length above 7 among few symbols needs a count above 1
  lemma LongHasCount(root: Tree, ts: seq<ChTab>, cnt: map<nat, nat>, n: nat, v: seq<nat>, i: nat)
    requires Built(root, ts, cnt) && (forall x :: x in cnt ==> x < n) && n < 55
    requires |v| == n && i < n && v[i] == 0 && Overwritten(v, LeafList(root, 0))[i] > 7
    ensures exists x :: x in cnt && cnt[x] > 1
  {
    hide Fib, LeafList, Overwritten;
    var e := LeafList(root, 0);
    LeavesDistinct(root, 0);
    OverwrittenAt(v, e);
    var k :| 0 <= k < |e| && e[k].sym == i;
    LeafListBounds(root, 0, e[k]);
    FibMono(8, Height(root));
    FibValues();
    DeepHasCount(root, cnt, n, ts, 1);
  }

  lemma SameCounted(a: seq<nat>, b: seq<nat>)
    requires |a| == |b| && TwoCounted(a) && forall i :: 0 <= i < |a| ==> (a[i] > 0 <==> b[i] > 0)
    ensures TwoCounted(b)
  {
    var i, j :| 0 <= i < j < |a| && a[i] > 0 && a[j] > 0;
    assert b[i] > 0 && b[j] > 0;
  }

  // sd4_huffman: the lengths replace the counts
  method Sd4Huffman(chCn: array<nat>, blcn: array<nat>, codNum: nat, t: array<ChTab>) returns (ghost counts: seq<nat>)
    requires 2 <= codNum <= chCn.Length && codNum <= MAX_SYMS && codNum < t.Length <= 0x800
    requires blcn.Length >= 16 && chCn != blcn
    modifies chCn, blcn, t
    ensures chCn[codNum..] == old(chCn[codNum..])
    ensures Complete(chCn[..codNum], MAX_LEN)
    ensures forall i :: 0 <= i < codNum && old(chCn[i]) > 0 ==> chCn[i] >= 1
    ensures TwoCounted(old(chCn[..codNum])) ==> forall i :: 0 <= i < codNum && chCn[i] >= 1 ==> old(chCn[i]) > 0
    ensures forall i :: 0 <= i < codNum ==> chCn[i] <= MAX_LEN
    ensures blcn[0] == 0 && forall l :: 1 <= l < blcn.Length ==> blcn[l] == Count(chCn[..codNum], l)
    ensures Halvings(old(chCn[..codNum]), counts) && BestFor(counts, chCn[..codNum])
  {
    hide Built, LeafList, Overwritten, CountAt, Complete, TwoCounted, Shortest, Reduced, Height;
    ghost var root, cnt, k;
    root, cnt, k := BuildTree(chCn, codNum, t);
    ghost var v := chCn[..codNum];
    counts := v;
    if TwoCounted(old(chCn[..codNum])) { SameCounted(old(chCn[..codNum]), v); }
    assert chCn[0..0 + codNum] == v && chCn[0 + codNum..] == chCn[codNum..];
    Walk(t, chCn, 0, codNum, blcn, root, cnt);
    ghost var w := chCn[..codNum];
    assert chCn[0..0 + codNum] == w;
    TableOfTree(root, t[..], cnt, v, w);
    NoRootLeaf(root, t[..], cnt, codNum);
    BestTable(root, t[..], cnt, counts, v, w);
    assert forall i :: 0 <= i < codNum ==> w[i] == chCn[i];
  }
}
