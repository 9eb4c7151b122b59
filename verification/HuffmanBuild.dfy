/**
 The first half of the Huffman builder: `sq_huffman` and `sd4_huffman` up to the point where
 the tree stands in `ch_tab`. If the tree gets deeper than 15 the counts are halved and the
 building starts again.
 */
module HuffmanBuild {
  import opened HuffmanHeap
  import opened HuffmanTree
  import opened HuffmanCost

  const MAX_SYMS := 0x150

  ghost predicate NoDup(s: seq<nat>) {
    forall i, j :: 0 <= i < j < |s| ==> s[i] != s[j]
  }

  // the leaves of the symbols in s
  ghost function Leaves(s: seq<nat>, cnt: map<nat, nat>): (g: seq<Tree>)
    requires forall i :: 0 <= i < |s| ==> s[i] in cnt
    ensures |g| == |s| && forall i :: 0 <= i < |s| ==> g[i] == Leaf(s[i], cnt[s[i]])
  {
    seq(|s|, i requires 0 <= i < |s| => Leaf(s[i], cnt[s[i]]))
  }

  ghost predicate Lists(s: seq<nat>, cnt: map<nat, nat>) {
    && NoDup(s)
    && (forall i :: 0 <= i < |s| ==> s[i] in cnt && s[i] < 0x800)
    && (forall x :: x in cnt ==> cnt[x] > 0 && x in s)
  }

  lemma LeafForest(s: seq<nat>, cnt: map<nat, nat>, ts: seq<ChTab>, lo: nat)
    requires Lists(s, cnt)
    ensures Forest(Leaves(s, cnt), ts, lo, cnt)
  {
    hide Cheap;
    var g := Leaves(s, cnt);
    LeavesCheap(g);
    assert Fib(0) == 1;
    forall x | x in cnt ensures exists i :: 0 <= i < |g| && x in Syms(g[i]) {
      var i :| 0 <= i < |s| && s[i] == x;
      assert x in Syms(g[i]);
    }
  }

  // the counted symbols of a table of counts
  ghost function Counted(c: seq<nat>): map<nat, nat> {
    map i | 0 <= i < |c| && c[i] > 0 :: c[i]
  }

  lemma NoneListed(h: seq<ChTab>)
    requires h == []
    ensures Lists([], map[]) && Heaped(h, Leaves([], map[])) && Counted([]) == map[]
  {
  }

  // one more symbol, greater than those listed
  lemma OneMore(syms: seq<nat>, cnt: map<nat, nat>, c: nat, i: nat, h: seq<ChTab>)
    requires Lists(syms, cnt) && (forall k :: 0 <= k < |syms| ==> syms[k] < i) && c > 0 && i < 0x800
    requires forall k :: 0 <= k < |syms| ==> syms[k] in cnt
    requires Heaped(h, Leaves(syms, cnt))
    ensures Lists(syms + [i], cnt[i := c])
    ensures forall k :: 0 <= k < |syms + [i]| ==> (syms + [i])[k] in cnt[i := c]
    ensures Heaped(h + [ChTab(c, 0x800 + i)], Leaves(syms + [i], cnt[i := c]))
  {
  }

  // Lists the counted symbols in ch_tab.
  method Collect(chCn: array<nat>, codNum: nat, t: array<ChTab>)
    returns (chNum: nat, ghost syms: seq<nat>, ghost cnt: map<nat, nat>)
    requires 2 <= codNum <= chCn.Length && codNum <= MAX_SYMS && codNum < t.Length
    modifies t
    ensures Lists(syms, cnt) && |syms| == chNum <= codNum
    ensures Heaped(t[..chNum], Leaves(syms, cnt)) && cnt == Counted(chCn[..codNum])
    ensures forall i :: 0 <= i < |syms| ==> syms[i] < codNum && syms[i] in cnt
  {
    hide Lists, Heaped, Leaves;
    NoneListed(t[..0]);
    chNum, syms, cnt := 0, [], map[];
    var i := 0;
    while i < codNum
      invariant i <= codNum && |syms| == chNum <= i && cnt == Counted(chCn[..i])
      invariant Lists(syms, cnt) && forall k :: 0 <= k < |syms| ==> syms[k] < i && syms[k] in cnt
      invariant Heaped(t[..chNum], Leaves(syms, cnt))
    {
      assert chCn[..i + 1] == chCn[..i] + [chCn[i]];
      if chCn[i] > 0 {
        ghost var was := t[..chNum];
        t[chNum] := ChTab(chCn[i], 0x800 + i);
        assert t[..chNum + 1] == was + [t[chNum]];
        OneMore(syms, cnt, chCn[i], i, was);
        cnt := cnt[i := chCn[i]];
        syms := syms + [i];
        chNum := chNum + 1;
      }
      i := i + 1;
    }
  }

  // a lone symbol gets a partner, which differs in the lowest bit
  method AddPartner(t: array<ChTab>, ghost syms: seq<nat>, ghost cnt: map<nat, nat>)
    returns (ghost syms': seq<nat>, ghost cnt': map<nat, nat>)
    requires t.Length >= 2 && |syms| == 1 && Lists(syms, cnt) && Heaped(t[..1], Leaves(syms, cnt))
    modifies t
    ensures |syms'| == 2 && syms'[0] == syms[0] && syms'[1] < 2 && Lists(syms', cnt')
    ensures Heaped(t[..2], Leaves(syms', cnt')) && syms[0] in cnt && cnt'.Keys == {syms[0], syms'[1]}
    ensures cnt'[syms[0]] == cnt'[syms'[1]] == cnt[syms[0]]
  {
    assert t[0] == t[..1][0] == Elem(Leaf(syms[0], cnt[syms[0]]));
    var sym := t[0].ch % 0x800;
    assert t[0].ch == 0x800 + syms[0] && sym == syms[0];
    var other := if sym % 2 == 0 then 1 else 0;
    t[1] := ChTab(t[0].cn, 0x800 + other);
    syms' := [syms[0], other];
    cnt' := map[syms[0] := cnt[syms[0]], other := cnt[syms[0]]];
    assert t[..2] == [t[0], t[1]];
  }

  // the tree under construction: slot 0 is stale, its element is a
  ghost predicate Building(ts: seq<ChTab>, cl: nat, a: ChTab, g: seq<Tree>, cnt: map<nat, nat>) {
    && 2 <= cl <= |ts| <= 0x800
    && HeapFrom(ts[..cl], 2) && Heaped(ts[..cl][0 := a], g) && Forest(g, ts, cl, cnt)
  }

  // orders the slots from the middle down
  method Heapify(t: array<ChTab>, chNum: nat, ghost syms: seq<nat>, ghost cnt: map<nat, nat>)
    returns (ghost g: seq<Tree>)
    requires 2 <= chNum <= t.Length <= 0x800 && Lists(syms, cnt) && Heaped(t[..chNum], Leaves(syms, cnt))
    modifies t
    ensures Building(t[..], chNum, t[0], g, cnt)
  {
    hide Heaped, Forest, Lists, Rearranged, HeapFrom;
    g := Leaves(syms, cnt) by { LeafIndices(syms, cnt); }
    LeafForest(syms, cnt, t[..], chNum);
    var cl: nat := chNum / 2;
    HeapBottom(t[..chNum]);
    while cl > 1
      invariant cl <= chNum / 2 && HeapFrom(t[..chNum], cl + 1)
      invariant Heaped(t[..chNum], g) && Forest(g, t[..], chNum, cnt)
    {
      ghost var was, v := t[..], t[..chNum];
      ghost var p, q := Hsort1(t, chNum, cl, t[cl - 1]);
      assert v[cl - 1 := v[cl - 1]] == v;
      assert was[chNum..] == t[..][chNum..];
      g := ForestRearranged(t[..chNum], v, p, q, g, was, t[..], chNum, cnt);
      cl := cl - 1;
    }
    HeapTop(t[..chNum], cl);
    assert t[..][..chNum] == t[..chNum] == t[..chNum][0 := t[0]];
  }

  lemma LeafIndices(s: seq<nat>, cnt: map<nat, nat>)
    requires Lists(s, cnt)
    ensures forall i :: 0 <= i < |s| ==> s[i] in cnt
  {
  }

  lemma HeapBottom(h: seq<ChTab>)
    ensures HeapFrom(h, |h| / 2 + 1)
  {
  }

  lemma HeapTop(h: seq<ChTab>, cl: nat)
    requires HeapFrom(h, cl + 1) && cl <= 1
    ensures HeapFrom(h, 2)
  {
  }

  // The lightest subtree leaves the heap; the last one is to take its place.
  lemma TakeFirst(h: seq<ChTab>, g: seq<Tree>, ts: seq<ChTab>, us: seq<ChTab>, cnt: map<nat, nat>) returns (r: seq<Tree>)
    requires |h| >= 2 && |h| <= |ts| == |us| && Heaped(h, g) && Forest(g, ts, |h|, cnt) && ts[|h|..] == us[|h|..]
    requires HeapFrom(h, 1)
    ensures |r| == |h| - 1 && Heaped(h[..|h| - 1][0 := h[|h| - 1]], r) && Forest([g[0]] + r, us, |h|, cnt)
    ensures HeapFrom(h[..|h| - 1], 2)
    ensures forall i :: 0 <= i < |r| ==> Weight(g[0]) <= Weight(r[i])
  {
    hide Forest, Heaped, HeapFrom, Rearranged;
    var n := |h|;
    r := [g[n - 1]] + g[1..n - 1] by { HeapedSizes(h, g); }
    HeapedSizes(h, g);
    var p, q := RearrangeLast(g);
    ForestOrder([g[0]] + r, g, p, q, ts, us, n, cnt);
    HeapedTail(h, g);
    HeapCut(h);
    forall i | 0 <= i < |r| ensures Weight(g[0]) <= Weight(r[i]) {
      var k := if i == 0 then n - 1 else i;
      HeapRoot(h, k);
      HeapedAt(h, g, 0);
      HeapedAt(h, g, k);
      LeWeight(g[0], g[k]);
    }
  }

  lemma HeapedSizes(h: seq<ChTab>, g: seq<Tree>)
    requires Heaped(h, g)
    ensures |h| == |g|
  {
  }

  lemma HeapedAt(h: seq<ChTab>, g: seq<Tree>, i: nat)
    requires Heaped(h, g) && i < |h|
    ensures i < |g| && h[i] == Elem(g[i])
  {
  }

  lemma LeWeight(a: Tree, b: Tree)
    requires Le(Elem(a), Elem(b))
    ensures Weight(a) <= Weight(b)
  {
  }

  lemma HeapedTail(h: seq<ChTab>, g: seq<Tree>)
    requires |h| >= 2 && Heaped(h, g)
    ensures Heaped(h[..|h| - 1][0 := h[|h| - 1]], [g[|h| - 1]] + g[1..|h| - 1])
  {
    hide Elem;
  }

  lemma HeapCut(h: seq<ChTab>)
    requires |h| >= 1 && HeapFrom(h, 1)
    ensures HeapFrom(h[..|h| - 1], 2)
  {
    hide Le;
    forall j | 2 <= j <= |h| - 1 && 2 <= j / 2 ensures Le(h[..|h| - 1][j / 2 - 1], h[..|h| - 1][j - 1]) {
      assert Le(h[j / 2 - 1], h[j - 1]);
    }
  }

  // the next lightest comes to the front of the rest
  lemma TakeSecond(h: seq<ChTab>, v: seq<ChTab>, p: seq<nat>, q: seq<nat>, b: Tree, r: seq<Tree>,
                   ts: seq<ChTab>, us: seq<ChTab>, lo: nat, cnt: map<nat, nat>)
    returns (r': seq<Tree>)
    requires Rearranged(h, v, p, q) && Heaped(v, r) && HeapFrom(h, 1) && |h| >= 1
    requires lo <= |ts| == |us| && ts[lo..] == us[lo..] && Forest([b] + r, ts, lo, cnt)
    requires forall i :: 0 <= i < |r| ==> Weight(b) <= Weight(r[i])
    ensures |r'| == |h| && Heaped(h, r') && Forest([b] + r', us, lo, cnt)
    ensures Weight(b) <= Weight(r'[0]) && forall i :: 0 <= i < |r'| ==> Weight(r'[0]) <= Weight(r'[i])
  {
    hide Forest, Heaped, HeapFrom, Weight, Le;
    r' := Reorder(h, v, p, q, r);
    var p', q' := RearrangeTail(r', r, p, q, b);
    ForestOrder([b] + r', [b] + r, p', q', ts, us, lo, cnt);
    HeapedSizes(h, r');
    forall i | 0 <= i < |r'| ensures Weight(r'[0]) <= Weight(r'[i]) {
      HeapRoot(h, i);
      HeapedAt(h, r', 0);
      HeapedAt(h, r', i);
      LeWeight(r'[0], r'[i]);
    }
  }

  // what the round has joined, and its element if it is not too deep
  method JoinElem(a: ChTab, b: ChTab, cl: nat, ghost ta: Tree, ghost tb: Tree) returns (deep: bool, e: ChTab)
    requires a == Elem(ta) && b == Elem(tb) && Fits(ta) && Fits(tb) && cl < 0x800
    ensures deep <==> Height(Node(cl, tb, ta)) > 14
    ensures !deep ==> e == Elem(Node(cl, tb, ta))
    ensures Height(Node(cl, tb, ta)) <= 15
  {
    ghost var n := Node(cl, tb, ta);
    RefOrder(ta, tb);
    var ch := if a.ch <= b.ch then b.ch else a.ch;
    assert ch == Max(Ref(ta), Ref(tb));
    ch := ch / 0x800 % 16 * 0x800 + cl + 0x800;
    assert ch == 0x800 * (Height(n) + 1) + cl;
    e := ChTab(a.cn + b.cn, ch + 0x8000);
    deep := ch >= 0x8000;
  }

  // b, the lightest, is out of the heap and `last` waits to be sifted in
  ghost predicate Popped(ts: seq<ChTab>, cl: nat, last: ChTab, b: Tree, r: seq<Tree>, cnt: map<nat, nat>) {
    && 3 <= cl <= |ts| <= 0x800 && |r| == cl - 1
    && HeapFrom(ts[..cl - 1], 2) && Heaped(ts[..cl - 1][0 := last], r)
    && Forest([b] + r, ts, cl, cnt) && ts[cl - 1].ch == Ref(b)
    && forall i :: 0 <= i < |r| ==> Weight(b) <= Weight(r[i])
  }

  method PopFirst(t: array<ChTab>, cl: nat, a: ChTab, ghost g: seq<Tree>, ghost cnt: map<nat, nat>)
    returns (b: ChTab, last: ChTab, ghost bt: Tree, ghost r: seq<Tree>)
    requires Building(t[..], cl, a, g, cnt) && cl > 2
    modifies t
    ensures Popped(t[..], cl, last, bt, r, cnt) && b == Elem(bt)
  {
    hide Forest, Heaped, HeapFrom, Rearranged, Weight, Ref, Le;
    ghost var was, v := t[..], t[..cl][0 := a];
    assert was[..cl] == t[..cl];
    ghost var p, q := Hsort1(t, cl, 1, a);
    ghost var g1 := ForestRearranged(t[..cl], v, p, q, g, was, t[..], cl, cnt) by { assert was[cl..] == t[..][cl..]; }
    HeapedSizes(t[..cl], g1);
    HeapedAt(t[..cl], g1, 0);
    b := t[0];
    last := t[cl - 1];
    ghost var ts1, h1 := t[..], t[..cl];
    t[cl - 1] := ChTab(last.cn, b.ch);
    bt := g1[0];
    r := TakeFirst(h1, g1, ts1, t[..], cnt) by { assert ts1[cl..] == t[..][cl..]; }
    assert t[..][..cl - 1] == h1[..cl - 1];
  }

  method PopSecond(t: array<ChTab>, cl: nat, last: ChTab, ghost b: Tree, ghost r: seq<Tree>, ghost cnt: map<nat, nat>)
    returns (c: ChTab, ghost r': seq<Tree>, ghost ts: seq<ChTab>)
    requires Popped(t[..], cl, last, b, r, cnt)
    modifies t
    ensures |r'| == cl - 1 && HeapFrom(t[..cl - 1], 1) && Heaped(t[..cl - 1], r') && c == Elem(r'[0])
    ensures Forest([b] + r', ts, cl, cnt) && |ts| == t.Length && t[cl..] == ts[cl..]
    ensures t[cl - 1] == ChTab(Ref(r'[0]), Ref(b))
    ensures Weight(b) <= Weight(r'[0]) && forall i :: 0 <= i < |r'| ==> Weight(r'[0]) <= Weight(r'[i])
  {
    hide Forest, Heaped, HeapFrom, Rearranged, Weight, Ref, Le;
    ghost var was := t[..];
    assert was[..cl - 1] == t[..cl - 1];
    ghost var p, q := Hsort1(t, cl - 1, 1, last);
    ts := t[..];
    assert was[cl..] == ts[cl..] && ts[cl - 1] == was[cl - 1] by {
      assert ts[cl - 1..] == t[cl - 1..] == was[cl - 1..];
      assert ts[cl - 1..][0] == was[cl - 1..][0] && ts[cl - 1..][1..] == was[cl - 1..][1..];
    }
    r' := TakeSecond(t[..cl - 1], was[..cl - 1][0 := last], p, q, b, r, was, ts, cl, cnt);
    HeapedAt(t[..cl - 1], r', 0);
    c := t[0];
    ghost var h := t[..cl - 1];
    t[cl - 1] := ChTab(c.ch, t[cl - 1].ch);
    assert t[..cl - 1] == h && t[cl..] == ts[cl..];
  }

  // One round joins the two lightest subtrees.
  method Round(t: array<ChTab>, cl: nat, a: ChTab, ghost g: seq<Tree>, ghost cnt: map<nat, nat>)
    returns (deep: bool, a': ChTab, ghost g': seq<Tree>, ghost n: Tree)
    requires Building(t[..], cl, a, g, cnt) && cl > 2
    modifies t
    ensures TreeOk(n, t[..], cl - 1, cnt) && Height(n) <= 15 && (deep ==> Height(n) == 15)
    ensures !deep ==> Building(t[..], cl - 1, a', g', cnt)
  {
    hide Forest, Heaped, HeapFrom, Rearranged, Fits, Height, Weight, TreeOk, Ref, Popped;
    var b, last;
    ghost var bt, r;
    b, last, bt, r := PopFirst(t, cl, a, g, cnt);
    PoppedSizes(t[..], cl, last, bt, r, cnt);
    var c;
    ghost var r', ts;
    c, r', ts := PopSecond(t, cl, last, bt, r, cnt);
    assert t[..][cl..] == ts[cl..] && t[..][..cl - 1] == t[..cl - 1];
    n := JoinOk(bt, r', ts, t[..], cl - 1, cnt);
    FrontFits(bt, r', ts, cl, cnt);
    deep, a' := JoinElem(c, b, cl - 1, r'[0], bt);
    HeightNode(n);
    g' := g;
    if !deep {
      JoinForest(bt, r', ts, t[..], cl - 1, cnt, n);
      g' := [n] + r'[1..];
      HeapTop(t[..cl - 1], 0) by { HeapWeaker(t[..cl - 1]); }
      HeapedJoin(t[..cl - 1], r', n);
    }
  }

  lemma PoppedSizes(ts: seq<ChTab>, cl: nat, last: ChTab, b: Tree, r: seq<Tree>, cnt: map<nat, nat>)
    requires Popped(ts, cl, last, b, r, cnt)
    ensures 3 <= cl <= |ts| <= 0x800
  {
  }

  lemma FrontFits(b: Tree, r: seq<Tree>, ts: seq<ChTab>, lo: nat, cnt: map<nat, nat>)
    requires |r| > 0 && Forest([b] + r, ts, lo, cnt)
    ensures Fits(b) && Fits(r[0])
  {
    assert ([b] + r)[0] == b && ([b] + r)[1] == r[0];
  }

  lemma HeightNode(n: Tree)
    requires n.Node?
    ensures Height(n) >= 1
  {
  }

  lemma HeapWeaker(h: seq<ChTab>)
    requires HeapFrom(h, 1)
    ensures HeapFrom(h, 0 + 1)
  {
  }

  lemma HeapedJoin(h: seq<ChTab>, r: seq<Tree>, n: Tree)
    requires |h| >= 1 && Heaped(h, r)
    ensures Heaped(h[0 := Elem(n)], [n] + r[1..])
  {
    hide Elem;
  }

  //////////////////////////////////////////////////////////////////////////////
  // Why halving ends
  //////////////////////////////////////////////////////////////////////////////

  function Halved(c: seq<nat>): (r: seq<nat>)
    ensures |r| == |c| && forall i :: 0 <= i < |c| ==> r[i] == (c[i] + 1) / 2
  {
    seq(|c|, i requires 0 <= i < |c| => (c[i] + 1) / 2)
  }

  // Halving lowers the sum of the counts unless they are all 0 or 1.
  lemma {:induction false} HalvedSum(c: seq<nat>)
    ensures Sum(Halved(c)) <= Sum(c)
    ensures (exists i :: 0 <= i < |c| && c[i] > 1) ==> Sum(Halved(c)) < Sum(c)
  {
    if c != [] {
      var d := c[..|c| - 1];
      assert Halved(c)[..|c| - 1] == Halved(d);
      HalvedSum(d);
      if i :| 0 <= i < |c| && c[i] > 1 && c[|c| - 1] <= 1 {
        assert d[i] > 1;
      }
    }
  }

  lemma {:induction false} UnitWeight(t: Tree, cnt: map<nat, nat>)
    requires Counts(t, cnt) && Distinct(t) && forall x :: x in cnt ==> cnt[x] <= 1
    ensures Weight(t) == |Syms(t)|
  {
    if t.Node? {
      UnitWeight(t.l, cnt);
      UnitWeight(t.r, cnt);
    }
  }

  lemma {:induction false} BelowSize(s: set<nat>, n: nat)
    requires forall x :: x in s ==> x < n
    ensures |s| <= n
  {
    if n == 0 {
      assert s == {};
    } else {
      BelowSize(s - {n - 1}, n - 1);
      assert s <= (s - {n - 1}) + {n - 1};
      assert |s| <= |(s - {n - 1}) + {n - 1}|  by { SubsetSize(s, (s - {n - 1}) + {n - 1}); }
    }
  }

  lemma {:induction false} SubsetSize(a: set<nat>, b: set<nat>)
    requires a <= b
    ensures |a| <= |b|
    decreases |a|
  {
    if a != {} {
      var x :| x in a;
      SubsetSize(a - {x}, b - {x});
    }
  }

  lemma {:induction false} FibMono(a: nat, b: nat)
    requires a <= b
    ensures Fib(a) <= Fib(b)
    decreases b
  {
    if a < b {
      FibMono(a, b - 1);
      if b >= 2 { assert Fib(b) == Fib(b - 1) + Fib(b - 2); }
    }
  }

  lemma FibValues()
    ensures Fib(8) == 55 && Fib(15) == 1597
  {
    assert Fib(2) == 3 && Fib(3) == 5 && Fib(4) == 8 && Fib(5) == 13 && Fib(6) == 21;
    assert Fib(7) == 34 && Fib(8) == 55 && Fib(9) == 89 && Fib(10) == 144;
    assert Fib(11) == 233 && Fib(12) == 377 && Fib(13) == 610 && Fib(14) == 987;
  }

  // With all counts one, a tree of height h has at least Fib(h) symbols.
  lemma DeepHasCount(n: Tree, cnt: map<nat, nat>, m: nat, ts: seq<ChTab>, lo: nat)
    requires TreeOk(n, ts, lo, cnt) && Fib(Height(n)) > m && forall x :: x in cnt ==> x < m
    ensures exists x :: x in cnt && cnt[x] > 1
  {
    if forall x :: x in cnt ==> cnt[x] <= 1 {
      UnitWeight(n, cnt);
      CountsSyms(n, cnt);
      BelowSize(Syms(n), m);
      assert false;
    }
  }

  // halved k times
  function Reduced(c: seq<nat>, k: nat): (r: seq<nat>)
    ensures |r| == |c|
  {
    if k == 0 then c else Halved(Reduced(c, k - 1))
  }

  lemma ReducedNext(c: seq<nat>, k: nat)
    ensures Reduced(c, 0) == c && Reduced(c, k + 1) == Halved(Reduced(c, k))
  {
  }

  // at least two symbols are counted, so that none is made up
  ghost predicate TwoCounted(c: seq<nat>) {
    exists i, j :: 0 <= i < j < |c| && c[i] > 0 && c[j] > 0
  }

  method HalveCounts(chCn: array<nat>, codNum: nat)
    requires codNum <= chCn.Length
    modifies chCn
    ensures chCn[..codNum] == Halved(old(chCn[..codNum])) && chCn[codNum..] == old(chCn[codNum..])
  {
    var i := 0;
    while i < codNum
      invariant i <= codNum && chCn[codNum..] == old(chCn[codNum..])
      invariant forall k :: 0 <= k < i ==> chCn[k] == (old(chCn[k]) + 1) / 2
      invariant forall k :: i <= k < codNum ==> chCn[k] == old(chCn[k])
    {
      chCn[i] := (chCn[i] + 1) / 2;
      i := i + 1;
    }
  }

  //////////////////////////////////////////////////////////////////////////////
  // The whole construction
  //////////////////////////////////////////////////////////////////////////////

  // the finished tree with its root in slot 1; no code is better
  ghost predicate Built(root: Tree, ts: seq<ChTab>, cnt: map<nat, nat>) {
    && TreeOk(root, ts, 1, cnt) && root.Node? && root.slot == 1 && Height(root) <= 15
    && Fits(root.l) && Fits(root.r) && Syms(root) == cnt.Keys && Cheap([root])
  }

  // joins rounds until two subtrees are left
  method Rounds(t: array<ChTab>, chNum: nat, ghost g0: seq<Tree>, ghost cnt: map<nat, nat>)
    returns (deep: bool, ghost n: Tree)
    requires t.Length >= 2 && Building(t[..], chNum, t[0], g0, cnt)
    modifies t
    ensures deep ==> chNum > 2 && Height(n) == 15 && exists lo :: TreeOk(n, t[..], lo, cnt)
    ensures !deep ==> Built(n, t[..], cnt)
  {
    hide Building, Built, TreeOk, Height, Heaped, Forest, HeapFrom;
    var cl: nat, a := chNum, t[0];
    ghost var g := g0;
    BuildingSizes(t[..], cl, a, g, cnt);
    while cl > 2
      invariant 2 <= cl <= chNum && Building(t[..], cl, a, g, cnt)
    {
      deep, a, g, n := Round(t, cl, a, g, cnt);
      if deep { return; }
      cl := cl - 1;
    }
    BuildingSizes(t[..], cl, a, g, cnt);
    ghost var ts := t[..];
    t[1] := ChTab(a.ch, t[1].ch);
    n := LastJoin(ts, t[..], a, g, cnt);
    deep := false;
  }

  lemma BuildingSizes(ts: seq<ChTab>, cl: nat, a: ChTab, g: seq<Tree>, cnt: map<nat, nat>)
    requires Building(ts, cl, a, g, cnt)
    ensures 2 <= cl <= |ts| <= 0x800
  {
  }

  lemma LastJoin(ts: seq<ChTab>, us: seq<ChTab>, a: ChTab, g: seq<Tree>, cnt: map<nat, nat>) returns (n: Tree)
    requires Building(ts, 2, a, g, cnt) && |us| == |ts| && us == ts[1 := ChTab(a.ch, ts[1].ch)]
    ensures Built(n, us, cnt)
  {
    hide Forest, TreeOk, Fits, Ref, Cheap;
    assert g == [g[0]] + [g[1]];
    var p := [1, 0];
    assert Rearranged([g[1]] + [g[0]], g, p, p);
    ForestOrder([g[1]] + [g[0]], g, p, p, ts, ts, 2, cnt);
    assert ts[..2][0 := a][1] == ts[1];
    n := JoinOk(g[1], [g[0]], ts, us, 1, cnt);
    FrontFits(g[1], [g[0]], ts, 2, cnt);
    LastCovers(g, ts, n, us, cnt);
    LastCheap(g[1], g[0], ts, cnt, n);
  }

  lemma LastCheap(b: Tree, c: Tree, ts: seq<ChTab>, cnt: map<nat, nat>, n: Tree)
    requires Forest([b] + [c], ts, 2, cnt) && n == Node(1, b, c)
    ensures Cheap([n])
  {
    hide Cheap;
    JoinCheap(b, [c], n);
    assert [n] + [c][1..] == [n];
  }

  lemma LastCovers(g: seq<Tree>, ts: seq<ChTab>, n: Tree, us: seq<ChTab>, cnt: map<nat, nat>)
    requires |g| == 2 && Forest(g, ts, 2, cnt) && n == Node(1, g[1], g[0]) && TreeOk(n, us, 1, cnt)
    requires Fits(g[0]) && Fits(g[1])
    ensures Syms(n) == cnt.Keys && Height(n) <= 15
  {
    CountsSyms(n, cnt);
    forall s | s in cnt ensures s in Syms(n) {
      var i :| 0 <= i < |g| && s in Syms(g[i]);
    }
  }

  // The tree of the counts in ch_cn; they are halved as long as it gets too deep.
  method BuildTree(chCn: array<nat>, codNum: nat, t: array<ChTab>)
    returns (ghost root: Tree, ghost cnt: map<nat, nat>, ghost k: nat)
    requires 2 <= codNum <= chCn.Length && codNum <= MAX_SYMS && codNum < t.Length <= 0x800
    modifies chCn, t
    ensures Built(root, t[..], cnt) && chCn[..codNum] == Reduced(old(chCn[..codNum]), k)
    ensures forall i :: 0 <= i < codNum && chCn[i] > 0 ==> i in cnt && cnt[i] == chCn[i]
    ensures forall x :: x in cnt ==> x < codNum
    ensures (forall i :: 0 <= i < codNum ==> chCn[i] <= 1) ==> forall x :: x in cnt ==> cnt[x] <= 1
    ensures if TwoCounted(chCn[..codNum]) then cnt == Counted(chCn[..codNum]) else |cnt.Keys| <= 2
    ensures forall i :: 0 <= i < codNum ==> (chCn[i] > 0 <==> old(chCn[i]) > 0) && chCn[i] <= old(chCn[i])
    ensures chCn[codNum..] == old(chCn[codNum..])
  {
    hide Built, Building, TreeOk, Forest, Heaped, Lists, Fib, TwoCounted, Reduced, Sum, Height;
    k := 0;
    ReducedNext(chCn[..codNum], 0);
    while true
      invariant chCn[..codNum] == Reduced(old(chCn[..codNum]), k)
      invariant forall i :: 0 <= i < codNum ==> (chCn[i] > 0 <==> old(chCn[i]) > 0) && chCn[i] <= old(chCn[i])
      invariant chCn[codNum..] == old(chCn[codNum..])
      decreases Sum(chCn[..codNum])
    {
      var chNum;
      ghost var syms;
      chNum, syms, cnt := CollectPadded(chCn, codNum, t);
      ghost var g := Heapify(t, chNum, syms, cnt);
      var deep;
      deep, root := Rounds(t, chNum, g, cnt);
      if !deep { return; }
      ghost var lo :| TreeOk(root, t[..], lo, cnt);
      FibValues();
      DeepHasCount(root, cnt, codNum, t[..], lo);
      HalvedSum(chCn[..codNum]);
      HalveCounts(chCn, codNum);
      ReducedNext(old(chCn[..codNum]), k);
      k := k + 1;
    }
  }

  // the counted symbols, made up to two
  method CollectPadded(chCn: array<nat>, codNum: nat, t: array<ChTab>)
    returns (chNum: nat, ghost syms: seq<nat>, ghost cnt: map<nat, nat>)
    requires 2 <= codNum <= chCn.Length && codNum <= MAX_SYMS && codNum < t.Length
    modifies t
    ensures 2 <= chNum <= codNum && Lists(syms, cnt) && Heaped(t[..chNum], Leaves(syms, cnt)) && |syms| == chNum
    ensures forall i :: 0 <= i < codNum && chCn[i] > 0 ==> i in cnt && cnt[i] == chCn[i]
    ensures forall x :: x in cnt ==> x < codNum
    ensures (forall i :: 0 <= i < codNum ==> chCn[i] <= 1) ==> forall x :: x in cnt ==> cnt[x] <= 1
    ensures if TwoCounted(chCn[..codNum]) then cnt == Counted(chCn[..codNum]) else |cnt.Keys| <= 2
  {
    hide Lists, Heaped, TwoCounted;
    chNum, syms, cnt := Collect(chCn, codNum, t);
    TwoListed(chCn[..codNum], syms, cnt);
    CountedFacts(chCn[..codNum], syms, cnt);
    assert forall i :: 0 <= i < codNum ==> chCn[..codNum][i] == chCn[i];
    ghost var h := t[..chNum];
    t[chNum] := t[chNum].(ch := 0);
    assert t[..chNum] == h;
    if chNum == 0 {
      t[0] := ChTab(1, 0x800);
      syms, cnt := [0], map[0 := 1];
      OneLeaf(t[..1]);
      chNum := 1;
    }
    if chNum == 1 {
      syms, cnt := AddPartner(t, syms, cnt);
      chNum := 2;
    }
  }

  lemma CountedFacts(c: seq<nat>, syms: seq<nat>, cnt: map<nat, nat>)
    requires cnt == Counted(c) && Lists(syms, cnt)
    ensures forall i :: 0 <= i < |c| && c[i] > 0 ==> i in cnt && cnt[i] == c[i] && i in syms
    ensures forall x :: x in cnt ==> x < |c| && c[x] == cnt[x]
    ensures |syms| == 1 ==> forall x :: x in cnt ==> x == syms[0]
    ensures |syms| == 1 ==> syms[0] in cnt
    ensures |syms| == 0 ==> forall i :: 0 <= i < |c| ==> c[i] == 0
    ensures |syms| == 1 ==> forall i :: 0 <= i < |c| && c[i] > 0 ==> i == syms[0]
  {
  }

  // two listed symbols
  lemma TwoListed(c: seq<nat>, syms: seq<nat>, cnt: map<nat, nat>)
    requires cnt == Counted(c) && Lists(syms, cnt)
    ensures TwoCounted(c) <==> |syms| >= 2
  {
    if |syms| >= 2 {
      var i, j := syms[0], syms[1];
      assert i != j && i in cnt && j in cnt;
      if i < j { assert c[i] > 0 && c[j] > 0; } else { assert c[j] > 0 && c[i] > 0; }
    }
    if i, j :| 0 <= i < j < |c| && c[i] > 0 && c[j] > 0 {
      assert i in cnt && j in cnt && i in syms && j in syms;
    }
  }

  lemma OneLeaf(h: seq<ChTab>)
    requires h == [ChTab(1, 0x800)]
    ensures Lists([0], map[0 := 1]) && Heaped(h, Leaves([0], map[0 := 1]))
  {
  }
}
