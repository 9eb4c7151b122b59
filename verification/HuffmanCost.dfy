/**
 The trees of the Huffman builder and the cost of a code: how many bits the data take. Joining
 the two lightest subtrees, again and again, leads to a tree no code can beat.
 */
module HuffmanCost {
  import opened Bits
  import opened HuffmanHeap

  datatype Tree = Leaf(sym: nat, w: nat) | Node(slot: nat, l: Tree, r: Tree)

  function Weight(t: Tree): nat {
    match t
    case Leaf(_, w) => w
    case Node(_, l, r) => Weight(l) + Weight(r)
  }

  //////////////////////////////////////////////////////////////////////////////
  // Sums
  //////////////////////////////////////////////////////////////////////////////

  function Sum(c: seq<nat>): nat {
    if c == [] then 0 else Sum(c[..|c| - 1]) + c[|c| - 1]
  }

  lemma {:induction false} SumConcat(a: seq<nat>, b: seq<nat>)
    ensures Sum(a + b) == Sum(a) + Sum(b)
    decreases |b|
  {
    if b == [] {
      assert a + b == a;
    } else {
      assert (a + b)[..|a + b| - 1] == a + b[..|b| - 1];
      SumConcat(a, b[..|b| - 1]);
    }
  }

  lemma SumOne(x: nat)
    ensures Sum([x]) == x
  {
    assert [x][..0] == [];
  }

  lemma SumFront(c: seq<nat>)
    requires c != []
    ensures Sum(c) == c[0] + Sum(c[1..])
  {
    hide Sum;
    assert c == [c[0]] + c[1..];
    SumConcat([c[0]], c[1..]);
    SumOne(c[0]);
  }

  lemma SumRemove(c: seq<nat>, k: nat)
    requires k < |c|
    ensures Sum(c) == Sum(c[..k] + c[k + 1..]) + c[k]
  {
    hide Sum;
    assert c == c[..k] + c[k..];
    assert c[k..][1..] == c[k + 1..];
    SumConcat(c[..k], c[k..]);
    SumConcat(c[..k], c[k + 1..]);
    SumFront(c[k..]);
  }

  lemma SumUpdate(c: seq<nat>, k: nat, x: nat)
    requires k < |c|
    ensures Sum(c[k := x]) + c[k] == Sum(c) + x
  {
    hide Sum;
    var d := c[k := x];
    assert d[..k] == c[..k] && d[k + 1..] == c[k + 1..];
    SumRemove(c, k);
    SumRemove(d, k);
  }

  lemma {:induction false} SumPlus(a: seq<nat>, b: seq<nat>, c: seq<nat>)
    requires |a| == |b| == |c| && forall i :: 0 <= i < |a| ==> a[i] == b[i] + c[i]
    ensures Sum(a) == Sum(b) + Sum(c)
    decreases |a|
  {
    if a != [] {
      var n := |a| - 1;
      SumPlus(a[..n], b[..n], c[..n]);
    }
  }

  lemma {:induction false} SumAtMost(a: seq<nat>, b: seq<nat>)
    requires |a| == |b| && forall i :: 0 <= i < |a| ==> a[i] <= b[i]
    ensures Sum(a) <= Sum(b)
    decreases |a|
  {
    if a != [] {
      var n := |a| - 1;
      SumAtMost(a[..n], b[..n]);
    }
  }

  // the order does not matter
  lemma {:induction false} SumRearranged(h: seq<nat>, v: seq<nat>, p: seq<nat>, q: seq<nat>)
    requires Rearranged(h, v, p, q)
    ensures Sum(h) == Sum(v)
    decreases |h|
  {
    if h != [] {
      var n := |h| - 1;
      var k := p[n];
      var p', q' := WithoutLast(h, v, p, q);
      SumRearranged(h[..n], v[..k] + v[k + 1..], p', q');
      SumRemove(v, k);
    }
  }

  // place k and the last place taken out
  function Lowered(p: seq<nat>, n: nat, k: nat): (r: seq<nat>)
    requires n <= |p|
    ensures |r| == n && forall i :: 0 <= i < n ==> r[i] == if p[i] > k then p[i] - 1 else p[i]
  {
    seq(n, i requires 0 <= i < n => if p[i] > k then (p[i] - 1) as nat else p[i])
  }

  function Closed(q: seq<nat>, n: nat, k: nat): (r: seq<nat>)
    requires n < |q| && k <= n
    ensures |r| == n && forall j :: 0 <= j < n ==> r[j] == q[if j < k then j else j + 1]
  {
    seq(n, j requires 0 <= j < n => q[if j < k then j else j + 1])
  }

  lemma WithoutLast(h: seq<nat>, v: seq<nat>, p: seq<nat>, q: seq<nat>) returns (p': seq<nat>, q': seq<nat>)
    requires Rearranged(h, v, p, q) && h != []
    ensures p[|h| - 1] < |v| && Rearranged(h[..|h| - 1], v[..p[|h| - 1]] + v[p[|h| - 1] + 1..], p', q')
  {
    hide Rearranged, PlaceOk;
    var n := |h| - 1;
    LastPlace(h, v, p, q);
    var k := p[n];
    p', q' := Lowered(p, n, k), Closed(q, n, k);
    var v' := v[..k] + v[k + 1..];
    forall i | 0 <= i < n ensures PlaceOk(h[..n], v', p', q', i) {
      PlaceAt(h, v, p, q, i);
      PlaceAt(h, v, p, q, n);
      PlaceAt(h, v, p, q, if i < k then i else i + 1);
      OtherPlace(h, v, p, q, i, k);
    }
    AllPlaces(h[..n], v', p', q');
  }

  lemma LastPlace<T>(h: seq<T>, v: seq<T>, p: seq<nat>, q: seq<nat>)
    requires Rearranged(h, v, p, q) && h != []
    ensures |h| == |v| == |p| == |q| && p[|h| - 1] < |v|
  {
  }

  lemma OtherPlace(h: seq<nat>, v: seq<nat>, p: seq<nat>, q: seq<nat>, i: nat, k: nat)
    requires |h| == |v| == |p| == |q| && i < |h| - 1 && k == p[|h| - 1]
    requires PlaceOk(h, v, p, q, i) && PlaceOk(h, v, p, q, |h| - 1) && PlaceOk(h, v, p, q, if i < k then i else i + 1)
    ensures PlaceOk(h[..|h| - 1], v[..k] + v[k + 1..], Lowered(p, |h| - 1, k), Closed(q, |h| - 1, k), i)
  {
  }

  //////////////////////////////////////////////////////////////////////////////
  // The cost of a code
  //////////////////////////////////////////////////////////////////////////////

  // how many words of n bits start with a code of m bits
  function Words(n: nat, m: nat): nat {
    if m <= n then Pow2(n - m) else 0
  }

  ghost predicate Within(l: seq<nat>, n: nat) {
    forall i :: 0 <= i < |l| ==> l[i] <= n
  }

  function LenOf(l: seq<nat>, s: nat): nat {
    if s < |l| then l[s] else 0
  }

  // the bits the symbols of a tree take with code lengths l, and the code space
  function TreeCost(t: Tree, l: seq<nat>): nat {
    match t
    case Leaf(s, w) => w * LenOf(l, s)
    case Node(_, a, b) => TreeCost(a, l) + TreeCost(b, l)
  }

  function TreeSpace(t: Tree, l: seq<nat>, n: nat): nat {
    match t
    case Leaf(s, _) => Words(n, LenOf(l, s))
    case Node(_, a, b) => TreeSpace(a, l, n) + TreeSpace(b, l, n)
  }

  // the bits they take below the root of the tree, if they are coded by their paths
  function Inner(t: Tree): nat {
    match t
    case Leaf(_, _) => 0
    case Node(_, a, b) => Weight(t) + Inner(a) + Inner(b)
  }

  function Costs(g: seq<Tree>, l: seq<nat>): (c: seq<nat>)
    ensures |c| == |g| && forall i :: 0 <= i < |g| ==> c[i] == TreeCost(g[i], l)
  {
    seq(|g|, i requires 0 <= i < |g| => TreeCost(g[i], l))
  }

  function Spaces(g: seq<Tree>, l: seq<nat>, n: nat): (c: seq<nat>)
    ensures |c| == |g| && forall i :: 0 <= i < |g| ==> c[i] == TreeSpace(g[i], l, n)
  {
    seq(|g|, i requires 0 <= i < |g| => TreeSpace(g[i], l, n))
  }

  function Weights(g: seq<Tree>): (c: seq<nat>)
    ensures |c| == |g| && forall i :: 0 <= i < |g| ==> c[i] == Weight(g[i])
  {
    seq(|g|, i requires 0 <= i < |g| => Weight(g[i]))
  }

  function Inners(g: seq<Tree>): (c: seq<nat>)
    ensures |c| == |g| && forall i :: 0 <= i < |g| ==> c[i] == Inner(g[i])
  {
    seq(|g|, i requires 0 <= i < |g| => Inner(g[i]))
  }

  function Prods(ws: seq<nat>, m: seq<nat>): (c: seq<nat>)
    requires |ws| == |m|
    ensures |c| == |m| && forall i :: 0 <= i < |m| ==> c[i] == ws[i] * m[i]
  {
    seq(|m|, i requires 0 <= i < |m| => ws[i] * m[i])
  }

  function AllWords(n: nat, m: seq<nat>): (c: seq<nat>)
    ensures |c| == |m| && forall i :: 0 <= i < |m| ==> c[i] == Words(n, m[i])
  {
    seq(|m|, i requires 0 <= i < |m| => Words(n, m[i]))
  }

  // there is a code with these lengths, none above n (the inequality of Kraft)
  ghost predicate Room(m: seq<nat>, n: nat) {
    Within(m, n) && Sum(AllWords(n, m)) <= Pow2(n)
  }

  // lengths for the subtrees with which their symbols take no more bits than with l
  ghost predicate NoWorse(g: seq<Tree>, m: seq<nat>, l: seq<nat>, n: nat) {
    |m| == |g| && Room(m, n) && Sum(Prods(Weights(g), m)) + Sum(Inners(g)) <= Sum(Costs(g, l))
  }

  ghost predicate Matched(g: seq<Tree>, l: seq<nat>, n: nat) {
    exists m: seq<nat> :: NoWorse(g, m, l, n)
  }

  // Whatever code there is for the symbols of the forest, it can be matched keeping the subtrees.
  ghost predicate Cheap(g: seq<Tree>) {
    forall l: seq<nat>, n: nat :: Within(l, n) && Sum(Spaces(g, l, n)) <= Pow2(n) ==> Matched(g, l, n)
  }

  //////////////////////////////////////////////////////////////////////////////
  // Two lightest symbols may be joined
  //////////////////////////////////////////////////////////////////////////////

  lemma {:induction false} Longest(m: seq<nat>, k: nat) returns (j: nat)
    requires k < |m|
    ensures k <= j < |m| && forall i :: k <= i < |m| ==> m[i] <= m[j]
    decreases |m|
  {
    if k == |m| - 1 {
      j := k;
    } else {
      var d := m[..|m| - 1];
      j := Longest(d, k);
      assert forall i :: k <= i < |d| ==> m[i] == d[i];
      if m[j] < m[|m| - 1] { j := |m| - 1; }
    }
  }

  lemma SwapGain(a: nat, b: nat, x: nat, y: nat)
    requires a <= b && x <= y
    ensures a * y + b * x <= a * x + b * y
  {
    assert (b - a) * (y - x) >= 0;
  }

  // A lighter symbol may have the longer code.
  lemma Swapped(ws: seq<nat>, m: seq<nat>, n: nat, k: nat, j: nat)
    requires |ws| == |m| && k <= j < |m| && Room(m, n) && ws[k] <= ws[j] && m[k] <= m[j]
    ensures Room(m[k := m[j]][j := m[k]], n)
    ensures Sum(Prods(ws, m[k := m[j]][j := m[k]])) <= Sum(Prods(ws, m))
  {
    hide Sum, Words, Pow2;
    var m' := m[k := m[j]][j := m[k]];
    var a, b := AllWords(n, m), Prods(ws, m);
    assert AllWords(n, m') == a[k := a[j]][j := a[k]];
    SumUpdate(a, k, a[j]);
    SumUpdate(a[k := a[j]], j, a[k]);
    var x: nat, y: nat := ws[k] * m[j], ws[j] * m[k];
    var b1: seq<nat> := b[k := x];
    var b2: seq<nat> := b1[j := y];
    assert Prods(ws, m') == b2;
    SumUpdate(b, k, x);
    SumUpdate(b1, j, y);
    SwapGain(ws[k], ws[j], m[k], m[j]);
  }

  lemma PowAdd(a: nat, b: nat)
    ensures Pow2(a + b) == Pow2(a) * Pow2(b)
    decreases a
  {
    if a > 0 {
      PowAdd(a - 1, b);
      assert Pow2(a + b) == 2 * Pow2(a - 1 + b);
      Assoc(2, Pow2(a - 1), Pow2(b));
    }
  }

  lemma Assoc(a: nat, b: nat, c: nat)
    ensures a * b * c == a * (b * c)
  {
  }

  // what codes of up to k bits take of the longer words
  lemma {:induction false} Multiples(m: seq<nat>, k: nat, n: nat)
    requires Within(m, k) && k <= n
    ensures Sum(AllWords(n, m)) == Pow2(n - k) * Sum(AllWords(k, m))
    decreases |m|
  {
    hide Pow2;
    if m != [] {
      var d, x := m[..|m| - 1], m[|m| - 1];
      Multiples(d, k, n);
      assert AllWords(n, m)[..|d|] == AllWords(n, d) && AllWords(k, m)[..|d|] == AllWords(k, d);
      PowAdd(n - k, k - x);
      Distribute(Pow2(n - k), Sum(AllWords(k, d)), Pow2(k - x));
    }
  }

  lemma Distribute(a: nat, b: nat, c: nat)
    ensures a * (b + c) == a * b + a * c
  {
  }

  lemma MulMono(d: nat, a: nat, b: nat)
    requires a <= b
    ensures d * a <= d * b
  {
  }

  lemma NextMultiple(d: nat, k: nat, p: nat, x: nat)
    requires d * k + x <= d * p && x >= 1
    ensures d * k + d <= d * p
  {
    if k >= p {
      MulMono(d, p, k);
      assert false;
    }
    MulMono(d, k + 1, p);
    Distribute(d, k, 1);
  }

  // a code as long as the longest of the others, in place of a longer one
  lemma RoomShortened(m: seq<nat>, n: nat)
    requires |m| >= 2 && Room(m, n) && m[1] <= m[0] && Within(m[1..], m[1])
    ensures Room(m[0 := m[1]], n)
  {
    hide Sum, Pow2, AllWords;
    var m', k, tail := m[0 := m[1]], m[1], m[1..];
    SpaceFront(m, n);
    SpaceFront(m', n);
    assert m'[1..] == tail;
    Multiples(tail, k, n);
    PowAdd(n - k, k);
    NextMultiple(Pow2(n - k), Sum(AllWords(k, tail)), Pow2(k), Words(n, m[0]));
  }

  lemma SpaceFront(m: seq<nat>, n: nat)
    requires m != []
    ensures Sum(AllWords(n, m)) == Words(n, m[0]) + Sum(AllWords(n, m[1..]))
  {
    hide Sum, Words;
    assert AllWords(n, m)[1..] == AllWords(n, m[1..]);
    SumFront(AllWords(n, m));
  }

  lemma CostShortened(ws: seq<nat>, m: seq<nat>, x: nat)
    requires |ws| == |m| >= 1 && x <= m[0]
    ensures Sum(Prods(ws, m[0 := x])) <= Sum(Prods(ws, m))
  {
    hide Sum;
    MulMono(ws[0], x, m[0]);
    SumAtMost(Prods(ws, m[0 := x]), Prods(ws, m));
  }

  // The longest code is no longer than the next one needs to be.
  lemma Shortened(ws: seq<nat>, m: seq<nat>, n: nat)
    requires |ws| == |m| >= 2 && Room(m, n) && m[1] <= m[0] && forall i :: 1 <= i < |m| ==> m[i] <= m[1]
    ensures Room(m[0 := m[1]], n) && Sum(Prods(ws, m[0 := m[1]])) <= Sum(Prods(ws, m))
  {
    hide Sum, Room, Prods;
    RoomShortened(m, n);
    CostShortened(ws, m, m[1]);
  }

  lemma SumFront2(c: seq<nat>)
    requires |c| >= 2
    ensures Sum(c) == c[0] + c[1] + Sum(c[2..])
  {
    hide Sum;
    SumFront(c);
    SumFront(c[1..]);
    assert c[1..][1..] == c[2..];
  }

  // two codes of one length make room for one a bit shorter
  lemma Joined(ws: seq<nat>, m: seq<nat>, n: nat)
    requires |ws| == |m| >= 2 && Room(m, n) && m[0] == m[1]
    ensures m[0] >= 1 && Room([m[0] - 1] + m[2..], n)
    ensures Sum(Prods([ws[0] + ws[1]] + ws[2..], [m[0] - 1] + m[2..])) + ws[0] + ws[1] == Sum(Prods(ws, m))
  {
    hide Sum;
    SumFront2(AllWords(n, m));
    assert Words(n, m[0]) == Pow2(n - m[0]);
    assert m[0] >= 1;
    var ws', m' := [ws[0] + ws[1]] + ws[2..], [m[0] - 1] + m[2..];
    assert AllWords(n, m')[1..] == AllWords(n, m)[2..];
    SumFront(AllWords(n, m'));
    assert Words(n, m[0] - 1) == 2 * Words(n, m[0]);
    assert Prods(ws', m')[1..] == Prods(ws, m)[2..];
    SumFront2(Prods(ws, m));
    SumFront(Prods(ws', m'));
  }

  lemma PairLong(m: seq<nat>, n: nat)
    requires |m| == 2 && Room(m, n)
    ensures m[0] >= 1 && m[1] >= 1
  {
    hide Sum;
    SumFront2(AllWords(n, m));
    assert AllWords(n, m)[2..] == [];
    assert Words(n, m[0]) >= 1 && Words(n, m[1]) >= 1;
  }

  lemma PairJoined(ws: seq<nat>, m: seq<nat>, n: nat)
    requires |ws| == |m| == 2 && Room(m, n)
    ensures Room([0], n) && Sum(Prods([ws[0] + ws[1]], [0])) + ws[0] + ws[1] <= Sum(Prods(ws, m))
  {
    hide Sum, Pow2;
    PairLong(m, n);
    assert AllWords(n, [0]) == [Pow2(n)];
    SumOne(Pow2(n));
    assert Prods([ws[0] + ws[1]], [0]) == [0];
    SumOne(0);
    var x: nat, y: nat := ws[0] * m[0], ws[1] * m[1];
    assert Prods(ws, m) == [x, y];
    SumFront2([x, y]);
    MulMono(ws[0], 1, m[0]);
    MulMono(ws[1], 1, m[1]);
  }

  lemma Merge(ws: seq<nat>, m: seq<nat>, n: nat) returns (m': seq<nat>)
    requires |ws| == |m| >= 2 && Room(m, n)
    requires |ws| == 2 || (ws[0] <= ws[1] && forall i :: 1 <= i < |ws| ==> ws[1] <= ws[i])
    ensures |m'| == |m| - 1 && Room(m', n)
    ensures Sum(Prods([ws[0] + ws[1]] + ws[2..], m')) + ws[0] + ws[1] <= Sum(Prods(ws, m))
  {
    hide Sum, Room;
    if |ws| == 2 {
      PairJoined(ws, m, n);
      assert [ws[0] + ws[1]] + ws[2..] == [ws[0] + ws[1]];
      m' := [0];
    } else {
      var j := Longest(m, 0);
      Swapped(ws, m, n, 0, j);
      var m1 := m[0 := m[j]][j := m[0]];
      var k := Longest(m1, 1);
      Swapped(ws, m1, n, 1, k);
      var m2 := m1[1 := m1[k]][k := m1[1]];
      Shortened(ws, m2, n);
      var m3 := m2[0 := m2[1]];
      Joined(ws, m3, n);
      m' := [m3[0] - 1] + m3[2..];
    }
  }

  //////////////////////////////////////////////////////////////////////////////
  // Forests stay cheap
  //////////////////////////////////////////////////////////////////////////////

  lemma LeavesCheap(g: seq<Tree>)
    requires forall i :: 0 <= i < |g| ==> g[i].Leaf?
    ensures Cheap(g)
  {
    hide Sum, Pow2;
    forall l: seq<nat>, n: nat | Within(l, n) && Sum(Spaces(g, l, n)) <= Pow2(n) ensures Matched(g, l, n) {
      var m := seq(|g|, i requires 0 <= i < |g| => LenOf(l, g[i].sym));
      assert AllWords(n, m) == Spaces(g, l, n);
      SumPlus(Costs(g, l), Prods(Weights(g), m), Inners(g));
      assert NoWorse(g, m, l, n);
    }
  }

  lemma CheapRearranged(g': seq<Tree>, g: seq<Tree>, p: seq<nat>, q: seq<nat>)
    requires Rearranged(g', g, p, q) && Cheap(g)
    ensures Cheap(g')
  {
    hide Sum, Pow2, Words, TreeCost, TreeSpace, Inner, Weight;
    forall l: seq<nat>, n: nat | Within(l, n) && Sum(Spaces(g', l, n)) <= Pow2(n) ensures Matched(g', l, n) {
      SumRearranged(Spaces(g', l, n), Spaces(g, l, n), p, q);
      assert Matched(g, l, n);
      var m: seq<nat> :| NoWorse(g, m, l, n);
      var m' := seq(|g|, i requires 0 <= i < |g| => m[p[i]]);
      SumRearranged(AllWords(n, m'), AllWords(n, m), p, q);
      SumRearranged(Prods(Weights(g'), m'), Prods(Weights(g), m), p, q);
      SumRearranged(Inners(g'), Inners(g), p, q);
      SumRearranged(Costs(g', l), Costs(g, l), p, q);
      assert NoWorse(g', m', l, n);
    }
  }

  // the lightest two subtrees joined
  lemma JoinCheap(b: Tree, g: seq<Tree>, t: Tree)
    requires |g| > 0 && Cheap([b] + g) && t.Node? && t.l == b && t.r == g[0]
    requires |g| == 1 || (Weight(b) <= Weight(g[0]) && forall i :: 0 <= i < |g| ==> Weight(g[0]) <= Weight(g[i]))
    ensures Cheap([t] + g[1..])
  {
    hide Sum, Pow2, Words, Room, TreeCost, TreeSpace, Inner, Prods;
    var f, f' := [b] + g, [t] + g[1..];
    assert f[0] == b && f[1] == g[0] && f[2..] == g[1..] == f'[1..];
    MergedWeights(f, f', t);
    forall l: seq<nat>, n: nat | Within(l, n) && Sum(Spaces(f', l, n)) <= Pow2(n) ensures Matched(f', l, n) {
      SumsJoin(f, f', l, n);
      assert Matched(f, l, n);
      var m: seq<nat> :| NoWorse(f, m, l, n);
      var m' := Merge(Weights(f), m, n);
      assert NoWorse(f', m', l, n);
    }
  }

  lemma MergedWeights(f: seq<Tree>, f': seq<Tree>, t: Tree)
    requires |f| >= 2 && f' == [t] + f[2..] && t.Node? && t.l == f[0] && t.r == f[1]
    ensures Weights(f') == [Weights(f)[0] + Weights(f)[1]] + Weights(f)[2..]
  {
    assert Weight(t) == Weight(f[0]) + Weight(f[1]);
    hide Weight;
  }

  lemma SumsJoin(f: seq<Tree>, f': seq<Tree>, l: seq<nat>, n: nat)
    requires |f| >= 2 && |f'| == |f| - 1 && f'[1..] == f[2..]
    requires f'[0].Node? && f'[0].l == f[0] && f'[0].r == f[1]
    ensures Sum(Spaces(f', l, n)) == Sum(Spaces(f, l, n)) && Sum(Costs(f', l)) == Sum(Costs(f, l))
    ensures Sum(Inners(f')) == Sum(Inners(f)) + Weight(f[0]) + Weight(f[1])
  {
    hide Sum, Pow2, Words;
    forall i | 1 <= i < |f'| ensures f'[i] == f[i + 1] { assert f'[1..][i - 1] == f[2..][i - 1]; }
    assert Spaces(f', l, n)[1..] == Spaces(f, l, n)[2..] && Costs(f', l)[1..] == Costs(f, l)[2..];
    assert Inners(f')[1..] == Inners(f)[2..];
    SumFront2(Spaces(f, l, n));
    SumFront(Spaces(f', l, n));
    SumFront2(Costs(f, l));
    SumFront(Costs(f', l));
    SumFront2(Inners(f));
    SumFront(Inners(f'));
  }

  // No code for the symbols of a tree made this way takes fewer bits than the paths.
  lemma CheapestTree(t: Tree, l: seq<nat>, n: nat)
    requires Cheap([t]) && Within(l, n) && TreeSpace(t, l, n) <= Pow2(n)
    ensures Inner(t) <= TreeCost(t, l)
  {
    hide Sum, Pow2, Words, TreeCost, TreeSpace, Inner, Weight;
    assert Spaces([t], l, n) == [TreeSpace(t, l, n)];
    SumOne(TreeSpace(t, l, n));
    assert Matched([t], l, n);
    var m: seq<nat> :| NoWorse([t], m, l, n);
    assert Inners([t]) == [Inner(t)] && Costs([t], l) == [TreeCost(t, l)];
    SumOne(Inner(t));
    SumOne(TreeCost(t, l));
  }
}
