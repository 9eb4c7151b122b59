/**
 The trees the Huffman builder of SQ and SD4 works on.

 While it runs, the front of `ch_tab` is a heap of subtrees and the back holds the inner
 nodes: slot k keeps the reference of its left child in `ch` and of its right child in `cn`.
 A reference packs an inner-node flag (0x8000), the height plus one in units of 0x800, and
 the symbol or slot number below 0x800.
 */
module HuffmanTree {
  import opened HuffmanHeap
  import opened HuffmanCost

  function Max(a: nat, b: nat): nat { if a < b then b else a }

  function Height(t: Tree): nat {
    match t
    case Leaf(_, _) => 0
    case Node(_, l, r) => 1 + Max(Height(l), Height(r))
  }

  function Syms(t: Tree): set<nat> {
    match t
    case Leaf(s, _) => {s}
    case Node(_, l, r) => Syms(l) + Syms(r)
  }

  // no symbol twice
  predicate Distinct(t: Tree) {
    t.Node? ==> Distinct(t.l) && Distinct(t.r) && Syms(t.l) !! Syms(t.r)
  }

  function Ref(t: Tree): nat {
    0x800 * (Height(t) + 1) + if t.Node? then 0x8000 + t.slot else t.sym
  }

  function Elem(t: Tree): ChTab {
    ChTab(Weight(t), Ref(t))
  }

  // numbers and height fit their fields in references
  predicate Fits(t: Tree) {
    && Height(t) <= 14
    && if t.Leaf? then t.sym < 0x800 else t.slot < 0x800 && Fits(t.l) && Fits(t.r)
  }

  // the inner nodes of t are in slots lo and up
  predicate Stored(ts: seq<ChTab>, lo: nat, t: Tree) {
    t.Node? ==>
      && lo <= t.slot < |ts| && ts[t.slot] == ChTab(Ref(t.r), Ref(t.l))
      && Stored(ts, lo, t.l) && Stored(ts, lo, t.r)
  }

  // the leaves carry the given counts, all positive
  predicate Counts(t: Tree, cnt: map<nat, nat>) {
    match t
    case Leaf(s, w) => s in cnt && w == cnt[s] && w > 0
    case Node(_, l, r) => Counts(l, cnt) && Counts(r, cnt)
  }

  function Fib(n: nat): nat {
    if n == 0 then 1 else if n == 1 then 2 else Fib(n - 1) + Fib(n - 2)
  }

  // A subtree of height h weighs at least Fib(h).
  predicate Fibs(t: Tree) {
    Weight(t) >= Fib(Height(t)) && (t.Node? ==> Fibs(t.l) && Fibs(t.r))
  }

  function MaxChild(t: Tree): nat {
    if t.Leaf? then 0 else Max(Weight(t.l), Weight(t.r))
  }

  predicate TreeOk(t: Tree, ts: seq<ChTab>, lo: nat, cnt: map<nat, nat>) {
    Stored(ts, lo, t) && Distinct(t) && Fibs(t) && Counts(t, cnt)
  }

  ghost predicate AllOk(g: seq<Tree>, ts: seq<ChTab>, lo: nat, cnt: map<nat, nat>) {
    forall i :: 0 <= i < |g| ==> TreeOk(g[i], ts, lo, cnt) && Fits(g[i])
  }

  ghost predicate Balanced(g: seq<Tree>) {
    forall i, j :: 0 <= i < |g| && 0 <= j < |g| ==> Weight(g[i]) >= MaxChild(g[j])
  }

  ghost predicate Disjoint(g: seq<Tree>) {
    forall i, j :: 0 <= i < j < |g| ==> Syms(g[i]) !! Syms(g[j])
  }

  ghost predicate Covers(g: seq<Tree>, cnt: map<nat, nat>) {
    forall s :: s in cnt ==> exists i :: 0 <= i < |g| && s in Syms(g[i])
  }

  // The subtrees partition the counted symbols, none is lighter than a child of another, and no code
  // is better than one that keeps them.
  ghost predicate Forest(g: seq<Tree>, ts: seq<ChTab>, lo: nat, cnt: map<nat, nat>) {
    AllOk(g, ts, lo, cnt) && Balanced(g) && Disjoint(g) && Covers(g, cnt) && Cheap(g)
  }

  // the heap contents that stand for a forest
  ghost predicate Heaped(h: seq<ChTab>, g: seq<Tree>) {
    |h| == |g| && forall i :: 0 <= i < |g| ==> h[i] == Elem(g[i])
  }

  lemma {:induction false} StoredFrame(ts: seq<ChTab>, us: seq<ChTab>, lo: nat, t: Tree)
    requires Stored(ts, lo, t) && |ts| == |us| && lo <= |ts| && ts[lo..] == us[lo..]
    ensures Stored(us, lo, t)
  {
    if t.Node? {
      assert ts[lo..][t.slot - lo] == us[lo..][t.slot - lo];
      StoredFrame(ts, us, lo, t.l);
      StoredFrame(ts, us, lo, t.r);
    }
  }

  lemma {:induction false} StoredLower(ts: seq<ChTab>, lo: nat, k: nat, t: Tree)
    requires Stored(ts, lo, t) && k <= lo
    ensures Stored(ts, k, t)
  {
    if t.Node? {
      StoredLower(ts, lo, k, t.l);
      StoredLower(ts, lo, k, t.r);
    }
  }

  lemma {:induction false} CountsSyms(t: Tree, cnt: map<nat, nat>)
    requires Counts(t, cnt)
    ensures Syms(t) <= cnt.Keys
  {
    if t.Node? {
      CountsSyms(t.l, cnt);
      CountsSyms(t.r, cnt);
    }
  }

  // Two subtrees neither of which is lighter than a child of the other join to one heavy enough.
  lemma FibsJoin(a: Tree, b: Tree, slot: nat)
    requires Fibs(a) && Fibs(b) && Weight(a) >= 1 && Weight(b) >= 1
    requires Weight(a) >= MaxChild(b) && Weight(b) >= MaxChild(a)
    ensures Fibs(Node(slot, a, b))
  {
    hide Fib, MaxChild;
    FibsTaller(a, b);
    FibsTaller(b, a);
    var n := Node(slot, a, b);
    assert Weight(n) == Weight(a) + Weight(b);
    assert Height(n) == Height(a) + 1 || Height(n) == Height(b) + 1;
  }

  lemma FibSteps(h: nat)
    ensures Fib(0) == 1 && Fib(1) == 2
    ensures h >= 1 ==> Fib(h + 1) == Fib(h) + Fib(h - 1)
  {
  }

  lemma FibsTaller(a: Tree, b: Tree)
    requires Fibs(a) && Weight(a) >= 1 && Weight(b) >= 1 && Weight(b) >= MaxChild(a)
    ensures Weight(a) + Weight(b) >= Fib(Height(a) + 1)
  {
    hide Fib;
    FibSteps(Height(a));
    if a.Node? {
      var c := if Height(a.l) < Height(a.r) then a.r else a.l;
      assert Fibs(c);
      assert Height(a) == 1 + Height(c);
      assert Weight(b) >= Weight(c) >= Fib(Height(c));
    }
  }

  lemma {:induction false} WeightPositive(t: Tree, cnt: map<nat, nat>)
    requires Counts(t, cnt)
    ensures Weight(t) >= 1
  {
    if t.Node? {
      WeightPositive(t.l, cnt);
      WeightPositive(t.r, cnt);
    }
  }

  lemma DisjointRearranged(g': seq<Tree>, g: seq<Tree>, p: seq<nat>, q: seq<nat>)
    requires Rearranged(g', g, p, q) && Disjoint(g)
    ensures Disjoint(g')
  {
    hide Syms, Rearranged;
    RearrangedSize(g', g, p, q);
    forall i, j | 0 <= i < j < |g'| ensures Syms(g'[i]) !! Syms(g'[j]) {
      PlaceAt(g', g, p, q, i);
      PlaceAt(g', g, p, q, j);
      if p[i] < p[j] { assert Syms(g[p[i]]) !! Syms(g[p[j]]); } else { assert Syms(g[p[j]]) !! Syms(g[p[i]]); }
    }
  }

  lemma CoversRearranged(g': seq<Tree>, g: seq<Tree>, p: seq<nat>, q: seq<nat>, cnt: map<nat, nat>)
    requires Rearranged(g', g, p, q) && Covers(g, cnt)
    ensures Covers(g', cnt)
  {
    hide Syms;
    forall s | s in cnt ensures exists i :: 0 <= i < |g'| && s in Syms(g'[i]) {
      var k :| 0 <= k < |g| && s in Syms(g[k]);
      assert g'[q[k]] == g[k];
    }
  }

  lemma AllOkFrame(g': seq<Tree>, g: seq<Tree>, p: seq<nat>, q: seq<nat>, ts: seq<ChTab>, us: seq<ChTab>, lo: nat, cnt: map<nat, nat>)
    requires Rearranged(g', g, p, q) && AllOk(g, ts, lo, cnt)
    requires |ts| == |us| && lo <= |ts| && ts[lo..] == us[lo..]
    ensures AllOk(g', us, lo, cnt)
  {
    hide Stored, Distinct, Fibs, Counts, Fits;
    forall i | 0 <= i < |g'| ensures TreeOk(g'[i], us, lo, cnt) && Fits(g'[i]) {
      assert TreeOk(g[p[i]], ts, lo, cnt);
      StoredFrame(ts, us, lo, g[p[i]]);
    }
  }

  lemma BalancedRearranged(g': seq<Tree>, g: seq<Tree>, p: seq<nat>, q: seq<nat>)
    requires Rearranged(g', g, p, q) && Balanced(g)
    ensures Balanced(g')
  {
    hide Weight, MaxChild;
  }

  // Any order of the heap is an order of the forest.
  lemma ForestRearranged(h: seq<ChTab>, v: seq<ChTab>, p: seq<nat>, q: seq<nat>, g: seq<Tree>,
                         ts: seq<ChTab>, us: seq<ChTab>, lo: nat, cnt: map<nat, nat>)
    returns (g': seq<Tree>)
    requires Rearranged(h, v, p, q) && Heaped(v, g) && Forest(g, ts, lo, cnt)
    requires |ts| == |us| && lo <= |ts| && ts[lo..] == us[lo..]
    ensures Heaped(h, g') && Forest(g', us, lo, cnt) && Rearranged(g', g, p, q)
  {
    hide Forest;
    g' := Reorder(h, v, p, q, g);
    ForestOrder(g', g, p, q, ts, us, lo, cnt);
  }

  lemma Reorder(h: seq<ChTab>, v: seq<ChTab>, p: seq<nat>, q: seq<nat>, g: seq<Tree>) returns (g': seq<Tree>)
    requires Rearranged(h, v, p, q) && Heaped(v, g)
    ensures Heaped(h, g') && Rearranged(g', g, p, q)
  {
    hide Elem;
    g' := seq(|g|, i requires 0 <= i < |g| => g[p[i]]);
  }

  // the node that joins the two lightest subtrees of b + g
  lemma JoinOk(b: Tree, g: seq<Tree>, ts: seq<ChTab>, us: seq<ChTab>, lo: nat, cnt: map<nat, nat>)
    returns (n: Tree)
    requires |g| > 0 && Forest([b] + g, ts, lo + 1, cnt)
    requires lo < |ts| == |us| && ts[lo + 1..] == us[lo + 1..] && us[lo] == ChTab(Ref(g[0]), Ref(b))
    ensures n == Node(lo, b, g[0]) && TreeOk(n, us, lo, cnt)
  {
    hide Fits, Weight, MaxChild, Fibs;
    var f := [b] + g;
    n := Node(lo, b, g[0]);
    assert f[0] == b && f[1] == g[0];
    StoredFrame(ts, us, lo + 1, b);
    StoredFrame(ts, us, lo + 1, g[0]);
    StoredLower(us, lo + 1, lo, b);
    StoredLower(us, lo + 1, lo, g[0]);
    WeightPositive(b, cnt);
    WeightPositive(g[0], cnt);
    FibsJoin(b, g[0], lo);
  }

  lemma JoinForest(b: Tree, g: seq<Tree>, ts: seq<ChTab>, us: seq<ChTab>, lo: nat, cnt: map<nat, nat>, n: Tree)
    requires |g| > 0 && Forest([b] + g, ts, lo + 1, cnt)
    requires lo < |ts| == |us| && ts[lo + 1..] == us[lo + 1..]
    requires n == Node(lo, b, g[0]) && TreeOk(n, us, lo, cnt) && Height(n) <= 14 && lo < 0x800
    requires Weight(b) <= Weight(g[0]) && forall i :: 0 <= i < |g| ==> Weight(g[0]) <= Weight(g[i])
    ensures Forest([n] + g[1..], us, lo, cnt)
  {
    hide TreeOk, Fits, Weight, MaxChild, Syms, Cheap;
    var f := [b] + g;
    assert f[0] == b && f[1] == g[0];
    FitsJoin(n);
    JoinAllOk(b, g, ts, us, lo, cnt, n);
    NodeWeights(n);
    JoinBalanced(b, g, n);
    JoinCovers(b, g, n, cnt);
    JoinDisjoint(b, g, n);
    JoinCheap(b, g, n);
  }

  lemma FitsJoin(n: Tree)
    requires n.Node? && Height(n) <= 14 && n.slot < 0x800 && Fits(n.l) && Fits(n.r)
    ensures Fits(n)
  {
  }

  lemma JoinAllOk(b: Tree, g: seq<Tree>, ts: seq<ChTab>, us: seq<ChTab>, lo: nat, cnt: map<nat, nat>, n: Tree)
    requires |g| > 0 && AllOk([b] + g, ts, lo + 1, cnt)
    requires lo < |ts| == |us| && ts[lo + 1..] == us[lo + 1..]
    requires TreeOk(n, us, lo, cnt) && Fits(n)
    ensures AllOk([n] + g[1..], us, lo, cnt)
  {
    hide Stored, Distinct, Fibs, Counts, Fits;
    var f, f' := [b] + g, [n] + g[1..];
    forall i | 0 <= i < |f'| ensures TreeOk(f'[i], us, lo, cnt) && Fits(f'[i]) {
      if i > 0 {
        assert f'[i] == f[i + 1] && TreeOk(f[i + 1], ts, lo + 1, cnt);
        StoredFrame(ts, us, lo + 1, f[i + 1]);
        StoredLower(us, lo + 1, lo, f[i + 1]);
      }
    }
  }

  lemma JoinBalanced(b: Tree, g: seq<Tree>, n: Tree)
    requires |g| > 0 && Balanced([b] + g)
    requires Weight(n) >= Weight(g[0]) >= MaxChild(n)
    requires forall i :: 0 <= i < |g| ==> Weight(g[0]) <= Weight(g[i])
    ensures Balanced([n] + g[1..])
  {
    hide Weight, MaxChild;
    var f, f' := [b] + g, [n] + g[1..];
    forall i, j | 0 <= i < |f'| && 0 <= j < |f'| ensures Weight(f'[i]) >= MaxChild(f'[j]) {
      assert f[1] == g[0] && Weight(g[0]) <= Weight(g[i]);
      if j > 0 {
        assert f'[j] == f[j + 1];
        assert Weight(f[1]) >= MaxChild(f[j + 1]);
      }
    }
  }

  lemma NodeWeights(n: Tree)
    requires n.Node?
    ensures Weight(n) == Weight(n.l) + Weight(n.r) && MaxChild(n) == Max(Weight(n.l), Weight(n.r))
  {
  }

  lemma JoinDisjoint(b: Tree, g: seq<Tree>, n: Tree)
    requires |g| > 0 && Disjoint([b] + g)
    requires n.Node? && n.l == b && n.r == g[0]
    ensures Disjoint([n] + g[1..])
  {
    var f, f' := [b] + g, [n] + g[1..];
    assert Syms(n) == Syms(b) + Syms(g[0]);
    hide Syms;
    forall i, j | 0 <= i < j < |f'| ensures Syms(f'[i]) !! Syms(f'[j]) {
      assert f'[j] == f[j + 1];
      if i > 0 { assert f'[i] == f[i + 1]; }
      assert Syms(f[0]) !! Syms(f[j + 1]) && Syms(f[1]) !! Syms(f[j + 1]);
    }
  }

  lemma JoinCovers(b: Tree, g: seq<Tree>, n: Tree, cnt: map<nat, nat>)
    requires |g| > 0 && Covers([b] + g, cnt)
    requires n.Node? && n.l == b && n.r == g[0]
    ensures Covers([n] + g[1..], cnt)
  {
    var f, f' := [b] + g, [n] + g[1..];
    assert Syms(n) == Syms(b) + Syms(g[0]);
    hide Syms;
    forall s | s in cnt ensures exists i :: 0 <= i < |f'| && s in Syms(f'[i]) {
      var k :| 0 <= k < |f| && s in Syms(f[k]);
      if k < 2 {
        assert s in Syms(f'[0]);
      } else {
        assert f'[k - 1] == f[k];
      }
    }
  }

  lemma ForestOrder(g': seq<Tree>, g: seq<Tree>, p: seq<nat>, q: seq<nat>, ts: seq<ChTab>, us: seq<ChTab>, lo: nat, cnt: map<nat, nat>)
    requires Rearranged(g', g, p, q) && Forest(g, ts, lo, cnt)
    requires |ts| == |us| && lo <= |ts| && ts[lo..] == us[lo..]
    ensures Forest(g', us, lo, cnt)
  {
    hide Cheap, AllOk, Balanced, Disjoint, Covers, Rearranged;
    DisjointRearranged(g', g, p, q);
    CoversRearranged(g', g, p, q, cnt);
    AllOkFrame(g', g, p, q, ts, us, lo, cnt);
    BalancedRearranged(g', g, p, q);
    CheapRearranged(g', g, p, q);
  }

  ghost function Pushed(p: seq<nat>): (r: seq<nat>)
    ensures |r| == |p| + 1 && r[0] == 0 && forall i :: 1 <= i < |r| ==> r[i] == p[i - 1] + 1
  {
    [0] + seq(|p|, i requires 0 <= i < |p| => p[i] + 1)
  }

  // a rearrangement behind a first element
  lemma RearrangeTail<T>(h: seq<T>, v: seq<T>, p: seq<nat>, q: seq<nat>, x: T) returns (p': seq<nat>, q': seq<nat>)
    requires Rearranged(h, v, p, q)
    ensures Rearranged([x] + h, [x] + v, p', q')
  {
    hide Rearranged;
    p', q' := Pushed(p), Pushed(q);
    RearrangedSize(h, v, p, q);
    forall i | 0 <= i < |h| + 1 ensures PlaceOk([x] + h, [x] + v, p', q', i) {
      if i > 0 { PlaceAt(h, v, p, q, i - 1); }
    }
    AllPlaces([x] + h, [x] + v, p', q');
  }

  lemma RearrangedSize<T>(h: seq<T>, v: seq<T>, p: seq<nat>, q: seq<nat>)
    requires Rearranged(h, v, p, q)
    ensures |h| == |v| == |p| == |q|
  {
  }

  // the last element moved behind the first
  lemma RearrangeLast<T>(v: seq<T>) returns (p: seq<nat>, q: seq<nat>)
    requires |v| >= 2
    ensures Rearranged([v[0]] + ([v[|v| - 1]] + v[1..|v| - 1]), v, p, q)
  {
    var n := |v|;
    p := seq(n, i requires 0 <= i < n => if i == 0 then 0 else if i == 1 then n - 1 else i - 1);
    q := seq(n, i requires 0 <= i < n => if i == 0 then 0 else if i == n - 1 then 1 else i + 1);
  }

  lemma RefHeight(t: Tree)
    requires Fits(t)
    ensures Ref(t) / 0x800 % 16 == Height(t) + 1 && Ref(t) % 0x800 == (if t.Node? then t.slot else t.sym)
    ensures Ref(t) / 0x8000 == if t.Node? then 1 else 0
    ensures t.Node? <==> Height(t) > 0
  {
  }

  // the greater reference has the greater height
  lemma RefOrder(a: Tree, b: Tree)
    requires Fits(a) && Fits(b)
    ensures Max(Ref(a), Ref(b)) / 0x800 % 16 == Max(Height(a), Height(b)) + 1
  {
    RefHeight(a);
    RefHeight(b);
  }
}
