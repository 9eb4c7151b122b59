/**
 From the tree to the table of code lengths: no table takes fewer bits for the counts used.
 */
module HuffmanShortest {
  import opened Bits
  import opened HuffmanHeap
  import opened HuffmanCost
  import opened HuffmanTree
  import opened HuffmanBuild
  import opened HuffmanWalk

  // the bits the data take when symbol i, which occurs c[i] times, has a code of l[i] bits
  function TotalBits(c: seq<nat>, l: seq<nat>): nat
    requires |c| == |l|
  {
    Sum(Prods(c, l))
  }

  // the words of n bits that start with the code of a counted symbol
  function CountedWords(c: seq<nat>, l: seq<nat>, n: nat): (r: seq<nat>)
    requires |c| == |l|
    ensures |r| == |c| && forall i :: 0 <= i < |c| ==> r[i] == if c[i] > 0 then Words(n, l[i]) else 0
  {
    seq(|c|, i requires 0 <= i < |c| => if c[i] > 0 then Words(n, l[i]) else 0)
  }

  // There is a code with these lengths for the counted symbols (the inequality of Kraft).
  ghost predicate Codable(c: seq<nat>, l: seq<nat>, n: nat) {
    |l| == |c| && Within(l, n) && Sum(CountedWords(c, l, n)) <= Pow2(n)
  }

  // No code takes fewer bits.
  ghost predicate Shortest(c: seq<nat>, l: seq<nat>)
    requires |c| == |l|
  {
    forall m: seq<nat>, n: nat :: Codable(c, m, n) ==> TotalBits(c, l) <= TotalBits(c, m)
  }

  // a sum over the leaves of a tree
  function LeafSum(t: Tree, f: seq<nat>): nat {
    match t
    case Leaf(s, _) => LenOf(f, s)
    case Node(_, a, b) => LeafSum(a, f) + LeafSum(b, f)
  }

  // f with zeros outside s
  function Only(f: seq<nat>, s: set<nat>): (r: seq<nat>)
    ensures |r| == |f| && forall i :: 0 <= i < |f| ==> r[i] == if i in s then f[i] else 0
  {
    seq(|f|, i requires 0 <= i < |f| => if i in s then f[i] else 0)
  }

  lemma {:induction false} SumNothing(f: seq<nat>)
    requires forall i :: 0 <= i < |f| ==> f[i] == 0
    ensures Sum(f) == 0
    decreases |f|
  {
    if f != [] { SumNothing(f[..|f| - 1]); }
  }

  lemma SumOnlyOne(f: seq<nat>, s: nat)
    requires s < |f|
    ensures Sum(Only(f, {s})) == f[s]
  {
    hide Sum;
    var z := Only(f, {});
    SumNothing(z);
    SumUpdate(z, s, f[s]);
    assert z[s := f[s]] == Only(f, {s});
  }

  // summing over the leaves is summing over their symbols
  lemma {:induction false} LeafSumIs(t: Tree, f: seq<nat>)
    requires Distinct(t) && forall x :: x in Syms(t) ==> x < |f|
    ensures LeafSum(t, f) == Sum(Only(f, Syms(t)))
  {
    match t
    case Leaf(s, _) =>
      SumOnlyOne(f, s);
    case Node(_, a, b) =>
      assert Syms(t) == Syms(a) + Syms(b);
      LeafSumIs(a, f);
      LeafSumIs(b, f);
      SumPlus(Only(f, Syms(t)), Only(f, Syms(a)), Only(f, Syms(b)));
  }

  lemma {:induction false} CostsAreSums(t: Tree, cnt: map<nat, nat>, c: seq<nat>, l: seq<nat>, n: nat)
    requires Counts(t, cnt) && |c| == |l| && forall x :: x in cnt ==> x < |c| && cnt[x] == c[x]
    ensures TreeCost(t, l) == LeafSum(t, Prods(c, l)) && TreeSpace(t, l, n) == LeafSum(t, CountedWords(c, l, n))
  {
    hide Words;
    if t.Node? {
      CostsAreSums(t.l, cnt, c, l, n);
      CostsAreSums(t.r, cnt, c, l, n);
    }
  }

  // coded by their paths, the symbols take what the inner nodes weigh
  lemma {:induction false} PathCost(t: Tree, d: nat, l: seq<nat>)
    requires forall e :: e in LeafList(t, d) ==> e.sym < |l| && l[e.sym] == e.len
    ensures TreeCost(t, l) == Inner(t) + d * Weight(t)
  {
    match t
    case Leaf(s, w) =>
      assert Coded(s, d) in LeafList(t, d);
    case Node(_, a, b) =>
      PathCost(a, d + 1, l);
      PathCost(b, d + 1, l);
      Distribute(d, Weight(a), Weight(b));
  }

  // the sum over all symbols, the others not being counted
  lemma TableCost(root: Tree, cnt: map<nat, nat>, c: seq<nat>, l: seq<nat>, n: nat)
    requires Counts(root, cnt) && Distinct(root) && Syms(root) == cnt.Keys && |c| == |l| && cnt == Counted(c)
    ensures TreeCost(root, l) == TotalBits(c, l) && TreeSpace(root, l, n) == Sum(CountedWords(c, l, n))
  {
    hide Counts, Distinct, Syms, LeafSum, Sum, TreeCost, TreeSpace, Words;
    CostsAreSums(root, cnt, c, l, n);
    LeafSumIs(root, Prods(c, l));
    LeafSumIs(root, CountedWords(c, l, n));
    assert Only(Prods(c, l), cnt.Keys) == Prods(c, l);
    assert Only(CountedWords(c, l, n), cnt.Keys) == CountedWords(c, l, n);
  }

  lemma {:induction false} ManySyms(t: Tree)
    requires Distinct(t)
    ensures |Syms(t)| >= if t.Node? then 2 else 1
  {
    if t.Node? {
      ManySyms(t.l);
      ManySyms(t.r);
    }
  }

  // two symbols have one bit each
  lemma TwoLeaves(root: Tree, ts: seq<ChTab>, cnt: map<nat, nat>)
    requires Built(root, ts, cnt) && |cnt.Keys| <= 2
    ensures forall e :: e in LeafList(root, 0) ==> e.len == 1
  {
    ManySyms(root.l);
    ManySyms(root.r);
    assert Syms(root) == Syms(root.l) + Syms(root.r);
  }

  lemma TableShortest(root: Tree, ts: seq<ChTab>, cnt: map<nat, nat>, c: seq<nat>, l: seq<nat>)
    requires Built(root, ts, cnt) && |c| == |l| && cnt == Counted(c)
    requires forall e :: e in LeafList(root, 0) ==> e.sym < |l| && l[e.sym] == e.len
    ensures Shortest(c, l)
  {
    hide Sum, TreeCost, TreeSpace, Words, Inner, Weight, Cheap, Counts, Distinct, Syms, LeafList, TotalBits;
    PathCost(root, 0, l);
    TableCost(root, cnt, c, l, 0);
    forall m: seq<nat>, n: nat | Codable(c, m, n) ensures TotalBits(c, l) <= TotalBits(c, m) {
      TableCost(root, cnt, c, m, n);
      CheapestTree(root, m, n);
    }
  }
}
