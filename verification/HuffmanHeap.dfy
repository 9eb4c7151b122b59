/**
 The heap inside the Huffman builder: `sq_hsort1` and `sd4_hsort1`, which are the same.
 Slots are numbered from 1; slot j sits at array index j-1 and its children are 2j and 2j+1.
 */
module HuffmanHeap {

  // cn is a weight, ch a reference to a symbol or to an inner node
  datatype ChTab = ChTab(cn: nat, ch: nat)

  predicate Le(x: ChTab, y: ChTab) {
    x.cn < y.cn || (x.cn == y.cn && x.ch <= y.ch)
  }

  // every parent from slot lo on is at most its children
  ghost predicate HeapFrom(h: seq<ChTab>, lo: nat) {
    forall j :: 2 <= j <= |h| && lo <= j / 2 ==> Le(h[j / 2 - 1], h[j - 1])
  }

  // all edges but those below the hole c, where a is to be placed
  ghost predicate HeapExcept(h: seq<ChTab>, lo: nat, c: nat) {
    && 1 <= lo <= c
    && (forall j :: 2 <= j <= |h| && lo <= j / 2 && j / 2 != c ==> Le(h[j / 2 - 1], h[j - 1]))
    && (forall j :: 2 <= j <= |h| && j / 2 == c && lo <= c / 2 ==> Le(h[c / 2 - 1], h[j - 1]))
  }

  // h is v rearranged: h[i] == v[p[i]], and q is the inverse of p
  ghost predicate Rearranged<T>(h: seq<T>, v: seq<T>, p: seq<nat>, q: seq<nat>) {
    && |h| == |v| == |p| == |q|
    && (forall i :: 0 <= i < |p| ==> p[i] < |v| && q[i] < |h|)
    && (forall i :: 0 <= i < |p| ==> q[p[i]] == i && p[q[i]] == i)
    && (forall i :: 0 <= i < |h| ==> h[i] == v[p[i]])
  }

  // one place of a rearrangement
  ghost predicate PlaceOk<T>(h: seq<T>, v: seq<T>, p: seq<nat>, q: seq<nat>, i: nat) {
    && |h| == |v| == |p| == |q| && i < |h|
    && p[i] < |v| && q[i] < |h| && q[p[i]] == i && p[q[i]] == i && h[i] == v[p[i]]
  }

  lemma PlaceAt<T>(h: seq<T>, v: seq<T>, p: seq<nat>, q: seq<nat>, i: nat)
    requires Rearranged(h, v, p, q) && i < |h|
    ensures PlaceOk(h, v, p, q, i)
  {
  }

  lemma AllPlaces<T>(h: seq<T>, v: seq<T>, p: seq<nat>, q: seq<nat>)
    requires |h| == |v| == |p| == |q| && forall i :: 0 <= i < |h| ==> PlaceOk(h, v, p, q, i)
    ensures Rearranged(h, v, p, q)
  {
    forall i | 0 <= i < |p| ensures p[i] < |v| && q[i] < |h| && h[i] == v[p[i]] { assert PlaceOk(h, v, p, q, i); }
    forall i | 0 <= i < |p| ensures q[p[i]] == i && p[q[i]] == i { assert PlaceOk(h, v, p, q, i); }
  }

  lemma RearrangeSwap<T>(h: seq<T>, v: seq<T>, p: seq<nat>, q: seq<nat>, i: nat, j: nat)
    requires Rearranged(h, v, p, q) && i < |h| && j < |h|
    ensures Rearranged(h[i := h[j]][j := h[i]], v, p[i := p[j]][j := p[i]], q[p[i] := j][p[j] := i])
  {
    var p', q' := p[i := p[j]][j := p[i]], q[p[i] := j][p[j] := i];
    forall k | 0 <= k < |p| ensures q'[p'[k]] == k && p'[q'[k]] == k {
      assert q[p[k]] == k && p[q[k]] == k;
      assert q[p[i]] == i && q[p[j]] == j;
    }
  }

  lemma RearrangeSelf<T>(v: seq<T>) returns (p: seq<nat>)
    ensures Rearranged(v, v, p, p)
  {
    p := seq(|v|, i => i);
  }

  lemma {:induction false} HeapRoot(h: seq<ChTab>, i: nat)
    requires HeapFrom(h, 1) && i < |h|
    ensures Le(h[0], h[i])
    decreases i
  {
    if i > 0 {
      var j := i + 1;
      assert Le(h[j / 2 - 1], h[j - 1]);
      HeapRoot(h, j / 2 - 1);
    }
  }

  // a sinks below its lesser child
  lemma SinkStep(h: seq<ChTab>, lo: nat, c: nat, up: nat)
    requires HeapExcept(h, lo, c) && c <= |h| && up / 2 == c && c < up <= |h|
    requires forall j :: c < j <= |h| && j / 2 == c ==> Le(h[up - 1], h[j - 1])
    requires !Le(h[c - 1], h[up - 1])
    ensures HeapExcept(h[c - 1 := h[up - 1]][up - 1 := h[c - 1]], lo, up)
  {
    var h' := h[c - 1 := h[up - 1]][up - 1 := h[c - 1]];
    forall j | 2 <= j <= |h| && lo <= j / 2 && j / 2 != up ensures Le(h'[j / 2 - 1], h'[j - 1]) {
      if j / 2 == c {
      } else if j == c {
        assert Le(h[c / 2 - 1], h[up - 1]);
      } else {
        assert Le(h[j / 2 - 1], h[j - 1]);
      }
    }
    forall j | 2 <= j <= |h| && j / 2 == up && lo <= up / 2 ensures Le(h'[up / 2 - 1], h'[j - 1]) {
      assert Le(h[j / 2 - 1], h[j - 1]);
    }
  }

  lemma SinkStop(h: seq<ChTab>, lo: nat, c: nat)
    requires HeapExcept(h, lo, c) && c <= |h|
    requires forall j :: c < j <= |h| && j / 2 == c ==> Le(h[c - 1], h[j - 1])
    ensures HeapFrom(h, lo)
  {
  }

  // The sifting in progress: h is the heap with a in the hole c, of which ts lacks only a.
  ghost predicate Sinking(ts: seq<ChTab>, was: seq<ChTab>, h: seq<ChTab>, lo: nat, c: nat, a: ChTab, p: seq<nat>, q: seq<nat>) {
    && 1 <= lo <= c <= |h| <= |ts| == |was|
    && h[c - 1] == a && HeapExcept(h, lo, c)
    && Rearranged(h, was[..|h|][lo - 1 := a], p, q)
    && ts[..|h|] == h[c - 1 := ts[c - 1]]
    && ts[..lo - 1] == was[..lo - 1] && ts[|h|..] == was[|h|..]
  }

  // moves the lesser child up into the hole
  method Sink(t: array<ChTab>, ghost was: seq<ChTab>, ghost h: seq<ChTab>, ghost lo: nat, c: nat, up: nat, a: ChTab,
              ghost p: seq<nat>, ghost q: seq<nat>)
    returns (ghost h': seq<ChTab>, ghost p': seq<nat>, ghost q': seq<nat>)
    requires Sinking(t[..], was, h, lo, c, a, p, q) && c < up <= |h| && up / 2 == c
    requires forall j :: c < j <= |h| && j / 2 == c ==> Le(h[up - 1], h[j - 1])
    requires !Le(a, h[up - 1])
    modifies t
    ensures Sinking(t[..], was, h', lo, up, a, p', q') && |h'| == |h|
  {
    hide HeapExcept, Rearranged, Le;
    ghost var b := h[up - 1];
    SinkStep(h, lo, c, up);
    p', q' := Exchange(h, was[..|h|][lo - 1 := a], p, q, c - 1, up - 1);
    h' := h[c - 1 := b][up - 1 := a];
    assert t[..][..|h|][up - 1] == b;
    t[c - 1] := t[up - 1];
    assert t[..][..|h|] == h'[up - 1 := b];
  }

  method Place(t: array<ChTab>, ghost was: seq<ChTab>, ghost h: seq<ChTab>, ghost lo: nat, c: nat, a: ChTab,
               ghost p: seq<nat>, ghost q: seq<nat>)
    requires Sinking(t[..], was, h, lo, c, a, p, q)
    requires forall j :: c < j <= |h| && j / 2 == c ==> Le(a, h[j - 1])
    modifies t
    ensures t[..|h|] == h && HeapFrom(h, lo) && Rearranged(h, was[..|h|][lo - 1 := a], p, q)
    ensures t[..lo - 1] == was[..lo - 1] && t[|h|..] == was[|h|..]
  {
    hide HeapExcept, HeapFrom, Rearranged, Le;
    SinkStop(h, lo, c);
    assert t[..][..|h|] == h[c - 1 := t[c - 1]];
    assert t[..][..lo - 1] == t[..lo - 1] && t[..][|h|..] == t[|h|..];
    t[c - 1] := a;
    assert t[..|h|] == h;
  }

  // Moves a down from slot cl to its place in the heap of the first chNum slots.
  method Hsort1(t: array<ChTab>, chNum: nat, cl: nat, a: ChTab) returns (ghost p: seq<nat>, ghost q: seq<nat>)
    requires 1 <= cl <= chNum <= t.Length && HeapFrom(t[..chNum], cl + 1)
    modifies t
    ensures HeapFrom(t[..chNum], cl)
    ensures Rearranged(t[..chNum], old(t[..chNum])[cl - 1 := a], p, q)
    ensures t[..cl - 1] == old(t[..cl - 1]) && t[chNum..] == old(t[chNum..])
  {
    hide HeapExcept, HeapFrom, Rearranged, Le, Sinking;
    ghost var was := t[..];
    ghost var h := t[..chNum][cl - 1 := a];
    p := SinkStart(t[..], chNum, cl, a);
    q := p;
    var c: nat, ch: nat := cl, cl * 2;
    while ch < chNum
      invariant cl <= c <= chNum && ch == 2 * c && |h| == chNum
      invariant Sinking(t[..], was, h, cl, c, a, p, q)
    {
      var b, d := t[ch - 1], t[ch];
      var up: nat := ch;
      if Le(d, b) { b, up := d, ch + 1; }
      SinkSeen(t[..], was, h, cl, c, a, p, q);
      Lesser(h, c, up);
      if Le(a, b) {
        LeTrans(h, c, up);
        Place(t, was, h, cl, c, a, p, q);
        return;
      }
      h, p, q := Sink(t, was, h, cl, c, up, a, p, q);
      c, ch := up, up * 2;
    }
    if ch == chNum {
      var b := t[ch - 1];
      SinkSeen(t[..], was, h, cl, c, a, p, q);
      if !Le(a, b) {
        LeRefl(b);
        h, p, q := Sink(t, was, h, cl, c, ch, a, p, q);
        c := ch;
      }
    }
    Place(t, was, h, cl, c, a, p, q);
  }

  lemma LeRefl(x: ChTab)
    ensures Le(x, x)
  {
  }

  lemma SinkStart(ts: seq<ChTab>, n: nat, cl: nat, a: ChTab) returns (p: seq<nat>)
    requires 1 <= cl <= n <= |ts| && HeapFrom(ts[..n], cl + 1)
    ensures Sinking(ts, ts, ts[..n][cl - 1 := a], cl, cl, a, p, p)
  {
    p := RearrangeSelf(ts[..n][cl - 1 := a]);
    assert ts[..n] == ts[..n][cl - 1 := a][cl - 1 := ts[cl - 1]];
  }

  // what the array shows of the heap
  lemma SinkSeen(ts: seq<ChTab>, was: seq<ChTab>, h: seq<ChTab>, lo: nat, c: nat, a: ChTab, p: seq<nat>, q: seq<nat>)
    requires Sinking(ts, was, h, lo, c, a, p, q)
    ensures |h| <= |ts| == |was| && 1 <= lo <= c <= |h| && h[c - 1] == a
    ensures forall i :: 0 <= i < |h| && i != c - 1 ==> ts[i] == h[i]
  {
    forall i | 0 <= i < |h| && i != c - 1 ensures ts[i] == h[i] {
      assert ts[..|h|][i] == h[c - 1 := ts[c - 1]][i];
    }
  }

  // of two children, up is the lesser
  lemma Lesser(h: seq<ChTab>, c: nat, up: nat)
    requires 1 <= c && 2 * c + 1 <= |h|
    requires up == if Le(h[2 * c], h[2 * c - 1]) then 2 * c + 1 else 2 * c
    ensures forall j :: c < j <= |h| && j / 2 == c ==> Le(h[up - 1], h[j - 1])
  {
  }

  lemma LeTrans(h: seq<ChTab>, c: nat, up: nat)
    requires 1 <= c < up <= |h| && Le(h[c - 1], h[up - 1])
    requires forall j :: c < j <= |h| && j / 2 == c ==> Le(h[up - 1], h[j - 1])
    ensures forall j :: c < j <= |h| && j / 2 == c ==> Le(h[c - 1], h[j - 1])
  {
  }

  lemma Exchange<T>(h: seq<T>, v: seq<T>, p: seq<nat>, q: seq<nat>, i: nat, j: nat)
    returns (p': seq<nat>, q': seq<nat>)
    requires Rearranged(h, v, p, q) && i < |h| && j < |h|
    ensures Rearranged(h[i := h[j]][j := h[i]], v, p', q')
  {
    p', q' := p[i := p[j]][j := p[i]], q[p[i] := j][p[j] := i];
    RearrangeSwap(h, v, p, q, i, j);
  }
}
