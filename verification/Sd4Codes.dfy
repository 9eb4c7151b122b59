/**
 Huffman codes in Stacker 4 streams: `sd4b_wrhufi` and `sd4b_wrh` on the writing side, and the
 tables of `sd4b_rdhufi` with the lookup of `sd4b_rdh` on the reading side. Codes are at most
 15 bits long and stand in the stream from the highest bit on.
 */
module Sd4Codes {
  import opened Bits
  import opened Canonical
  import opened Sd4Stream
  import opened SqCodes

  const BITS4 := 15
  const SENTINEL4 := 0xFF

  //////////////////////////////////////////////////////////////////////////////
  // Writing
  //////////////////////////////////////////////////////////////////////////////

  // phuf holds the codes of all symbols before n
  ghost predicate Coding4(phuf: seq<HufWr>, lens: seq<nat>, n: nat) {
    n <= |lens| && n <= |phuf| && forall i :: 0 <= i < n && lens[i] >= 1 ==> phuf[i] == HufWr(CodeOf(lens, i), lens[i])
  }

  // From the histogram to the first code of every length.
  method FirstCodes4(blcn: array<nat>, ghost lens: seq<nat>) returns (u: nat)
    requires blcn.Length == 16 && blcn[0] == 0
    requires forall l :: 1 <= l <= BITS4 ==> blcn[l] == Count(lens, l)
    modifies blcn
    ensures u == Space(lens, BITS4)
    ensures forall l :: 1 <= l <= BITS4 ==> blcn[l] == First(lens, l)
  {
    hide Space, First, Count;
    u := 0;
    var i := 0;
    while i < 16
      invariant i <= 16 && u == (if i == 0 then 0 else Space(lens, i - 1))
      invariant forall l :: 1 <= l < i ==> blcn[l] == First(lens, l)
      invariant forall l :: i <= l <= BITS4 ==> blcn[l] == old(blcn[l])
    {
      SpaceNext(lens, i);
      u := u * 2;
      var t := u;
      u := u + blcn[i];
      blcn[i] := t;
      i := i + 1;
    }
  }

  lemma SpaceNext(lens: seq<nat>, l: nat)
    ensures l == 0 ==> Space(lens, l) == 0
    ensures l >= 1 ==> Space(lens, l) == 2 * Space(lens, l - 1) + Count(lens, l) && First(lens, l) == 2 * Space(lens, l - 1)
  {
  }

  // sd4b_wrhufi: true means the code is not complete
  method WrHufi4(phuf: array<HufWr>, lens: array<nat>, blcn: array<nat>, codNum: nat) returns (bad: bool)
    requires codNum <= lens.Length && codNum <= phuf.Length && blcn.Length == 16 && blcn[0] == 0
    requires lens != blcn && Bounded(lens[..codNum], BITS4)
    requires forall l :: 1 <= l <= BITS4 ==> blcn[l] == Count(lens[..codNum], l)
    modifies phuf, blcn
    ensures bad <==> !Complete(lens[..codNum], BITS4)
    ensures !bad ==> Coding4(phuf[..], lens[..codNum], codNum)
  {
    hide Complete, Count, First, Space, Pow2, Rank, CodeOf;
    ghost var ls := lens[..codNum];
    var u := FirstCodes4(blcn, ls);
    CompleteIff4(ls, u);
    if u != 0x8000 { return true; }
    NoCounts(ls);
    var i := 0;
    while i < codNum
      invariant i <= codNum && Coding4(phuf[..], ls, i) && lens[..codNum] == ls
      invariant forall l :: 1 <= l <= BITS4 ==> blcn[l] == First(ls, l) + Count(ls[..i], l)
    {
      var blen := lens[i];
      assert ls[i] == blen;
      CountNextAll(ls, i);
      if blen != 0 {
        CodeIs(ls, i);
        phuf[i] := HufWr(blcn[blen], blen);
        blcn[blen] := blcn[blen] + 1;
      }
      i := i + 1;
    }
    bad := false;
  }

  lemma CompleteIff4(lens: seq<nat>, u: nat)
    requires u == Space(lens, BITS4) && Bounded(lens, BITS4)
    ensures Complete(lens, BITS4) <==> u == 0x8000
  {
    Pow2Values();
  }

  lemma CodeIs(lens: seq<nat>, i: nat)
    requires i < |lens| && lens[i] >= 1
    ensures CodeOf(lens, i) == First(lens, lens[i]) + Count(lens[..i], lens[i])
  {
  }

  // sd4b_wrh
  method WrH4(w: Writer4, phuf: array<HufWr>, ch: nat, ghost lens: seq<nat>)
    requires w.Valid() && Coding4(phuf[..], lens, |lens|) && Complete(lens, BITS4)
    requires ch < |lens| && lens[ch] >= 1
    modifies w, w.out
    ensures w.Valid() && w.bits == old(w.bits) + SymBits(lens, ch)
    ensures old(w.pd) <= w.pd <= old(w.pd) + 2
    ensures forall i :: w.pd <= i < w.out.Length ==> w.out[i] == old(w.out[i])
  {
    hide w.Valid, CodeOf, Space, Pow2;
    CodeFits(lens, BITS4, ch);
    ShortLen(lens, ch);
    assert phuf[..][ch] == phuf[ch];
    w.WrN(phuf[ch].cod, phuf[ch].ln);
  }

  lemma ShortLen(lens: seq<nat>, ch: nat)
    requires Complete(lens, BITS4) && ch < |lens|
    ensures lens[ch] <= 15
  {
  }

  //////////////////////////////////////////////////////////////////////////////
  // Reading: the tables
  //////////////////////////////////////////////////////////////////////////////

  datatype Check4 = Bad4 | Undefined4 | Good4

  // The test of the original accepts any code whose space is a multiple of the full one; unless it
  // is exactly full, table entries stay unwritten or are written twice.
  function TabCheck4(lens: seq<nat>): Check4 {
    if 2 * Space(lens, BITS4) % 65536 != 0 then Bad4
    else if !Complete(lens, BITS4) then Undefined4
    else Good4
  }

  // the entry of symbol i, of which the first m are characters; tokens have 0x40 added to the length
  function Entry4(lens: seq<nat>, m: nat, i: nat): Chln
    requires i < |lens|
  {
    if i < m then Chln(lens[i], i) else Chln(lens[i] + 0x40, i - m + 1)
  }

  const LONG4 := Chln(0x40, 0)

  // The code of symbol i leads the n-bit word x.
  predicate Leads4(lens: seq<nat>, i: nat, x: nat, n: nat) {
    i < |lens| && 1 <= lens[i] <= n && Shr(x, n - lens[i]) == CodeOf(lens, i)
  }

  ghost predicate Short4(chln: seq<Chln>, lens: seq<nat>, m: nat, bn: nat, n: nat) {
    && |chln| >= Pow2(bn) && n <= |lens|
    && forall i, x :: 0 <= i < n && 0 <= x < Pow2(bn) && Leads4(lens, i, x, bn) ==> chln[x] == Entry4(lens, m, i)
  }

  // where a long code is marked in the first table
  function MarkAt4(lens: seq<nat>, bn: nat, i: nat): nat
    requires i < |lens| && lens[i] > bn
  {
    Shr(CodeOf(lens, i), lens[i] - bn)
  }

  ghost predicate Long4(chln: seq<Chln>, chln1: seq<Chln>, lens: seq<nat>, m: nat, bn: nat, n: nat) {
    && n <= |lens|
    && forall i :: 0 <= i < n && lens[i] > bn ==>
         && MarkAt4(lens, bn, i) < |chln| && chln[MarkAt4(lens, bn, i)] == LONG4
         && LongAt(lens, i) < |chln1| && chln1[LongAt(lens, i)] == Entry4(lens, m, i)
  }

  ghost predicate Tables4(chln: seq<Chln>, chln1: seq<Chln>, cdLn: seq<nat>, cdCh: seq<nat>, lens: seq<nat>, m: nat, bn: nat) {
    && Complete(lens, BITS4) && bn <= 10
    && Short4(chln, lens, m, bn, |lens|) && Long4(chln, chln1, lens, m, bn, |lens|)
    && |cdLn| == |cdCh| == 16
    && (forall l :: 1 <= l <= BITS4 ==> cdCh[l] == Space(lens, l))
    && (forall l :: bn < l <= BITS4 ==> cdLn[l] == Start(lens, l) + Count(lens, l))
  }

  // Only one code leads a word.
  lemma LeadsOne4(lens: seq<nat>, i: nat, j: nat, x: nat, n: nat)
    requires Complete(lens, BITS4) && Leads4(lens, i, x, n) && Leads4(lens, j, x, n) && x < Pow2(n)
    ensures i == j
  {
    hide CodeOf, Shr, ValM;
    var s := ToBitsM(x, n);
    assert s[0..0 + n] == s;
    ValMRead(s, 0, x, n);
    ValMPrefix(s, 0, n, lens[i]);
    ValMPrefix(s, 0, n, lens[j]);
    DecodeSymUnique(lens, BITS4, s, 0, i);
    DecodeSymUnique(lens, BITS4, s, 0, j);
  }

  lemma MarkFits(lens: seq<nat>, bn: nat, i: nat)
    requires Complete(lens, BITS4) && i < |lens| && lens[i] > bn
    ensures MarkAt4(lens, bn, i) < Pow2(bn)
  {
    CodeFits(lens, BITS4, i);
    ShrBound(CodeOf(lens, i), bn, lens[i] - bn);
  }

  lemma MarkNotLed4(lens: seq<nat>, bn: nat, i: nat, j: nat)
    requires Complete(lens, BITS4) && i < |lens| && j < |lens| && 1 <= lens[i] <= bn < lens[j]
    ensures !Leads4(lens, i, MarkAt4(lens, bn, j), bn)
  {
    hide CodeOf, Shr;
    var y, n := CodeOf(lens, j), lens[j];
    CodeFits(lens, BITS4, j);
    ShrShr(y, n - bn, bn - lens[i]);
    if Leads4(lens, i, MarkAt4(lens, bn, j), bn) {
      ShrNone4(y);
      LeadsOne4(lens, i, j, y, n);
    }
  }

  // the places of a short code: a run of the first table
  lemma RunOf(lens: seq<nat>, bn: nat, i: nat, x: nat)
    requires i < |lens| && 1 <= lens[i] <= bn
    ensures var sh := bn - lens[i];
            Leads4(lens, i, x, bn) <==> Shl(CodeOf(lens, i), sh) <= x < Shl(CodeOf(lens, i), sh) + Pow2(sh)
  {
    hide CodeOf;
    var sh, c := bn - lens[i], CodeOf(lens, i);
    ShrLow(x, sh);
    ShlMono(Shr(x, sh), c, sh);
    ShlMono(c, Shr(x, sh), sh);
  }

  lemma ShortAdd4(was: seq<Chln>, chln: seq<Chln>, chln1: seq<Chln>, lens: seq<nat>, m: nat, bn: nat, i: nat)
    requires Complete(lens, BITS4) && i < |lens| && 1 <= lens[i] <= bn
    requires Short4(was, lens, m, bn, i) && Long4(was, chln1, lens, m, bn, i) && |chln| == |was|
    requires forall x :: 0 <= x < Pow2(bn) ==> chln[x] == if Leads4(lens, i, x, bn) then Entry4(lens, m, i) else was[x]
    ensures Short4(chln, lens, m, bn, i + 1) && Long4(chln, chln1, lens, m, bn, i + 1)
  {
    hide Leads4, Complete, Entry4, MarkAt4, LongAt;
    forall j, x | 0 <= j < i + 1 && 0 <= x < Pow2(bn) && Leads4(lens, j, x, bn) ensures chln[x] == Entry4(lens, m, j) {
      if j < i && Leads4(lens, i, x, bn) { LeadsOne4(lens, i, j, x, bn); }
    }
    forall j | 0 <= j < i + 1 && lens[j] > bn ensures MarkAt4(lens, bn, j) < |chln| && chln[MarkAt4(lens, bn, j)] == LONG4 {
      MarkFits(lens, bn, j);
      if Leads4(lens, i, MarkAt4(lens, bn, j), bn) { MarkNotLed4(lens, bn, i, j); }
    }
  }

  lemma LongAdd4(was: seq<Chln>, chln: seq<Chln>, old1: seq<Chln>, chln1: seq<Chln>, lens: seq<nat>, m: nat, bn: nat, i: nat)
    requires Complete(lens, BITS4) && i < |lens| && lens[i] > bn
    requires Short4(was, lens, m, bn, i) && Long4(was, old1, lens, m, bn, i)
    requires MarkAt4(lens, bn, i) < |was| && chln == was[MarkAt4(lens, bn, i) := LONG4]
    requires LongAt(lens, i) < |old1| && chln1 == old1[LongAt(lens, i) := Entry4(lens, m, i)]
    ensures Short4(chln, lens, m, bn, i + 1) && Long4(chln, chln1, lens, m, bn, i + 1)
  {
    hide Leads4, Complete, Entry4, MarkAt4, LongAt;
    forall j, x | 0 <= j < i + 1 && 0 <= x < Pow2(bn) && Leads4(lens, j, x, bn) ensures chln[x] == Entry4(lens, m, j) {
      LeadsLen4(lens, j, x, bn);
      if x == MarkAt4(lens, bn, i) { MarkNotLed4(lens, bn, j, i); }
    }
    forall j | 0 <= j < i + 1 && lens[j] > bn
      ensures MarkAt4(lens, bn, j) < |chln| && chln[MarkAt4(lens, bn, j)] == LONG4
      ensures LongAt(lens, j) < |chln1| && chln1[LongAt(lens, j)] == Entry4(lens, m, j)
    {
      if j < i { LongPlaces(lens, i, j); }
    }
  }

  lemma LeadsLen4(lens: seq<nat>, i: nat, x: nat, n: nat)
    requires Leads4(lens, i, x, n)
    ensures i < |lens| && 1 <= lens[i] <= n
  {
  }

  lemma SkipZero4(chln: seq<Chln>, chln1: seq<Chln>, lens: seq<nat>, m: nat, bn: nat, i: nat)
    requires i < |lens| && lens[i] == 0 && Short4(chln, lens, m, bn, i) && Long4(chln, chln1, lens, m, bn, i)
    ensures Short4(chln, lens, m, bn, i + 1) && Long4(chln, chln1, lens, m, bn, i + 1)
  {
    hide Entry4, LongAt, MarkAt4, CodeOf;
    forall j, x | 0 <= j < i + 1 && 0 <= x < Pow2(bn) && Leads4(lens, j, x, bn) ensures chln[x] == Entry4(lens, m, j) {
      LeadsLen4(lens, j, x, bn);
    }
  }
}
