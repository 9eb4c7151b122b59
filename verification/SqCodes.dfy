/**
 Huffman codes in SQ streams: `sq_wrhufi` and `sq_wrh` on the writing side, and the decode
 tables of `sq_rdhufi` with `sq_rdh1` on the reading side.
 */
module SqCodes {
  import opened Bits
  import opened LsbStream
  import opened Canonical
  import opened Reverse

  const MAX_BITS := 16
  const MAX_SPDA_BITS := 10
  const MAX_CODES := 0x140

  // symbols at most 15 bits long use the code space of 16 bits just as well
  lemma CompleteWider(lens: seq<nat>)
    requires Complete(lens, 15)
    ensures Complete(lens, MAX_BITS)
  {
    AbsentLen(lens, 16);
    assert Space(lens, 16) == 2 * Space(lens, 15) + Count(lens, 16);
  }

  lemma {:induction false} AbsentLen(lens: seq<nat>, l: nat)
    requires forall i :: 0 <= i < |lens| ==> lens[i] < l
    ensures Count(lens, l) == 0
    decreases |lens|
  {
    if lens != [] { AbsentLen(lens[..|lens| - 1], l); }
  }

  //////////////////////////////////////////////////////////////////////////////
  // Writing
  //////////////////////////////////////////////////////////////////////////////

  // the reversed code of a symbol and its length
  datatype HufWr = HufWr(cod: nat, ln: nat)

  function RevCode(lens: seq<nat>, i: nat): nat
    requires i < |lens| && lens[i] >= 1
  {
    Rev(CodeOf(lens, i), lens[i])
  }

  // phuf holds the codes of all symbols before n
  ghost predicate Coding(phuf: seq<HufWr>, lens: seq<nat>, n: nat) {
    n <= |lens| && n <= |phuf| && forall i :: 0 <= i < n && lens[i] >= 1 ==> phuf[i] == HufWr(RevCode(lens, i), lens[i])
  }

  // From the histogram in ch_blencn to the first code of every length; false if the code is not complete.
  method FirstCodes(blcn: array<nat>, ghost lens: seq<nat>) returns (u: nat)
    requires blcn.Length == MAX_BITS + 1 && blcn[0] == 0
    requires forall l :: 1 <= l <= MAX_BITS ==> blcn[l] == Count(lens, l)
    modifies blcn
    ensures u == Space(lens, MAX_BITS)
    ensures forall l :: 1 <= l <= MAX_BITS ==> blcn[l] == First(lens, l)
  {
    u := 0;
    var i := 0;
    while i <= MAX_BITS
      invariant i <= MAX_BITS + 1 && u == (if i == 0 then 0 else Space(lens, i - 1))
      invariant forall l :: 1 <= l < i ==> blcn[l] == First(lens, l)
      invariant forall l :: i <= l <= MAX_BITS ==> blcn[l] == old(blcn[l])
    {
      u := u * 2;
      var t := u;
      u := u + blcn[i];
      blcn[i] := t;
      i := i + 1;
    }
  }

  // sq_wrhufi: true means the code is not complete
  method SqWrhufi(phuf: array<HufWr>, chBlen: array<nat>, off: nat, blcn: array<nat>, codNum: nat) returns (bad: bool)
    requires off + codNum <= chBlen.Length && codNum <= phuf.Length && blcn.Length == MAX_BITS + 1 && blcn[0] == 0
    requires chBlen != blcn && Bounded(chBlen[off..off + codNum], MAX_BITS)
    requires forall l :: 1 <= l <= MAX_BITS ==> blcn[l] == Count(chBlen[off..off + codNum], l)
    modifies phuf, blcn
    ensures bad <==> !Complete(chBlen[off..off + codNum], MAX_BITS)
    ensures !bad ==> Coding(phuf[..], chBlen[off..off + codNum], codNum)
  {
    hide Complete, Count, First, Space, RevCode, Pow2, SwapBits16, Shr, Rev, Rank, CodeOf;
    ghost var lens := chBlen[off..off + codNum];
    var u := FirstCodes(blcn, lens);
    CompleteIff(lens, u);
    if u != 65536 { return true; }
    NoCounts(lens);
    var i := 0;
    while i < codNum
      invariant i <= codNum && Coding(phuf[..], lens, i)
      invariant forall l :: 1 <= l <= MAX_BITS ==> blcn[l] == First(lens, l) + Count(lens[..i], l)
      invariant chBlen[off..off + codNum] == lens
    {
      var blen := chBlen[off + i];
      assert lens[i] == blen;
      CountNextAll(lens, i);
      if blen != 0 {
        ReversedCode(lens, i);
        phuf[i] := HufWr(Shr(SwapBits16(blcn[blen]), 16 - blen), blen);
        blcn[blen] := blcn[blen] + 1;
      }
      i := i + 1;
    }
    bad := false;
  }

  lemma CompleteIff(lens: seq<nat>, u: nat)
    requires u == Space(lens, MAX_BITS) && Bounded(lens, MAX_BITS)
    ensures Complete(lens, MAX_BITS) <==> u == 65536
  {
    Pow2Values();
  }

  lemma NoCounts(lens: seq<nat>)
    ensures forall l :: Count(lens[..0], l) == 0
  {
  }

  // the next code of a length, reversed
  lemma ReversedCode(lens: seq<nat>, i: nat)
    requires Complete(lens, MAX_BITS) && i < |lens| && lens[i] >= 1
    ensures 1 <= lens[i] <= MAX_BITS
    ensures Shr(SwapBits16(First(lens, lens[i]) + Count(lens[..i], lens[i])), 16 - lens[i]) == RevCode(lens, i)
  {
    hide First, Count, SwapBits16, Shr, Rev;
    CodeFits(lens, MAX_BITS, i);
    SwapCode(CodeOf(lens, i), lens[i]);
  }

  lemma CountNextAll(lens: seq<nat>, i: nat)
    requires i < |lens|
    ensures forall l :: Count(lens[..i + 1], l) == Count(lens[..i], l) + if lens[i] == l then 1 else 0
  {
    forall l ensures Count(lens[..i + 1], l) == Count(lens[..i], l) + if lens[i] == l then 1 else 0 {
      CountNext(lens, i, l);
    }
  }

  // sq_wrh
  method SqWrh(w: Writer, phuf: array<HufWr>, ch: nat, ghost lens: seq<nat>)
    requires w.Valid() && Coding(phuf[..], lens, |lens|) && Complete(lens, MAX_BITS)
    requires ch < |lens| && lens[ch] >= 1 && |w.bits| > 32
    modifies w, w.out
    ensures w.Valid() && w.bits == old(w.bits) + SymBits(lens, ch)
    ensures old(w.pd) <= w.pd <= old(w.pd) + 2
    ensures forall i :: w.pd <= i < w.out.Length ==> w.out[i] == old(w.out[i])
  {
    hide w.Valid, CodeOf, Space;
    RevBound(CodeOf(lens, ch), lens[ch]);
    RevBits(CodeOf(lens, ch), lens[ch]);
    assert phuf[..][ch] == phuf[ch];
    w.WrN(phuf[ch].cod, phuf[ch].ln);
  }

  //////////////////////////////////////////////////////////////////////////////
  // Reading: the tables
  //////////////////////////////////////////////////////////////////////////////

  // a table entry: length (less 0x40 for what is not a plain character) and character or token
  datatype Chln = Chln(ln: int, ch: nat)

  const LONG_CODE := Chln(-0x40, 0)

  // the entry of symbol i, of which the first m are characters
  function Entry(lens: seq<nat>, m: nat, i: nat): Chln
    requires i < |lens|
  {
    if i < m then Chln(lens[i], i) else Chln(lens[i] as int - 0x40, i - m + 1)
  }

  // codes shorter than l
  function Start(lens: seq<nat>, l: nat): nat {
    if l <= 1 then 0 else Start(lens, l - 1) + Count(lens, l - 1)
  }

  // The code of symbol i leads the bits of x.
  predicate Leads(lens: seq<nat>, i: nat, x: nat) {
    i < |lens| && lens[i] >= 1 && Low(x, lens[i]) == RevCode(lens, i)
  }

  // entries for the codes of the first n symbols that fit in bn bits
  ghost predicate ShortOk(chln: seq<Chln>, lens: seq<nat>, m: nat, bn: nat, n: nat) {
    && |chln| >= Pow2(bn) && n <= |lens|
    && forall i, x :: 0 <= i < n && 0 <= x < Pow2(bn) && lens[i] <= bn && Leads(lens, i, x) ==> chln[x] == Entry(lens, m, i)
  }

  // where a long code is marked in the first table, and where it stands in the second
  function MarkAt(lens: seq<nat>, bn: nat, i: nat): (x: nat)
    requires i < |lens| && lens[i] >= 1
    ensures x < Pow2(bn)
  {
    Low(RevCode(lens, i), bn)
  }

  function LongAt(lens: seq<nat>, i: nat): nat
    requires i < |lens|
  {
    Start(lens, lens[i]) + Rank(lens, i)
  }

  ghost predicate LongOk(chln: seq<Chln>, chln1: seq<Chln>, lens: seq<nat>, m: nat, bn: nat, n: nat) {
    && |chln| >= Pow2(bn) && n <= |lens|
    && forall i :: 0 <= i < n && lens[i] > bn ==>
         && chln[MarkAt(lens, bn, i)] == LONG_CODE
         && LongAt(lens, i) < |chln1| && chln1[LongAt(lens, i)] == Entry(lens, m, i)
  }

  ghost predicate TablesOk(chln: seq<Chln>, chln1: seq<Chln>, cdLn: seq<nat>, cdCh: seq<nat>, lens: seq<nat>, m: nat, bn: nat) {
    && Complete(lens, MAX_BITS) && bn <= MAX_SPDA_BITS
    && ShortOk(chln, lens, m, bn, |lens|) && LongOk(chln, chln1, lens, m, bn, |lens|)
    && |cdLn| == |cdCh| == MAX_BITS + 1
    && (forall l :: 1 <= l <= MAX_BITS ==> cdCh[l] == Space(lens, l))
    && (forall l :: bn < l <= MAX_BITS ==> cdLn[l] == Start(lens, l) + Count(lens, l))
  }

  // Only one code leads a word.
  lemma LeadsOne(lens: seq<nat>, i: nat, j: nat, x: nat)
    requires Complete(lens, MAX_BITS) && Leads(lens, i, x) && Leads(lens, j, x)
    ensures i == j
  {
    hide RevCode, CodeOf;
    var n := lens[i] + lens[j];
    var s := ToBits(x, n);
    assert s[0..0 + n] == s;
    ValRead(s, 0, x, n);
    LeadsCode(lens, i, x, s, n);
    LeadsCode(lens, j, x, s, n);
    DecodeSymUnique(lens, MAX_BITS, s, 0, i);
    DecodeSymUnique(lens, MAX_BITS, s, 0, j);
  }

  lemma LeadsCode(lens: seq<nat>, i: nat, x: nat, s: seq<bool>, n: nat)
    requires Complete(lens, MAX_BITS) && Leads(lens, i, x) && lens[i] <= n && Val(s, 0, n) == Low(x, n)
    ensures ValM(s, 0, lens[i]) == CodeOf(lens, i)
  {
    hide CodeOf, Rev, Low, Shr, Val, ValM, Shl;
    var l := lens[i];
    ValSub(s, 0, 0, l, n);
    assert Shr(Val(s, 0, n), 0) == Low(x, n) by { ShrNone(Low(x, n)); }
    LowSplit(x, l, n - l);
    ShrSum(Low(x, l), Low(Shr(x, l), n - l), l);
    LowLow(x, l);
    RevVal(s, 0, l);
    CodeFits(lens, MAX_BITS, i);
    RevRev(CodeOf(lens, i), l);
  }

  lemma ShrNone(v: nat)
    ensures Shr(v, 0) == v
  {
  }

  lemma LowLow(x: nat, l: nat)
    ensures Low(Low(x, l), l) == Low(x, l)
  {
    ShrSmall(Low(x, l), l);
  }

  // the code at pos leads the bits there
  lemma LeadsAt(lens: seq<nat>, s: seq<bool>, pos: nat, m: nat)
    requires Complete(lens, MAX_BITS) && lens[DecodeSym(lens, MAX_BITS, s, pos)] <= m
    ensures Leads(lens, DecodeSym(lens, MAX_BITS, s, pos), Val(s, pos, m))
  {
    hide CodeOf, Rev, Low, Shr, Val, ValM, Shl;
    var i := DecodeSym(lens, MAX_BITS, s, pos);
    ValSub(s, pos, 0, lens[i], m);
    ShrNone(Val(s, pos, m));
    RevValM(s, pos, lens[i]);
  }

  // a long code at pos is marked under the bits there
  lemma MarkedAt(lens: seq<nat>, s: seq<bool>, pos: nat, bn: nat)
    requires Complete(lens, MAX_BITS) && lens[DecodeSym(lens, MAX_BITS, s, pos)] > bn
    ensures MarkAt(lens, bn, DecodeSym(lens, MAX_BITS, s, pos)) == Val(s, pos, bn)
  {
    hide CodeOf, Rev, Low, Shr, Val, ValM, Shl;
    var i := DecodeSym(lens, MAX_BITS, s, pos);
    ValSub(s, pos, 0, bn, lens[i]);
    ShrNone(Val(s, pos, lens[i]));
    RevValM(s, pos, lens[i]);
  }

  //////////////////////////////////////////////////////////////////////////////
  // Places in the second table
  //////////////////////////////////////////////////////////////////////////////

  lemma {:induction false} StartGrows(lens: seq<nat>, a: nat, b: nat)
    requires 1 <= a < b
    ensures Start(lens, a) + Count(lens, a) <= Start(lens, b)
    decreases b
  {
    if a < b - 1 { StartGrows(lens, a, b - 1); }
  }

  lemma LongPlaces(lens: seq<nat>, i: nat, j: nat)
    requires i < |lens| && j < |lens| && i != j && lens[i] >= 1 && lens[j] >= 1
    ensures LongAt(lens, i) != LongAt(lens, j)
  {
    CountSplit(lens, i, lens[i]);
    CountSplit(lens, j, lens[j]);
    if lens[i] < lens[j] {
      StartGrows(lens, lens[i], lens[j]);
    } else if lens[j] < lens[i] {
      StartGrows(lens, lens[j], lens[i]);
    } else if i < j {
      RankDiffers(lens, i, j);
    } else {
      RankDiffers(lens, j, i);
    }
  }

  // symbols with a length from 1 to l-1
  function Shorter(lens: seq<nat>, l: nat): (n: nat)
    ensures n <= |lens|
  {
    if lens == [] then 0
    else Shorter(lens[..|lens| - 1], l) + if 1 <= lens[|lens| - 1] < l then 1 else 0
  }

  lemma {:induction false} ShorterNext(lens: seq<nat>, l: nat)
    requires l >= 1
    ensures Shorter(lens, l + 1) == Shorter(lens, l) + Count(lens, l)
    decreases |lens|
  {
    if lens != [] { ShorterNext(lens[..|lens| - 1], l); }
  }

  lemma {:induction false} StartIsShorter(lens: seq<nat>, l: nat)
    ensures Start(lens, l) == Shorter(lens, l)
    decreases l
  {
    if l > 1 {
      StartIsShorter(lens, l - 1);
      ShorterNext(lens, l - 1);
    } else {
      NoneShorter(lens, l);
    }
  }

  lemma {:induction false} NoneShorter(lens: seq<nat>, l: nat)
    requires l <= 1
    ensures Shorter(lens, l) == 0
    decreases |lens|
  {
    if lens != [] { NoneShorter(lens[..|lens| - 1], l); }
  }

  lemma LongBound(lens: seq<nat>, i: nat)
    requires i < |lens| && lens[i] >= 1
    ensures LongAt(lens, i) < |lens|
  {
    CountSplit(lens, i, lens[i]);
    StartIsShorter(lens, lens[i] + 1);
  }

  //////////////////////////////////////////////////////////////////////////////
  // Adding a symbol to the tables
  //////////////////////////////////////////////////////////////////////////////

  lemma ShortAdd(was: seq<Chln>, chln: seq<Chln>, chln1: seq<Chln>, lens: seq<nat>, m: nat, bn: nat, i: nat)
    requires Complete(lens, MAX_BITS) && i < |lens| && 1 <= lens[i] <= bn
    requires ShortOk(was, lens, m, bn, i) && LongOk(was, chln1, lens, m, bn, i) && |chln| == |was|
    requires forall x :: 0 <= x < Pow2(bn) ==> chln[x] == if Leads(lens, i, x) then Entry(lens, m, i) else was[x]
    ensures ShortOk(chln, lens, m, bn, i + 1) && LongOk(chln, chln1, lens, m, bn, i + 1)
  {
    hide Leads, Complete, Entry, MarkAt, LongAt;
    forall j, x | 0 <= j < i + 1 && 0 <= x < Pow2(bn) && lens[j] <= bn && Leads(lens, j, x)
      ensures chln[x] == Entry(lens, m, j)
    {
      if j < i && Leads(lens, i, x) { LeadsOne(lens, i, j, x); }
    }
    forall j | 0 <= j < i + 1 && lens[j] > bn ensures chln[MarkAt(lens, bn, j)] == LONG_CODE {
      if Leads(lens, i, MarkAt(lens, bn, j)) { MarkNotLed(lens, bn, i, j); }
    }
  }

  lemma MarkNotLed(lens: seq<nat>, bn: nat, i: nat, j: nat)
    requires Complete(lens, MAX_BITS) && i < |lens| && j < |lens| && 1 <= lens[i] <= bn < lens[j]
    ensures !Leads(lens, i, MarkAt(lens, bn, j))
  {
    var y := RevCode(lens, j);
    if Leads(lens, i, MarkAt(lens, bn, j)) {
      LowOfLow(y, lens[i], bn);
      RevBound(CodeOf(lens, j), lens[j]);
      ShrSmall(y, lens[j]);
      LeadsOne(lens, i, j, y);
    }
  }

  lemma LowOfLow(y: nat, a: nat, b: nat)
    requires a <= b
    ensures Low(Low(y, b), a) == Low(y, a)
  {
    LowSplit(y, a, b - a);
    ShrSum(Low(y, a), Low(Shr(y, a), b - a), a);
    LowLow(y, a);
  }

  lemma LongAdd(was: seq<Chln>, chln: seq<Chln>, old1: seq<Chln>, chln1: seq<Chln>, lens: seq<nat>, m: nat, bn: nat, i: nat)
    requires Complete(lens, MAX_BITS) && i < |lens| && lens[i] > bn
    requires ShortOk(was, lens, m, bn, i) && LongOk(was, old1, lens, m, bn, i)
    requires chln == was[MarkAt(lens, bn, i) := LONG_CODE] && LongAt(lens, i) < |old1|
    requires chln1 == old1[LongAt(lens, i) := Entry(lens, m, i)]
    ensures ShortOk(chln, lens, m, bn, i + 1) && LongOk(chln, chln1, lens, m, bn, i + 1)
  {
    hide Leads, Complete, Entry, MarkAt, LongAt;
    forall j, x | 0 <= j < i + 1 && 0 <= x < Pow2(bn) && lens[j] <= bn && Leads(lens, j, x)
      ensures chln[x] == Entry(lens, m, j)
    {
      if x == MarkAt(lens, bn, i) { LeadsLen(lens, j, x); MarkNotLed(lens, bn, j, i); }
    }
    forall j | 0 <= j < i + 1 && lens[j] > bn
      ensures chln[MarkAt(lens, bn, j)] == LONG_CODE
      ensures LongAt(lens, j) < |chln1| && chln1[LongAt(lens, j)] == Entry(lens, m, j)
    {
      if j < i { LongPlaces(lens, i, j); }
    }
  }

  lemma LeadsLen(lens: seq<nat>, i: nat, x: nat)
    requires Leads(lens, i, x)
    ensures i < |lens| && lens[i] >= 1
  {
  }

  lemma SkipZero(chln: seq<Chln>, chln1: seq<Chln>, lens: seq<nat>, m: nat, bn: nat, i: nat)
    requires i < |lens| && lens[i] == 0 && ShortOk(chln, lens, m, bn, i) && LongOk(chln, chln1, lens, m, bn, i)
    ensures ShortOk(chln, lens, m, bn, i + 1) && LongOk(chln, chln1, lens, m, bn, i + 1)
  {
    hide Entry, LongAt;
  }
}
