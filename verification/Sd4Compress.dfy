/**
 `sd4_comp`, the Stacker 4 compressor, and its round trip with `sd4_decomp`.
 */
module Sd4Compress {
  import opened Bits
  import opened Lz
  import opened LzTokens
  import opened Canonical
  import opened SqCodes
  import opened SqLz
  import opened Sd4Stream
  import opened MsbStream
  import opened Sd4Codes
  import opened Sd4Format
  import opened Sd4Header
  import opened Sd4Lz
  import opened Sd4Lengths
  import opened Sd4Emit
  import opened HuffmanHeap
  import HuffmanBuild
  import HuffmanCode
  import SqCompress

  //////////////////////////////////////////////////////////////////////////////
  // The tables
  //////////////////////////////////////////////////////////////////////////////

  method WriteCells(w: Writer4, blCn: array<nat>, i0: nat, ie: nat)
    requires w.Valid() && blCn.Length == HELPERS && Bounded(blCn[..], 15) && ie < HELPERS && w.out as object != blCn
    modifies w, w.out
    ensures w.Valid() && w.bits == old(w.bits) + Cells(blCn[..], i0, ie)
    ensures old(w.pd) <= w.pd && forall i :: w.pd <= i < w.out.Length ==> w.out[i] == old(w.out[i])
  {
    hide w.Valid, ToBitsM, Pow2;
    Pow2Values();
    ghost var h, was := blCn[..], w.bits;
    var i := i0;
    while i <= ie
      invariant w.Valid() && blCn[..] == h && w.bits + Cells(h, i, ie) == was + Cells(h, i0, ie)
      invariant old(w.pd) <= w.pd && forall j :: w.pd <= j < w.out.Length ==> w.out[j] == old(w.out[j])
      decreases ie + 1 - i
    {
      ghost var b := w.bits;
      w.WrN(blCn[i], 4);
      i := i + 1;
      assert b + (ToBitsM(h[i - 1], 4) + Cells(h, i, ie)) == w.bits + Cells(h, i, ie);
    }
    assert w.bits + [] == w.bits;
  }

  // the magic word and table 1
  method WriteTable1(w: Writer4, blCn: array<nat>, minBl: nat, maxBl: nat)
    requires w.Valid() && w.bits == [] && blCn.Length == HELPERS && Stored4(blCn[..], minBl, maxBl) && w.out as object != blCn
    modifies w, w.out
    ensures w.Valid() && w.bits == ToBitsM(MAGIC4, 16) + HelperBits4(blCn[..], minBl, maxBl)
    ensures old(w.pd) <= w.pd && forall i :: w.pd <= i < w.out.Length ==> w.out[i] == old(w.out[i])
  {
    hide w.Valid, ToBitsM, Pow2, Cells;
    Pow2Values();
    ghost var h := blCn[..];
    w.WrN(MAGIC4, 16);
    w.WrN(minBl - 1, 3);
    w.WrN(maxBl, 5);
    w.WrN(blCn[0], 4);
    WriteCells(w, blCn, minBl, maxBl);
    WriteCells(w, blCn, 0x10, 0x15);
    var a, b, c, d := ToBitsM(MAGIC4, 16), ToBitsM(minBl - 1, 3), ToBitsM(maxBl, 5), ToBitsM(h[0], 4);
    var e, f := Cells(h, minBl, maxBl), Cells(h, 16, 21);
    assert a + b + c + d + e + f == a + (b + (c + (d + (e + f))));
  }

  method WriteThrees(w: Writer4, j0: nat)
    requires w.Valid()
    modifies w, w.out
    ensures w.Valid() && w.bits == old(w.bits) + Threes(j0)
    ensures old(w.pd) <= w.pd && forall i :: w.pd <= i < w.out.Length ==> w.out[i] == old(w.out[i])
  {
    hide w.Valid, ToBitsM, Pow2;
    Pow2Values();
    var j: nat := j0;
    while j >= 7
      invariant w.Valid() && j <= j0 && w.bits + Threes(j) == old(w.bits) + Threes(j0)
      invariant old(w.pd) <= w.pd && forall i :: w.pd <= i < w.out.Length ==> w.out[i] == old(w.out[i])
    {
      ghost var was := w.bits;
      w.WrN(7, 3);
      j := j - 7;
      assert was + (ToBitsM(7, 3) + Threes(j)) == w.bits + Threes(j);
    }
    w.WrN(j, 3);
  }

  method WriteSevens(w: Writer4, j0: nat)
    requires w.Valid()
    modifies w, w.out
    ensures w.Valid() && w.bits == old(w.bits) + Sevens(j0)
    ensures old(w.pd) <= w.pd && forall i :: w.pd <= i < w.out.Length ==> w.out[i] == old(w.out[i])
  {
    hide w.Valid, ToBitsM, Pow2;
    Pow2Values();
    var j: nat := j0;
    while j >= 0x7F
      invariant w.Valid() && j <= j0 && w.bits + Sevens(j) == old(w.bits) + Sevens(j0)
      invariant old(w.pd) <= w.pd && forall i :: w.pd <= i < w.out.Length ==> w.out[i] == old(w.out[i])
    {
      ghost var was := w.bits;
      w.WrN(0x7F, 7);
      j := j - 0x7F;
      assert was + (ToBitsM(0x7F, 7) + Sevens(j)) == w.bits + Sevens(j);
    }
    w.WrN(j, 7);
  }

  // the run whose bytes stand at place i
  method WriteRunItem(w: Writer4, huf: array<HufWr>, blBuf: array<nat>, i: nat, ghost r: Run4, ghost h: seq<nat>) returns (next: nat)
    requires w.Valid() && Complete(h, BITS4) && Coding4(huf[..], h, |h|) && RunCoded(r, h)
    requires i + |RunBytes4(r)| <= blBuf.Length && blBuf[i..i + |RunBytes4(r)|] == RunBytes4(r)
    requires w.out as object != huf && w.out as object != blBuf
    modifies w, w.out
    ensures w.Valid() && w.bits == old(w.bits) + RunBits4(r, h) && next == i + |RunBytes4(r)|
    ensures old(w.pd) <= w.pd && forall i :: w.pd <= i < w.out.Length ==> w.out[i] == old(w.out[i])
  {
    hide w.Valid, ToBitsM, Pow2, SymBits, Complete, Coding4, Threes, Sevens, RunBytes4;
    Pow2Values();
    ghost var was, b := w.bits, RunBytes4(r);
    assert blBuf[i] == b[0] && (|b| == 2 ==> blBuf[i + 1] == b[1]);
    RunParts(r);
    var j := blBuf[i];
    next := i + 1;
    WrH4(w, huf, j, h);
    if j == 0x12 {
      j := blBuf[next];
      next := next + 1;
      if j >= 7 {
        w.WrN(7, 3);
        WriteSevens(w, j - 7);
        assert was + SymBits(h, RunSym(r)) + ToBitsM(7, 3) + Sevens(j - 7) == was + (SymBits(h, RunSym(r)) + (ToBitsM(7, 3) + Sevens(j - 7)));
      } else {
        w.WrN(j, 3);
        assert was + SymBits(h, RunSym(r)) + ToBitsM(j, 3) == was + (SymBits(h, RunSym(r)) + ToBitsM(j, 3));
      }
    } else if j == 0x15 {
      WriteThrees(w, blBuf[next]);
      next := next + 1;
      assert was + SymBits(h, RunSym(r)) + RunExtra(r) == was + (SymBits(h, RunSym(r)) + RunExtra(r));
    } else {
      assert SymBits(h, RunSym(r)) + [] == SymBits(h, RunSym(r));
    }
  }

  lemma RunParts(r: Run4)
    requires Shaped4(r)
    ensures RunSym(r) == 0x12 <==> r.Z? && r.n >= 4
    ensures RunSym(r) == 0x15 <==> r.R? && r.n >= 4
    ensures r.L? || r.n < 4 ==> RunExtra(r) == []
  {
  }

  lemma {:induction false} ListPlace4(items: seq<Run4>, k: nat, h: seq<nat>)
    requires k < |items| && AllShaped4(items)
    ensures ListBytes4(items[..k + 1]) == ListBytes4(items[..k]) + RunBytes4(items[k]) <= ListBytes4(items)
    ensures RunsBits(items[..k + 1], h) == RunsBits(items[..k], h) + RunBits4(items[k], h)
    decreases |items|
  {
    hide RunBytes4, RunBits4;
    var rest := items[..|items| - 1];
    assert items[..k + 1][..k] == items[..k];
    if k < |rest| {
      assert rest[..k] == items[..k] && rest[..k + 1] == items[..k + 1];
      ListPlace4(rest, k, h);
    } else {
      assert items[..k + 1] == items;
    }
  }

  lemma SomeLeft4(items: seq<Run4>, k: nat)
    requires k <= |items| && |ListBytes4(items[..k])| < |ListBytes4(items)|
    ensures k < |items|
  {
    assert items[..|items|] == items;
  }

  lemma AllListed4(items: seq<Run4>, k: nat, h: seq<nat>)
    requires k <= |items| && AllShaped4(items) && |ListBytes4(items[..k])| >= |ListBytes4(items)|
    ensures items[..k] == items
  {
    hide RunBytes4;
    if k < |items| { ListPlace4(items, k, h); }
  }

  lemma NoneListed4(items: seq<Run4>, h: seq<nat>)
    ensures ListBytes4(items[..0]) == [] && RunsBits(items[..0], h) == []
  {
  }

  lemma CodedRun(items: seq<Run4>, h: seq<nat>, k: nat)
    requires AllRuns(items, h) && k < |items|
    ensures RunCoded(items[k], h)
  {
  }

  // table 2
  method WriteTable2(w: Writer4, huf: array<HufWr>, blBuf: array<nat>, blDat: nat, ghost items: seq<Run4>, ghost h: seq<nat>)
    requires w.Valid() && Complete(h, BITS4) && Coding4(huf[..], h, |h|)
    requires AllShaped4(items) && AllRuns(items, h) && blDat <= blBuf.Length && blBuf[..blDat] == ListBytes4(items)
    requires w.out as object != huf && w.out as object != blBuf
    modifies w, w.out
    ensures w.Valid() && w.bits == old(w.bits) + RunsBits(items, h)
    ensures old(w.pd) <= w.pd && forall i :: w.pd <= i < w.out.Length ==> w.out[i] == old(w.out[i])
  {
    hide w.Valid, RunBits4, RunBytes4, RunCoded, Complete, Coding4, ListBytes4, RunsBits, AllShaped4, AllRuns;
    ghost var was, buf := w.bits, blBuf[..];
    ghost var k: nat := 0;
    var i := 0;
    NoneListed4(items, h);
    while i < blDat
      invariant k <= |items| && i == |ListBytes4(items[..k])| <= blDat && blBuf[..] == buf && huf[..] == old(huf[..])
      invariant w.Valid() && w.bits == was + RunsBits(items[..k], h)
      invariant old(w.pd) <= w.pd && forall i :: w.pd <= i < w.out.Length ==> w.out[i] == old(w.out[i])
      decreases |items| - k
    {
      SomeLeft4(items, k);
      ListPlace4(items, k, h);
      CodedRun(items, h, k);
      SqCompress.ListSlice(ListBytes4(items[..k]), RunBytes4(items[k]), buf[..blDat]);
      SqCompress.SubSlice(buf, blDat, i, i + |RunBytes4(items[k])|);
      i := WriteRunItem(w, huf, blBuf, i, items[k], h);
      k := k + 1;
    }
    AllListed4(items, k, h);
  }

  //////////////////////////////////////////////////////////////////////////////
  // The compressor
  //////////////////////////////////////////////////////////////////////////////

  // z, whatever follows it, is decoded to the data
  ghost predicate DecodesAnyway4(z: seq<byte>, data: seq<byte>) {
    forall y: seq<byte> :: z <= y ==> Decodes4(y, data) && ValM(Stream(y), 0, 16) == MAGIC4
  }

  // z is decoded to the data, into any buffer they fit in
  ghost predicate Decodes4(z: seq<byte>, data: seq<byte>) {
    forall buf: seq<byte> :: |buf| >= |data| ==> DecodesInto4(z, buf, data)
  }

  ghost predicate DecodesInto4(z: seq<byte>, buf: seq<byte>, data: seq<byte>) {
    var r := Decode4(z, buf);
    r.Done4? && r.n == |data| && r.buf[..|data|] == data
  }

  lemma PlanDecodes4(z: seq<byte>, data: seq<byte>, pl: Plan4)
    requires PlanOk4(pl) && Starts(Stream(z), 0, PlanBits4(pl)) && Produce(pl.toks) == Some(data)
    ensures Decodes4(z, data) && ValM(Stream(z), 0, 16) == MAGIC4
  {
    hide Decode4, PlanOk4, Starts, Stream, PlanBits4, Produce, ValM;
    HeadRead(Stream(z), pl);
    forall buf: seq<byte> | |buf| >= |data| ensures DecodesInto4(z, buf, data) {
      var b := StreamDecodes4(z, pl, buf);
    }
  }

  lemma PlanDecodesAnyway4(z: seq<byte>, data: seq<byte>, pl: Plan4)
    requires |z| % 2 == 0 && PlanOk4(pl) && Starts(Stream(z), 0, PlanBits4(pl)) && Produce(pl.toks) == Some(data)
    ensures DecodesAnyway4(z, data)
  {
    hide Decodes4, PlanOk4, Stream, PlanBits4, Produce, ValM;
    forall y: seq<byte> | z <= y ensures Decodes4(y, data) && ValM(Stream(y), 0, 16) == MAGIC4 {
      assert y[..|z|] == z;
      StreamPrefix(y, |z|);
      assert Stream(y)[0..0 + |PlanBits4(pl)|] == Stream(z)[0..0 + |PlanBits4(pl)|];
      PlanDecodes4(y, data, pl);
    }
  }

  // every symbol used has a code
  lemma AllHaveCodes(toks: seq<LzTok>, ch: seq<nat>, lens: seq<nat>)
    requires AllCounted4(toks, ch) && |lens| == SYMS4 && forall i :: 0 <= i < SYMS4 && ch[i] > 0 ==> lens[i] >= 1
    ensures AllCoded4(toks, lens)
  {
    hide SymOf;
    forall i | 0 <= i < |toks| ensures Coded4(toks[i], lens) { assert Counted4(toks[i], ch); }
  }

  lemma Done4Parts(items: seq<Inter>, data: seq<byte>, bytes: seq<byte>, ch: seq<nat>)
    requires Lz4Done(items, data, bytes, ch)
    ensures AllInter4(items) && bytes == InterBytes4(items) + [TK_END4] && Covered(items) == |data|
    ensures Produce(InterToks(items, data)) == Some(data) && AllCounted4(InterToks(items, data), ch)
    ensures |ch| == 0x151 && ch[END4] > 0
  {
  }

  // all bits written before the flush are among the bytes stored
  lemma Flushed4(out: seq<byte>, body: seq<bool>, rest: seq<bool>)
    requires |out| % 2 == 0 && body + ToBitsM(0, 16) == Stream(out) + rest && |rest| <= 16
    ensures Starts(Stream(out), 0, body)
  {
    hide Stream, ToBitsM;
    var s := Stream(out);
    assert (body + ToBitsM(0, 16))[..|body|] == body && (s + rest)[..|body|] == s[..|body|];
    assert s[0..0 + |body|] == s[..|body|];
  }

  lemma Finished4(w: Writer4, pin: seq<byte>, pl: Plan4)
    requires w.Valid() && w.pd <= w.out.Length && PlanOk4(pl) && Produce(pl.toks) == Some(pin)
    requires w.bits == PlanBits4(pl) + ToBitsM(0, 16)
    ensures DecodesAnyway4(w.out[..w.pd], pin) && w.pd % 2 == 0
  {
    hide *;
    w.Kept();
    Flushed4(w.out[..w.pd], PlanBits4(pl), ToBitsM(w.held, 32 - w.pb));
    PlanDecodesAnyway4(w.out[..w.pd], pin, pl);
  }

  // the lengths of the main code, and the tables for them
  method Tables4(chCn: array<nat>, ghost toks: seq<LzTok>)
    returns (chBlcn: array<nat>, blBuf: array<nat>, blDat: nat, blCn: array<nat>, blBlcn: array<nat>, minBl: nat, maxBl: nat, ghost pl: Plan4)
    requires chCn.Length == 0x151 && AllCounted4(toks, chCn[..]) && chCn[END4] > 0
    modifies chCn
    ensures fresh(chBlcn) && fresh(blBuf) && fresh(blCn) && fresh(blBlcn) && blCn != blBlcn && blBuf != blBlcn && chBlcn !in {blBuf, blCn, blBlcn}
    ensures blBuf != blCn
    ensures PlanOk4(pl) && AllShaped4(pl.items) && pl.lens == chCn[..SYMS4] && pl.toks == toks && pl.lo == minBl && pl.hi == maxBl
    ensures blCn.Length == HELPERS && pl.h == blCn[..] && blDat <= blBuf.Length && blBuf[..blDat] == ListBytes4(pl.items)
    ensures Histogram4(chBlcn[..], pl.lens) && Histogram4(blBlcn[..], pl.h)
  {
    hide Complete, AllCounted4, AllCoded4, AllRuns, AllShaped4, Stored4, Expand4, HuffmanBuild.TwoCounted;
    chBlcn := new nat[16];
    var t := new ChTab[0x152];
    ghost var ch := chCn[..];
    ghost var _ := HuffmanCode.Sd4Huffman(chCn, chBlcn, SYMS4, t);
    ghost var lens := chCn[..SYMS4];
    AllHaveCodes(toks, ch, lens);
    ghost var items;
    blBuf, blDat, blCn, blBlcn, minBl, maxBl, items := PackLengths4(chCn, t);
    assert chCn[..SYMS4] == lens;
    pl := Plan4(lens, blCn[..], minBl, maxBl, items, toks);
  }

  ghost predicate Histogram4(blcn: seq<nat>, lens: seq<nat>) {
    |blcn| == 16 && blcn[0] == 0 && forall l :: 1 <= l <= BITS4 ==> blcn[l] == Count(lens, l)
  }

  // Both tables are written, and the codes of the data are ready.
  method WriteTables4(w: Writer4, chCn: array<nat>, chBlcn: array<nat>, blBuf: array<nat>, blDat: nat, blCn: array<nat>, blBlcn: array<nat>,
                      minBl: nat, maxBl: nat, ghost pl: Plan4) returns (bad: bool, huf: array<HufWr>)
    requires w.Valid() && w.bits == [] && PlanOk4(pl) && AllShaped4(pl.items) && pl.lo == minBl && pl.hi == maxBl
    requires chCn.Length == 0x151 && pl.lens == chCn[..SYMS4]
    requires blCn.Length == HELPERS && pl.h == blCn[..] && blDat <= blBuf.Length && blBuf[..blDat] == ListBytes4(pl.items)
    requires Histogram4(chBlcn[..], pl.lens) && Histogram4(blBlcn[..], pl.h)
    requires chBlcn !in {blBuf, blCn, blBlcn, chCn} && blBlcn !in {chCn, blCn, blBuf}
    requires w.out as object !in {chCn, chBlcn, blBuf, blCn, blBlcn}
    modifies w, w.out, chBlcn, blBlcn
    ensures !bad && fresh(huf) && w.Valid() && Coding4(huf[..], pl.lens, SYMS4)
    ensures w.bits == ToBitsM(MAGIC4, 16) + HelperBits4(pl.h, minBl, maxBl) + RunsBits(pl.items, pl.h)
    ensures old(w.pd) <= w.pd && forall i :: w.pd <= i < w.out.Length ==> w.out[i] == old(w.out[i])
  {
    hide w.Valid, ToBitsM, HelperBits4, RunsBits, Complete, Coding4, AllShaped4, ListBytes4, PlanOk4, Stored4, AllRuns, Count;
    PlanParts4(pl);
    StoredBounds(pl.h, minBl, maxBl);
    LensBounds(pl.lens);
    WriteTable1(w, blCn, minBl, maxBl);
    huf := new HufWr[0x180];
    assert blCn[..HELPERS] == pl.h;
    bad := WrHufi4(huf, blCn, blBlcn, HELPERS);
    WriteTable2(w, huf, blBuf, blDat, pl.items, pl.h);
    bad := WrHufi4(huf, chCn, chBlcn, SYMS4);
  }

  lemma StoredBounds(h: seq<nat>, lo: nat, hi: nat)
    requires Stored4(h, lo, hi)
    ensures |h| == HELPERS && Bounded(h, BITS4) && Bounded(h, 15)
  {
  }

  lemma LensBounds(lens: seq<nat>)
    requires Complete(lens, BITS4)
    ensures Bounded(lens, BITS4)
  {
  }

  // The plan writes the intermediate code of the data.
  ghost predicate Planned4(items: seq<Inter>, data: seq<byte>, pl: Plan4) {
    && AllInter4(items) && Covered(items) == |data|
    && PlanOk4(pl) && pl.toks == InterToks(items, data) && Produce(pl.toks) == Some(data)
  }

  // the bits before the data
  function FrontSize4(pl: Plan4): nat
    requires PlanOk4(pl)
  {
    16 + |HelperBits4(pl.h, pl.lo, pl.hi)| + |RunsBits(pl.items, pl.h)|
  }

  lemma PlannedIs4(items: seq<Inter>, data: seq<byte>, pl: Plan4)
    requires AllInter4(items) && Covered(items) == |data|
    requires PlanOk4(pl) && pl.toks == InterToks(items, data) && Produce(pl.toks) == Some(data)
    ensures Planned4(items, data, pl)
    ensures |ToBitsM(MAGIC4, 16) + HelperBits4(pl.h, pl.lo, pl.hi) + RunsBits(pl.items, pl.h)| == FrontSize4(pl)
  {
    hide PlanOk4, HelperBits4, RunsBits;
  }

  // the second half of sd4_comp, with the intermediate code at lz
  method Encode4(pin: seq<byte>, pout: array<byte>, lout: nat, lz: nat, chCn: array<nat>, ghost items: seq<Inter>)
    returns (n: nat, ghost pl: Plan4)
    requires lz <= lout <= pout.Length && chCn.Length == 0x151 && pout as object != chCn
    requires Lz4Done(items, pin, pout[lz..lout], chCn[..])
    modifies pout, chCn
    ensures n <= lout && n % 2 == 0 && (n > 0 ==> DecodesAnyway4(pout[..n], pin))
    ensures Planned4(items, pin, pl) && (n > 0 <==> AllClear4(FrontSize4(pl), items, pin, pl.lens, lout))
    ensures n > 0 ==> n == StoredBytes(|PlanBits4(pl)| + 16)
  {
    hide Lz4Done, PlanOk4, DecodesAnyway4, Histogram4, AllShaped4, AllRuns, AllCoded4, AllCounted4, Coding4, PlanBits4, Stream, ValM,
      Writer4.Valid, HelperBits4, RunsBits, ToksBits4, SymBits, AllInter4, Covered, InterToks, InterBytes4, ToBitsM, ListBytes4, Complete, Pow2,
      AllClear4, Planned4;
    ghost var code := pout[lz..lout];
    Done4Parts(items, pin, code, chCn[..]);
    var chBlcn, blBuf, blDat, blCn, blBlcn, minBl, maxBl;
    chBlcn, blBuf, blDat, blCn, blBlcn, minBl, maxBl, pl := Tables4(chCn, InterToks(items, pin));
    PlanParts4(pl);
    PlannedIs4(items, pin, pl);
    n := 0;
    var w := new Writer4(pout);
    var bad, huf := WriteTables4(w, chCn, chBlcn, blBuf, blDat, blCn, blBlcn, minBl, maxBl, pl);
    if bad { return; }
    forall i | w.pd <= i < lout && lz <= i ensures pout[i] == code[i - lz] { }
    n := WriteData4(w, pin, lout, lz, huf, pl, items);
    ghost var hb, rb, tb, eb := HelperBits4(pl.h, minBl, maxBl), RunsBits(pl.items, pl.h), ToksBits4(pl.toks, pl.lens), SymBits(pl.lens, END4);
    assert ToBitsM(MAGIC4, 16) + hb + rb + (tb + eb) == ToBitsM(MAGIC4, 16) + (hb + (rb + (tb + eb)));
    if n > 0 { Finished4(w, pin, pl); }
  }

  // The data of all tokens, the end symbol, and a word of zeros; 0 if the pass has to give up.
  method WriteData4(w: Writer4, pin: seq<byte>, lout: nat, lz: nat, huf: array<HufWr>, ghost pl: Plan4, ghost items: seq<Inter>) returns (n: nat)
    requires w.Valid() && Complete(pl.lens, BITS4) && |pl.lens| == SYMS4 && pl.lens[END4] >= 1 && Coding4(huf[..], pl.lens, SYMS4)
    requires CanStart4(w, pin, lout, lz, pl.lens, items) && w.out as object != huf && pl.toks == InterToks(items, pin)
    modifies w, w.out
    ensures n > 0 <==> AllClear4(|old(w.bits)|, items, pin, pl.lens, lout)
    ensures n > 0 ==> w.Valid() && n == w.pd == StoredBytes(|w.bits|) <= lout
                      && w.bits == old(w.bits) + (ToksBits4(pl.toks, pl.lens) + SymBits(pl.lens, END4)) + ToBitsM(0, 16)
  {
    hide w.Valid, CanStart4, Complete, Coding4, ToksBits4, SymBits, ToBitsM, AllClear4, InterToks, Pow2, Emitter4.Valid;
    ghost var was := w.bits;
    var e := new Emitter4(w, pin, lout, huf, lz, pl.lens, items);
    var ok := e.Emit();
    if !ok { return 0; }
    assert items[..|items|] == items;
    ZeroWord();
    w.WrN(0, 16);
    w.Size();
    n := w.pd;
    assert was + ToksBits4(pl.toks, pl.lens) + SymBits(pl.lens, END4) == was + (ToksBits4(pl.toks, pl.lens) + SymBits(pl.lens, END4));
  }

  lemma ZeroWord()
    ensures 0 < Pow2(16)
  {
  }

  const NO_PLAN4 := Plan4([], [], 0, 0, [], [])

  // n bytes hold the stream, which never ran into the intermediate code
  ghost predicate Succeeds4(n: nat, items: seq<Inter>, data: seq<byte>, pl: Plan4, lout: nat) {
    Planned4(items, data, pl) && AllClear4(FrontSize4(pl), items, data, pl.lens, lout) && n == StoredBytes(|PlanBits4(pl)| + 16)
  }

  // the stream runs into the intermediate code, or the code ends with an empty run
  ghost predicate Overlaps4(items: seq<Inter>, data: seq<byte>, pl: Plan4, lout: nat) {
    Planned4(items, data, pl) && !AllClear4(FrontSize4(pl), items, data, pl.lens, lout)
  }

  // sd4_comp: the number of bytes written, or 0 if the data do not fit
  method Sd4Comp(pin: seq<byte>, pout: array<byte>, lout: nat, flg: nat, addr: nat)
    returns (n: nat, ghost items: seq<Inter>, ghost pl: Plan4)
    requires |pin| < 0x1_0000 && lout <= pout.Length
    modifies pout
    ensures n <= lout && n % 2 == 0 && (n > 0 ==> DecodesAnyway4(pout[..n], pin))
    ensures if n > 0 then Succeeds4(n, items, pin, pl, lout)
            else |pin| == 0 || lout < 0x20 || TooLong4(items, pin, lout - 0x20) || Overlaps4(items, pin, pl, lout)
  {
    hide Lz4Done, DecodesAnyway4, Stream, ValM, Planned4, AllClear4, TooLong4, PlanBits4;
    pl := NO_PLAN4;
    var chCn := new nat[0x151](_ => 0);
    var lzLength: nat;
    lzLength, items := Complz4(pin, pout, lout, flg, chCn, addr);
    if lzLength == 0 { return 0, items, pl; }
    SqCompress.MoveToEnd(pout, lzLength, lout);
    n, pl := Encode4(pin, pout, lout, lout - lzLength, chCn, items);
  }
}
