/**
 The last pass of the SQ compressor. The intermediate code stands at the end of the very
 buffer the stream is written to; what is written never depends on code already overwritten.
 */
module SqEmit {
  import opened Bits
  import opened LsbStream
  import opened LzTokens
  import opened Canonical
  import opened SqCodes
  import opened SqFormat
  import opened SqLz
  import opened SqComplz

  //////////////////////////////////////////////////////////////////////////////
  // Places in the intermediate code
  //////////////////////////////////////////////////////////////////////////////

  lemma {:induction false} InterPrefix(items: seq<Inter>, k: nat)
    requires k <= |items|
    ensures InterBytes(items[..k]) <= InterBytes(items)
    decreases |items|
  {
    hide ItemBytes;
    if k < |items| {
      var rest := items[..|items| - 1];
      assert rest[..k] == items[..k];
      InterPrefix(rest, k);
    } else {
      assert items[..k] == items;
    }
  }

  // item k stands behind the items before it
  lemma ItemPlace(items: seq<Inter>, k: nat, data: seq<byte>)
    requires k < |items|
    ensures InterBytes(items[..k + 1]) == InterBytes(items[..k]) + ItemBytes(items[k]) <= InterBytes(items)
    ensures Covered(items[..k + 1]) == Covered(items[..k]) + Span(items[k])
    ensures InterToks(items[..k + 1], data)
            == InterToks(items[..k], data) + ItemToks(items[k], data, Covered(items[..k]))
  {
    hide ItemBytes, Span, ItemToks;
    assert items[..k + 1][..k] == items[..k];
    InterPrefix(items, k + 1);
  }

  lemma {:induction false} CoveredPrefix(items: seq<Inter>, k: nat)
    requires k <= |items|
    ensures Covered(items[..k]) <= Covered(items)
    decreases |items|
  {
    if k < |items| {
      var rest := items[..|items| - 1];
      assert rest[..k] == items[..k];
      CoveredPrefix(rest, k);
    } else {
      assert items[..k] == items;
    }
  }

  lemma {:induction false} ToksPrefix(items: seq<Inter>, k: nat, data: seq<byte>)
    requires k <= |items|
    ensures InterToks(items[..k], data) <= InterToks(items, data)
    decreases |items|
  {
    hide ItemToks;
    if k < |items| {
      var rest := items[..|items| - 1];
      assert rest[..k] == items[..k];
      ToksPrefix(rest, k, data);
    } else {
      assert items[..k] == items;
    }
  }

  // Runs of length zero may be left out.
  lemma {:induction false} NothingLeft(items: seq<Inter>, k: nat, data: seq<byte>)
    requires k <= |items| && AllInter(items) && Covered(items[..k]) == Covered(items)
    ensures InterToks(items[..k], data) == InterToks(items, data)
    decreases |items|
  {
    if k < |items| {
      var rest, last := items[..|items| - 1], items[|items| - 1];
      assert rest[..k] == items[..k];
      CoveredPrefix(rest, k);
      NothingLeft(rest, k, data);
      assert InterOk(last) && last == Run(0);
    } else {
      assert items[..k] == items;
    }
  }

  lemma {:induction false} ToksBitsConcat(a: seq<LzTok>, b: seq<LzTok>, c: Codes)
    ensures ToksBits(a + b, c) == ToksBits(a, c) + ToksBits(b, c)
    decreases |b|
  {
    hide TokBits;
    if b == [] {
      assert a + b == a;
    } else {
      assert (a + b)[..|a + b| - 1] == a + b[..|b| - 1];
      ToksBitsConcat(a, b[..|b| - 1], c);
    }
  }

  lemma ToksBitsOne(t: LzTok, c: Codes)
    ensures ToksBits([t], c) == TokBits(t, c)
  {
    hide TokBits;
    assert [t][..0] == [];
  }

  lemma RunBytesAre(n: nat)
    requires n <= RUN_MAX
    ensures RunBytes(n)[0] >= TK_CHRS
    ensures if n < 15 then RunBytes(n) == [TK_CHRS + n] else RunBytes(n) == [TK_CHRS + 15, n % 256, n / 256]
  {
  }

  lemma CopyBytesAre(offs: nat, len: nat)
    requires 1 <= offs <= MAX_OFFS && MIN_REP <= len <= MAX_REP
    ensures ItemBytes(Copy(offs, len)) == LenBytes(len) + OffBytes(offs)
    ensures LenBytes(len)[0] == RepCode(len) + 1 < TK_CHRS
  {
    hide RepCode, RepBas, RepBln, OffBytes;
  }

  lemma NoItems(items: seq<Inter>, data: seq<byte>, c: Codes)
    ensures InterBytes(items[..0]) == [] && Covered(items[..0]) == 0 && InterToks(items[..0], data) == [] && ToksBits([], c) == []
  {
  }

  // the bits of a repeat count whose symbol has a code
  ghost function LenCode(len: nat, c: Codes): seq<bool> {
    if 3 <= len <= 258 && 0x101 + RepCode(len) < |c.ch| && c.ch[0x101 + RepCode(len)] >= 1 then RepLenBits(len, c) else []
  }

  //////////////////////////////////////////////////////////////////////////////
  // Room
  //////////////////////////////////////////////////////////////////////////////

  // bytes of the whole words among the bits
  function Words(n: nat): nat {
    n / 16 * 2
  }

  // where item k stands when the code with its end mark ends at place lout
  ghost function ItemAt(items: seq<Inter>, k: nat, lout: nat): int
    requires k <= |items|
  {
    lout - 1 - |InterBytes(items)| + |InterBytes(items[..k])|
  }

  // the words stored once k items are written behind the tables
  ghost function Stored(front: nat, items: seq<Inter>, data: seq<byte>, c: Codes, k: nat): nat
    requires k <= |items|
  {
    Words(front + |ToksBits(InterToks(items[..k], data), c)|)
  }

  // Item k is far enough ahead of the stream, which takes front bits before the first item.
  ghost predicate Clear(front: nat, items: seq<Inter>, data: seq<byte>, c: Codes, lout: nat, k: nat)
    requires k <= |items|
  {
    Stored(front, items, data, c, k) + 0x20 <= ItemAt(items, k, lout)
  }

  // The stream never comes near the items still to be read.
  ghost predicate AllClear(front: nat, items: seq<Inter>, data: seq<byte>, c: Codes, lout: nat) {
    forall k :: 0 <= k < |items| ==> Clear(front, items, data, c, lout, k)
  }

  // The stream has run over item k.
  ghost predicate Over(front: nat, items: seq<Inter>, data: seq<byte>, c: Codes, lout: nat, k: nat)
    requires k <= |items|
  {
    Stored(front, items, data, c, k) > ItemAt(items, k, lout)
  }

  // behind the last data there is at most one byte of code before the end mark
  lemma {:induction false} LittleLeft(items: seq<Inter>, k: nat)
    requires k < |items| && AllInter(items) && Solid(items, true) && Covered(items[..k]) == Covered(items)
    ensures k == |items| - 1 && |InterBytes(items)| == |InterBytes(items[..k])| + 1
  {
    hide InterBytes, Covered, AllInter;
    CoveredPrefix(items, k + 1);
    ItemPlace(items, k, []);
    EmptyItem(items, k);
    assert items[..k + 1] == items;
  }

  lemma EmptyItem(items: seq<Inter>, k: nat)
    requires k < |items| && AllInter(items) && Span(items[k]) == 0
    ensures items[k] == Run(0) && |ItemBytes(items[k])| == 1
  {
    assert InterOk(items[k]);
  }

  // The codes and the two encoding tables in use.
  ghost predicate TablesFit(chHuf: array<HufWr>, offsHuf: array<HufWr>, c: Codes)
    reads chHuf, offsHuf
  {
    && CodesOk(c) && c.ch[END_SYM] >= 1
    && Coding(chHuf[..], c.ch, |c.ch|) && Coding(offsHuf[..], c.off, |c.off|)
  }

  lemma FitParts(chHuf: array<HufWr>, offsHuf: array<HufWr>, c: Codes)
    requires TablesFit(chHuf, offsHuf, c)
    ensures Coding(chHuf[..], c.ch, |c.ch|) && Coding(offsHuf[..], c.off, |c.off|)
    ensures Complete(c.ch, MAX_BITS) && Complete(c.off, MAX_BITS) && 0x101 <= |c.ch| && c.ch[END_SYM] >= 1 && END_SYM == 0x100
  {
    hide Complete, Coding;
  }

  // The intermediate code of the items stands at lz, where it is not overwritten yet.
  ghost predicate CanStart(w: Writer, pin: seq<byte>, lout: nat, lz: nat, c: Codes, items: seq<Inter>)
    reads w, w.out
  {
    && AllInter(items) && Covered(items) == |pin| && AllCoded(InterToks(items, pin), c) && |w.bits| > 32
    && lz + |InterBytes(items)| + 1 == lout <= w.out.Length && lout <= w.pe
    && var code := InterBytes(items) + [TK_END];
       forall i :: w.pd <= i < lout && lz <= i ==> w.out[i] == code[i - lz]
  }

  class Emitter {
    const w: Writer
    const pin: seq<byte>
    const lout: nat
    const chHuf: array<HufWr>
    const offsHuf: array<HufWr>
    ghost const c: Codes
    ghost const items: seq<Inter>
    ghost const head: seq<bool>
    var pi: nat
    var lz: nat
    // items done
    ghost var k: nat

    ghost function Code(): seq<byte> {
      InterBytes(items) + [TK_END]
    }

    ghost predicate Shape()
      reads chHuf, offsHuf
    {
      && TablesFit(chHuf, offsHuf, c) && |Code()| <= lout <= w.out.Length && lout <= w.pe && |head| > 32
      && AllInter(items) && Covered(items) == |pin| && AllCoded(InterToks(items, pin), c)
      && w.out as object != chHuf && w.out as object != offsHuf
    }

    // what is not yet overwritten of the code from place `from` on
    ghost predicate Intact(from: nat)
      reads w, w.out
    {
      lout <= w.out.Length && |Code()| <= lout &&
      forall i :: w.pd <= i < lout && from <= i ==> lout - |Code()| <= i && w.out[i] == Code()[i - (lout - |Code()|)]
    }

    // the bits the first n items stand for
    ghost function Bits(n: nat): seq<bool>
      requires n <= |items|
    {
      head + ToksBits(InterToks(items[..n], pin), c)
    }

    ghost predicate Valid()
      reads this, w, w.out, chHuf, offsHuf
    {
      && Shape() && w.Valid() && k <= |items| && Intact(lz)
      && pi == Covered(items[..k]) && lz == lout - |Code()| + |InterBytes(items[..k])|
      && w.bits == Bits(k)
    }

    constructor (w0: Writer, pin0: seq<byte>, lout0: nat, chHuf0: array<HufWr>, offsHuf0: array<HufWr>,
                 lz0: nat, ghost c0: Codes, ghost items0: seq<Inter>)
      requires w0.Valid() && TablesFit(chHuf0, offsHuf0, c0) && CanStart(w0, pin0, lout0, lz0, c0, items0)
      requires w0.out as object != chHuf0 && w0.out as object != offsHuf0
      ensures Valid() && k == 0 && w == w0 && pin == pin0 && lout == lout0 && c == c0 && items == items0 && head == w0.bits
      ensures chHuf == chHuf0 && offsHuf == offsHuf0
    {
      w, pin, lout, chHuf, offsHuf := w0, pin0, lout0, chHuf0, offsHuf0;
      c, items, head := c0, items0, w0.bits;
      pi, lz, k := 0, lz0, 0;
      new;
      hide CanStart, TablesFit, w.Valid, Pow2, BytesBits, ToBits, Valid;
      Started();
    }

    lemma Started()
      requires TablesFit(chHuf, offsHuf, c) && w.Valid() && CanStart(w, pin, lout, lz, c, items) && head == w.bits
      requires w.out as object != chHuf && w.out as object != offsHuf && pi == 0 && k == 0
      ensures Valid()
    {
      hide TablesFit, AllInter, InterBytes, Covered, InterToks, AllCoded, ToksBits, w.Valid, Pow2, BytesBits, ToBits, RepBas, RepBln, OffBas, OffBln;
      NoItems(items, pin, c);
    }

    ghost predicate CodeHas(at: nat, b: seq<byte>) {
      at + |b| < |Code()| && Code()[at..at + |b|] == b
    }

    // item n is where lz points, unless it is overwritten
    lemma CodeAt(n: nat)
      requires n <= |items| && |Code()| <= lout && AllInter(items)
      ensures |InterBytes(items[..n])| < |Code()|
      ensures n == |items| ==> Code()[|InterBytes(items[..n])|] == TK_END
      ensures n < |items| ==> InterOk(items[n]) && CodeHas(|InterBytes(items[..n])|, ItemBytes(items[n]))
    {
      hide ItemBytes, InterOk, InterBytes;
      InterPrefix(items, n);
      if n < |items| {
        ItemPlace(items, n, pin);
        SlicePrefix(InterBytes(items[..n]), ItemBytes(items[n]), InterBytes(items));
      } else {
        assert items[..n] == items;
      }
    }
  
    // characters of a run
    method WriteChars(n: nat, ghost done: seq<LzTok>)
      requires Shape() && w.Valid() && pi + n <= |pin| && w.bits == head + ToksBits(done, c)
      requires AllCoded(Lits(pin[pi..pi + n]), c)
      modifies this`pi, w, w.out
      ensures w.Valid() && pi == old(pi) + n
      ensures w.bits == head + ToksBits(done + Lits(pin[old(pi)..pi]), c)
      ensures w.pd >= old(w.pd) && forall i :: w.pd <= i < w.out.Length ==> w.out[i] == old(w.out[i])
    {
      hide w.Valid, Complete, Coding, ToksBits, TokBits, TablesFit, AllInter, InterToks, InterBytes, Covered, TokCoded, SymBits;
      ghost var from, was := pi, w.out[..];
      var len: nat := n;
      assert done + Lits(pin[from..from]) == done;
      while len > 0
        invariant w.Valid() && Shape() && pi + len == from + n && len <= n
        invariant w.bits == head + ToksBits(done + Lits(pin[from..pi]), c)
        invariant w.pd >= old(w.pd) && forall i :: w.pd <= i < w.out.Length ==> w.out[i] == was[i]
      {
        ghost var toks := done + Lits(pin[from..pi]);
        FitParts(chHuf, offsHuf, c);
        LitCoded(pin, from, from + n, pi, c);
        AddTok(toks, Lit(pin[pi]), c);
        LitsGrow(pin, from, pi);
        assert done + (Lits(pin[from..pi]) + [Lit(pin[pi])]) == toks + [Lit(pin[pi])];
        SqWrh(w, chHuf, pin[pi], c.ch);
        assert head + (ToksBits(toks, c) + TokBits(Lit(pin[pi]), c)) == head + ToksBits(toks, c) + TokBits(Lit(pin[pi]), c);
        pi := pi + 1;
        len := len - 1;
      }
    }

    // the next byte of the intermediate code
    method Get() returns (b: byte)
      requires lz < w.out.Length
      modifies this`lz
      ensures lz == old(lz) + 1 && b == w.out[old(lz)]
    {
      b := w.out[lz];
      lz := lz + 1;
    }

    method WriteRun(cod: byte)
      requires Shape() && w.Valid() && k < |items| && items[k].Run? && pi == Covered(items[..k]) && w.bits == Bits(k)
      requires InterOk(items[k]) && cod == RunBytes(RunLen(items[k]))[0]
      requires Holds(lz, RunBytes(RunLen(items[k]))[1..])
      modifies this`pi, this`lz, w, w.out
      ensures w.Valid() && w.bits == Bits(k + 1) && pi == Covered(items[..k + 1])
      ensures lz == old(lz) + |RunBytes(RunLen(items[k]))| - 1
      ensures w.pd >= old(w.pd) && forall i :: w.pd <= i < w.out.Length ==> w.out[i] == old(w.out[i])
    {
      hide w.Valid, ToksBits, TablesFit, AllInter, InterToks, InterBytes, Covered, RunBytes, AllCoded;
      ghost var n := RunLen(items[k]);
      RunBytesAre(n);
      HeldAt(lz, RunBytes(n)[1..]);
      var len: nat := cod - TK_CHRS;
      if len == 15 {
        var lo: nat := Get();
        var hi: nat := Get();
        len := lo + 256 * hi;
      }
      RunCoded(items, k, pin, c);
      WriteChars(len, InterToks(items[..k], pin));
    }

    // the bytes b stand in the buffer at place `at`
    ghost predicate Holds(at: nat, b: seq<byte>)
      reads w.out
    {
      at + |b| <= w.out.Length && w.out[at..at + |b|] == b
    }

    // the rest of the bytes of a repeat count is ahead, and its symbol has a code
    ghost predicate LenReady(t: nat, len: nat)
      reads this`lz, w.out
    {
      && MIN_REP <= len <= MAX_REP && t == RepCode(len)
      && 0x101 + t < |c.ch| && c.ch[0x101 + t] >= 1 && Holds(lz, LenBytes(len)[1..])
    }

    // the repeat count of a repetition
    method WriteLen(t: nat, ghost len: nat)
      requires Shape() && w.Valid() && LenReady(t, len) && w.pd + 0x20 <= lz && |w.bits| > 32
      modifies this`pi, this`lz, w, w.out
      ensures w.Valid() && w.bits == old(w.bits) + LenCode(len, c) && pi == old(pi) + len
      ensures lz == old(lz) + |LenBytes(len)| - 1
      ensures old(w.pd) <= w.pd <= old(w.pd) + 4 && forall i :: w.pd <= i < w.out.Length ==> w.out[i] == old(w.out[i])
    {
      hide w.Valid, ToksBits, TablesFit, AllInter, InterToks, InterBytes, Covered, AllCoded, RepCode, RepBas, RepBln,
        SymBits, ToBits, Coding, Complete, Pow2;
      FitParts(chHuf, offsHuf, c);
      ghost var was := w.bits;
      SqWrh(w, chHuf, t + 0x101, c.ch);
      pi := pi + RepBas(t);
      RepExtra(len);
      if RepBln(t) > 0 {
        var extra := Get();
        w.WrN(extra, RepBln(t));
        pi := pi + extra;
      } else {
        NoBits(len - RepBas(t));
        LenExact(len);
      }
      assert was + SymBits(c.ch, 0x101 + t) + ToBits(len - RepBas(t), RepBln(t)) == was + RepLenBits(len, c);
    }

    // the offset of a repetition
    method WriteOff(ghost offs: nat)
      requires Shape() && w.Valid() && 1 <= offs <= MAX_OFFS && OffCode(offs) < |c.off| && c.off[OffCode(offs)] >= 1
      requires Holds(lz, OffBytes(offs)) && w.pd + 0x10 <= lz && |w.bits| > 32
      modifies this`lz, w, w.out
      ensures w.Valid() && w.bits == old(w.bits) + RepOffBits(offs, c)
      ensures lz == old(lz) + |OffBytes(offs)|
      ensures old(w.pd) <= w.pd && forall i :: w.pd <= i < w.out.Length ==> w.out[i] == old(w.out[i])
    {
      hide w.Valid, ToksBits, TablesFit, AllInter, InterToks, InterBytes, Covered, AllCoded, OffCode, OffBas, OffBln,
        SymBits, ToBits, Coding, Complete, Pow2, OffBytes, OffBas, OffBln;
      FitParts(chHuf, offsHuf, c);
      ghost var was := w.bits;
      OffBytesAre(offs);
      HeldAt(lz, OffBytes(offs));
      var o: nat := Get();
      SqWrh(w, offsHuf, o, c.off);
      if OffBln(o) > 0 {
        var extra: nat := Get();
        if OffBln(o) > 8 {
          var hi: nat := Get();
          extra := extra + 256 * hi;
        }
        w.WrN(extra, OffBln(o));
      } else {
        NoBits(offs - OffBas(o));
      }
      assert was + SymBits(c.off, o) + ToBits(offs - OffBas(o), OffBln(o)) == was + RepOffBits(offs, c);
    }

    lemma HeldAt(at: nat, b: seq<byte>)
      requires Holds(at, b)
      ensures forall i :: 0 <= i < |b| ==> w.out[at + i] == b[i]
    {
      forall i | 0 <= i < |b| ensures w.out[at + i] == b[i] { assert w.out[at..at + |b|][i] == b[i]; }
    }

    method WriteCopy(cod: byte)
      requires Shape() && w.Valid() && k < |items| && items[k].Copy? && pi == Covered(items[..k]) && w.bits == Bits(k)
      requires InterOk(items[k]) && cod == LenBytes(items[k].len)[0]
      requires Holds(lz, LenBytes(items[k].len)[1..] + OffBytes(items[k].offs)) && w.pd + 0x20 <= lz
      modifies this`pi, this`lz, w, w.out
      ensures w.Valid() && w.bits == Bits(k + 1) && pi == Covered(items[..k + 1])
      ensures lz == old(lz) + |ItemBytes(items[k])| - 1
      ensures w.pd >= old(w.pd) && forall i :: w.pd <= i < w.out.Length ==> w.out[i] == old(w.out[i])
    {
      hide w.Valid, ToksBits, TablesFit, AllInter, InterToks, InterBytes, Covered, AllCoded, RepCode, OffCode,
        LenBytes, OffBytes, RepLenBits, RepOffBits, ItemBytes, RepBas, RepBln, OffBas, OffBln, Pow2;
      ghost var len, offs := items[k].len, items[k].offs;
      CopyBytesAre(offs, len);
      CopyCoded(items, k, pin, c);
      ghost var a, b, was, at := LenBytes(len)[1..], OffBytes(offs), w.out[..], lz;
      assert was[at..at + |a|] == (a + b)[..|a|] == a && was[at + |a|..at + |a| + |b|] == (a + b)[|a|..] == b;
      WriteLen(cod - 1, len);
      assert w.out[at + |a|..at + |a| + |b|] == was[at + |a|..at + |a| + |b|];
      WriteOff(offs);
      assert head + ToksBits(InterToks(items[..k], pin), c) + RepLenBits(len, c) + RepOffBits(offs, c)
          == head + (ToksBits(InterToks(items[..k], pin), c) + (RepLenBits(len, c) + RepOffBits(offs, c)));
    }
  
    // what the two pointers tell
    lemma Tells()
      requires Valid()
      ensures lz == ItemAt(items, k, lout)
      ensures w.pd > lz <==> Over(|head|, items, pin, c, lout, k)
      ensures w.pd + 0x20 <= lz <==> Clear(|head|, items, pin, c, lout, k)
    {
      hide w.Valid, TablesFit, AllInter, InterToks, InterBytes, Covered, AllCoded, ToksBits;
      w.Size();
      InterPrefix(items, k);
    }

    // the code is not overwritten up to here, so its bytes are what is read
    lemma Reads()
      requires Valid() && w.pd <= lz
      ensures lz < w.out.Length && (w.out[lz] == TK_END <==> k == |items|)
    {
      hide w.Valid, ToksBits, TablesFit, AllInter, InterToks, InterBytes, Covered, AllCoded, ItemBytes;
      CodeAt(k);
      if k < |items| {
        AsItem(items[k]);
        var at := |InterBytes(items[..k])|;
        assert Code()[at..at + |ItemBytes(items[k])|][0] == ItemBytes(items[k])[0];
      }
    }

    // one item; Contact when the stream has come too close to the intermediate code
    method Step() returns (turn: Turn)
      requires Valid()
      modifies this`pi, this`lz, this`k, w, w.out
      ensures turn != Contact ==> w.Valid() && k <= |items| && pi == Covered(items[..k]) && w.bits == Bits(k)
      ensures turn == More ==> Valid() && k == old(k) + 1 && Clear(|head|, items, pin, c, lout, old(k))
      ensures turn != More ==> k == old(k)
      ensures turn == Contact && k < |items| ==> !Clear(|head|, items, pin, c, lout, k)
      ensures turn == (if k < |items| then End else Contact) ==> Over(|head|, items, pin, c, lout, k)
    {
      hide w.Valid, ToksBits, TablesFit, AllInter, InterToks, InterBytes, Covered, AllCoded, ItemBytes,
        Pow2, RepBas, RepBln, OffBas, OffBln, Holds, Over, Clear, ItemAt;
      ghost var at := |InterBytes(items[..k])|;
      CodeAt(k);
      Tells();
      if w.pd <= lz { Reads(); }
      var cod := Get();
      if cod == TK_END { return End; }
      if w.pd + 0x20 >= lz { return Contact; }
      assert cod == Code()[at];
      WriteItem(cod);
      turn := More;
    }

    // the item whose first byte has just been read
    method WriteItem(cod: byte)
      requires 1 <= lz && Shape() && w.Valid() && k < |items| && pi == Covered(items[..k]) && w.bits == Bits(k)
      requires w.pd + 0x20 < lz && Intact(lz - 1) && lz - 1 == lout - |Code()| + |InterBytes(items[..k])|
      requires InterOk(items[k]) && CodeHas(|InterBytes(items[..k])|, ItemBytes(items[k])) && cod == Code()[|InterBytes(items[..k])|]
      modifies this`pi, this`lz, this`k, w, w.out
      ensures Valid() && k == old(k) + 1
    {
      hide w.Valid, ToksBits, TablesFit, AllInter, InterToks, InterBytes, Covered, AllCoded, ItemBytes,
        Pow2, RepBas, RepBln, OffBas, OffBln, Holds, CodeHas, InterOk, RunBytes, LenBytes, OffBytes, Complete;
      AsItem(items[k]);
      StillHeld(|InterBytes(items[..k])|, ItemBytes(items[k]));
      if cod >= TK_CHRS {
        WriteRun(cod);
      } else {
        WriteCopy(cod);
      }
      k := k + 1;
      ItemPlace(items, k - 1, pin);
    }

    // what is intact can be read
    lemma StillHeld(at: nat, b: seq<byte>)
      requires 1 <= lz && lz - 1 == lout - |Code()| + at && lout <= w.out.Length && |Code()| <= lout
      requires CodeHas(at, b) && |b| >= 1 && w.pd <= lz - 1 && Intact(lz - 1)
      ensures Holds(lz, b[1..]) && b[0] == Code()[at]
    {
      hide InterBytes;
      var c := Code()[at..at + |b|];
      forall j | 0 <= j < |b| ensures w.out[lz - 1 + j] == b[j] { assert c[j] == b[j]; }
    }

    // writes the data of all items; false on contact
    method Emit() returns (ok: bool)
      requires Valid() && k == 0
      modifies this`pi, this`lz, this`k, w, w.out
      ensures k <= |items| && forall i :: 0 <= i < k ==> Clear(|head|, items, pin, c, lout, i)
      ensures ok ==> w.Valid() && pi == Covered(items[..k]) && w.bits == Bits(k)
      ensures !ok && k < |items| ==> !Clear(|head|, items, pin, c, lout, k)
      ensures ok == (k < |items|) ==> Over(|head|, items, pin, c, lout, k)
    {
      hide w.Valid, ToksBits, TablesFit, AllInter, InterToks, InterBytes, Covered, AllCoded, Clear, Over;
      while true
        invariant Valid() && forall i :: 0 <= i < k ==> Clear(|head|, items, pin, c, lout, i)
        decreases |items| - k
      {
        var turn := Step();
        if turn == Contact { return false; }
        if turn == End { return true; }
      }
    }
  }

  datatype Turn = More | End | Contact

  lemma AsItem(it: Inter)
    requires InterOk(it)
    ensures |ItemBytes(it)| >= 1 && (it.Run? <==> ItemBytes(it)[0] >= TK_CHRS)
    ensures it.Run? ==> ItemBytes(it) == RunBytes(RunLen(it)) && RunLen(it) <= RUN_MAX
    ensures it.Copy? ==> ItemBytes(it)[0] == LenBytes(it.len)[0] && ItemBytes(it)[1..] == LenBytes(it.len)[1..] + OffBytes(it.offs)
  {
    hide RepCode, OffCode, RepBas, RepBln, OffBas, OffBln;
    if it.Run? { RunBytesAre(it.n); } else { CopyBytesAre(it.offs, it.len); }
  }

  // the code and the extra bits the bytes of an offset stand for
  lemma OffBytesAre(offs: nat)
    requires 1 <= offs <= MAX_OFFS
    ensures var b, o := OffBytes(offs), OffCode(offs);
            && |b| == (if OffBln(o) == 0 then 1 else if OffBln(o) <= 8 then 2 else 3) && b[0] == o
            && 0 <= offs - OffBas(o) < Pow2(OffBln(o)) && OffBln(o) <= 16
            && (1 <= OffBln(o) <= 8 ==> b[1] == offs - OffBas(o))
            && (OffBln(o) > 8 ==> b[1] as int + 256 * b[2] as int == offs - OffBas(o))
  {
    hide OffBas, OffBln, OffCode, Pow2;
    OffExtra(offs);
    OffFits(offs);
  }

  lemma OffFits(offs: nat)
    requires 1 <= offs <= MAX_OFFS
    ensures 0 <= offs - OffBas(OffCode(offs)) < Pow2(OffBln(OffCode(offs))) && OffBln(OffCode(offs)) <= 16
    ensures OffCode(offs) < 256
  {
    hide Pow2, OffBas;
  }

  lemma NoBits(v: nat)
    ensures ToBits(v, 0) == []
  {
  }

  lemma LenExact(len: nat)
    requires MIN_REP <= len <= MAX_REP && RepBln(RepCode(len)) == 0
    ensures RepBas(RepCode(len)) == len
  {
    hide RepBas, RepBln;
    assert Pow2(0) == 1;
  }

  function RunLen(it: Inter): (n: nat)
    requires it.Run?
  {
    it.n
  }

  lemma AddTok(toks: seq<LzTok>, t: LzTok, c: Codes)
    ensures ToksBits(toks + [t], c) == ToksBits(toks, c) + TokBits(t, c)
  {
    ToksBitsConcat(toks, [t], c);
    ToksBitsOne(t, c);
  }

  // a character inside a run of characters that all have codes
  lemma LitCoded(pin: seq<byte>, from: nat, to: nat, i: nat, c: Codes)
    requires from <= i < to <= |pin| && AllCoded(Lits(pin[from..to]), c)
    ensures pin[i] < |c.ch| && c.ch[pin[i]] >= 1 && TokBits(Lit(pin[i]), c) == SymBits(c.ch, pin[i])
  {
    hide SymBits;
    assert TokCoded(Lits(pin[from..to])[i - from], c);
  }

  lemma PartCoded(a: seq<LzTok>, whole: seq<LzTok>, b: seq<LzTok>, c: Codes)
    requires AllCoded(whole, c) && a + b <= whole
    ensures AllCoded(b, c)
  {
    forall i | 0 <= i < |b| ensures TokCoded(b[i], c) {
      assert b[i] == (a + b)[|a| + i] == whole[|a| + i];
    }
  }

  lemma RunCoded(items: seq<Inter>, k: nat, pin: seq<byte>, c: Codes)
    requires k < |items| && items[k].Run? && AllCoded(InterToks(items, pin), c) && Covered(items) == |pin|
    ensures var pi, n := Covered(items[..k]), RunLen(items[k]);
            && pi + n <= |pin| && AllCoded(Lits(pin[pi..pi + n]), c)
            && InterToks(items[..k + 1], pin) == InterToks(items[..k], pin) + Lits(pin[pi..pi + n])
            && Covered(items[..k + 1]) == pi + n
  {
    hide *;
    ItemPlace(items, k, pin);
    CoveredPrefix(items, k + 1);
    ToksPrefix(items, k + 1, pin);
    RunTok(items[k], pin, Covered(items[..k]));
    PartCoded(InterToks(items[..k], pin), InterToks(items, pin), ItemToks(items[k], pin, Covered(items[..k])), c);
  }

  lemma RunTok(it: Inter, data: seq<byte>, pos: nat)
    requires it.Run?
    ensures Span(it) == RunLen(it)
    ensures pos + RunLen(it) <= |data| ==> ItemToks(it, data, pos) == Lits(data[pos..pos + RunLen(it)])
  {
  }

  lemma CopyCoded(items: seq<Inter>, k: nat, pin: seq<byte>, c: Codes)
    requires k < |items| && items[k].Copy? && AllCoded(InterToks(items, pin), c)
    ensures var offs, len := items[k].offs, items[k].len;
            && Covered(items[..k + 1]) == Covered(items[..k]) + len
            && 1 <= offs <= 32768 && 3 <= len <= 258
            && 0x101 + RepCode(len) < |c.ch| && c.ch[0x101 + RepCode(len)] >= 1
            && OffCode(offs) < |c.off| && c.off[OffCode(offs)] >= 1
            && ToksBits(InterToks(items[..k + 1], pin), c)
               == ToksBits(InterToks(items[..k], pin), c) + (RepLenBits(len, c) + RepOffBits(offs, c))
  {
    hide *;
    ItemPlace(items, k, pin);
    ToksPrefix(items, k + 1, pin);
    var t := Rep(items[k].offs, items[k].len);
    CopyTok(items[k], pin, Covered(items[..k]));
    PartCoded(InterToks(items[..k], pin), InterToks(items, pin), [t], c);
    CodedAt([t], c, 0);
    TokSpans(t, c);
    AddTok(InterToks(items[..k], pin), t, c);
  }

  lemma CopyTok(it: Inter, data: seq<byte>, pos: nat)
    requires it.Copy?
    ensures ItemToks(it, data, pos) == [Rep(it.offs, it.len)] && Span(it) == it.len
  {
  }

  lemma SlicePrefix(a: seq<byte>, b: seq<byte>, whole: seq<byte>)
    requires a + b <= whole
    ensures |a| + |b| <= |whole| && (whole + [TK_END])[|a|..|a| + |b|] == b
  {
    assert (whole + [TK_END])[..|a| + |b|] == a + b;
  }
}
