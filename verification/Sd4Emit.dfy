/**
 The last pass of the Stacker 4 compressor. The intermediate code stands at the end of the buffer
 the stream is written to; contact is checked before every item and inside long runs, so
 what is read is never overwritten.
 */
module Sd4Emit {
  import opened Bits
  import opened LzTokens
  import opened Canonical
  import opened SqCodes
  import opened SqLz
  import opened SqComplz
  import opened Sd4Stream
  import opened MsbStream
  import opened Sd4Codes
  import opened Sd4Format
  import opened Sd4Lz

  //////////////////////////////////////////////////////////////////////////////
  // Places in the intermediate code
  //////////////////////////////////////////////////////////////////////////////

  lemma {:induction false} Prefix4(items: seq<Inter>, k: nat, data: seq<byte>)
    requires k <= |items|
    ensures InterBytes4(items[..k]) <= InterBytes4(items) && Covered(items[..k]) <= Covered(items)
    ensures InterToks(items[..k], data) <= InterToks(items, data)
    decreases |items|
  {
    hide ItemBytes4, ItemToks;
    if k < |items| {
      var rest := items[..|items| - 1];
      assert rest[..k] == items[..k];
      Prefix4(rest, k, data);
    } else {
      assert items[..k] == items;
    }
  }

  // item k stands behind the items before it
  lemma Place4(items: seq<Inter>, k: nat, data: seq<byte>)
    requires k < |items|
    ensures InterBytes4(items[..k + 1]) == InterBytes4(items[..k]) + ItemBytes4(items[k]) <= InterBytes4(items)
    ensures Covered(items[..k + 1]) == Covered(items[..k]) + Span(items[k]) <= Covered(items)
    ensures InterToks(items[..k + 1], data) == InterToks(items[..k], data) + ItemToks(items[k], data, Covered(items[..k]))
    ensures InterToks(items[..k + 1], data) <= InterToks(items, data)
  {
    hide ItemBytes4, Span, ItemToks;
    assert items[..k + 1][..k] == items[..k];
    Prefix4(items, k + 1, data);
  }

  lemma AddTok4(toks: seq<LzTok>, t: LzTok, lens: seq<nat>)
    ensures ToksBits4(toks + [t], lens) == ToksBits4(toks, lens) + TokBits4(t, lens)
  {
    hide TokBits4;
    assert (toks + [t])[..|toks|] == toks;
  }

  lemma Part4(a: seq<LzTok>, whole: seq<LzTok>, b: seq<LzTok>, lens: seq<nat>)
    requires AllCoded4(whole, lens) && a + b <= whole
    ensures AllCoded4(b, lens)
  {
    forall i | 0 <= i < |b| ensures Coded4(b[i], lens) { assert b[i] == (a + b)[|a| + i] == whole[|a| + i]; }
  }

  lemma RunCoded4(items: seq<Inter>, k: nat, pin: seq<byte>, lens: seq<nat>)
    requires k < |items| && items[k].Run? && AllCoded4(InterToks(items, pin), lens) && Covered(items) == |pin|
    ensures var pi, n := Covered(items[..k]), items[k].n;
            && pi + n <= |pin| && AllCoded4(Lits(pin[pi..pi + n]), lens)
            && InterToks(items[..k + 1], pin) == InterToks(items[..k], pin) + Lits(pin[pi..pi + n])
            && Covered(items[..k + 1]) == pi + n
  {
    hide AllCoded4, InterToks, Covered, InterBytes4;
    Place4(items, k, pin);
    Part4(InterToks(items[..k], pin), InterToks(items, pin), ItemToks(items[k], pin, Covered(items[..k])), lens);
  }

  lemma CopyCoded4(items: seq<Inter>, k: nat, pin: seq<byte>, lens: seq<nat>)
    requires k < |items| && items[k].Copy? && AllCoded4(InterToks(items, pin), lens)
    ensures var t := Rep(items[k].offs, items[k].len);
            && Covered(items[..k + 1]) == Covered(items[..k]) + items[k].len
            && Coded4(t, lens)
            && ToksBits4(InterToks(items[..k + 1], pin), lens) == ToksBits4(InterToks(items[..k], pin), lens) + TokBits4(t, lens)
  {
    hide AllCoded4, InterToks, Covered, InterBytes4, ToksBits4, TokBits4, Coded4;
    Place4(items, k, pin);
    var t := Rep(items[k].offs, items[k].len);
    Part4(InterToks(items[..k], pin), InterToks(items, pin), [t], lens);
    CodedAt4([t], lens, 0);
    AddTok4(InterToks(items[..k], pin), t, lens);
  }

  lemma NoItems4(items: seq<Inter>, data: seq<byte>, lens: seq<nat>)
    ensures InterBytes4(items[..0]) == [] && Covered(items[..0]) == 0 && InterToks(items[..0], data) == [] && ToksBits4([], lens) == []
  {
  }

  // what the first byte of an item tells
  lemma AsItem4(it: Inter)
    requires InterOk4(it)
    ensures |ItemBytes4(it)| >= 1
    ensures it.Run? ==> ItemBytes4(it) == RunBytes(it.n) && it.n <= RUN_MAX && RunBytes(it.n)[0] >= TK_CHRS
    ensures it.Run? ==> (RunBytes(it.n)[0] == TK_CHRS <==> it.n == 0)
    ensures it.Run? ==> RunBytes(it.n) == if it.n < 15 then [TK_CHRS + it.n] else [TK_CHRS + 15, it.n % 256, it.n / 256]
    ensures it.Copy? ==> Fits4(Rep(it.offs, it.len)) && ItemBytes4(it)[0] == TokenOf(it.offs, it.len) < TK_END4
    ensures it.Copy? ==> ItemBytes4(it)[1..] == CopyTail(it.offs, it.len)
  {
    hide GroupOf, CopyTail;
  }

  //////////////////////////////////////////////////////////////////////////////
  // Room
  //////////////////////////////////////////////////////////////////////////////

  // where item k stands when the code with its end mark ends at place lout
  ghost function ItemAt4(items: seq<Inter>, k: nat, lout: nat): int
    requires k <= |items|
  {
    lout - 1 - |InterBytes4(items)| + |InterBytes4(items[..k])|
  }

  // the words stored once the tokens are written behind the tables, which take front bits
  ghost function TakenBy(front: nat, toks: seq<LzTok>, lens: seq<nat>): nat {
    StoredBytes(front + |ToksBits4(toks, lens)|)
  }

  // Item k, or the end mark, is far enough ahead of the stream.
  ghost predicate Clear4(front: nat, items: seq<Inter>, data: seq<byte>, lens: seq<nat>, lout: nat, k: nat)
    requires k <= |items|
  {
    TakenBy(front, InterToks(items[..k], data), lens) + 0x20 < ItemAt4(items, k, lout)
  }

  // A run is not empty, and every character of a long one leaves the item behind it alone.
  ghost predicate RunClear(front: nat, items: seq<Inter>, data: seq<byte>, lens: seq<nat>, lout: nat, k: nat)
    requires k < |items|
  {
    items[k].Run? ==>
      && items[k].n > 0
      && (items[k].n >= 15 ==>
            CharsClear(front, InterToks(items[..k], data), data, lens, Covered(items[..k]), items[k].n, ItemAt4(items, k + 1, lout)))
  }

  // the n characters from place `from` on, behind the tokens
  ghost predicate CharsClear(front: nat, toks: seq<LzTok>, data: seq<byte>, lens: seq<nat>, from: nat, n: nat, next: int) {
    forall i :: from <= i < from + n ==> CharClear(front, toks, data, lens, from, i, next)
  }

  // the character at place i
  ghost predicate CharClear(front: nat, toks: seq<LzTok>, data: seq<byte>, lens: seq<nat>, from: nat, i: nat, next: int) {
    from <= i <= |data| && TakenBy(front, toks + Lits(data[from..i]), lens) + 1 < next
  }

  // The stream never comes near the items still to be read.
  ghost predicate AllClear4(front: nat, items: seq<Inter>, data: seq<byte>, lens: seq<nat>, lout: nat) {
    && (forall k :: 0 <= k <= |items| ==> Clear4(front, items, data, lens, lout, k))
    && (forall k :: 0 <= k < |items| ==> RunClear(front, items, data, lens, lout, k))
  }

  datatype Turn = More | End | GiveUp

  class Emitter4 {
    const w: Writer4
    const pin: seq<byte>
    const lout: nat
    const huf: array<HufWr>
    ghost const lens: seq<nat>
    ghost const items: seq<Inter>
    ghost const head: seq<bool>
    var pi: nat
    var lz: nat
    ghost var k: nat

    ghost function Code(): seq<byte> {
      InterBytes4(items) + [TK_END4]
    }

    ghost predicate Shape()
      reads huf
    {
      && Complete(lens, BITS4) && |lens| == SYMS4 && lens[END4] >= 1 && Coding4(huf[..], lens, SYMS4)
      && |Code()| <= lout <= w.out.Length && w.out as object != huf
      && AllInter4(items) && Covered(items) == |pin| && AllCoded4(InterToks(items, pin), lens)
    }

    // what is not overwritten of the code from place `from` on
    ghost predicate Intact(from: nat)
      reads w, w.out
    {
      lout <= w.out.Length && |Code()| <= lout &&
      forall i :: w.pd <= i < lout && from <= i ==> lout - |Code()| <= i && w.out[i] == Code()[i - (lout - |Code()|)]
    }

    ghost function Done(n: nat): seq<bool>
      requires n <= |items|
    {
      head + ToksBits4(InterToks(items[..n], pin), lens)
    }

    ghost predicate Valid()
      reads this, w, w.out, huf
    {
      && Shape() && w.Valid() && k <= |items| && Intact(lz)
      && pi == Covered(items[..k]) && lz == lout - |Code()| + |InterBytes4(items[..k])|
      && w.bits == Done(k)
    }

    // the bytes b stand in the buffer at place `at`
    ghost predicate Holds(at: nat, b: seq<byte>)
      reads w.out
    {
      at + |b| <= w.out.Length && w.out[at..at + |b|] == b
    }

    constructor (w0: Writer4, pin0: seq<byte>, lout0: nat, huf0: array<HufWr>, lz0: nat, ghost lens0: seq<nat>, ghost items0: seq<Inter>)
      requires w0.Valid() && Complete(lens0, BITS4) && |lens0| == SYMS4 && lens0[END4] >= 1 && Coding4(huf0[..], lens0, SYMS4)
      requires CanStart4(w0, pin0, lout0, lz0, lens0, items0) && w0.out as object != huf0
      ensures Valid() && k == 0 && w == w0 && pin == pin0 && lout == lout0 && lens == lens0 && items == items0 && head == w0.bits && huf == huf0
    {
      w, pin, lout, huf := w0, pin0, lout0, huf0;
      lens, items, head := lens0, items0, w0.bits;
      pi, lz, k := 0, lz0, 0;
      new;
      hide CanStart4, Complete, Coding4, w.Valid, Valid, Pow2;
      Started();
    }

    lemma Started()
      requires w.Valid() && Complete(lens, BITS4) && |lens| == SYMS4 && lens[END4] >= 1 && Coding4(huf[..], lens, SYMS4)
      requires CanStart4(w, pin, lout, lz, lens, items) && w.out as object != huf && head == w.bits && pi == 0 && k == 0
      ensures Valid()
    {
      hide Complete, Coding4, AllInter4, InterBytes4, Covered, InterToks, AllCoded4, ToksBits4, w.Valid, Pow2;
      NoItems4(items, pin, lens);
    }

    method Get() returns (b: byte)
      requires lz < w.out.Length
      modifies this`lz
      ensures lz == old(lz) + 1 && b == w.out[old(lz)]
    {
      b := w.out[lz];
      lz := lz + 1;
    }

    method GetWord(ghost v: nat) returns (x: nat)
      requires v < 0x1_0000 && Holds(lz, Word(v))
      modifies this`lz
      ensures lz == old(lz) + 2 && x == v
    {
      var b := w.out[lz..lz + 2];
      assert b == Word(v);
      x := b[0] as int + 256 * b[1] as int;
      lz := lz + 2;
    }

    // characters of a run; in long runs contact is checked each time
    method WriteChars(n: nat, check: bool, ghost done: seq<LzTok>) returns (ok: bool)
      requires Shape() && w.Valid() && pi + n <= |pin| && w.bits == head + ToksBits4(done, lens)
      requires AllCoded4(Lits(pin[pi..pi + n]), lens)
      requires w.pd <= lz && (!check ==> w.pd + 2 * n <= lz)
      modifies this`pi, w, w.out
      ensures w.Valid() && (ok ==> pi == old(pi) + n && w.bits == head + ToksBits4(done + Lits(pin[old(pi)..pi]), lens))
      ensures if check then ok <==> CharsClear(|head|, done, pin, lens, old(pi), n, lz) else ok
      ensures old(w.pd) <= w.pd <= lz && forall i :: w.pd <= i < w.out.Length ==> w.out[i] == old(w.out[i])
    {
      hide w.Valid, Complete, Coding4, ToksBits4, TokBits4, AllInter4, InterToks, InterBytes4, Covered, Coded4, SymBits;
      ghost var from, was := pi, w.out[..];
      var left: nat := n;
      assert done + Lits(pin[from..from]) == done;
      while left > 0
        invariant w.Valid() && Shape() && pi + left == from + n && left <= n
        invariant w.bits == head + ToksBits4(done + Lits(pin[from..pi]), lens)
        invariant old(w.pd) <= w.pd <= lz && (!check ==> w.pd + 2 * left <= lz)
        invariant forall i :: w.pd <= i < w.out.Length ==> w.out[i] == was[i]
        invariant check ==> CharsClear(|head|, done, pin, lens, from, pi - from, lz)
      {
        w.Size();
        if check && w.pd + 1 >= lz {
          assert !CharClear(|head|, done, pin, lens, from, pi, lz);
          return false;
        }
        ghost var toks := done + Lits(pin[from..pi]);
        CharCoded(pin, from, from + n, pi, lens);
        AddTok4(toks, Lit(pin[pi]), lens);
        LitsGrow(pin, from, pi);
        assert done + (Lits(pin[from..pi]) + [Lit(pin[pi])]) == toks + [Lit(pin[pi])];
        Even(w, lz, check);
        WrH4(w, huf, pin[pi], lens);
        assert head + (ToksBits4(toks, lens) + TokBits4(Lit(pin[pi]), lens)) == head + ToksBits4(toks, lens) + TokBits4(Lit(pin[pi]), lens);
        pi := pi + 1;
        left := left - 1;
      }
      ok := true;
    }

    // a run of characters whose first byte has been read
    method WriteRun(cod: byte) returns (ok: bool)
      requires Shape() && w.Valid() && k < |items| && items[k].Run? && pi == Covered(items[..k]) && w.bits == Done(k)
      requires InterOk4(items[k]) && cod == RunBytes(items[k].n)[0] && cod > TK_CHRS
      requires Holds(lz, RunBytes(items[k].n)[1..]) && w.pd + 0x20 <= lz
      modifies this`pi, this`lz, w, w.out
      ensures w.Valid() && lz == old(lz) + |RunBytes(items[k].n)| - 1
      ensures ok ==> w.bits == Done(k + 1) && pi == Covered(items[..k + 1])
      ensures lz == ItemAt4(items, k + 1, lout) ==> (ok <==> RunClear(|head|, items, pin, lens, lout, k))
      ensures old(w.pd) <= w.pd <= lz && forall i :: w.pd <= i < w.out.Length ==> w.out[i] == old(w.out[i])
    {
      hide w.Valid, ToksBits4, Complete, Coding4, AllInter4, InterToks, InterBytes4, Covered, RunBytes, AllCoded4;
      ghost var n := items[k].n;
      AsItem4(items[k]);
      var u: nat := cod - TK_CHRS;
      var check := u == 15;
      if check { u := GetWord(n); }
      RunCoded4(items, k, pin, lens);
      ok := WriteChars(u, check, InterToks(items[..k], pin));
    }

    method WriteCount4(u0: nat)
      requires w.Valid() && u0 < 0x1_0000
      modifies w, w.out
      ensures w.Valid() && w.bits == old(w.bits) + CountBits4(u0)
      ensures old(w.pd) <= w.pd <= old(w.pd) + 8 && forall i :: w.pd <= i < w.out.Length ==> w.out[i] == old(w.out[i])
    {
      hide w.Valid, ToBitsM, Pow2;
      Pow2Values();
      ghost var was := w.bits;
      var u: nat := u0;
      if u < 0xF {
        w.WrN(u, 4);
      } else {
        u := u - 0xF;
        w.WrN(0xF, 4);
        if u < 0xFF {
          w.WrN(u, 8);
          assert was + ToBitsM(0xF, 4) + ToBitsM(u, 8) == was + (ToBitsM(0xF, 4) + ToBitsM(u, 8));
        } else {
          WriteCount12(u, was);
        }
      }
    }

    method WriteCount12(u0: nat, ghost was: seq<bool>)
      requires w.Valid() && 0xFF <= u0 && u0 + 0xF < 0x1_0000 && w.bits == was + ToBitsM(0xF, 4)
      modifies w, w.out
      ensures w.Valid() && w.bits == was + CountBits4(u0 + 0xF)
      ensures old(w.pd) <= w.pd <= old(w.pd) + 6 && forall i :: w.pd <= i < w.out.Length ==> w.out[i] == old(w.out[i])
    {
      hide w.Valid, ToBitsM, Pow2;
      Pow2Values();
      var u: nat := u0 - 0xFF;
      w.WrN(0xFF, 8);
      if u < 0xFFF {
        w.WrN(u, 12);
        assert was + ToBitsM(0xF, 4) + ToBitsM(0xFF, 8) + ToBitsM(u, 12) == was + (ToBitsM(0xF, 4) + (ToBitsM(0xFF, 8) + ToBitsM(u, 12)));
      } else {
        u := u - 0xFFF;
        w.WrN(0xFFF, 12);
        w.WrN(u, 16);
        assert was + ToBitsM(0xF, 4) + ToBitsM(0xFF, 8) + ToBitsM(0xFFF, 12) + ToBitsM(u, 16)
            == was + (ToBitsM(0xF, 4) + (ToBitsM(0xFF, 8) + (ToBitsM(0xFFF, 12) + ToBitsM(u, 16))));
      }
    }

    // offset and count of a repetition of six bytes and more
    method WriteProg(token: nat, ghost offs: nat, ghost len: nat)
      requires w.Valid() && Fits4(Rep(offs, len)) && len >= 6 && token == TokenOf(offs, len)
      requires Holds(lz, CopyTail(offs, len)) && w.pd + 0x10 <= lz
      modifies this`pi, this`lz, w, w.out
      ensures w.Valid() && w.bits == old(w.bits) + ExtraBits4(offs, len) && pi == old(pi) + len
      ensures lz == old(lz) + |CopyTail(offs, len)|
      ensures old(w.pd) <= w.pd <= old(w.pd) + 12 && forall i :: w.pd <= i < w.out.Length ==> w.out[i] == old(w.out[i])
    {
      hide w.Valid, ToBitsM, Pow2, ProgBits, CountBits4, Word, GroupOf;
      ghost var was, at, outs := w.bits, lz, w.out[..];
      TailParts(offs, len);
      HoldsParts(at, Word(offs - 1), if len < 21 then [] else Word(len));
      var u := GetWord(offs - 1);
      WriteClass(u + 1);
      if token == 0x4E {
        HeldStill(outs, at + 2, Word(len));
        u := GetWord(len);
        pi := pi + u;
        WriteCount4(u - 0x15);
      } else {
        pi := pi + (token + 6 - 0x3F);
      }
      ghost var a, c := ProgBits(offs), if len < 21 then [] else CountBits4(len - 21);
      assert was + a + c == was + (a + c);
    }

    // the class of an offset and the offset inside it
    method WriteClass(offs: nat)
      requires w.Valid() && 1 <= offs < 0xAA0
      modifies w, w.out
      ensures w.Valid() && w.bits == old(w.bits) + ProgBits(offs)
      ensures old(w.pd) <= w.pd <= old(w.pd) + 4 && forall i :: w.pd <= i < w.out.Length ==> w.out[i] == old(w.out[i])
    {
      hide w.Valid, ToBitsM, Pow2, ProgOf, ProgAdd, ProgLen;
      Pow2Values();
      ghost var was := w.bits;
      var i := ProgOf(offs);
      w.WrN(i, 2);
      w.WrN(offs - ProgAdd(i), ProgLen(i));
      assert was + ToBitsM(i, 2) + ToBitsM(offs - ProgAdd(i), ProgLen(i)) == was + (ToBitsM(i, 2) + ToBitsM(offs - ProgAdd(i), ProgLen(i)));
    }

    lemma HoldsParts(at: nat, a: seq<byte>, b: seq<byte>)
      requires Holds(at, a + b)
      ensures Holds(at, a) && Holds(at + |a|, b)
    {
      var s := w.out[at..at + |a| + |b|];
      assert s[..|a|] == a && s[|a|..] == b;
      assert w.out[at..at + |a|] == s[..|a|] && w.out[at + |a|..at + |a| + |b|] == s[|a|..];
    }

    // a repetition whose token has been read
    method WriteCopy(token: nat)
      requires Shape() && w.Valid() && k < |items| && items[k].Copy? && pi == Covered(items[..k]) && w.bits == Done(k)
      requires InterOk4(items[k]) && token == TokenOf(items[k].offs, items[k].len)
      requires Holds(lz, CopyTail(items[k].offs, items[k].len)) && w.pd + 0x20 <= lz
      modifies this`pi, this`lz, w, w.out
      ensures w.Valid() && w.bits == Done(k + 1) && pi == Covered(items[..k + 1])
      ensures lz == old(lz) + |CopyTail(items[k].offs, items[k].len)|
      ensures old(w.pd) <= w.pd <= lz && forall i :: w.pd <= i < w.out.Length ==> w.out[i] == old(w.out[i])
    {
      hide w.Valid, ToksBits4, Complete, Coding4, AllInter4, InterToks, InterBytes4, Covered, AllCoded4, TokenOf,
        CopyTail, ExtraBits4, SymBits, Pow2, RepsM, RepsB, GroupOf;
      ghost var offs, len, was, at := items[k].offs, items[k].len, w.out[..], lz;
      CopyCoded4(items, k, pin, lens);
      CopyBits(offs, len, lens);
      WrH4(w, huf, token + 0x100, lens);
      HeldStill(was, at, CopyTail(offs, len));
      if token < 0x3F { WriteShort(token, offs, len); } else { WriteProg(token, offs, len); }
      assert head + ToksBits4(InterToks(items[..k], pin), lens) + SymBits(lens, 0x100 + token) + ExtraBits4(offs, len)
          == head + (ToksBits4(InterToks(items[..k], pin), lens) + (SymBits(lens, 0x100 + token) + ExtraBits4(offs, len)));
    }

    lemma HeldStill(was: seq<byte>, at: nat, b: seq<byte>)
      requires |was| == w.out.Length && at + |b| <= |was| && was[at..at + |b|] == b
      requires forall i :: at <= i < |was| ==> w.out[i] == was[i]
      ensures Holds(at, b)
    {
      assert w.out[at..at + |b|] == was[at..at + |b|];
    }

    // a short repetition: count and class of the offset are in the token
    method WriteShort(token0: nat, ghost offs: nat, ghost len: nat)
      requires w.Valid() && Fits4(Rep(offs, len)) && len < 6 && token0 == TokenOf(offs, len)
      requires Holds(lz, CopyTail(offs, len)) && w.pd + 0x10 <= lz
      modifies this`pi, this`lz, w, w.out
      ensures w.Valid() && w.bits == old(w.bits) + ExtraBits4(offs, len) && pi == old(pi) + len
      ensures lz == old(lz) + |CopyTail(offs, len)|
      ensures old(w.pd) <= w.pd <= old(w.pd) + 12 && forall i :: w.pd <= i < w.out.Length ==> w.out[i] == old(w.out[i])
    {
      hide w.Valid, ToBitsM, Pow2, RepsM, RepsB, GroupOf, Word;
      ThreePer(GroupOf(offs), len - 3);
      var token := token0 + 1;
      var g := (token - 1) / 3;
      pi := pi + ((token - 1) % 3 + 3);
      var i := RepsB(g);
      if i > 0 {
        Below512(offs);
        var u := GetWord(offs - RepsM(g));
        w.WrN(u, i);
      } else {
        NothingBits(offs - RepsM(g));
      }
    }

    // item n can be written
    ghost predicate Passable(n: nat)
      requires n <= |items|
    {
      Clear4(|head|, items, pin, lens, lout, n) && (n < |items| ==> RunClear(|head|, items, pin, lens, lout, n))
    }

    lemma AllPassed()
      requires forall i :: 0 <= i <= |items| ==> Passable(i)
      ensures AllClear4(|head|, items, pin, lens, lout)
    {
      hide Clear4, RunClear;
      forall i | 0 <= i <= |items| ensures Clear4(|head|, items, pin, lens, lout, i) { assert Passable(i); }
      forall i | 0 <= i < |items| ensures RunClear(|head|, items, pin, lens, lout, i) { assert Passable(i); }
    }

    // what the two pointers tell
    lemma Tells()
      requires Valid()
      ensures lz == ItemAt4(items, k, lout)
      ensures w.pd + 0x20 < lz <==> Clear4(|head|, items, pin, lens, lout, k)
    {
      hide w.Valid, Complete, Coding4, AllInter4, InterToks, InterBytes4, Covered, AllCoded4, ToksBits4;
      w.Size();
    }

    // one item; contact and a run of no characters make the pass give up
    method Step() returns (turn: Turn)
      requires Valid()
      modifies this`pi, this`lz, this`k, w, w.out
      ensures turn == More ==> Valid() && k == old(k) + 1
      ensures turn != GiveUp <==> old(Passable(k))
      ensures turn == End ==> w.Valid() && k == old(k) == |items| && w.bits == Done(k) + SymBits(lens, END4) && w.pd + 0x10 <= lout
    {
      hide w.Valid, ToksBits4, Complete, Coding4, AllInter4, InterToks, InterBytes4, Covered, AllCoded4, ItemBytes4, SymBits, Pow2, CodeHas, TokenOf;
      ghost var at := |InterBytes4(items[..k])|;
      CodeAt4(k);
      Tells();
      if w.pd + 0x20 >= lz { return GiveUp; }
      var cod := Get();
      assert cod == Code()[at];
      EndTells(k);
      RunTells(k);
      if cod == TK_CHRS { return GiveUp; }
      if cod == TK_END4 {
        WrH4(w, huf, TK_END4 + 0x100, lens);
        return End;
      }
      var ok := WriteItem(cod);
      turn := if ok then More else GiveUp;
    }

    // the item whose first byte has just been read
    method WriteItem(cod: byte) returns (ok: bool)
      requires 1 <= lz && Shape() && w.Valid() && k < |items| && pi == Covered(items[..k]) && w.bits == Done(k)
      requires w.pd + 0x20 < lz && Intact(lz - 1) && lz - 1 == lout - |Code()| + |InterBytes4(items[..k])|
      requires InterOk4(items[k]) && CodeHas(|InterBytes4(items[..k])|, ItemBytes4(items[k])) && cod == Code()[|InterBytes4(items[..k])|]
      requires cod != TK_CHRS
      modifies this`pi, this`lz, this`k, w, w.out
      ensures ok ==> Valid() && k == old(k) + 1
      ensures ok <==> RunClear(|head|, items, pin, lens, lout, old(k))
    {
      hide w.Valid, ToksBits4, Complete, Coding4, AllInter4, InterToks, InterBytes4, Covered, AllCoded4, ItemBytes4, Pow2, CodeHas, Holds, CopyTail, RunBytes, RunClear, TokenOf,
        InterOk4, Fits4, ItemToks, Span, GroupOf, RepsM, RepsB;
      AsItem4(items[k]);
      StillHeld4(|InterBytes4(items[..k])|, ItemBytes4(items[k]));
      Place4(items, k, pin);
      if cod > TK_CHRS {
        ok := WriteRun(cod);
        if !ok { return; }
      } else {
        NoRunHere(|head|, items, pin, lens, lout, k);
        WriteCopy(cod);
      }
      k := k + 1;
      ok := true;
    }

    // only the end mark looks like one
    lemma EndTells(n: nat)
      requires n <= |items| && |Code()| <= lout && AllInter4(items)
      ensures |InterBytes4(items[..n])| < |Code()|
      ensures Code()[|InterBytes4(items[..n])|] == TK_END4 <==> n == |items|
    {
      hide ItemBytes4, InterBytes4, AllInter4;
      CodeAt4(n);
      if n < |items| {
        AsItem4(items[n]);
        var at, b := |InterBytes4(items[..n])|, ItemBytes4(items[n]);
        assert Code()[at..at + |b|][0] == Code()[at];
      }
    }

    // only an empty run starts with the bare marker of runs
    lemma RunTells(n: nat)
      requires n <= |items| && |Code()| <= lout && AllInter4(items) && |InterBytes4(items[..n])| < |Code()|
      ensures Code()[|InterBytes4(items[..n])|] == TK_CHRS <==> n < |items| && items[n] == Run(0)
    {
      hide ItemBytes4, InterBytes4, AllInter4, RunBytes;
      CodeAt4(n);
      if n < |items| {
        AsItem4(items[n]);
        var at, b := |InterBytes4(items[..n])|, ItemBytes4(items[n]);
        assert Code()[at..at + |b|][0] == Code()[at];
      }
    }

    // what is intact can be read
    lemma StillHeld4(at: nat, b: seq<byte>)
      requires 1 <= lz && lz - 1 == lout - |Code()| + at && lout <= w.out.Length && |Code()| <= lout
      requires CodeHas(at, b) && |b| >= 1 && w.pd <= lz - 1 && Intact(lz - 1)
      ensures Holds(lz, b[1..]) && b[0] == Code()[at]
    {
      hide InterBytes4;
      var c := Code()[at..at + |b|];
      forall j | 0 <= j < |b| ensures w.out[lz - 1 + j] == b[j] { assert c[j] == b[j]; }
    }

    ghost predicate CodeHas(at: nat, b: seq<byte>) {
      at + |b| < |Code()| && Code()[at..at + |b|] == b
    }

    // item n is where lz points
    lemma CodeAt4(n: nat)
      requires n <= |items| && |Code()| <= lout && AllInter4(items)
      ensures |InterBytes4(items[..n])| < |Code()|
      ensures n == |items| ==> Code()[|InterBytes4(items[..n])|] == TK_END4
      ensures n < |items| ==> InterOk4(items[n]) && CodeHas(|InterBytes4(items[..n])|, ItemBytes4(items[n]))
    {
      hide ItemBytes4, InterOk4, InterBytes4, Covered, InterToks;
      Prefix4(items, n, pin);
      if n < |items| {
        Place4(items, n, pin);
        SlicePrefix4(InterBytes4(items[..n]), ItemBytes4(items[n]), InterBytes4(items));
      } else {
        assert items[..n] == items;
      }
    }

    // writes the data of all items and the end symbol
    method Emit() returns (ok: bool)
      requires Valid() && k == 0
      modifies this`pi, this`lz, this`k, w, w.out
      ensures ok <==> AllClear4(|head|, items, pin, lens, lout)
      ensures ok ==> w.Valid() && w.bits == Done(|items|) + SymBits(lens, END4) && w.pd + 0x10 <= lout
    {
      hide w.Valid, ToksBits4, Complete, Coding4, AllInter4, InterToks, InterBytes4, Covered, AllCoded4, SymBits;
      while true
        invariant Valid() && forall i :: 0 <= i < k ==> Passable(i)
        decreases |items| - k
      {
        var turn := Step();
        if turn == GiveUp { return false; }
        if turn == End {
          forall i | 0 <= i <= |items| ensures Passable(i) { }
          AllPassed();
          return true;
        }
      }
    }
  }

  lemma NoRunHere(front: nat, items: seq<Inter>, data: seq<byte>, lens: seq<nat>, lout: nat, k: nat)
    requires k < |items| && items[k].Copy?
    ensures RunClear(front, items, data, lens, lout, k)
  {
  }

  lemma SlicePrefix4(a: seq<byte>, b: seq<byte>, whole: seq<byte>)
    requires a + b <= whole
    ensures |a| + |b| <= |whole| && (whole + [TK_END4])[|a|..|a| + |b|] == b
  {
    assert (whole + [TK_END4])[..|a| + |b|] == a + b;
  }

  lemma Below512(offs: nat)
    requires 1 <= offs < 0x800
    ensures offs - RepsM(GroupOf(offs)) < 0x1_0000
  {
    hide Pow2, RepsM, RepsB, GroupOf;
  }

  lemma NothingBits(v: nat)
    ensures ToBitsM(v, 0) == []
  {
  }

  lemma TailParts(offs: nat, len: nat)
    requires Fits4(Rep(offs, len)) && len >= 6
    ensures CopyTail(offs, len) == Word(offs - 1) + if len < 21 then [] else Word(len)
  {
    hide Word;
  }

  lemma CopyBits(offs: nat, len: nat, lens: seq<nat>)
    requires Coded4(Rep(offs, len), lens)
    ensures Fits4(Rep(offs, len)) && |lens| == SYMS4 && TokenOf(offs, len) < 0x4F && (len < 6 <==> TokenOf(offs, len) < 0x3F)
    ensures SymOf(Rep(offs, len)) == 0x100 + TokenOf(offs, len) && lens[0x100 + TokenOf(offs, len)] >= 1
    ensures TokBits4(Rep(offs, len), lens) == SymBits(lens, 0x100 + TokenOf(offs, len)) + ExtraBits4(offs, len)
  {
    hide TokenOf, SymBits, ExtraBits4;
  }

  lemma Even(w: Writer4, lz: nat, check: bool)
    requires w.Valid()
    ensures w.pd % 2 == 0
  {
  }

  // The intermediate code of the items stands at lz, where it is not overwritten yet.
  ghost predicate CanStart4(w: Writer4, pin: seq<byte>, lout: nat, lz: nat, lens: seq<nat>, items: seq<Inter>)
    reads w, w.out
  {
    && AllInter4(items) && Covered(items) == |pin| && AllCoded4(InterToks(items, pin), lens)
    && lz + |InterBytes4(items)| + 1 == lout <= w.out.Length
    && var code := InterBytes4(items) + [TK_END4];
       forall i :: w.pd <= i < lout && lz <= i ==> w.out[i] == code[i - lz]
  }

  lemma CharCoded(pin: seq<byte>, from: nat, to: nat, i: nat, lens: seq<nat>)
    requires from <= i < to <= |pin| && AllCoded4(Lits(pin[from..to]), lens) && |lens| == SYMS4
    ensures lens[pin[i]] >= 1 && TokBits4(Lit(pin[i]), lens) == SymBits(lens, pin[i])
  {
    hide SymBits;
    assert Coded4(Lits(pin[from..to])[i - from], lens);
  }
}
