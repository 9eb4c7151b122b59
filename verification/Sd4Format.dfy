/**
 The tokens of the Stacker 4 format and what a decoder makes of any stream of them.

 Repetitions of 3 to 5 bytes are short tokens, three for each class of offsets. Longer
 ones name the count, up to 20, or announce it.
 */
module Sd4Format {
  import opened Bits
  import opened Lz
  import opened LzTokens
  import opened Canonical
  import opened MsbStream
  import opened Sd4Codes

  const END4 := 0x14F
  const SYMS4 := 0x150

  // offset classes of the short tokens: extra bits and lowest offset
  const REPS_B: seq<nat> := [0, 0, 0, 1, 1, 2, 2, 3, 3, 4, 4, 5, 5, 6, 6, 7, 7, 8, 8, 9, 9]
  const REPS_M: seq<nat> := [1, 2, 3, 4, 6, 8, 12, 16, 24, 32, 48, 64, 96, 128, 192, 256, 384, 512, 768, 1024, 1536]

  // offset classes of the other tokens
  const PROG_LEN: seq<nat> := [5, 7, 9, 11]
  const PROG_ADD: seq<nat> := [0x1, 0x21, 0xA1, 0x2A1]

  function RepsB(g: nat): (b: nat)
    requires g < 21
    ensures b <= 9 && (b == 0 <==> g < 3)
  {
    assert forall i :: 0 <= i < 21 ==> REPS_B[i] <= 9 && (REPS_B[i] == 0 <==> i < 3);
    REPS_B[g]
  }

  function RepsM(g: nat): (m: nat)
    requires g < 21
    ensures 1 <= m <= 1536
  {
    assert forall i :: 0 <= i < 21 ==> 1 <= REPS_M[i] <= 1536;
    REPS_M[g]
  }

  // the class of an offset below 0x800
  function GroupOf(offs: nat): (g: nat)
    requires 1 <= offs < 0x800
    ensures g < 21 && RepsM(g) <= offs < RepsM(g) + Pow2(RepsB(g))
  {
    if offs < 4 then Group3(offs)
    else if offs < 12 then Group6(offs)
    else if offs < 32 then Group9(offs)
    else if offs < 96 then Group12(offs)
    else if offs < 256 then Group15(offs)
    else Group20(offs)
  }

  function Group3(offs: nat): (g: nat)
    requires 1 <= offs < 4
    ensures g < 21 && RepsM(g) <= offs < RepsM(g) + Pow2(RepsB(g))
  {
    assert REPS_M[0] == 1 && REPS_M[1] == 2 && REPS_M[2] == 3;
    assert REPS_B[0] == 0 && REPS_B[1] == 0 && REPS_B[2] == 0 && Pow2(0) == 1;
    offs - 1
  }

  function Group6(offs: nat): (g: nat)
    requires 4 <= offs < 12
    ensures g < 21 && RepsM(g) <= offs < RepsM(g) + Pow2(RepsB(g))
  {
    Pow2Values();
    assert REPS_M[3] == 4 && REPS_M[4] == 6 && REPS_M[5] == 8 && REPS_B[3] == 1 && REPS_B[4] == 1 && REPS_B[5] == 2;
    if offs < 6 then 3 else if offs < 8 then 4 else 5
  }

  function Group9(offs: nat): (g: nat)
    requires 12 <= offs < 32
    ensures g < 21 && RepsM(g) <= offs < RepsM(g) + Pow2(RepsB(g))
  {
    Pow2Values();
    assert REPS_M[6] == 12 && REPS_M[7] == 16 && REPS_M[8] == 24 && REPS_B[6] == 2 && REPS_B[7] == 3 && REPS_B[8] == 3;
    if offs < 16 then 6 else if offs < 24 then 7 else 8
  }

  function Group12(offs: nat): (g: nat)
    requires 32 <= offs < 96
    ensures g < 21 && RepsM(g) <= offs < RepsM(g) + Pow2(RepsB(g))
  {
    Pow2Values();
    assert REPS_M[9] == 32 && REPS_M[10] == 48 && REPS_M[11] == 64 && REPS_B[9] == 4 && REPS_B[10] == 4 && REPS_B[11] == 5;
    if offs < 48 then 9 else if offs < 64 then 10 else 11
  }

  function Group15(offs: nat): (g: nat)
    requires 96 <= offs < 256
    ensures g < 21 && RepsM(g) <= offs < RepsM(g) + Pow2(RepsB(g))
  {
    Pow2Values();
    assert REPS_M[12] == 96 && REPS_M[13] == 128 && REPS_M[14] == 192 && REPS_B[12] == 5 && REPS_B[13] == 6 && REPS_B[14] == 6;
    if offs < 128 then 12 else if offs < 192 then 13 else 14
  }

  function Group20(offs: nat): (g: nat)
    requires 256 <= offs < 0x800
    ensures g < 21 && RepsM(g) <= offs < RepsM(g) + Pow2(RepsB(g))
  {
    Pow2Values();
    assert REPS_M[15] == 256 && REPS_M[16] == 384 && REPS_M[17] == 512 && REPS_M[18] == 768 && REPS_M[19] == 1024 && REPS_M[20] == 1536;
    assert REPS_B[15] == 7 && REPS_B[16] == 7 && REPS_B[17] == 8 && REPS_B[18] == 8 && REPS_B[19] == 9 && REPS_B[20] == 9;
    if offs < 384 then 15 else if offs < 512 then 16 else if offs < 768 then 17 else if offs < 1024 then 18 else if offs < 1536 then 19 else 20
  }

  function ProgLen(i: nat): (n: nat)
    requires i < 4
    ensures 5 <= n <= 11
  {
    assert PROG_LEN[0] == 5 && PROG_LEN[1] == 7 && PROG_LEN[2] == 9 && PROG_LEN[3] == 11;
    PROG_LEN[i]
  }

  function ProgAdd(i: nat): (n: nat)
    requires i < 4
    ensures 1 <= n <= 0x2A1
  {
    assert PROG_ADD[0] == 1 && PROG_ADD[1] == 0x21 && PROG_ADD[2] == 0xA1 && PROG_ADD[3] == 0x2A1;
    PROG_ADD[i]
  }

  // the class of an offset below 0xAA0
  function ProgOf(offs: nat): (i: nat)
    requires 1 <= offs < 0xAA0
    ensures i < 4 && ProgAdd(i) <= offs < ProgAdd(i) + Pow2(ProgLen(i))
  {
    Pow2Values();
    assert PROG_LEN[0] == 5 && PROG_LEN[1] == 7 && PROG_LEN[2] == 9 && PROG_LEN[3] == 11;
    assert PROG_ADD[0] == 1 && PROG_ADD[1] == 0x21 && PROG_ADD[2] == 0xA1 && PROG_ADD[3] == 0x2A1;
    if offs < 0x21 then 0 else if offs < 0xA1 then 1 else if offs < 0x2A1 then 2 else 3
  }

  // Every class of offsets begins where the one before ends; the field grows by two bits from class to class.
  lemma ProgLaw(i: nat)
    requires i < 4
    ensures ProgLen(i) == 5 + 2 * i && (i == 0 ==> ProgAdd(0) == 1)
    ensures i < 3 ==> ProgAdd(i + 1) == ProgAdd(i) + Pow2(ProgLen(i))
  {
    Pow2Values();
    assert PROG_LEN[0] == 5 && PROG_LEN[1] == 7 && PROG_LEN[2] == 9 && PROG_LEN[3] == 11;
    assert PROG_ADD[0] == 1 && PROG_ADD[1] == 0x21 && PROG_ADD[2] == 0xA1 && PROG_ADD[3] == 0x2A1;
    hide Pow2;
  }

  //////////////////////////////////////////////////////////////////////////////
  // How tokens are written
  //////////////////////////////////////////////////////////////////////////////

  // what the encoder can express
  predicate Fits4(t: LzTok) {
    t.Rep? ==> 1 <= t.offs < 0xAA0 && 3 <= t.len < 0x1_0000 && (t.len < 6 ==> t.offs < 0x800)
  }

  // the number of a repetition token, less 0x100
  function TokenOf(offs: nat, len: nat): (k: nat)
    requires Fits4(Rep(offs, len))
    ensures k < 0x4F && (len < 6 <==> k < 0x3F) && (len >= 21 <==> k == 0x4E)
  {
    if len < 6 then 3 * GroupOf(offs) + len - 3 else if len < 21 then 0x3F + len - 6 else 0x4E
  }

  function SymOf(t: LzTok): (i: nat)
    requires Fits4(t)
    ensures i < END4
  {
    match t
    case Lit(b) => b
    case Rep(offs, len) => 0x100 + TokenOf(offs, len)
  }

  predicate Coded4(t: LzTok, lens: seq<nat>) {
    Fits4(t) && |lens| == SYMS4 && lens[SymOf(t)] >= 1
  }

  // a count of 21 and more, in fields of 4, 8, 12 and 16 bits of which full ones are followed by the next
  function CountBits4(u: nat): seq<bool> {
    if u < 0xF then ToBitsM(u, 4)
    else if u - 0xF < 0xFF then ToBitsM(0xF, 4) + ToBitsM(u - 0xF, 8)
    else
      ToBitsM(0xF, 4)
      + (ToBitsM(0xFF, 8) + if u - 0x10E < 0xFFF then ToBitsM(u - 0x10E, 12) else ToBitsM(0xFFF, 12) + ToBitsM(u - 0x110D, 16))
  }

  function ProgBits(offs: nat): seq<bool>
    requires 1 <= offs < 0xAA0
  {
    ToBitsM(ProgOf(offs), 2) + ToBitsM(offs - ProgAdd(ProgOf(offs)), ProgLen(ProgOf(offs)))
  }

  function ExtraBits4(offs: nat, len: nat): seq<bool>
    requires Fits4(Rep(offs, len))
  {
    if len < 6 then ToBitsM(offs - RepsM(GroupOf(offs)), RepsB(GroupOf(offs)))
    else ProgBits(offs) + if len < 21 then [] else CountBits4(len - 21)
  }

  function TokBits4(t: LzTok, lens: seq<nat>): seq<bool> {
    if !Coded4(t, lens) then []
    else SymBits(lens, SymOf(t)) + if t.Lit? then [] else ExtraBits4(t.offs, t.len)
  }

  function ToksBits4(toks: seq<LzTok>, lens: seq<nat>): seq<bool> {
    if toks == [] then [] else ToksBits4(toks[..|toks| - 1], lens) + TokBits4(toks[|toks| - 1], lens)
  }

  ghost predicate AllCoded4(toks: seq<LzTok>, lens: seq<nat>) {
    forall i :: 0 <= i < |toks| ==> Coded4(toks[i], lens)
  }

  //////////////////////////////////////////////////////////////////////////////
  // The decoder
  //////////////////////////////////////////////////////////////////////////////

  // a repetition read: offset, count, and where its fields end
  datatype Fields = Fields(m: nat, n: nat, pos: nat)

  // the count behind token 0x4E
  function ReadCount4(s: seq<bool>, pos: nat): (r: (nat, nat))
    ensures r.0 >= 21 && r.1 >= pos
  {
    var a, b, c, d := ValM(s, pos, 4), ValM(s, pos + 4, 8), ValM(s, pos + 12, 12), ValM(s, pos + 24, 16);
    if a != 0xF then (21 + a, pos + 4)
    else if b != 0xFF then (36 + b, pos + 12)
    else if c != 0xFFF then (291 + c, pos + 24)
    else (4386 + d, pos + 40)
  }

  // the fields of token u, counted from 1
  function ReadFields(s: seq<bool>, pos: nat, u: nat): (f: Fields)
    requires 1 <= u < 0x50
    ensures f.m >= 1 && f.n >= 3 && f.pos >= pos
  {
    if u < 0x40 then
      var g := (u - 1) / 3;
      Fields(RepsM(g) + ValM(s, pos, RepsB(g)), (u - 1) % 3 + 3, pos + RepsB(g))
    else
      Pow2Values();
      var i := ValM(s, pos, 2);
      var m, pos1 := ProgAdd(i) + ValM(s, pos + 2, ProgLen(i)), pos + 2 + ProgLen(i);
      if u < 0x4F then Fields(m, u - 0x40 + 6, pos1)
      else var (n, pos2) := ReadCount4(s, pos1); Fields(m, n, pos2)
  }

  datatype State4 = At4(pos: nat, buf: seq<byte>, p: nat) | Error4(buf: seq<byte>)

  function Min4(a: nat, b: nat): nat { if a < b then a else b }

  // the data from pos on; offsets and counts are cut to the buffer
  function DecodeData(lens: seq<nat>, s: seq<bool>, pos: nat, buf: seq<byte>, p: nat): (st: State4)
    requires Complete(lens, BITS4) && |lens| == SYMS4 && p <= |buf|
    ensures |st.buf| == |buf| && (st.At4? ==> st.p <= |buf|)
    decreases |buf| - p
  {
    var sym := DecodeSym(lens, BITS4, s, pos);
    var pos1 := pos + lens[sym];
    if sym == END4 then At4(pos1, buf, p)
    else if p == |buf| then Error4(buf)
    else if sym < 0x100 then DecodeData(lens, s, pos1, buf[p := sym], p + 1)
    else
      var f := ReadFields(s, pos1, sym - 0xFF);
      var n := Min4(f.n, |buf| - p);
      DecodeData(lens, s, f.pos, CopyBack(buf, p, Min4(f.m, p), n), p + n)
  }

  //////////////////////////////////////////////////////////////////////////////
  // Reading back
  //////////////////////////////////////////////////////////////////////////////

  lemma ReadSym4(lens: seq<nat>, s: seq<bool>, pos: nat, i: nat, rest: seq<bool>)
    requires Complete(lens, BITS4) && i < |lens| && lens[i] >= 1
    requires Starts(s, pos, SymBits(lens, i) + rest)
    ensures DecodeSym(lens, BITS4, s, pos) == i && Starts(s, pos + lens[i], rest)
  {
    hide SymBits, Complete, DecodeSym, Starts;
    StartsConcat(s, pos, SymBits(lens, i), rest);
    SymRoundTrip(lens, BITS4, s, pos, i);
  }

  lemma CountRead4(s: seq<bool>, pos: nat, u: nat)
    requires Starts(s, pos, CountBits4(u)) && u < 0x1_0000
    ensures ReadCount4(s, pos) == (21 + u, pos + |CountBits4(u)|)
  {
    hide ToBitsM, ValM, Starts, Pow2;
    Pow2Values();
    if u < 0xF {
      assert ToBitsM(u, 4) == ToBitsM(u, 4) + [];
      StartsFieldM(s, pos, u, 4, []);
    } else {
      CountRead8(s, pos, u);
    }
  }

  lemma CountRead8(s: seq<bool>, pos: nat, u: nat)
    requires Starts(s, pos, CountBits4(u)) && 0xF <= u < 0x1_0000
    ensures ReadCount4(s, pos) == (21 + u, pos + |CountBits4(u)|)
  {
    hide ToBitsM, ValM, Starts, Pow2;
    Pow2Values();
    if u - 0xF < 0xFF {
      StartsFieldM(s, pos, 0xF, 4, ToBitsM(u - 0xF, 8));
      assert ToBitsM(u - 0xF, 8) == ToBitsM(u - 0xF, 8) + [];
      StartsFieldM(s, pos + 4, u - 0xF, 8, []);
    } else {
      var rest := if u - 0x10E < 0xFFF then ToBitsM(u - 0x10E, 12) else ToBitsM(0xFFF, 12) + ToBitsM(u - 0x110D, 16);
      StartsFieldM(s, pos, 0xF, 4, ToBitsM(0xFF, 8) + rest);
      StartsFieldM(s, pos + 4, 0xFF, 8, rest);
      if u - 0x10E < 0xFFF {
        assert rest == rest + [];
        StartsFieldM(s, pos + 12, u - 0x10E, 12, []);
      } else {
        StartsFieldM(s, pos + 12, 0xFFF, 12, ToBitsM(u - 0x110D, 16));
        assert ToBitsM(u - 0x110D, 16) == ToBitsM(u - 0x110D, 16) + [];
        StartsFieldM(s, pos + 24, u - 0x110D, 16, []);
      }
    }
  }

  lemma FieldsRead(s: seq<bool>, pos: nat, offs: nat, len: nat)
    requires Fits4(Rep(offs, len)) && Starts(s, pos, ExtraBits4(offs, len))
    ensures ReadFields(s, pos, TokenOf(offs, len) + 1) == Fields(offs, len, pos + |ExtraBits4(offs, len)|)
  {
    hide ToBitsM, ValM, Starts, Pow2, RepsM, RepsB, GroupOf, ProgOf, ProgAdd, ProgLen, CountBits4, ReadCount4;
    Pow2Values();
    if len < 6 {
      var g := GroupOf(offs);
      ThreePer(g, len - 3);
      assert ExtraBits4(offs, len) == ExtraBits4(offs, len) + [];
      StartsFieldM(s, pos, offs - RepsM(g), RepsB(g), []);
    } else {
      var i := ProgOf(offs);
      var last := if len < 21 then [] else CountBits4(len - 21);
      assert ExtraBits4(offs, len) == ToBitsM(i, 2) + (ToBitsM(offs - ProgAdd(i), ProgLen(i)) + last);
      StartsFieldM(s, pos, i, 2, ToBitsM(offs - ProgAdd(i), ProgLen(i)) + last);
      StartsFieldM(s, pos + 2, offs - ProgAdd(i), ProgLen(i), last);
      if len >= 21 { CountRead4(s, pos + 2 + ProgLen(i), len - 21); }
    }
  }

  lemma ThreePer(g: nat, k: nat)
    requires k < 3
    ensures (3 * g + k) / 3 == g && (3 * g + k) % 3 == k
  {
  }

  // one token read back
  lemma DecodeTok4(lens: seq<nat>, s: seq<bool>, pos: nat, t: LzTok, buf: seq<byte>, p: nat) returns (buf': seq<byte>, p': nat)
    requires Complete(lens, BITS4) && |lens| == SYMS4 && Coded4(t, lens) && Starts(s, pos, TokBits4(t, lens))
    requires p <= |buf| && TokOk(t, p) && |TokOut(t, buf[..p])| <= |buf|
    ensures p < p' <= |buf| == |buf'| && buf'[..p'] == TokOut(t, buf[..p])
    ensures DecodeData(lens, s, pos, buf, p) == DecodeData(lens, s, pos + |TokBits4(t, lens)|, buf', p')
  {
    hide *;
    TokInBuffer(t, buf, p);
    TokParts4(t, lens, buf[..p]);
    Sizes4();
    match t
    case Lit(b) =>
      ReadSym4(lens, s, pos, b, []);
      DataStep(lens, s, pos, buf, p);
      buf', p' := buf[p := b], p + 1;
    case Rep(offs, len) =>
      ReadSym4(lens, s, pos, 0x100 + TokenOf(offs, len), ExtraBits4(offs, len));
      FieldsRead(s, pos + lens[SymOf(t)], offs, len);
      DataStep(lens, s, pos, buf, p);
      Uncut(len, |buf| - p);
      Uncut(offs, p);
      buf', p' := CopyBack(buf, p, offs, len), p + len;
  }

  lemma Sizes4()
    ensures SYMS4 == 0x150 && END4 == 0x14F && BITS4 == 15
  {
  }

  lemma Uncut(a: nat, b: nat)
    requires a <= b
    ensures Min4(a, b) == a
  {
  }

  lemma TokParts4(t: LzTok, lens: seq<nat>, out: seq<byte>)
    requires Coded4(t, lens) && TokOk(t, |out|)
    ensures Fits4(t) && SymOf(t) < |lens| && lens[SymOf(t)] >= 1
    ensures t.Lit? ==> SymOf(t) == t.b && TokBits4(t, lens) == SymBits(lens, t.b) + [] && |TokOut(t, out)| == |out| + 1
    ensures t.Rep? ==> Fits4(Rep(t.offs, t.len)) && SymOf(t) == 0x100 + TokenOf(t.offs, t.len) && TokenOf(t.offs, t.len) < 0x4F
    ensures t.Rep? ==> TokBits4(t, lens) == SymBits(lens, SymOf(t)) + ExtraBits4(t.offs, t.len)
    ensures t.Rep? ==> 1 <= t.offs <= |out| && t.len >= 1 && |TokOut(t, out)| == |out| + t.len
  {
    hide TokenOf, ExtraBits4, SymBits;
  }

  // one step of the decoder
  lemma DataStep(lens: seq<nat>, s: seq<bool>, pos: nat, buf: seq<byte>, p: nat)
    requires Complete(lens, BITS4) && |lens| == SYMS4 && p < |buf|
    ensures var sym := DecodeSym(lens, BITS4, s, pos);
            var pos1 := pos + lens[sym];
            && (sym < 0x100 ==> DecodeData(lens, s, pos, buf, p) == DecodeData(lens, s, pos1, buf[p := sym], p + 1))
            && (0x100 <= sym < END4 ==>
                  var f := ReadFields(s, pos1, sym - 0xFF);
                  var n := Min4(f.n, |buf| - p);
                  DecodeData(lens, s, pos, buf, p) == DecodeData(lens, s, f.pos, CopyBack(buf, p, Min4(f.m, p), n), p + n))
  {
    hide Complete, DecodeSym, ReadFields, CopyBack;
  }

  lemma DataEnd(lens: seq<nat>, s: seq<bool>, pos: nat, buf: seq<byte>, p: nat)
    requires Complete(lens, BITS4) && |lens| == SYMS4 && p <= |buf| && DecodeSym(lens, BITS4, s, pos) == END4
    ensures DecodeData(lens, s, pos, buf, p) == At4(pos + lens[END4], buf, p)
  {
    hide Complete, DecodeSym;
  }

  lemma {:induction false} ToksAt4(s: seq<bool>, pos: nat, toks: seq<LzTok>, lens: seq<nat>, i: nat)
    requires i < |toks| && Starts(s, pos, ToksBits4(toks, lens))
    ensures Starts(s, pos + |ToksBits4(toks[..i], lens)|, TokBits4(toks[i], lens))
    ensures ToksBits4(toks[..i + 1], lens) == ToksBits4(toks[..i], lens) + TokBits4(toks[i], lens)
    decreases |toks|
  {
    hide Starts, TokBits4;
    var rest, last := toks[..|toks| - 1], toks[|toks| - 1];
    StartsConcat(s, pos, ToksBits4(rest, lens), TokBits4(last, lens));
    assert toks[..i + 1][..i] == toks[..i];
    if i < |toks| - 1 {
      assert rest[..i] == toks[..i];
      ToksAt4(s, pos, rest, lens, i);
    }
  }

  lemma CodedAt4(toks: seq<LzTok>, lens: seq<nat>, i: nat)
    requires AllCoded4(toks, lens) && i < |toks|
    ensures Coded4(toks[i], lens)
  {
  }

  // The tokens and their end symbol are decoded to the data they produce.
  lemma {:induction false} DecodeToks4(lens: seq<nat>, s: seq<bool>, base: nat, toks: seq<LzTok>, buf: seq<byte>, i: nat, p: nat)
    returns (buf': seq<byte>)
    requires Complete(lens, BITS4) && |lens| == SYMS4 && AllCoded4(toks, lens) && lens[END4] >= 1
    requires Starts(s, base, ToksBits4(toks, lens) + SymBits(lens, END4))
    requires i <= |toks| && Produce(toks).Some? && |Produce(toks).value| <= |buf|
    requires p <= |buf| && Produce(toks[..i]) == Some(buf[..p])
    ensures |buf'| == |buf| && buf'[..|Produce(toks).value|] == Produce(toks).value
    ensures DecodeData(lens, s, base + |ToksBits4(toks[..i], lens)|, buf, p)
            == At4(base + |ToksBits4(toks, lens)| + lens[END4], buf', |Produce(toks).value|)
    decreases |toks| - i
  {
    hide *;
    Sizes4();
    StartsConcat(s, base, ToksBits4(toks, lens), SymBits(lens, END4));
    if i < |toks| {
      ToksAt4(s, base, toks, lens, i);
      ProducePrefix(toks, i);
      CodedAt4(toks, lens, i);
      var b, q := DecodeTok4(lens, s, base + |ToksBits4(toks[..i], lens)|, toks[i], buf, p);
      buf' := DecodeToks4(lens, s, base, toks, b, i + 1, q);
    } else {
      assert toks[..i] == toks;
      assert SymBits(lens, END4) + [] == SymBits(lens, END4);
      ReadSym4(lens, s, base + |ToksBits4(toks, lens)|, END4, []);
      DataEnd(lens, s, base + |ToksBits4(toks, lens)|, buf, p);
      buf' := buf;
    }
  }
}
