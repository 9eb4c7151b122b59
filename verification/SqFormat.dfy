/**
 The SQ format of DriveSpace 3. Behind the header its payload has the layout of RFC 1951
 (sections 3.2.5 to 3.2.7). `Decode` is what the decompressor makes of any input.
 */
module SqFormat {
  import opened Bits
  import opened Lz
  import opened LzTokens
  import opened Canonical
  import opened SqCodes

  const REP_BAS: seq<nat> := [
    0x03, 0x04, 0x05, 0x06, 0x07, 0x08, 0x09, 0x0A, 0x0B, 0x0D, 0x0F, 0x11, 0x13, 0x17, 0x1B, 0x1F,
    0x23, 0x2B, 0x33, 0x3B, 0x43, 0x53, 0x63, 0x73, 0x83, 0xA3, 0xC3, 0xE3, 0x102]

  const REP_BLN: seq<nat> := [
    0, 0, 0, 0, 0, 0, 0, 0, 1, 1, 1, 1, 2, 2, 2, 2, 3, 3, 3, 3, 4, 4, 4, 4, 5, 5, 5, 5, 0]

  const OFF_BAS: seq<nat> := [
    0x0001, 0x0002, 0x0003, 0x0004, 0x0005, 0x0007, 0x0009, 0x000D, 0x0011, 0x0019, 0x0021, 0x0031,
    0x0041, 0x0061, 0x0081, 0x00C1, 0x0101, 0x0181, 0x0201, 0x0301, 0x0401, 0x0601, 0x0801, 0x0C01,
    0x1001, 0x1801, 0x2001, 0x3001, 0x4001, 0x6001]

  const OFF_BLN: seq<nat> := [
    0, 0, 0, 0, 1, 1, 2, 2, 3, 3, 4, 4, 5, 5, 6, 6, 7, 7, 8, 8, 9, 9, 10, 10, 11, 11, 12, 12, 13, 13]

  // the order in which the lengths of the helper code are stored
  const CODE_INDEX: seq<nat> := [
    0x10, 0x11, 0x12, 0x00, 0x08, 0x07, 0x09, 0x06, 0x0A, 0x05, 0x0B, 0x04, 0x0C, 0x03, 0x0D, 0x02, 0x0E, 0x01, 0x0F]

  const END_SYM := 0x100

  // base and number of extra bits of repeat code t
  function RepBas(t: nat): (v: nat)
    requires t < 29
    ensures 3 <= v <= 258
  {
    assert forall i :: 0 <= i < 29 ==> 3 <= REP_BAS[i] <= 258;
    REP_BAS[t]
  }

  function RepBln(t: nat): (v: nat)
    requires t < 29
    ensures v <= 5
  {
    assert forall i :: 0 <= i < 29 ==> REP_BLN[i] <= 5;
    REP_BLN[t]
  }

  // base and number of extra bits of offset code t
  function OffBas(t: nat): (v: nat)
    requires t < 30
    ensures 1 <= v <= 24577
  {
    assert forall i :: 0 <= i < 30 ==> 1 <= OFF_BAS[i] <= 24577;
    OFF_BAS[t]
  }

  function OffBln(t: nat): (v: nat)
    requires t < 30
    ensures v <= 13
  {
    assert forall i :: 0 <= i < 30 ==> OFF_BLN[i] <= 13;
    OFF_BLN[t]
  }

  lemma RepStep0(t: nat)
    requires 0 <= t < 7
    ensures REP_BAS[t + 1] == REP_BAS[t] + Pow2(REP_BLN[t]) - if t == 27 then 1 else 0
  {
    Pow2Values();
    assert Pow2(0) == 1;
    hide Pow2;
    if t == 0 { assert REP_BAS[0] == 3 && REP_BAS[1] == 4 && REP_BLN[0] == 0; }
    if t == 1 { assert REP_BAS[1] == 4 && REP_BAS[2] == 5 && REP_BLN[1] == 0; }
    if t == 2 { assert REP_BAS[2] == 5 && REP_BAS[3] == 6 && REP_BLN[2] == 0; }
    if t == 3 { assert REP_BAS[3] == 6 && REP_BAS[4] == 7 && REP_BLN[3] == 0; }
    if t == 4 { assert REP_BAS[4] == 7 && REP_BAS[5] == 8 && REP_BLN[4] == 0; }
    if t == 5 { assert REP_BAS[5] == 8 && REP_BAS[6] == 9 && REP_BLN[5] == 0; }
    if t == 6 { assert REP_BAS[6] == 9 && REP_BAS[7] == 10 && REP_BLN[6] == 0; }
  }

  lemma RepStep7(t: nat)
    requires 7 <= t < 14
    ensures REP_BAS[t + 1] == REP_BAS[t] + Pow2(REP_BLN[t]) - if t == 27 then 1 else 0
  {
    Pow2Values();
    assert Pow2(0) == 1;
    hide Pow2;
    if t == 7 { assert REP_BAS[7] == 10 && REP_BAS[8] == 11 && REP_BLN[7] == 0; }
    if t == 8 { assert REP_BAS[8] == 11 && REP_BAS[9] == 13 && REP_BLN[8] == 1; }
    if t == 9 { assert REP_BAS[9] == 13 && REP_BAS[10] == 15 && REP_BLN[9] == 1; }
    if t == 10 { assert REP_BAS[10] == 15 && REP_BAS[11] == 17 && REP_BLN[10] == 1; }
    if t == 11 { assert REP_BAS[11] == 17 && REP_BAS[12] == 19 && REP_BLN[11] == 1; }
    if t == 12 { assert REP_BAS[12] == 19 && REP_BAS[13] == 23 && REP_BLN[12] == 2; }
    if t == 13 { assert REP_BAS[13] == 23 && REP_BAS[14] == 27 && REP_BLN[13] == 2; }
  }

  lemma RepStep14(t: nat)
    requires 14 <= t < 21
    ensures REP_BAS[t + 1] == REP_BAS[t] + Pow2(REP_BLN[t]) - if t == 27 then 1 else 0
  {
    Pow2Values();
    hide Pow2;
    if t == 14 { assert REP_BAS[14] == 27 && REP_BAS[15] == 31 && REP_BLN[14] == 2; }
    if t == 15 { assert REP_BAS[15] == 31 && REP_BAS[16] == 35 && REP_BLN[15] == 2; }
    if t == 16 { assert REP_BAS[16] == 35 && REP_BAS[17] == 43 && REP_BLN[16] == 3; }
    if t == 17 { assert REP_BAS[17] == 43 && REP_BAS[18] == 51 && REP_BLN[17] == 3; }
    if t == 18 { assert REP_BAS[18] == 51 && REP_BAS[19] == 59 && REP_BLN[18] == 3; }
    if t == 19 { assert REP_BAS[19] == 59 && REP_BAS[20] == 67 && REP_BLN[19] == 3; }
    if t == 20 { assert REP_BAS[20] == 67 && REP_BAS[21] == 83 && REP_BLN[20] == 4; }
  }

  lemma RepStep21(t: nat)
    requires 21 <= t < 28
    ensures REP_BAS[t + 1] == REP_BAS[t] + Pow2(REP_BLN[t]) - if t == 27 then 1 else 0
  {
    Pow2Values();
    hide Pow2;
    if t == 21 { assert REP_BAS[21] == 83 && REP_BAS[22] == 99 && REP_BLN[21] == 4; }
    if t == 22 { assert REP_BAS[22] == 99 && REP_BAS[23] == 115 && REP_BLN[22] == 4; }
    if t == 23 { assert REP_BAS[23] == 115 && REP_BAS[24] == 131 && REP_BLN[23] == 4; }
    if t == 24 { assert REP_BAS[24] == 131 && REP_BAS[25] == 163 && REP_BLN[24] == 5; }
    if t == 25 { assert REP_BAS[25] == 163 && REP_BAS[26] == 195 && REP_BLN[25] == 5; }
    if t == 26 { assert REP_BAS[26] == 195 && REP_BAS[27] == 227 && REP_BLN[26] == 5; }
    if t == 27 { assert REP_BAS[27] == 227 && REP_BAS[28] == 258 && REP_BLN[27] == 5; }
  }

  lemma OffStep0(t: nat)
    requires 0 <= t < 6
    ensures OFF_BAS[t + 1] == OFF_BAS[t] + Pow2(OFF_BLN[t])
  {
    Pow2Values();
    assert Pow2(0) == 1;
    hide Pow2;
    if t == 0 { assert OFF_BAS[0] == 1 && OFF_BAS[1] == 2 && OFF_BLN[0] == 0; }
    if t == 1 { assert OFF_BAS[1] == 2 && OFF_BAS[2] == 3 && OFF_BLN[1] == 0; }
    if t == 2 { assert OFF_BAS[2] == 3 && OFF_BAS[3] == 4 && OFF_BLN[2] == 0; }
    if t == 3 { assert OFF_BAS[3] == 4 && OFF_BAS[4] == 5 && OFF_BLN[3] == 0; }
    if t == 4 { assert OFF_BAS[4] == 5 && OFF_BAS[5] == 7 && OFF_BLN[4] == 1; }
    if t == 5 { assert OFF_BAS[5] == 7 && OFF_BAS[6] == 9 && OFF_BLN[5] == 1; }
  }

  lemma OffStep6(t: nat)
    requires 6 <= t < 12
    ensures OFF_BAS[t + 1] == OFF_BAS[t] + Pow2(OFF_BLN[t])
  {
    Pow2Values();
    hide Pow2;
    if t == 6 { assert OFF_BAS[6] == 9 && OFF_BAS[7] == 13 && OFF_BLN[6] == 2; }
    if t == 7 { assert OFF_BAS[7] == 13 && OFF_BAS[8] == 17 && OFF_BLN[7] == 2; }
    if t == 8 { assert OFF_BAS[8] == 17 && OFF_BAS[9] == 25 && OFF_BLN[8] == 3; }
    if t == 9 { assert OFF_BAS[9] == 25 && OFF_BAS[10] == 33 && OFF_BLN[9] == 3; }
    if t == 10 { assert OFF_BAS[10] == 33 && OFF_BAS[11] == 49 && OFF_BLN[10] == 4; }
    if t == 11 { assert OFF_BAS[11] == 49 && OFF_BAS[12] == 65 && OFF_BLN[11] == 4; }
  }

  lemma OffStep12(t: nat)
    requires 12 <= t < 18
    ensures OFF_BAS[t + 1] == OFF_BAS[t] + Pow2(OFF_BLN[t])
  {
    Pow2Values();
    hide Pow2;
    if t == 12 { assert OFF_BAS[12] == 65 && OFF_BAS[13] == 97 && OFF_BLN[12] == 5; }
    if t == 13 { assert OFF_BAS[13] == 97 && OFF_BAS[14] == 129 && OFF_BLN[13] == 5; }
    if t == 14 { assert OFF_BAS[14] == 129 && OFF_BAS[15] == 193 && OFF_BLN[14] == 6; }
    if t == 15 { assert OFF_BAS[15] == 193 && OFF_BAS[16] == 257 && OFF_BLN[15] == 6; }
    if t == 16 { assert OFF_BAS[16] == 257 && OFF_BAS[17] == 385 && OFF_BLN[16] == 7; }
    if t == 17 { assert OFF_BAS[17] == 385 && OFF_BAS[18] == 513 && OFF_BLN[17] == 7; }
  }

  lemma OffStep18(t: nat)
    requires 18 <= t < 24
    ensures OFF_BAS[t + 1] == OFF_BAS[t] + Pow2(OFF_BLN[t])
  {
    Pow2Values();
    hide Pow2;
    if t == 18 { assert OFF_BAS[18] == 513 && OFF_BAS[19] == 769 && OFF_BLN[18] == 8; }
    if t == 19 { assert OFF_BAS[19] == 769 && OFF_BAS[20] == 1025 && OFF_BLN[19] == 8; }
    if t == 20 { assert OFF_BAS[20] == 1025 && OFF_BAS[21] == 1537 && OFF_BLN[20] == 9; }
    if t == 21 { assert OFF_BAS[21] == 1537 && OFF_BAS[22] == 2049 && OFF_BLN[21] == 9; }
    if t == 22 { assert OFF_BAS[22] == 2049 && OFF_BAS[23] == 3073 && OFF_BLN[22] == 10; }
    if t == 23 { assert OFF_BAS[23] == 3073 && OFF_BAS[24] == 4097 && OFF_BLN[23] == 10; }
  }

  lemma OffStep24(t: nat)
    requires 24 <= t < 29
    ensures OFF_BAS[t + 1] == OFF_BAS[t] + Pow2(OFF_BLN[t])
  {
    Pow2Values();
    hide Pow2;
    if t == 24 { assert OFF_BAS[24] == 4097 && OFF_BAS[25] == 6145 && OFF_BLN[24] == 11; }
    if t == 25 { assert OFF_BAS[25] == 6145 && OFF_BAS[26] == 8193 && OFF_BLN[25] == 11; }
    if t == 26 { assert OFF_BAS[26] == 8193 && OFF_BAS[27] == 12289 && OFF_BLN[26] == 12; }
    if t == 27 { assert OFF_BAS[27] == 12289 && OFF_BAS[28] == 16385 && OFF_BLN[27] == 12; }
    if t == 28 { assert OFF_BAS[28] == 16385 && OFF_BAS[29] == 24577 && OFF_BLN[28] == 13; }
  }

  // Each base follows from the one before and its extra bits. Only the last repeat code, for 258 bytes,
  // takes a value away from the code before.
  lemma RepSteps(t: nat)
    requires t < 28
    ensures RepBas(t + 1) == RepBas(t) + Pow2(RepBln(t)) - if t == 27 then 1 else 0
    ensures RepBas(t) < RepBas(t + 1)
  {
    if t < 7 { RepStep0(t); } else if t < 14 { RepStep7(t); } else if t < 21 { RepStep14(t); } else if t < 28 { RepStep21(t); }
    if t == 27 { assert RepBln(27) == 5 && Pow2(5) == 32; }
    hide Pow2;
  }

  lemma OffSteps(t: nat)
    requires t < 29
    ensures OffBas(t + 1) == OffBas(t) + Pow2(OffBln(t))
  {
    hide Pow2;
    if t < 6 { OffStep0(t); } else if t < 12 { OffStep6(t); } else if t < 18 { OffStep12(t); } else if t < 24 { OffStep18(t); } else if t < 29 { OffStep24(t); }
  }

  // the extra bits in closed form, as in section 3.2.5 of RFC 1951: four repeat codes and two offset codes
  // for every number of bits, behind those without any
  lemma ExtraBits(t: nat)
    ensures t < 28 ==> RepBln(t) == if t < 4 then 0 else t / 4 - 1
    ensures t == 28 ==> RepBln(t) == 0
    ensures t < 30 ==> OffBln(t) == if t < 2 then 0 else t / 2 - 1
  {
    assert forall i :: 0 <= i < 28 ==> REP_BLN[i] == if i < 4 then 0 else i / 4 - 1;
    assert REP_BLN[28] == 0;
    assert forall i :: 0 <= i < 30 ==> OFF_BLN[i] == if i < 2 then 0 else i / 2 - 1;
  }

  // The helper lengths are stored with those in the middle first, from 8 upwards and from 7 downwards
  // in turn, behind the three repeat symbols and 0 (section 3.2.7).
  lemma CodeOrder(i: nat)
    ensures i < 19 ==> CODE_INDEX[i] == if i < 3 then 16 + i else if i == 3 then 0 else if i % 2 == 0 then 8 + (i - 4) / 2 else 7 - (i - 5) / 2
  {
    assert forall k :: 0 <= k < 19 ==>
             CODE_INDEX[k] == if k < 3 then 16 + k else if k == 3 then 0 else if k % 2 == 0 then 8 + (k - 4) / 2 else 7 - (k - 5) / 2;
  }

  lemma TableEnds()
    ensures |REP_BAS| == |REP_BLN| == 29 && |OFF_BAS| == |OFF_BLN| == 30
    ensures RepBas(0) == 3 && RepBas(28) == 258 && RepBln(28) == 0
    ensures OffBas(0) == 1 && OffBas(29) == 24577 && OffBln(29) == 13
  {
  }

  // the code a repeat count or an offset is written with: the last base not above it
  function RepCode(len: nat): (t: nat)
    requires 3 <= len <= 258
    ensures t < 29 && RepBas(t) <= len < RepBas(t) + Pow2(RepBln(t))
  {
    TableEnds();
    RepFrom(len, 28)
  }

  function RepFrom(len: nat, t: nat): (r: nat)
    requires t < 29 && 3 <= len && (t == 28 ==> len <= 258) && (t < 28 ==> len < RepBas(t + 1))
    ensures r <= t && RepBas(r) <= len < RepBas(r) + Pow2(RepBln(r))
  {
    TableEnds();
    assert Pow2(0) == 1;
    if RepBas(t) <= len then
      (if t < 28 then RepSteps(t); t else t)
    else RepFrom(len, t - 1)
  }

  function OffCode(offs: nat): (t: nat)
    requires 1 <= offs <= 32768
    ensures t < 30 && OffBas(t) <= offs < OffBas(t) + Pow2(OffBln(t))
  {
    TableEnds();
    OffFrom(offs, 29)
  }

  function OffFrom(offs: nat, t: nat): (r: nat)
    requires t < 30 && 1 <= offs && (t == 29 ==> offs <= 32768) && (t < 29 ==> offs < OffBas(t + 1))
    ensures r <= t && OffBas(r) <= offs < OffBas(r) + Pow2(OffBln(r))
  {
    TableEnds();
    assert Pow2(13) == 8192;
    if OffBas(t) <= offs then
      (if t < 29 then OffSteps(t); t else t)
    else OffFrom(offs, t - 1)
  }

  //////////////////////////////////////////////////////////////////////////////
  // How tokens are written
  //////////////////////////////////////////////////////////////////////////////

  // the two codes in force: characters and repeat counts, and offsets
  datatype Codes = Codes(ch: seq<nat>, off: seq<nat>)

  predicate CodesOk(c: Codes) {
    Complete(c.ch, MAX_BITS) && Complete(c.off, MAX_BITS) && 0x101 <= |c.ch| <= 0x11E && |c.off| <= 0x1E
  }

  // every symbol the token needs has a code
  predicate TokCoded(t: LzTok, c: Codes) {
    match t
    case Lit(b) => b < |c.ch| && c.ch[b] >= 1
    case Rep(offs, len) =>
      && 1 <= offs <= 32768 && 3 <= len <= 258
      && 0x101 + RepCode(len) < |c.ch| && c.ch[0x101 + RepCode(len)] >= 1
      && OffCode(offs) < |c.off| && c.off[OffCode(offs)] >= 1
  }

  function RepLenBits(len: nat, c: Codes): seq<bool>
    requires 3 <= len <= 258 && 0x101 + RepCode(len) < |c.ch| && c.ch[0x101 + RepCode(len)] >= 1
  {
    var t := RepCode(len);
    SymBits(c.ch, 0x101 + t) + ToBits(len - RepBas(t), RepBln(t))
  }

  function RepOffBits(offs: nat, c: Codes): seq<bool>
    requires 1 <= offs <= 32768 && OffCode(offs) < |c.off| && c.off[OffCode(offs)] >= 1
  {
    var o := OffCode(offs);
    SymBits(c.off, o) + ToBits(offs - OffBas(o), OffBln(o))
  }

  function TokBits(t: LzTok, c: Codes): seq<bool> {
    if !TokCoded(t, c) then []
    else
      match t
      case Lit(b) => SymBits(c.ch, b)
      case Rep(offs, len) => RepLenBits(len, c) + RepOffBits(offs, c)
  }

  function ToksBits(toks: seq<LzTok>, c: Codes): seq<bool> {
    if toks == [] then [] else ToksBits(toks[..|toks| - 1], c) + TokBits(toks[|toks| - 1], c)
  }

  //////////////////////////////////////////////////////////////////////////////
  // Decoding the tokens of a block
  //////////////////////////////////////////////////////////////////////////////

  // where decoding stands: in the stream, the output buffer and its fill count; or an error
  datatype State = At(pos: nat, buf: seq<byte>, p: nat) | Error(buf: seq<byte>)

  function Min(a: nat, b: nat): nat { if a < b then a else b }

  // a repetition whose repeat symbol 0x101+u ends at pos; both values are cut to the buffer
  function DecodeRep(c: Codes, s: seq<bool>, pos: nat, u: nat, buf: seq<byte>, p: nat): (st: State)
    requires CodesOk(c) && u < 29 && p < |buf|
    ensures st.At? && |st.buf| == |buf| && p < st.p <= |buf|
  {
    var len := RepBas(u) + Val(s, pos, RepBln(u));
    var pos1 := pos + RepBln(u);
    var o := DecodeSym(c.off, MAX_BITS, s, pos1);
    var pos2 := pos1 + c.off[o];
    var offs := OffBas(o) + Val(s, pos2, OffBln(o));
    var n := Min(len, |buf| - p);
    At(pos2 + OffBln(o), CopyBack(buf, p, Min(offs, p), n), p + n)
  }

  function DecodeBlock(c: Codes, s: seq<bool>, pos: nat, buf: seq<byte>, p: nat): (st: State)
    requires CodesOk(c) && p <= |buf|
    ensures |st.buf| == |buf| && (st.At? ==> p <= st.p <= |buf|)
    decreases |buf| - p
  {
    var sym := DecodeSym(c.ch, MAX_BITS, s, pos);
    var pos1 := pos + c.ch[sym];
    if sym == END_SYM then At(pos1, buf, p)
    else if p == |buf| then Error(buf)
    else if sym < END_SYM then DecodeBlock(c, s, pos1, buf[p := sym], p + 1)
    else
      var st := DecodeRep(c, s, pos1, sym - 0x101, buf, p);
      DecodeBlock(c, s, st.pos, st.buf, st.p)
  }

  lemma ReadSym(lens: seq<nat>, s: seq<bool>, pos: nat, i: nat, rest: seq<bool>)
    requires Complete(lens, MAX_BITS) && i < |lens| && lens[i] >= 1
    requires Starts(s, pos, SymBits(lens, i) + rest)
    ensures DecodeSym(lens, MAX_BITS, s, pos) == i && Starts(s, pos + lens[i], rest)
  {
    hide SymBits, Complete, DecodeSym, Starts;
    StartsConcat(s, pos, SymBits(lens, i), rest);
    SymRoundTrip(lens, MAX_BITS, s, pos, i);
  }

  lemma ReadRepLen(c: Codes, s: seq<bool>, pos: nat, len: nat, rest: seq<bool>)
    requires CodesOk(c) && 3 <= len <= 258 && 0x101 + RepCode(len) < |c.ch| && c.ch[0x101 + RepCode(len)] >= 1
    requires Starts(s, pos, RepLenBits(len, c) + rest)
    ensures var t := RepCode(len);
            var pos1 := pos + c.ch[0x101 + t];
            && DecodeSym(c.ch, MAX_BITS, s, pos) == 0x101 + t && RepBas(t) + Val(s, pos1, RepBln(t)) == len
            && pos1 + RepBln(t) == pos + |RepLenBits(len, c)| && Starts(s, pos + |RepLenBits(len, c)|, rest)
  {
    hide SymBits, Complete, DecodeSym, Starts, RepBas, RepBln, RepCode, Val, ToBits;
    var t := RepCode(len);
    var e := ToBits(len - RepBas(t), RepBln(t));
    assert RepLenBits(len, c) + rest == SymBits(c.ch, 0x101 + t) + (e + rest);
    ReadSym(c.ch, s, pos, 0x101 + t, e + rest);
    StartsField(s, pos + c.ch[0x101 + t], len - RepBas(t), RepBln(t), rest);
  }

  lemma ReadRepOff(c: Codes, s: seq<bool>, pos: nat, offs: nat)
    requires CodesOk(c) && 1 <= offs <= 32768 && OffCode(offs) < |c.off| && c.off[OffCode(offs)] >= 1
    requires Starts(s, pos, RepOffBits(offs, c))
    ensures var o := OffCode(offs);
            var pos1 := pos + c.off[o];
            && DecodeSym(c.off, MAX_BITS, s, pos) == o && OffBas(o) + Val(s, pos1, OffBln(o)) == offs
            && pos1 + OffBln(o) == pos + |RepOffBits(offs, c)|
  {
    hide SymBits, Complete, DecodeSym, Starts, OffBas, OffBln, OffCode, Val, ToBits;
    var o := OffCode(offs);
    var e := ToBits(offs - OffBas(o), OffBln(o));
    assert e + [] == e;
    ReadSym(c.off, s, pos, o, e);
    StartsField(s, pos + c.off[o], offs - OffBas(o), OffBln(o), []);
  }

  // one token read back
  lemma DecodeTok(c: Codes, s: seq<bool>, pos: nat, t: LzTok, buf: seq<byte>, p: nat) returns (buf': seq<byte>, p': nat)
    requires CodesOk(c) && TokCoded(t, c) && Starts(s, pos, TokBits(t, c))
    requires p <= |buf| && TokOk(t, p) && |TokOut(t, buf[..p])| <= |buf|
    ensures p < p' <= |buf| == |buf'| && buf'[..p'] == TokOut(t, buf[..p])
    ensures DecodeBlock(c, s, pos, buf, p) == DecodeBlock(c, s, pos + |TokBits(t, c)|, buf', p')
  {
    hide *;
    TokInBuffer(t, buf, p);
    TokSpans(t, c);
    match t
    case Lit(b) =>
      assert SymBits(c.ch, b) + [] == SymBits(c.ch, b);
      TokSyms(t, c);
      ReadSym(c.ch, s, pos, b, []);
      BlockStep(c, s, pos, buf, p);
      buf', p' := buf[p := b], p + 1;
    case Rep(offs, len) =>
      TokSyms(t, c);
      ReadRepLen(c, s, pos, len, RepOffBits(offs, c));
      StartsConcat(s, pos, RepLenBits(len, c), RepOffBits(offs, c));
      ReadRepOff(c, s, pos + |RepLenBits(len, c)|, offs);
      RepFits(t, buf, p);
      BlockStep(c, s, pos, buf, p);
      RepStep(c, s, pos + c.ch[0x101 + RepCode(len)], RepCode(len), buf, p, len, offs);
      buf', p' := CopyBack(buf, p, offs, len), p + len;
  }

  lemma TokSpans(t: LzTok, c: Codes)
    requires TokCoded(t, c)
    ensures t.Lit? ==> t.b < |c.ch| && c.ch[t.b] >= 1 && TokBits(t, c) == SymBits(c.ch, t.b)
    ensures t.Rep? ==>
              && 3 <= t.len <= 258 && 1 <= t.offs <= 32768
              && 0x101 + RepCode(t.len) < |c.ch| && c.ch[0x101 + RepCode(t.len)] >= 1
              && OffCode(t.offs) < |c.off| && c.off[OffCode(t.offs)] >= 1
              && TokBits(t, c) == RepLenBits(t.len, c) + RepOffBits(t.offs, c)
  {
    hide SymBits, RepCode, OffCode, RepLenBits, RepOffBits;
  }

  lemma TokSyms(t: LzTok, c: Codes)
    requires CodesOk(c)
    ensures Complete(c.ch, MAX_BITS) && Complete(c.off, MAX_BITS) && |c.ch| <= 0x11E && |c.off| <= 0x1E
    ensures END_SYM == 0x100 && MAX_BITS == 16 && END_SYM < |c.ch|
  {
  }

  lemma RepFits(t: LzTok, buf: seq<byte>, p: nat)
    requires t.Rep? && p <= |buf| && TokOk(t, p) && |TokOut(t, buf[..p])| <= |buf|
    ensures 1 <= t.offs <= p && t.len >= 1 && p + t.len <= |buf|
  {
  }

  // one step of the block decoder
  lemma BlockStep(c: Codes, s: seq<bool>, pos: nat, buf: seq<byte>, p: nat)
    requires CodesOk(c) && p < |buf|
    ensures var sym := DecodeSym(c.ch, MAX_BITS, s, pos);
            var pos1 := pos + c.ch[sym];
            && (sym < END_SYM ==> DecodeBlock(c, s, pos, buf, p) == DecodeBlock(c, s, pos1, buf[p := sym], p + 1))
            && (sym > END_SYM ==>
                  var st := DecodeRep(c, s, pos1, sym - 0x101, buf, p);
                  DecodeBlock(c, s, pos, buf, p) == DecodeBlock(c, s, st.pos, st.buf, st.p))
  {
    hide DecodeSym, DecodeRep, Complete, Pow2, CodeLen, CodeOf, ValM;
  }

  lemma RepStep(c: Codes, s: seq<bool>, pos: nat, u: nat, buf: seq<byte>, p: nat, len: nat, offs: nat)
    requires CodesOk(c) && u < 29 && p < |buf| && 1 <= offs <= p && p + len <= |buf|
    requires RepBas(u) + Val(s, pos, RepBln(u)) == len
    requires var pos1 := pos + RepBln(u);
             var o := DecodeSym(c.off, MAX_BITS, s, pos1);
             OffBas(o) + Val(s, pos1 + c.off[o], OffBln(o)) == offs
    ensures var o := DecodeSym(c.off, MAX_BITS, s, pos + RepBln(u));
            DecodeRep(c, s, pos, u, buf, p)
            == At(pos + RepBln(u) + c.off[o] + OffBln(o), CopyBack(buf, p, offs, len), p + len)
  {
    hide Complete, DecodeSym, RepBas, RepBln, OffBas, OffBln, Val, CopyBack;
  }

  lemma {:induction false} ToksAt(s: seq<bool>, pos: nat, toks: seq<LzTok>, c: Codes, i: nat)
    requires i < |toks| && Starts(s, pos, ToksBits(toks, c))
    ensures Starts(s, pos + |ToksBits(toks[..i], c)|, TokBits(toks[i], c))
    ensures ToksBits(toks[..i + 1], c) == ToksBits(toks[..i], c) + TokBits(toks[i], c)
    decreases |toks|
  {
    hide Starts, TokBits;
    var rest, last := toks[..|toks| - 1], toks[|toks| - 1];
    StartsConcat(s, pos, ToksBits(rest, c), TokBits(last, c));
    assert toks[..i + 1][..i] == toks[..i];
    if i < |toks| - 1 {
      assert rest[..i] == toks[..i];
      ToksAt(s, pos, rest, c, i);
    }
  }

  ghost predicate AllCoded(toks: seq<LzTok>, c: Codes) {
    forall i :: 0 <= i < |toks| ==> TokCoded(toks[i], c)
  }

  // The tokens of a block and its end symbol are decoded to the data they produce.
  lemma {:induction false} DecodeToks(c: Codes, s: seq<bool>, base: nat, toks: seq<LzTok>, buf: seq<byte>, i: nat, p: nat)
    returns (buf': seq<byte>)
    requires CodesOk(c) && AllCoded(toks, c) && c.ch[END_SYM] >= 1
    requires Starts(s, base, ToksBits(toks, c) + SymBits(c.ch, END_SYM))
    requires i <= |toks| && Produce(toks).Some? && |Produce(toks).value| <= |buf|
    requires p <= |buf| && Produce(toks[..i]) == Some(buf[..p])
    ensures |buf'| == |buf| && buf'[..|Produce(toks).value|] == Produce(toks).value
    ensures DecodeBlock(c, s, base + |ToksBits(toks[..i], c)|, buf, p)
            == At(base + |ToksBits(toks, c)| + c.ch[END_SYM], buf', |Produce(toks).value|)
    decreases |toks| - i
  {
    hide *;
    TokSyms(Lit(0), c);
    StartsConcat(s, base, ToksBits(toks, c), SymBits(c.ch, END_SYM));
    if i < |toks| {
      ToksAt(s, base, toks, c, i);
      ProducePrefix(toks, i);
      CodedAt(toks, c, i);
      var b, q := DecodeTok(c, s, base + |ToksBits(toks[..i], c)|, toks[i], buf, p);
      buf' := DecodeToks(c, s, base, toks, b, i + 1, q);
    } else {
      assert toks[..i] == toks;
      assert SymBits(c.ch, END_SYM) + [] == SymBits(c.ch, END_SYM);
      ReadSym(c.ch, s, base + |ToksBits(toks, c)|, END_SYM, []);
      BlockEnd(c, s, base + |ToksBits(toks, c)|, buf, p);
      buf' := buf;
    }
  }

  lemma CodedAt(toks: seq<LzTok>, c: Codes, i: nat)
    requires AllCoded(toks, c) && i < |toks|
    ensures TokCoded(toks[i], c)
  {
  }

  lemma BlockEnd(c: Codes, s: seq<bool>, pos: nat, buf: seq<byte>, p: nat)
    requires CodesOk(c) && p <= |buf| && DecodeSym(c.ch, MAX_BITS, s, pos) == END_SYM
    ensures DecodeBlock(c, s, pos, buf, p) == At(pos + c.ch[END_SYM], buf, p)
  {
    hide Complete, DecodeSym;
  }
}
