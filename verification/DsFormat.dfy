/**
 The DS and JM compressed formats of DoubleSpace and DriveSpace.

 `TokenBits` says how a token is written, `Decode` what the decompressor makes of any
 input, and `DecodeTokens` that it undoes the format.
 */
module DsFormat {
  import opened Bits
  import opened Lz

  const SYNC := 0x113F
  const SECTOR_SIZE := 512

  // a byte, a repetition, or the sync marker that stands after every 512 bytes
  datatype Token = Lit(b: byte) | Rep(offs: nat, len: nat) | Mark

  //////////////////////////////////////////////////////////////////////////////
  // What tokens mean and how they are written
  //////////////////////////////////////////////////////////////////////////////

  // t may stand where `at` bytes have been produced, with room for `room` in all
  predicate TokenOk(t: Token, at: nat, room: nat, jm: bool) {
    match t
    case Lit(_) => at < room
    case Rep(offs, len) => 1 <= offs <= at && offs < SYNC && (if jm then 3 else 2) <= len <= SECTOR_SIZE && at + len <= room
    case Mark => at < room && at % SECTOR_SIZE == 0
  }

  function TokenOut(t: Token, out: seq<byte>, room: nat, jm: bool): (r: seq<byte>)
    requires TokenOk(t, |out|, room, jm)
    ensures |out| <= |r| <= room
  {
    match t
    case Lit(b) => out + [b]
    case Rep(offs, len) => Repeat(out, offs, len)
    case Mark => out
  }

  // the data the tokens produce one after the other
  function Output(toks: seq<Token>, room: nat, jm: bool): (r: Option<seq<byte>>)
    ensures r.Some? ==> |r.value| <= room
  {
    if toks == [] then Some([])
    else
      var t := toks[|toks| - 1];
      match Output(toks[..|toks| - 1], room, jm)
      case None => None
      case Some(out) => if TokenOk(t, |out|, room, jm) then Some(TokenOut(t, out, room, jm)) else None
  }

  // class k of a repeat count holds the 2^k counts from 2^k + 2 on
  function LenClass(len: nat): (k: nat)
    requires 3 <= len <= 513
    ensures k <= 8 && Pow2(k) + 2 <= len < 2 * Pow2(k) + 2
  {
    Pow2Values();
    if len == 3 then 0 else if len < 6 then 1 else if len < 10 then 2 else if len < 18 then 3
    else if len < 34 then 4 else if len < 66 then 5 else if len < 130 then 6 else if len < 258 then 7 else 8
  }

  // k zeros, a one, and k bits of the rest
  function LenBits(len: nat): seq<bool>
    requires 3 <= len <= 513
  {
    var k := LenClass(len);
    ToBits(Pow2(k), k + 1) + ToBits(len - Pow2(k) - 2, k)
  }

  function FarBits(offs: nat): seq<bool>
    requires 64 <= offs <= SYNC
  {
    if offs < 320 then ToBits(0, 1) + ToBits(offs - 64, 8) else ToBits(1, 1) + ToBits(offs - 320, 12)
  }

  function OffsBits(offs: nat, jm: bool): seq<bool>
    requires offs <= SYNC
  {
    if jm then
      ToBits(1, 2) + (if offs < 64 then ToBits(0, 1) + ToBits(offs, 6) else ToBits(1, 1) + FarBits(offs))
    else if offs < 64 then ToBits(0, 2) + ToBits(offs, 6) else ToBits(3, 2) + FarBits(offs)
  }

  function LitBits(b: byte, jm: bool): seq<bool> {
    (if jm then if b < 128 then ToBits(0, 1) else ToBits(3, 2)
     else if b < 128 then ToBits(2, 2) else ToBits(1, 2)) + ToBits(b % 128, 7)
  }

  function TokenBits(t: Token, jm: bool): seq<bool> {
    match t
    case Lit(b) => LitBits(b, jm)
    case Rep(offs, len) =>
      if offs < SYNC && (if jm then 3 else 2) <= len <= SECTOR_SIZE
      then OffsBits(offs, jm) + LenBits(if jm then len else len + 1) else []
    case Mark => OffsBits(SYNC, jm)
  }

  function TokensBits(toks: seq<Token>, jm: bool): seq<bool> {
    if toks == [] then [] else TokensBits(toks[..|toks| - 1], jm) + TokenBits(toks[|toks| - 1], jm)
  }

  //////////////////////////////////////////////////////////////////////////////
  // Decoding
  //////////////////////////////////////////////////////////////////////////////

  // what a token starts with: a byte, or an offset still to be followed by a count
  datatype Head = HeadLit(b: byte, bits: nat) | HeadRep(offs: nat, bits: nat)

  function FarHead(s: seq<bool>, pos: nat, n: nat): (h: Head)
    ensures h.HeadRep?
  {
    if BitAt(s, pos) == 0 then HeadRep(Val(s, pos + 1, 8) + 64, n + 9)
    else HeadRep(Val(s, pos + 1, 12) + 320, n + 13)
  }

  function Byte7(s: seq<bool>, pos: nat): (v: nat)
    ensures v < 128
  {
    Pow2Values();
    Val(s, pos, 7)
  }

  function JmOffs(s: seq<bool>, pos: nat, n: nat): (h: Head)
    ensures h.HeadRep?
  {
    if BitAt(s, pos) == 0 then HeadRep(Val(s, pos + 1, 6), n + 7) else FarHead(s, pos + 1, n + 1)
  }

  function ReadHead(s: seq<bool>, pos: nat, jm: bool): Head {
    if jm then
      if BitAt(s, pos) == 0 then HeadLit(Byte7(s, pos + 1), 8)
      else if BitAt(s, pos + 1) == 1 then HeadLit(128 + Byte7(s, pos + 2), 9)
      else JmOffs(s, pos + 2, 2)
    else
      if BitAt(s, pos) == 0 && BitAt(s, pos + 1) == 0 then HeadRep(Val(s, pos + 2, 6), 8)
      else if BitAt(s, pos) == 1 && BitAt(s, pos + 1) == 1 then FarHead(s, pos + 2, 2)
      else HeadLit((if BitAt(s, pos) == 1 then 128 else 0) + Byte7(s, pos + 2), 9)
  }

  // zeros before the next one, at most n
  function Zeros(s: seq<bool>, pos: nat, n: nat): (k: nat)
    ensures k <= n
    decreases n, pos, s
  {
    if n == 0 || BitAt(s, pos) == 1 then 0 else 1 + Zeros(s, pos + 1, n - 1)
  }

  // The repeat count at pos, or -1 behind nine zeros; class k takes 2k+1 bits.
  function ReadLen(s: seq<bool>, pos: nat): int {
    var k := Zeros(s, pos, 9);
    if k == 9 then -1 else Pow2(k) + 2 + Val(s, pos + k + 1, k)
  }

  function LenSize(s: seq<bool>, pos: nat): nat {
    var k := Zeros(s, pos, 9);
    if k == 9 then 9 else 2 * k + 1
  }

  // the state of a decoder: stopped with an error, or at a stream and buffer position
  datatype State = Stopped(r: int, buf: seq<byte>) | At(pos: nat, buf: seq<byte>, p: nat)

  // dblb_decrep; stac tells the call from the Stacker side (flg == 0x4000)
  function DecodeRep(s: seq<bool>, pos: nat, buf: seq<byte>, p: nat, offs: nat, jm: bool, stac: bool): (st: State)
    requires p < |buf|
    ensures |st.buf| == |buf|
    ensures st.At? ==> p <= st.p <= |buf| && (offs == SYNC || p < st.p) && pos <= st.pos && offs != 0
  {
    if offs == 0 then Stopped(-2, buf)
    else if offs == SYNC then
      if p % SECTOR_SIZE != 0 && !stac then Stopped(-2, buf) else At(pos, buf, p)
    else
      var n := ReadLen(s, pos) + if jm then 0 else -1;
      if n <= 0 || offs > p || p + n > |buf| then Stopped(-2, buf)
      else At(pos + LenSize(s, pos), CopyBack(buf, p, offs, n), p + n)
  }

  function DecodeToken(s: seq<bool>, pos: nat, buf: seq<byte>, p: nat, jm: bool, stac: bool): (st: State)
    requires p < |buf|
    ensures |st.buf| == |buf|
    ensures st.At? ==> p <= st.p <= |buf| && pos < st.pos && (p < st.p || pos < |s|)
  {
    match ReadHead(s, pos, jm)
    case HeadLit(b, n) => At(pos + n, buf[p := b], p + 1)
    case HeadRep(offs, n) =>
      if pos >= |s| then
        Pow2Values();
        ValPastEnd(s, pos + 2, 6);
        DecodeRep(s, pos + n, buf, p, offs, jm, stac)
      else DecodeRep(s, pos + n, buf, p, offs, jm, stac)
  }

  function FinalSync(s: seq<bool>, pos: nat, jm: bool): bool {
    var u := Val(s, pos, if jm then 2 else 3);
    if jm then u == 1 && JmOffs(s, pos + 2, 2).offs == SYNC
    else u == 7 && Val(s, pos + 3, 12) + 320 == SYNC
  }

  // what the decoder's loop still has to do: the result code and the buffer it leaves
  function DecodeFrom(s: seq<bool>, pos: nat, buf: seq<byte>, p: nat, jm: bool, stac: bool): (r: (int, seq<byte>))
    requires p <= |buf|
    ensures |r.1| == |buf|
    decreases |buf| - p + if pos < |s| then |s| - pos else 0
  {
    if p < |buf| then
      match DecodeToken(s, pos, buf, p, jm, stac)
      case Stopped(e, b) => (e, b)
      case At(pos', b, p') => DecodeFrom(s, pos', b, p', jm, stac)
    else if stac || FinalSync(s, pos, jm) then (p as int, buf)
    else (-2, buf)
  }

  function Magic(jm: bool): nat {
    if jm then 0x4D4A else 0x5344
  }

  // ds_dec and jm_dec
  function Decode(data: seq<byte>, buf: seq<byte>, jm: bool, stac: bool): (r: (int, seq<byte>))
    requires |buf| > 0
    ensures |r.1| == |buf|
  {
    var s := BytesBits(data);
    if Val(s, 0, 16) != Magic(jm) then (-1, buf) else DecodeFrom(s, 32, buf, 0, jm, stac)
  }

  //////////////////////////////////////////////////////////////////////////////
  // Decoding undoes the format
  //////////////////////////////////////////////////////////////////////////////

  lemma StartsBit(s: seq<bool>, pos: nat, v: nat, rest: seq<bool>)
    requires Starts(s, pos, ToBits(v, 1) + rest) && v < 2
    ensures BitAt(s, pos) == v && Starts(s, pos + 1, rest)
  {
    Pow2Values();
    StartsField(s, pos, v, 1, rest);
  }

  lemma StartsBits2(s: seq<bool>, pos: nat, v: nat, rest: seq<bool>)
    requires Starts(s, pos, ToBits(v, 2) + rest) && v < 4
    ensures BitAt(s, pos) + 2 * BitAt(s, pos + 1) == v && Starts(s, pos + 2, rest)
  {
    Pow2Values();
    StartsField(s, pos, v, 2, rest);
  }

  lemma ReadLit(s: seq<bool>, pos: nat, b: byte, jm: bool)
    requires Starts(s, pos, LitBits(b, jm))
    ensures ReadHead(s, pos, jm) == HeadLit(b, |LitBits(b, jm)|)
  {
    hide ToBits, Val, Starts;
    Pow2Values();
    var low := ToBits(b % 128, 7);
    if jm && b < 128 {
      StartsBit(s, pos, 0, low);
    } else {
      StartsBits2(s, pos, if jm then 3 else if b < 128 then 2 else 1, low);
    }
    assert low + [] == low;
    StartsField(s, pos + |LitBits(b, jm)| - 7, b % 128, 7, []);
  }

  lemma ReadFar(s: seq<bool>, pos: nat, offs: nat, n: nat, rest: seq<bool>)
    requires 64 <= offs <= SYNC && Starts(s, pos, FarBits(offs) + rest)
    ensures FarHead(s, pos, n) == HeadRep(offs, n + |FarBits(offs)|)
    ensures Starts(s, pos + |FarBits(offs)|, rest)
  {
    hide ToBits, Val, Starts;
    Pow2Values();
    var hi := if offs < 320 then ToBits(offs - 64, 8) else ToBits(offs - 320, 12);
    assert FarBits(offs) + rest == ToBits(if offs < 320 then 0 else 1, 1) + (hi + rest);
    StartsBit(s, pos, if offs < 320 then 0 else 1, hi + rest);
    if offs < 320 {
      StartsField(s, pos + 1, offs - 64, 8, rest);
    } else {
      StartsField(s, pos + 1, offs - 320, 12, rest);
    }
  }

  lemma ReadOffs(s: seq<bool>, pos: nat, offs: nat, jm: bool, rest: seq<bool>)
    requires offs <= SYNC && Starts(s, pos, OffsBits(offs, jm) + rest)
    ensures ReadHead(s, pos, jm) == HeadRep(offs, |OffsBits(offs, jm)|)
    ensures Starts(s, pos + |OffsBits(offs, jm)|, rest)
  {
    hide ToBits, Val, Starts, FarBits;
    Pow2Values();
    if offs < 64 {
      var near := ToBits(offs, 6);
      if jm {
        assert OffsBits(offs, jm) + rest == ToBits(1, 2) + (ToBits(0, 1) + (near + rest));
        StartsBits2(s, pos, 1, ToBits(0, 1) + (near + rest));
        StartsBit(s, pos + 2, 0, near + rest);
        StartsField(s, pos + 3, offs, 6, rest);
      } else {
        assert OffsBits(offs, jm) + rest == ToBits(0, 2) + (near + rest);
        StartsBits2(s, pos, 0, near + rest);
        StartsField(s, pos + 2, offs, 6, rest);
      }
    } else {
      var far := FarBits(offs);
      if jm {
        assert OffsBits(offs, jm) + rest == ToBits(1, 2) + (ToBits(1, 1) + (far + rest));
        StartsBits2(s, pos, 1, ToBits(1, 1) + (far + rest));
        StartsBit(s, pos + 2, 1, far + rest);
        ReadFar(s, pos + 3, offs, 3, rest);
      } else {
        assert OffsBits(offs, jm) + rest == ToBits(3, 2) + (far + rest);
        StartsBits2(s, pos, 3, far + rest);
        ReadFar(s, pos + 2, offs, 2, rest);
      }
    }
  }

  // a one behind k zeros
  lemma {:induction false} ReadZeros(s: seq<bool>, pos: nat, k: nat, n: nat)
    requires Starts(s, pos, ToBits(Pow2(k), k + 1)) && k < n
    ensures Zeros(s, pos, n) == k
    decreases k
  {
    var b := ToBits(Pow2(k), k + 1);
    assert s[pos] == b[0];
    if k > 0 {
      assert b == [false] + ToBits(Pow2(k - 1), k);
      StartsConcat(s, pos, [false], ToBits(Pow2(k - 1), k));
      ReadZeros(s, pos + 1, k - 1, n - 1);
    }
  }

  lemma ReadLenBits(s: seq<bool>, pos: nat, len: nat)
    requires 3 <= len <= 513 && Starts(s, pos, LenBits(len))
    ensures ReadLen(s, pos) == len && LenSize(s, pos) == |LenBits(len)|
  {
    hide ToBits, Val, Starts, Zeros;
    var k := LenClass(len);
    var v := len - Pow2(k) - 2;
    StartsConcat(s, pos, ToBits(Pow2(k), k + 1), ToBits(v, k));
    ReadZeros(s, pos, k, 9);
    StartsVal(s, pos + k + 1, v, k);
  }

  // one token read back
  lemma DecodeOneToken(s: seq<bool>, pos: nat, buf: seq<byte>, p: nat, t: Token, jm: bool, stac: bool)
    requires p < |buf| && TokenOk(t, p, |buf|, jm) && Starts(s, pos, TokenBits(t, jm))
    ensures var st := DecodeToken(s, pos, buf, p, jm, stac);
            st.At? && st.pos == pos + |TokenBits(t, jm)|
            && st.buf[..st.p] == TokenOut(t, buf[..p], |buf|, jm)
  {
    hide Starts, LitBits, OffsBits, LenBits, ReadLen, LenSize, ReadHead, Val;
    match t
    case Lit(b) =>
      ReadLit(s, pos, b, jm);
      assert buf[p := b][..p + 1] == buf[..p] + [b];
    case Rep(offs, len) =>
      var n := if jm then len else len + 1;
      ReadOffs(s, pos, offs, jm, LenBits(n));
      ReadLenBits(s, pos + |OffsBits(offs, jm)|, n);
      CopyBackRepeat(buf, p, offs, len);
    case Mark =>
      assert OffsBits(SYNC, jm) + [] == OffsBits(SYNC, jm);
      ReadOffs(s, pos, SYNC, jm, []);
  }

  lemma ReadFinalSync(s: seq<bool>, pos: nat, jm: bool)
    requires Starts(s, pos, TokenBits(Mark, jm))
    ensures FinalSync(s, pos, jm)
  {
    hide Starts, ToBits, Val;
    Pow2Values();
    var far := FarBits(SYNC);
    if jm {
      assert OffsBits(SYNC, jm) == ToBits(1, 2) + (ToBits(1, 1) + (far + []));
      StartsField(s, pos, 1, 2, ToBits(1, 1) + (far + []));
      StartsBit(s, pos + 2, 1, far + []);
      ReadFar(s, pos + 3, SYNC, 3, []);
    } else {
      var top := ToBits(4095, 12);
      assert OffsBits(SYNC, jm) == ToBits(3, 2) + (ToBits(1, 1) + (top + []));
      StartsField(s, pos, 3, 2, ToBits(1, 1) + (top + []));
      StartsField(s, pos + 2, 1, 1, top + []);
      StartsField(s, pos + 3, 4095, 12, []);
      ValSplit(s, pos, 2, 1);
      ShlSteps(1);
    }
  }

  lemma {:induction false} TokensAt(s: seq<bool>, pos: nat, toks: seq<Token>, jm: bool, i: nat)
    requires i < |toks| && Starts(s, pos, TokensBits(toks, jm))
    ensures Starts(s, pos + |TokensBits(toks[..i], jm)|, TokenBits(toks[i], jm))
    ensures TokensBits(toks[..i + 1], jm) == TokensBits(toks[..i], jm) + TokenBits(toks[i], jm)
    decreases |toks|
  {
    hide Starts, TokenBits;
    var rest, last := toks[..|toks| - 1], toks[|toks| - 1];
    StartsConcat(s, pos, TokensBits(rest, jm), TokenBits(last, jm));
    assert toks[..i + 1][..i] == toks[..i];
    if i < |toks| - 1 {
      assert rest[..i] == toks[..i];
      TokensAt(s, pos, rest, jm, i);
    }
  }

  lemma {:induction false} OutputPrefix(toks: seq<Token>, room: nat, jm: bool, i: nat)
    requires i < |toks| && Output(toks, room, jm).Some?
    ensures var o := Output(toks[..i], room, jm);
            && o.Some? && TokenOk(toks[i], |o.value|, room, jm)
            && Output(toks[..i + 1], room, jm) == Some(TokenOut(toks[i], o.value, room, jm))
    decreases |toks|
  {
    assert toks[..i + 1][..i] == toks[..i];
    if i < |toks| - 1 {
      assert toks[..|toks| - 1][..i] == toks[..i];
      OutputPrefix(toks[..|toks| - 1], room, jm, i);
    } else {
      assert toks[..i + 1] == toks;
    }
  }

  // decoding from token i on
  lemma {:induction false} DecodeTokensFrom(s: seq<bool>, base: nat, toks: seq<Token>, buf: seq<byte>, i: nat, p: nat, jm: bool, stac: bool)
    requires Starts(s, base, TokensBits(toks + [Mark], jm))
    requires i <= |toks| && Output(toks, |buf|, jm).Some? && |Output(toks, |buf|, jm).value| == |buf|
    requires p <= |buf| && Output(toks[..i], |buf|, jm) == Some(buf[..p])
    ensures DecodeFrom(s, base + |TokensBits(toks[..i], jm)|, buf, p, jm, stac)
            == (|buf| as int, Output(toks, |buf|, jm).value)
    decreases |toks| - i
  {
    hide Starts, TokenBits, DecodeToken, FinalSync, Output;
    assert (toks + [Mark])[..|toks|] == toks;
    StartsConcat(s, base, TokensBits(toks, jm), TokenBits(Mark, jm));
    if i < |toks| {
      TokensAt(s, base, toks, jm, i);
      OutputPrefix(toks, |buf|, jm, i);
      var pos := base + |TokensBits(toks[..i], jm)|;
      DecodeOneToken(s, pos, buf, p, toks[i], jm, stac);
      var st := DecodeToken(s, pos, buf, p, jm, stac);
      DecodeTokensFrom(s, base, toks, st.buf, i + 1, st.p, jm, stac);
    } else {
      assert toks[..i] == toks && buf[..|buf|] == buf;
      ReadFinalSync(s, base + |TokensBits(toks, jm)|, jm);
    }
  }

  // A written cluster is decoded to the data its tokens produce.
  lemma DecodeTokens(data: seq<byte>, version: nat, toks: seq<Token>, buf: seq<byte>, jm: bool, stac: bool)
    requires |buf| > 0 && Output(toks, |buf|, jm).Some? && |Output(toks, |buf|, jm).value| == |buf|
    requires Starts(BytesBits(data), 0, ToBits(Magic(jm), 16) + (ToBits(version, 16) + TokensBits(toks + [Mark], jm)))
    ensures Decode(data, buf, jm, stac) == (|buf| as int, Output(toks, |buf|, jm).value)
  {
    hide Starts, ToBits, BytesBits, TokensBits, Val, DecodeFrom;
    var s := BytesBits(data);
    Pow2Values();
    StartsField(s, 0, Magic(jm), 16, ToBits(version, 16) + TokensBits(toks + [Mark], jm));
    StartsConcat(s, 16, ToBits(version, 16), TokensBits(toks + [Mark], jm));
    assert toks[..0] == [] && buf[..0] == [];
    assert TokensBits(toks[..0], jm) == [] && Output(toks[..0], |buf|, jm) == Some([]) by { EmptyTokens(|buf|, jm); }
    DecodeTokensFrom(s, 32, toks, buf, 0, 0, jm, stac);
  }

  lemma EmptyTokens(room: nat, jm: bool)
    ensures TokensBits([], jm) == [] && Output([], room, jm) == Some([])
  {
  }
}
