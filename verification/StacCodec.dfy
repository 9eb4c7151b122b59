/**
 `stac_compress` and `stac_decompress`: the Stacker compressors and the decompressor that picks
 the format by the first word of the cluster.
 */
module StacCodec {
  import opened Bits
  import opened LzTokens
  import opened LsbStream
  import opened MsbStream
  import DsFormat
  import DsDecompress
  import Sd3Format
  import Sd3Decompress
  import Sd3Compress
  import Sd4Stream
  import Sd4Header
  import Sd4Decompress
  import Sd4Compress
  import Sd4Lz
  import SqLz

  const DS_MAGIC := 0x5344
  const SECTOR := 512
  const SD_3 := 0
  const SD_4 := 0x81

  //////////////////////////////////////////////////////////////////////////////
  // Decompression
  //////////////////////////////////////////////////////////////////////////////

  // the value returned, unless the case is not modelled, and the buffer
  datatype Outcome = Ret(res: int, buf: seq<byte>) | NotModelled(buf: seq<byte>)

  function OfSd4(r: Sd4Header.Outcome4): Outcome {
    match r
    case Done4(n, b) => Ret(n, b)
    case Failed4(b) => Ret(0, b)
    case NotModelled4(b) => NotModelled(b)
  }

  function OfSd3(r: Sd3Format.Result): Outcome {
    match r
    case Ret(n, b) => Ret(n, b)
    case NotModelled(b) => NotModelled(b)
  }

  function OfDs(r: (int, seq<byte>)): Outcome {
    Ret(r.0, r.1)
  }

  function StacDecode(data: seq<byte>, buf: seq<byte>): Outcome
    requires |data| >= 2 && |buf| > 0
  {
    var w := WordAt(data, 0);
    if w == Sd4Header.MAGIC4 then OfSd4(Sd4Header.Decode4(data, buf))
    else if w == DS_MAGIC then OfDs(DsFormat.Decode(data, buf, false, true))
    else OfSd3(Sd3Format.Decode(data, buf))
  }

  lemma SameLength(data: seq<byte>, buf: seq<byte>)
    requires |data| >= 2 && |buf| > 0
    ensures |StacDecode(data, buf).buf| == |buf|
  {
    hide Sd4Header.Decode4, DsFormat.Decode, Sd3Format.Decode;
  }

  // stac_decompress
  method StacDecompress(data: seq<byte>, out: array<byte>, garbage: nat) returns (modelled: bool, res: int)
    requires |data| >= 2 && out.Length > 0 && garbage < Pow2(32)
    modifies out
    ensures StacDecode(data, old(out[..])) == if modelled then Ret(res, out[..]) else NotModelled(out[..])
  {
    hide Pow2, Sd4Header.Decode4, DsFormat.Decode, Sd3Format.Decode;
    var algInfo := data[0] as int + 256 * data[1] as int;
    if algInfo == 0x0081 {
      var r := Sd4Decompress.Sd4Decomp(data, out, garbage);
      modelled := r != Sd4Decompress.Outside4;
      res := if r.Length4? then r.n else 0;
    } else if algInfo == 0x5344 {
      res := DsDecompress.Decompress(data, garbage, out, false, true);
      modelled := true;
    } else {
      modelled, res := Sd3Decompress.Sd3Decomp(data, out);
    }
  }

  //////////////////////////////////////////////////////////////////////////////
  // No Stacker 3 output looks like another format
  //////////////////////////////////////////////////////////////////////////////

  // the first nine bits, and the seven behind them, of the first word
  lemma FirstWord(z: seq<byte>)
    requires |z| >= 2
    ensures 256 * z[0] as int + z[1] as int == 128 * ValM(BytesBitsM(z), 0, 9) + ValM(BytesBitsM(z), 9, 9) / 4
    ensures ValM(BytesBitsM(z), 9, 9) / 4 < 128
  {
    hide BytesBitsM, ValM, Shl, Pow2;
    Pow2Values();
    var s := BytesBitsM(z);
    WordValM(z, 0);
    ValMSplit(s, 0, 9, 7);
    ValMSplit(s, 9, 7, 2);
    ShlSteps(ValM(s, 9, 7));
    Shl7(ValM(s, 0, 9));
  }

  lemma Shl7(v: nat)
    ensures Shl(v, 7) == 128 * v
  {
    hide Shl;
    ShlSteps(v);
    ShlShl(v, 4, 2);
    ShlSteps(v * 16);
    ShlShl(v, 6, 1);
    ShlSteps(v * 64);
  }

  // the first token is a byte
  lemma FirstToken(z: seq<byte>, toks: seq<LzTok>)
    requires Sd3Compress.Opening(z, toks)
    ensures |z| >= 3 && ValM(BytesBitsM(z), 0, 9) < 0x100
    ensures |Sd3Format.ToksBits(toks[..1])| == 9 && Produce(toks[..1]).Some? && |Produce(toks[..1]).value| == 1
  {
    hide BytesBitsM, Starts, ToBitsM, ValM, Pow2, Produce, Sd3Format.ToksBits, TokOut, Sd3Format.TokBits;
    var s, t := BytesBitsM(z), toks[0];
    StartsConcat(s, 0, Sd3Format.ToksBits(toks), ToBitsM(Sd3Format.END_TOKEN, 9));
    Sd3Format.ToksAt(s, 0, toks, 0);
    Sd3Format.NoToks(toks);
    ProducePrefix(toks, 0);
    OnlyALiteral(t);
    Sd3Format.ByteFits(t.b);
    assert ToBitsM(t.b, 9) + [] == ToBitsM(t.b, 9);
    StartsFieldM(s, 0, t.b, 9, []);
    if |toks| == 1 { assert toks[..1] == toks; } else { Sd3Format.ToksAt(s, 0, toks, 1); }
    StartsEnd(s, |Sd3Format.ToksBits(toks)|, ToBitsM(Sd3Format.END_TOKEN, 9));
  }

  lemma OnlyALiteral(t: LzTok)
    requires TokOk(t, 0)
    ensures t.Lit? && |TokOut(t, [])| == 1 && Sd3Format.TokBits(t) == ToBitsM(t.b, 9)
  {
  }

  lemma StartsEnd(s: seq<bool>, pos: nat, b: seq<bool>)
    requires Starts(s, pos, b)
    ensures pos + |b| <= |s|
  {
  }

  // what follows is a byte, a repetition of that byte or the end
  lemma SecondToken(z: seq<byte>, toks: seq<LzTok>)
    requires Sd3Compress.Opening(z, toks)
    ensures var v := ValM(BytesBitsM(z), 9, 9); v < 0x100 || v == 0x180 || v == 0x181
  {
    hide BytesBitsM, Starts, ToBitsM, ValM, Pow2, Produce, Sd3Format.ToksBits, TokOut, Sd3Format.TokBits, Sd3Format.ReadOffs,
      Sd3Format.OffsBits, Sd3Format.CountBits;
    FirstToken(z, toks);
    var s, end := BytesBitsM(z), ToBitsM(Sd3Format.END_TOKEN, 9);
    StartsConcat(s, 0, Sd3Format.ToksBits(toks), end);
    if |toks| == 1 {
      assert toks[..1] == toks && end + [] == end;
      Sd3Format.EndFits();
      StartsFieldM(s, 9, Sd3Format.END_TOKEN, 9, []);
    } else {
      var t := toks[1];
      Sd3Format.ToksAt(s, 0, toks, 1);
      ProducePrefix(toks, 1);
      Sd3Format.TokParts(t, Produce(toks[..1]).value);
      match t
      case Lit(b) =>
        Sd3Format.ByteFits(b);
        assert ToBitsM(b, 9) + [] == ToBitsM(b, 9);
        StartsFieldM(s, 9, b, 9, []);
      case Rep(offs, len) =>
        Sd3Format.OffsRead(s, 9, offs, Sd3Format.CountBits(len - 2));
    }
  }

  lemma NotTheirs(a: nat, b: nat, w: nat)
    requires 256 * (w % 256) + w / 256 == 128 * a + b / 4 && w < 65536 && b / 4 < 128
    requires a < 0x100 && (b < 0x100 || b == 0x180 || b == 0x181)
    ensures w != Sd4Header.MAGIC4 && w != DS_MAGIC
  {
  }

  lemma NotAnotherFormat(z: seq<byte>, toks: seq<LzTok>)
    requires Sd3Compress.Opening(z, toks)
    ensures |z| >= 3 && WordAt(z, 0) != Sd4Header.MAGIC4 && WordAt(z, 0) != DS_MAGIC
  {
    hide *;
    FirstToken(z, toks);
    SecondToken(z, toks);
    FirstWord(z);
    WordBytes(z);
    NotTheirs(ValM(BytesBitsM(z), 0, 9), ValM(BytesBitsM(z), 9, 9), WordAt(z, 0));
  }

  lemma WordBytes(z: seq<byte>)
    requires |z| >= 2
    ensures WordAt(z, 0) % 256 == z[0] && WordAt(z, 0) / 256 == z[1]
  {
  }

  //////////////////////////////////////////////////////////////////////////////
  // Compression
  //////////////////////////////////////////////////////////////////////////////

  // z, whatever follows it in the sector, is decompressed to the data
  ghost predicate StacDecodes(z: seq<byte>, data: seq<byte>) {
    |z| >= 2 && forall y: seq<byte>, buf: seq<byte> :: z <= y && |buf| >= |data| && |buf| > 0 ==> Restores(y, buf, data)
  }

  ghost predicate Restores(y: seq<byte>, buf: seq<byte>, data: seq<byte>)
    requires |y| >= 2 && |buf| > 0
  {
    var r := StacDecode(y, buf);
    r.Ret? && r.res == |data| <= |r.buf| && r.buf[..|data|] == data
  }

  lemma Sd3Routed(z: seq<byte>, toks: seq<LzTok>, data: seq<byte>)
    requires Sd3Compress.Opening(z, toks) && Sd3Compress.DecodesAnyway(z, data)
    ensures StacDecodes(z, data)
  {
    hide Sd3Compress.Opening, Sd3Format.Decode, Sd4Header.Decode4, DsFormat.Decode;
    NotAnotherFormat(z, toks);
    forall y: seq<byte>, buf: seq<byte> | z <= y && |buf| >= |data| && |buf| > 0 ensures Restores(y, buf, data) {
      assert Sd3Compress.Decodes(y, data);
      assert Sd3Compress.DecodesInto(y, buf, data);
    }
  }

  lemma Sd4Routed(z: seq<byte>, data: seq<byte>)
    requires |z| >= 2 && Sd4Compress.DecodesAnyway4(z, data)
    ensures StacDecodes(z, data)
  {
    hide Sd3Format.Decode, Sd4Header.Decode4, DsFormat.Decode, Sd4Stream.Stream, ValM;
    forall y: seq<byte>, buf: seq<byte> | z <= y && |buf| >= |data| && |buf| > 0 ensures Restores(y, buf, data) {
      assert Sd4Compress.Decodes4(y, data);
      assert Sd4Compress.DecodesInto4(y, buf, data);
      Sd4Stream.WordAtPos(y, 0);
    }
  }

  // what a compression setting stands for
  function CompRatTab(i: nat): nat
    requires i <= 12
  {
    [0x7F9, 0x7F9, 0x621, 0x625, 0x665, 0x669, 0x6E9, 0x6ED, 0x7D1, 0x7D9, 0x6E9, 0x47D9, 0x46E9][i]
  }

  // whole sectors, at least one
  function Sectors(lin: nat): nat {
    if lin % SECTOR != 0 || lin == 0 then lin + (SECTOR - lin % SECTOR) else lin
  }

  method Pad(pin: array<byte>, lin: nat)
    requires Sectors(lin) <= pin.Length
    modifies pin
    ensures pin[..Sectors(lin)] == old(pin[..lin]) + seq(Sectors(lin) - lin, _ => 0)
    ensures pin[Sectors(lin)..] == old(pin[Sectors(lin)..])
  {
    var i := lin;
    while i < Sectors(lin)
      invariant lin <= i <= Sectors(lin) && pin[..lin] == old(pin[..lin])
      invariant forall j :: lin <= j < i ==> pin[j] == 0
      invariant forall j :: i <= j < pin.Length ==> pin[j] == old(pin[j])
    {
      pin[i] := 0;
      i := i + 1;
    }
  }

  // what the compressor wrote, or meant to write
  datatype Code = Four(items: seq<SqLz.Inter>, plan: Sd4Header.Plan4) | Three(toks: seq<LzTok>) | Nothing

  // A positive answer is the size of the stream. The answer is 0 only if the compressor ran out of room
  // or the stream does not save a sector.
  ghost predicate Answer4(ret: int, data: seq<byte>, lout: nat, items: seq<SqLz.Inter>, pl: Sd4Header.Plan4) {
    if ret > 0 then Sd4Compress.Succeeds4(ret, items, data, pl, lout) && ret + SECTOR <= |data|
    else
      || lout < 0x20 || Sd4Lz.TooLong4(items, data, lout - 0x20) || Sd4Compress.Overlaps4(items, data, pl, lout)
      || exists n: nat :: Sd4Compress.Succeeds4(n, items, data, pl, lout) && n + SECTOR > |data|
  }

  ghost predicate Answer3(ret: int, z: seq<byte>, data: seq<byte>, lout: nat, toks: seq<LzTok>) {
    if ret > 0 then lout >= 0x20 && Sd3Compress.Succeeds(z, toks, data, lout) && |z| + SECTOR <= |data|
    else lout < 0x20 || Sd3Compress.RunsOut(toks, data, lout) || (Sd3Compress.Succeeds(z, toks, data, lout) && |z| + SECTOR > |data|)
  }

  // stac_compress; z is what was written
  method StacCompress(pin: array<byte>, lin: nat, pout: array<byte>, lout: nat, how: int, cfaktor: int, addr: nat)
    returns (ret: int, z: seq<byte>, ghost c: Code)
    requires Sectors(lin) <= pin.Length && Sectors(lin) < 0x1_0000 && lout <= pout.Length && pin != pout
    modifies pin, pout
    ensures pin[..Sectors(lin)] == old(pin[..lin]) + seq(Sectors(lin) - lin, _ => 0)
    ensures ret == -1 <==> how != SD_4 && how != SD_3
    ensures ret > 0 ==> ret == |z| && ret + SECTOR <= Sectors(lin) && StacDecodes(z, pin[..Sectors(lin)])
    ensures how == SD_4 ==> c.Four? && Answer4(ret, pin[..Sectors(lin)], lout, c.items, c.plan)
    ensures how == SD_3 ==> c.Three? && Answer3(ret, z, pin[..Sectors(lin)], lout, c.toks)
  {
    hide Sd4Compress.Succeeds4, Sd4Compress.Overlaps4, Sd4Lz.TooLong4, Sd3Compress.Succeeds, Sd3Compress.RunsOut, StacDecodes, Sd3Compress.Opening, Sd3Compress.DecodesAnyway, Sd4Compress.DecodesAnyway4;
    Pad(pin, lin);
    var n := Sectors(lin);
    var cf := if cfaktor <= 0 || cfaktor > 12 then 11 else cfaktor;
    ret, z, c := -1, [], Nothing;
    if how == SD_4 {
      ghost var items, plan;
      ret, items, plan := Sd4Compress.Sd4Comp(pin[..n], pout, lout, CompRatTab(cf), addr);
      c := Four(items, plan);
      z := pout[..ret];
      if ret > 0 { Sd4Routed(z, pin[..n]); }
    } else if how == SD_3 {
      ghost var toks;
      z, toks := Sd3Compress.Sd3Comp(pin[..n], lout, CompRatTab(cf), addr);
      ret, c := |z|, Three(toks);
      if ret > 0 { Sd3Routed(z, toks, pin[..n]); }
    }
    if ret > n - SECTOR { ret := 0; }
  }
}
