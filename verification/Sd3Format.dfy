/**
 The Stacker 3 format: nine-bit characters and repetition tokens, an end token, and an
 exclusive-or sum of the data. `Decode` is what the decompressor makes of any input.
 */
module Sd3Format {
  import opened Bits
  import opened Lz
  import opened LzTokens
  import opened MsbStream

  const END_TOKEN := 0x180

  //////////////////////////////////////////////////////////////////////////////
  // How tokens are written
  //////////////////////////////////////////////////////////////////////////////

  // groups of four bits, all but the last one full
  function FourBits(rep: nat): seq<bool> {
    if rep < 15 then ToBitsM(rep, 4) else ToBitsM(15, 4) + FourBits(rep - 15)
  }

  function CountBits(rep: nat): seq<bool> {
    if rep < 3 then ToBitsM(rep, 2)
    else ToBitsM(3, 2) + if rep < 6 then ToBitsM(rep - 3, 2) else ToBitsM(3, 2) + FourBits(rep - 6)
  }

  function OffsBits(offs: nat): seq<bool> {
    if offs < 0x80 then ToBitsM(0x180 + offs, 9) else ToBitsM(0x100 + offs / 16, 9) + ToBitsM(offs % 16, 4)
  }

  predicate TokFits(t: LzTok) {
    t.Rep? ==> 1 <= t.offs < 0x800 && t.len >= 2
  }

  function TokBits(t: LzTok): seq<bool> {
    match t
    case Lit(b) => ToBitsM(b, 9)
    case Rep(offs, len) => if TokFits(t) then OffsBits(offs) + CountBits(len - 2) else []
  }

  function ToksBits(toks: seq<LzTok>): seq<bool> {
    if toks == [] then [] else ToksBits(toks[..|toks| - 1]) + TokBits(toks[|toks| - 1])
  }

  ghost predicate AllFit(toks: seq<LzTok>) {
    forall i :: 0 <= i < |toks| ==> TokFits(toks[i])
  }

  // the sum of the data, starting from 0xFF
  function XorSum(data: seq<byte>): nat {
    if data == [] then 0xFF else Xor(XorSum(data[..|data| - 1]), data[|data| - 1])
  }

  //////////////////////////////////////////////////////////////////////////////
  // The decoder
  //////////////////////////////////////////////////////////////////////////////

  // a number read, and where it ends
  datatype Num = Num(v: nat, pos: nat)

  // n is the number of input bytes; behind them a full group is an error, which counts as 0
  function ReadFours(s: seq<bool>, pos: nat, n: nat, acc: nat): (r: Num)
    ensures r.pos >= pos
    decreases if pos < 8 * n then 8 * n - pos else 0
  {
    var v := ValM(s, pos, 4);
    if v != 15 then Num(acc + v, pos + 4)
    else if (pos + 4) / 8 >= n then Num(0, pos + 4)
    else ReadFours(s, pos + 4, n, acc + 15)
  }

  // ReadNC
  function ReadCount(s: seq<bool>, pos: nat, n: nat): (r: Num)
    ensures r.pos >= pos
  {
    var a, b := ValM(s, pos, 2), ValM(s, pos + 2, 2);
    if a < 3 then Num(a, pos + 2) else if b < 3 then Num(3 + b, pos + 4) else ReadFours(s, pos + 4, n, 6)
  }

  // the offset of a token, whose nine bits less 0x100 are t
  function ReadOffs(s: seq<bool>, pos: nat, t: nat): (r: Num)
    ensures r.pos >= pos
  {
    if t >= 0x80 then Num(t - 0x80, pos) else Num(16 * t + ValM(s, pos, 4), pos + 4)
  }

  // How the loop ends: `left` is what it takes to be free in the buffer. The outcome is not modelled
  // when the byte before the buffer would be repeated.
  datatype Exit = Stop(pos: nat, buf: seq<byte>, left: nat) | Fail(buf: seq<byte>) | Outside(buf: seq<byte>)

  function Loop(s: seq<bool>, pos: nat, n: nat, buf: seq<byte>, p: nat): (r: Exit)
    requires p <= |buf|
    ensures |r.buf| == |buf| && (r.Stop? ==> r.left <= |buf|)
    decreases if pos < 8 * n then 8 * n - pos else 0
  {
    if n <= pos / 8 + 2 then Stop(pos, buf, |buf| - p)
    else
      var token, pos1 := ValM(s, pos, 9), pos + 9;
      if p == |buf| then Stop(pos1, buf, 0)
      else if token < 0x100 then Loop(s, pos1, n, buf[p := token], p + 1)
      else if token == END_TOKEN then Stop(pos1, buf, |buf| - p)
      else if token < 0x108 then Fail(buf)
      else
        var offs := ReadOffs(s, pos1, token - 0x100);
        var count := ReadCount(s, offs.pos, n);
        var rep := count.v + 2;
        if |buf| - p < rep then Fail(buf)
        else if token == 0x181 && p == 0 then Outside(buf)
        else if offs.v > p then Stop(count.pos, buf, |buf| - p - rep)
        else Loop(s, count.pos, n, CopyBack(buf, p, offs.v, rep), p + rep)
  }

  datatype Result = Ret(n: nat, buf: seq<byte>) | NotModelled(buf: seq<byte>)

  // sd3_decomp; bytes behind the input read as zero
  function Decode(data: seq<byte>, buf: seq<byte>): (r: Result)
    ensures |r.buf| == |buf|
  {
    match Loop(BytesBitsM(data), 0, |data|, buf, 0)
    case Fail(b) => Ret(0, b)
    case Outside(b) => NotModelled(b)
    case Stop(pos, b, left) =>
      var x := (pos + 7) / 8;
      if x < |data| && XorSum(b[..|b| - left]) != data[x] then Ret(0, b) else Ret(|b| - left, b)
  }

  //////////////////////////////////////////////////////////////////////////////
  // Decoding undoes the format
  //////////////////////////////////////////////////////////////////////////////

  lemma {:induction false} FoursRead(s: seq<bool>, pos: nat, n: nat, acc: nat, rep: nat, rest: seq<bool>)
    requires Starts(s, pos, FourBits(rep) + rest) && |s| == 8 * n
    ensures ReadFours(s, pos, n, acc) == Num(acc + rep, pos + |FourBits(rep)|) && Starts(s, pos + |FourBits(rep)|, rest)
    decreases rep
  {
    hide ToBitsM, ValM, Pow2, Starts;
    Pow2Values();
    if rep < 15 {
      StartsFieldM(s, pos, rep, 4, rest);
    } else {
      assert FourBits(rep) + rest == ToBitsM(15, 4) + (FourBits(rep - 15) + rest);
      StartsFieldM(s, pos, 15, 4, FourBits(rep - 15) + rest);
      More(s, pos + 4, FourBits(rep - 15) + rest, n);
      FoursRead(s, pos + 4, n, acc + 15, rep - 15, rest);
    }
  }

  lemma More(s: seq<bool>, pos: nat, b: seq<bool>, n: nat)
    requires Starts(s, pos, b) && b != [] && |s| == 8 * n
    ensures pos / 8 < n
  {
  }

  lemma CountRead(s: seq<bool>, pos: nat, n: nat, rep: nat, rest: seq<bool>)
    requires Starts(s, pos, CountBits(rep) + rest) && |s| == 8 * n
    ensures ReadCount(s, pos, n) == Num(rep, pos + |CountBits(rep)|) && Starts(s, pos + |CountBits(rep)|, rest)
  {
    hide ToBitsM, ValM, Pow2, Starts, FourBits, ReadFours;
    Pow2Values();
    if rep < 3 {
      StartsFieldM(s, pos, rep, 2, rest);
    } else if rep < 6 {
      assert CountBits(rep) + rest == ToBitsM(3, 2) + (ToBitsM(rep - 3, 2) + rest);
      StartsFieldM(s, pos, 3, 2, ToBitsM(rep - 3, 2) + rest);
      StartsFieldM(s, pos + 2, rep - 3, 2, rest);
    } else {
      assert CountBits(rep) + rest == ToBitsM(3, 2) + (ToBitsM(3, 2) + (FourBits(rep - 6) + rest));
      StartsFieldM(s, pos, 3, 2, ToBitsM(3, 2) + (FourBits(rep - 6) + rest));
      StartsFieldM(s, pos + 2, 3, 2, FourBits(rep - 6) + rest);
      FoursRead(s, pos + 4, n, 6, rep - 6, rest);
    }
  }

  lemma OffsRead(s: seq<bool>, pos: nat, offs: nat, rest: seq<bool>)
    requires Starts(s, pos, OffsBits(offs) + rest) && 1 <= offs < 0x800
    ensures var token := ValM(s, pos, 9);
            && 0x108 <= token < 0x200 && token != END_TOKEN && (token == 0x181 <==> offs == 1)
            && ReadOffs(s, pos + 9, token - 0x100) == Num(offs, pos + |OffsBits(offs)|)
    ensures Starts(s, pos + |OffsBits(offs)|, rest)
  {
    hide ToBitsM, ValM, Pow2, Starts;
    Pow2Values();
    if offs < 0x80 {
      StartsFieldM(s, pos, 0x180 + offs, 9, rest);
    } else {
      assert OffsBits(offs) + rest == ToBitsM(0x100 + offs / 16, 9) + (ToBitsM(offs % 16, 4) + rest);
      StartsFieldM(s, pos, 0x100 + offs / 16, 9, ToBitsM(offs % 16, 4) + rest);
      StartsFieldM(s, pos + 9, offs % 16, 4, rest);
    }
  }

  // one token read back
  lemma LoopTok(s: seq<bool>, pos: nat, n: nat, t: LzTok, buf: seq<byte>, p: nat) returns (buf': seq<byte>, p': nat)
    requires TokFits(t) && Starts(s, pos, TokBits(t)) && |s| == 8 * n && n > pos / 8 + 2
    requires p <= |buf| && TokOk(t, p) && |TokOut(t, buf[..p])| <= |buf|
    ensures p < p' <= |buf| == |buf'| && buf'[..p'] == TokOut(t, buf[..p])
    ensures Loop(s, pos, n, buf, p) == Loop(s, pos + |TokBits(t)|, n, buf', p')
  {
    hide *;
    TokInBuffer(t, buf, p);
    TokParts(t, buf[..p]);
    match t
    case Lit(b) =>
      assert ToBitsM(b, 9) + [] == ToBitsM(b, 9);
      ByteFits(b);
      StartsFieldM(s, pos, b, 9, []);
      LoopLit(s, pos, n, buf, p);
      buf', p' := buf[p := b], p + 1;
    case Rep(offs, len) =>
      assert OffsBits(offs) + CountBits(len - 2) == OffsBits(offs) + (CountBits(len - 2) + []);
      assert CountBits(len - 2) + [] == CountBits(len - 2);
      OffsRead(s, pos, offs, CountBits(len - 2));
      CountRead(s, pos + |OffsBits(offs)|, n, len - 2, []);
      LoopRep(s, pos, n, buf, p);
      buf', p' := CopyBack(buf, p, offs, len), p + len;
  }

  lemma ByteFits(b: byte)
    ensures b < Pow2(9) && |ToBitsM(b, 9)| == 9
  {
    Pow2Values();
  }

  lemma TokParts(t: LzTok, out: seq<byte>)
    requires TokFits(t) && TokOk(t, |out|)
    ensures t.Lit? ==> TokBits(t) == ToBitsM(t.b, 9) && |TokOut(t, out)| == |out| + 1
    ensures t.Rep? ==> 1 <= t.offs <= |out| && t.offs < 0x800 && t.len >= 2
                       && TokBits(t) == OffsBits(t.offs) + CountBits(t.len - 2) && |TokOut(t, out)| == |out| + t.len
  {
    hide OffsBits, CountBits, ToBitsM;
  }

  lemma LoopLit(s: seq<bool>, pos: nat, n: nat, buf: seq<byte>, p: nat)
    requires n > pos / 8 + 2 && p < |buf| && ValM(s, pos, 9) < 0x100
    ensures Loop(s, pos, n, buf, p) == Loop(s, pos + 9, n, buf[p := ValM(s, pos, 9)], p + 1)
  {
    hide ValM;
  }

  lemma LoopRep(s: seq<bool>, pos: nat, n: nat, buf: seq<byte>, p: nat)
    requires n > pos / 8 + 2 && p < |buf|
    requires 0x108 <= ValM(s, pos, 9) != END_TOKEN
    requires var offs := ReadOffs(s, pos + 9, ValM(s, pos, 9) - 0x100);
             1 <= offs.v <= p && ReadCount(s, offs.pos, n).v + 2 <= |buf| - p
    ensures var offs := ReadOffs(s, pos + 9, ValM(s, pos, 9) - 0x100);
            var count := ReadCount(s, offs.pos, n);
            Loop(s, pos, n, buf, p) == Loop(s, count.pos, n, CopyBack(buf, p, offs.v, count.v + 2), p + count.v + 2)
  {
    hide ValM, ReadCount, ReadOffs, CopyBack;
  }

  lemma {:induction false} ToksAt(s: seq<bool>, pos: nat, toks: seq<LzTok>, i: nat)
    requires i < |toks| && Starts(s, pos, ToksBits(toks))
    ensures Starts(s, pos + |ToksBits(toks[..i])|, TokBits(toks[i]))
    ensures ToksBits(toks[..i + 1]) == ToksBits(toks[..i]) + TokBits(toks[i])
    ensures |ToksBits(toks[..i])| <= |ToksBits(toks)|
    decreases |toks|
  {
    hide Starts, TokBits;
    var rest, last := toks[..|toks| - 1], toks[|toks| - 1];
    StartsConcat(s, pos, ToksBits(rest), TokBits(last));
    assert toks[..i + 1][..i] == toks[..i];
    if i < |toks| - 1 {
      assert rest[..i] == toks[..i];
      ToksAt(s, pos, rest, i);
    }
  }

  // The tokens up to the end token are decoded to the data they produce.
  lemma {:induction false} LoopToks(s: seq<bool>, n: nat, toks: seq<LzTok>, buf: seq<byte>, i: nat, p: nat) returns (buf': seq<byte>)
    requires AllFit(toks) && Starts(s, 0, ToksBits(toks) + ToBitsM(END_TOKEN, 9))
    requires |s| == 8 * n && n > |ToksBits(toks)| / 8 + 2
    requires i <= |toks| && Produce(toks).Some? && |Produce(toks).value| <= |buf|
    requires p <= |buf| && Produce(toks[..i]) == Some(buf[..p])
    ensures |buf'| == |buf| && buf'[..|Produce(toks).value|] == Produce(toks).value
    ensures Loop(s, |ToksBits(toks[..i])|, n, buf, p) == Stop(|ToksBits(toks)| + 9, buf', |buf| - |Produce(toks).value|)
    decreases |toks| - i
  {
    hide *;
    EndFits();
    StartsConcat(s, 0, ToksBits(toks), ToBitsM(END_TOKEN, 9));
    if i < |toks| {
      ToksAt(s, 0, toks, i);
      ProducePrefix(toks, i);
      FitAt(toks, i);
      var b, q := LoopTok(s, |ToksBits(toks[..i])|, n, toks[i], buf, p);
      buf' := LoopToks(s, n, toks, b, i + 1, q);
    } else {
      assert toks[..i] == toks;
      assert ToBitsM(END_TOKEN, 9) + [] == ToBitsM(END_TOKEN, 9);
      StartsFieldM(s, |ToksBits(toks)|, END_TOKEN, 9, []);
      LoopEnd(s, |ToksBits(toks)|, n, buf, p);
      buf' := buf;
    }
  }

  lemma FitAt(toks: seq<LzTok>, i: nat)
    requires AllFit(toks) && i < |toks|
    ensures TokFits(toks[i])
  {
  }

  lemma EndFits()
    ensures END_TOKEN == 0x180 < Pow2(9)
  {
    Pow2Values();
  }

  lemma LoopEnd(s: seq<bool>, pos: nat, n: nat, buf: seq<byte>, p: nat)
    requires n > pos / 8 + 2 && p <= |buf| && ValM(s, pos, 9) == END_TOKEN
    ensures Loop(s, pos, n, buf, p) == Stop(pos + 9, buf, |buf| - p)
  {
    hide ValM;
  }

  // A stream with its end token, at least one more byte and the sum of the data behind them,
  // is decoded to the data, into any buffer they fit in.
  lemma StreamDecodes(data: seq<byte>, toks: seq<LzTok>, buf: seq<byte>) returns (buf': seq<byte>)
    requires AllFit(toks) && Starts(BytesBitsM(data), 0, ToksBits(toks) + ToBitsM(END_TOKEN, 9))
    requires Produce(toks).Some? && |Produce(toks).value| <= |buf|
    requires |data| > |ToksBits(toks)| / 8 + 2 && data[(|ToksBits(toks)| + 16) / 8] == XorSum(Produce(toks).value)
    ensures |buf'| == |buf| && buf'[..|Produce(toks).value|] == Produce(toks).value
    ensures Decode(data, buf) == Ret(|Produce(toks).value|, buf')
  {
    hide AllFit, Starts, BytesBitsM, ToksBits, ToBitsM, XorSum, Loop;
    NoToks(toks);
    buf' := LoopToks(BytesBitsM(data), |data|, toks, buf, 0, 0);
  }

  lemma NoToks(toks: seq<LzTok>)
    ensures |ToksBits(toks[..0])| == 0 && Produce(toks[..0]) == Some([])
  {
  }
}
