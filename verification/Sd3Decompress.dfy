/**
 `sd3_decomp` with its bit reader: for every input it computes `Sd3Format.Decode`.
 */
module Sd3Decompress {
  import opened Bits
  import opened Lz
  import opened MsbStream
  import opened Sd3Format

  // bitstreamC: `x` bytes are done, and `pos` bits of the next one are still to be read
  class BitStreamC {
    const data: seq<byte>
    var x: nat
    var pos: nat

    ghost predicate Valid()
      reads this
    {
      1 <= pos <= 8
    }

    ghost function Pos(): nat
      reads this
      requires Valid()
    {
      8 * x + 8 - pos
    }

    ghost function Stream(): seq<bool> {
      BytesBitsM(data)
    }

    constructor (k: seq<byte>)
      ensures Valid() && data == k && Pos() == 0
    {
      data, x, pos := k, 0, 8;
    }

    // the byte at ptr + i; bytes behind the input read as zero
    function ByteAt(i: nat): byte
      reads this`x
    {
      if x + i < |data| then data[x + i] else 0
    }

    // Both readers look at the next two bytes; n bits from the current place on are in them.
    lemma Window(n: nat)
      requires Valid() && 8 - pos + n <= 16
      ensures Low(Shr(ByteAt(0) as int * 256 + ByteAt(1) as int, 8 + pos - n), n) == ValM(Stream(), Pos(), n)
    {
      hide BytesBitsM, ValM, Low, Shr;
      WordValM(data, x);
      ValMSub(Stream(), 8 * x, 8 - pos, n, 16);
    }

    // ... or in the next byte alone
    lemma InByte(n: nat)
      requires Valid() && n <= pos
      ensures Low(Shr(ByteAt(0), pos - n), n) == ValM(Stream(), Pos(), n)
    {
      hide BytesBitsM, ValM, Low, Shr;
      ByteValM(data, x);
      ValMSub(Stream(), 8 * x, 8 - pos, n, 8);
    }

    method Read9BitC() returns (a: nat)
      requires Valid()
      modifies this
      ensures Valid() && Pos() == old(Pos()) + 9 && a == ValM(Stream(), old(Pos()), 9)
    {
      hide BytesBitsM, ValM, Low, Shr;
      Window(9);
      a := ByteAt(0) as int * 256 + ByteAt(1) as int;
      pos := pos - 1;
      a := Shr(a, pos);
      x := x + 1;
      if pos == 0 {
        x := x + 1;
        pos := 8;
      }
      a := Low(a, 9);
    }

    method Read4BitC() returns (a: nat)
      requires Valid()
      modifies this
      ensures Valid() && Pos() == old(Pos()) + 4 && a == ValM(Stream(), old(Pos()), 4)
    {
      hide BytesBitsM, ValM, Low, Shr;
      if pos <= 3 {
        Window(4);
        a := ByteAt(0) as int * 256 + ByteAt(1) as int;
        pos := pos + 4;
        x := x + 1;
        return Low(Shr(a, pos), 4);
      }
      InByte(4);
      if pos == 4 {
        a := ByteAt(0);
        ShrZero(a);
        x := x + 1;
        pos := 8;
        return Low(a, 4);
      }
      pos := pos - 4;
      a := Low(Shr(ByteAt(0), pos), 4);
    }

    method Read2BitC() returns (a: nat)
      requires Valid()
      modifies this
      ensures Valid() && Pos() == old(Pos()) + 2 && a == ValM(Stream(), old(Pos()), 2)
    {
      hide BytesBitsM, ValM, Low, Shr;
      if pos <= 1 {
        Window(2);
        // an unsigned char: what does not fit is cut off
        a := ByteAt(0) as int * 2 % 256;
        x := x + 1;
        pos := 7;
        if ByteAt(0) >= 128 { a := (a + 1) % 256; }
        TwoBits(old(ByteAt(0)), ByteAt(0));
        return Low(a, 2);
      }
      InByte(2);
      if pos == 2 {
        a := ByteAt(0);
        ShrZero(a);
        x := x + 1;
        pos := 8;
        return Low(a, 2);
      }
      pos := pos - 2;
      a := Low(Shr(ByteAt(0), pos), 2);
    }
  }

  lemma ShrZero(a: nat)
    ensures Shr(a, 0) == a
  {
  }

  // the last bit of one byte and the first of the next
  lemma TwoBits(a: byte, b: byte)
    ensures Low((a as int * 2 % 256 + if b >= 128 then 1 else 0) % 256, 2) == Low(Shr(a as int * 256 + b as int, 7), 2)
  {
    hide Low, Shr;
    var w: nat, h: nat := a as int * 256 + b as int, if b >= 128 then 1 else 0;
    Shr7(w);
    assert w / 128 == 2 * a as int + h;
    LowTwo(2 * a as int + h);
    LowTwo((a as int * 2 % 256 + h) % 256);
    LastTwo(a as int, h);
  }

  lemma LowTwo(v: nat)
    ensures Low(v, 2) == v % 4
  {
    ShrSteps2(v);
  }

  lemma LastTwo(a: nat, h: nat)
    requires h < 2
    ensures (a * 2 % 256 + h) % 256 % 4 == (2 * a + h) % 4
  {
    var m := 2 * (a % 128) + h;
    assert a * 2 % 256 == 2 * (a % 128);
    assert m % 256 == m;
    FoursAway(64 * (a / 128), m);
  }

  lemma FoursAway(k: nat, m: nat)
    ensures (4 * k + m) % 4 == m % 4
  {
  }

  lemma Shr7(w: nat)
    ensures Shr(w, 7) == w / 128
  {
    hide Low, Shr;
    ShrSteps4(w);
    ShrSteps4(w / 16);
    ShrShr(w, 4, 3);
  }

  // ReadNC; n is the size of the input
  method ReadNC(b: BitStreamC, n: nat) returns (repeater: nat)
    requires b.Valid()
    modifies b
    ensures b.Valid() && ReadCount(b.Stream(), old(b.Pos()), n) == Num(repeater, b.Pos())
  {
    hide ValM, BytesBitsM;
    var rep := b.Read2BitC();
    repeater := rep;
    if rep == 3 {
      rep := b.Read2BitC();
      repeater := repeater + rep;
      if rep == 3 {
        repeater := ReadRest(b, n, repeater);
      }
    }
  }

  method ReadRest(b: BitStreamC, n: nat, acc: nat) returns (repeater: nat)
    requires b.Valid()
    modifies b
    ensures b.Valid() && ReadFours(b.Stream(), old(b.Pos()), n, acc) == Num(repeater, b.Pos())
  {
    hide ValM, BytesBitsM;
    ghost var s := b.Stream();
    var rep := b.Read4BitC();
    repeater := acc + rep;
    while rep == 15
      invariant b.Valid() && repeater >= rep && b.Pos() >= 4 && rep == ValM(s, b.Pos() - 4, 4)
      invariant ReadFours(s, old(b.Pos()), n, acc) == ReadFours(s, b.Pos() - 4, n, repeater - rep)
      decreases if b.Pos() < 8 * n then 8 * n - b.Pos() else 0
    {
      if b.x >= n { return 0; }
      rep := b.Read4BitC();
      repeater := repeater + rep;
    }
  }

  // sd3_xorsum
  method Sum(data: array<byte>, len: nat) returns (sum: nat)
    requires len <= data.Length
    ensures sum == XorSum(data[..len])
  {
    hide Xor;
    sum := 0xFF;
    var i := 0;
    while i < len
      invariant i <= len && sum == XorSum(data[..i])
    {
      assert data[..i + 1][..i] == data[..i];
      sum := Xor(sum, data[i]);
      i := i + 1;
    }
  }

  // memset of the last byte
  method Repeat1(buf: array<byte>, p: nat, n: nat)
    requires 1 <= p && p + n <= buf.Length
    modifies buf
    ensures buf[..] == CopyBack(old(buf[..]), p, 1, n)
  {
    var b := buf[p - 1];
    ghost var was := buf[..];
    var i := 0;
    while i < n
      invariant i <= n && buf[p - 1 + i] == b
      invariant CopyBack(was, p, 1, n) == CopyBack(buf[..], p + i, 1, n - i)
    {
      ghost var now := buf[..];
      buf[p + i] := b;
      assert buf[..] == now[p + i := now[p + i - 1]];
      i := i + 1;
    }
  }

  datatype Turn = More | Ends | Fails | Unknown

  // one token of at least 0x100
  method CopyToken(b: BitStreamC, n: nat, token: nat, buf: array<byte>, p: nat, ghost pos: nat) returns (turn: Turn, p': nat, left: nat)
    requires b.Valid() && p < buf.Length && b.Pos() == pos + 9 && n > pos / 8 + 2
    requires token == ValM(b.Stream(), pos, 9) && 0x100 <= token < 0x200
    modifies b, buf
    ensures b.Valid()
    ensures var whole := Loop(b.Stream(), pos, n, old(buf[..]), p);
            match turn
            case More => p < p' <= buf.Length && b.Pos() > pos && whole == Loop(b.Stream(), b.Pos(), n, buf[..], p')
            case Ends => left <= buf.Length && whole == Stop(b.Pos(), buf[..], left)
            case Fails => whole == Fail(buf[..])
            case Unknown => whole == Outside(buf[..])
  {
    hide ValM, BytesBitsM, ReadCount, CopyBack;
    p', left := p, buf.Length - p;
    var t := token - 0x100;
    if t == 0x81 {
      var repN := ReadNC(b, n);
      repN := repN + 2;
      if buf.Length - p < repN { return Fails, p', left; }
      if p == 0 { return Unknown, p', left; }
      Repeat1(buf, p, repN);
      return More, p + repN, left;
    }
    if t >= 0x80 {
      t := t - 0x80;
      if t == 0 { return Ends, p', left; }
    } else {
      if t < 8 { return Fails, p', left; }
      var u := b.Read4BitC();
      t := 16 * t + u;
    }
    var repN := ReadNC(b, n);
    repN := repN + 2;
    if buf.Length - p < repN { return Fails, p', left; }
    left := left - repN;
    if t > p { return Ends, p', left; }
    MovSb(buf, p, t, repN);
    return More, p + repN, left;
  }

  // what the loop leaves behind
  ghost predicate Ended(whole: Exit, turn: Turn, pos: nat, buf: seq<byte>, left: nat) {
    match turn
    case More => false
    case Ends => left <= |buf| && whole == Stop(pos, buf, left)
    case Fails => whole == Fail(buf)
    case Unknown => whole == Outside(buf)
  }

  // the main loop
  method Tokens(b: BitStreamC, n: nat, buf: array<byte>) returns (turn: Turn, left: nat)
    requires b.Valid() && b.Pos() == 0
    modifies b, buf
    ensures b.Valid() && Ended(Loop(b.Stream(), 0, n, old(buf[..]), 0), turn, b.Pos(), buf[..], left)
  {
    hide ValM, BytesBitsM, Loop, Pow2;
    ghost var s := b.Stream();
    var p: nat := 0;
    left := buf.Length;
    Nine();
    while n > b.x + 2
      invariant b.Valid() && p + left == buf.Length
      invariant Loop(s, 0, n, old(buf[..]), 0) == Loop(s, b.Pos(), n, buf[..], p)
      decreases if b.Pos() < 8 * n then 8 * n - b.Pos() else 0
    {
      ghost var pos, was := b.Pos(), buf[..];
      LoopStep(s, pos, n, was, p);
      var token := b.Read9BitC();
      if left == 0 { return Ends, left; }
      if token >= 0x100 {
        turn, p, left := CopyToken(b, n, token, buf, p, pos);
        if turn != More { return; }
        left := buf.Length - p;
      } else {
        buf[p] := token;
        assert buf[..] == was[p := buf[p]];
        p, left := p + 1, left - 1;
      }
    }
    LoopStep(s, b.Pos(), n, buf[..], p);
    turn := Ends;
  }

  lemma Nine()
    ensures Pow2(9) == 512
  {
    Pow2Values();
  }

  lemma LoopStep(s: seq<bool>, pos: nat, n: nat, buf: seq<byte>, p: nat)
    requires p <= |buf|
    ensures n <= pos / 8 + 2 ==> Loop(s, pos, n, buf, p) == Stop(pos, buf, |buf| - p)
    ensures n > pos / 8 + 2 && p == |buf| ==> Loop(s, pos, n, buf, p) == Stop(pos + 9, buf, 0)
    ensures n > pos / 8 + 2 && p < |buf| && ValM(s, pos, 9) < 0x100 ==>
              Loop(s, pos, n, buf, p) == Loop(s, pos + 9, n, buf[p := ValM(s, pos, 9)], p + 1)
  {
    hide ValM;
  }

  // sd3_decomp: the number of bytes, or 0 for an error
  method Sd3Decomp(data: seq<byte>, buf: array<byte>) returns (modelled: bool, res: nat)
    modifies buf
    ensures Decode(data, old(buf[..])) == if modelled then Ret(res, buf[..]) else NotModelled(buf[..])
  {
    hide BytesBitsM, Loop, XorSum;
    var b := new BitStreamC(data);
    var n: nat := |data|;
    var turn, left := Tokens(b, n, buf);
    if turn == Fails { return true, 0; }
    if turn == Unknown { return false, 0; }
    ghost var pos := b.Pos();
    if b.pos != 8 {
      b.x := b.x + 1;
      b.pos := 8;
    }
    assert b.x == (pos + 7) / 8;
    if n > b.x {
      var sum := Sum(buf, buf.Length - left);
      assert buf[..buf.Length - left] == buf[..][..buf.Length - left];
      if sum != b.ByteAt(0) as int { return true, 0; }
    }
    return true, buf.Length - left;
  }
}
