/**
 The bit writer and reader of the Stacker 4 codec: 16-bit words are stored low byte first, and
 each word is filled from its highest bit.
 */
module Sd4Stream {
  import opened Bits
  import opened MsbStream
  import opened LsbStream

  // the two bytes of every word exchanged
  function SwapPairs(d: seq<byte>): (r: seq<byte>)
    requires |d| % 2 == 0
    ensures |r| == |d|
  {
    seq<byte>(|d|, i requires 0 <= i < |d| => if i % 2 == 0 then d[i + 1] else d[i - 1])
  }

  // a missing last byte counts as zero
  function Padded(d: seq<byte>): (r: seq<byte>)
    ensures |r| == RoundUp2(|d|)
  {
    if |d| % 2 == 1 then d + [0] else d
  }

  // the bits of a buffer
  function Stream(d: seq<byte>): (s: seq<bool>)
    ensures |s| == 8 * RoundUp2(|d|)
  {
    BytesBitsM(SwapPairs(Padded(d)))
  }

  // one more word
  lemma StreamWord(d: seq<byte>, w: nat)
    requires |d| % 2 == 0 && w < 65536
    ensures Stream(d + [w % 256, w / 256]) == Stream(d) + ToBitsM(w, 16)
  {
    hide BytesBitsM, ToBitsM;
    var e: seq<byte> := d + [w % 256, w / 256];
    assert |e| % 2 == 0;
    assert SwapPairs(e) == SwapPairs(d) + [w / 256, w % 256];
    BytesBitsMWord(SwapPairs(d), w);
  }

  // the stream of a longer buffer starts with that of a shorter one
  lemma StreamPrefix(d: seq<byte>, n: nat)
    requires n <= |d| && n % 2 == 0
    ensures Stream(d[..n]) <= Stream(d)
  {
    hide BytesBitsM;
    var e, f := Padded(d), d[..n];
    var a, b := SwapPairs(e), SwapPairs(f);
    assert a == b + a[n..];
    BytesBitsMConcat(b, a[n..]);
  }

  lemma WordAtPos(d: seq<byte>, i: nat)
    requires i % 2 == 0
    ensures ValM(Stream(d), 8 * i, 16) == if i < |d| then WordAt(d, i) else 0
  {
    hide BytesBitsM, ValM;
    var e := SwapPairs(Padded(d));
    WordValM(e, i);
  }

  //////////////////////////////////////////////////////////////////////////////
  // Writing
  //////////////////////////////////////////////////////////////////////////////

  class Writer4 {
    const out: array<byte>
    var buf: nat
    var pb: nat
    var pd: nat
    ghost var held: nat
    ghost var bits: seq<bool>

    // Behind the end of the buffer nothing is modelled.
    ghost predicate Valid()
      reads this, out
    {
      && 16 <= pb <= 32 && Holds(buf, pb, held) && pd % 2 == 0
      && |bits| == 8 * pd + 32 - pb && (pb == 32 ==> pd == 0)
      && (pd <= out.Length ==> bits == Stream(out[..pd]) + ToBitsM(held, 32 - pb))
    }

    // A word is stored when the first bit behind it is written.
    lemma Size()
      requires Valid()
      ensures pd == StoredBytes(|bits|)
    {
      hide Holds, Stream, ToBitsM;
    }

    // what has been written, as long as there was room
    lemma Kept()
      requires Valid() && pd <= out.Length
      ensures bits == Stream(out[..pd]) + ToBitsM(held, 32 - pb) && 16 <= pb <= 32 && pd % 2 == 0
    {
    }

    constructor (pout: array<byte>)
      ensures Valid() && out == pout && pd == 0 && bits == []
    {
      out, buf, pb, pd, held, bits := pout, 0, 32, 0, 0, [];
      new;
      NothingHeld4();
    }

    // sd4b_wrn
    method WrN(cod: nat, n: nat)
      requires Valid() && n <= 16 && cod < Pow2(n)
      modifies this, out
      ensures Valid() && bits == old(bits) + ToBitsM(cod, n)
      ensures old(pd) <= pd <= old(pd) + 2
      ensures forall i :: pd <= i < out.Length ==> out[i] == old(out[i])
      ensures forall i :: 0 <= i < old(pd) && i < out.Length ==> out[i] == old(out[i])
    {
      hide Holds, Stream, ToBitsM, Shl, Shr, Low, Pow2, Or;
      PushBelow(buf, pb, held, cod, n);
      ghost var was, m := held, 32 - pb;
      pb := pb - n;
      buf := Or(buf, Shl(cod, pb));
      held := Shl(held, n) + cod;
      bits := bits + ToBitsM(cod, n);
      if pd <= out.Length {
        assert Stream(out[..pd]) + ToBitsM(was, m) + ToBitsM(cod, n) == Stream(out[..pd]) + ToBitsM(held, 32 - pb);
      }
      if pb < 16 { StoreWord(); }
    }

    method StoreWord()
      requires pb < 16 && Holds(buf, pb, held) && pd % 2 == 0 && |bits| == 8 * pd + 32 - pb
      requires pd <= out.Length ==> bits == Stream(out[..pd]) + ToBitsM(held, 32 - pb)
      modifies this`buf, this`pb, this`pd, this`held, out
      ensures Valid() && pd == old(pd) + 2
      ensures forall i :: pd <= i < out.Length ==> out[i] == old(out[i])
      ensures forall i :: 0 <= i < old(pd) && i < out.Length ==> out[i] == old(out[i])
    {
      hide Holds, Stream, ToBitsM, Shl, Shr, Low, Pow2;
      PopTop(buf, pb, held);
      var w := Shr(buf, 16);
      ghost var rest, h := Low(held, 16 - pb), ToBitsM(Low(held, 16 - pb), 16 - pb);
      if pd + 2 <= out.Length {
        ghost var done := out[..pd];
        StreamWord(done, w);
        assert Stream(done) + (ToBitsM(w, 16) + h) == Stream(done) + ToBitsM(w, 16) + h;
        out[pd] := w % 256;
        out[pd + 1] := w / 256;
        assert out[..pd + 2] == done + [w % 256, w / 256];
      }
      pd := pd + 2;
      buf := Shl(Low(buf, 16), 16);
      pb := pb + 16;
      held := rest;
    }
  }

  lemma NothingHeld4()
    ensures Holds(0, 32, 0) && ToBitsM(0, 0) == [] && Stream([]) == []
  {
    ShlZero(32);
  }

  //////////////////////////////////////////////////////////////////////////////
  // Reading
  //////////////////////////////////////////////////////////////////////////////

  class Reader4 {
    const data: seq<byte>
    var buf: nat
    var pb: nat
    var pd: nat
    ghost var pos: nat

    ghost function S(): seq<bool> {
      Stream(data)
    }

    // The low pb bits of the buffer are the next bits; behind the last word come zeros.
    ghost predicate Valid()
      reads this
    {
      && pb <= 32 && buf < Pow2(32)
      && pd % 2 == 0 && pd <= RoundUp2(|data|)
      && (pos + pb == 8 * pd || (pd == RoundUp2(|data|) && pos + pb >= 8 * pd))
      && Low(buf, pb) == ValM(S(), pos, pb)
    }

    // the buffer starts with arbitrary contents
    constructor (pin: seq<byte>, garbage: nat)
      requires garbage < Pow2(32)
      ensures Valid() && data == pin && pos == 0
    {
      data, buf, pb, pd, pos := pin, garbage, 0, 0, 0;
    }

    // RDN_G16: shifts the next word in; what leaves the 32 bits is lost
    method G16()
      requires Valid() && pb <= 16
      modifies this
      ensures Valid() && pos == old(pos) && pb == old(pb) + 16
    {
      hide Shl, Shr, Or, Pow2, ValM, Low, Stream;
      ghost var s, have := S(), pb;
      ValMSplit(s, pos, have, 16);
      ShiftIn(buf, have);
      Pow2At16();
      ghost var v := Low(buf, 16);
      LowOfLow4(buf, have, 16);
      buf := Low(Shl(buf, 16), 32);
      pb := pb + 16;
      if pd < RoundUp2(|data|) {
        var w := WordAt(data, pd);
        WordAtPos(data, pd);
        OrIn(v, w, have);
        buf := Or(buf, w);
        pd := pd + 2;
      } else {
        ValMPastEnd(s, pos + have, 16);
      }
    }

    // at least 16 bits ahead
    method Prepare()
      requires Valid()
      modifies this
      ensures Valid() && pos == old(pos) && pb >= 16
    {
      if pb < 16 { G16(); }
    }

    // the next n bits, not yet taken
    function Peek(n: nat): (v: nat)
      requires Valid() && n <= pb
      reads this
      ensures v == ValM(S(), pos, n)
    {
      ShrLowBits(buf, pb, n);
      ValMSub(S(), pos, 0, n, pb);
      Low(Shr(buf, pb - n), n)
    }

    method Skip(n: nat)
      requires Valid() && n <= pb
      modifies this
      ensures Valid() && pos == old(pos) + n && pb == old(pb) - n
    {
      hide Stream, Pow2, Shr, Low, ValM;
      ghost var m: nat := pb - n;
      ValMSub(S(), pos, n, m, pb);
      LowOfLow4(buf, m, pb);
      ShrNone4(ValM(S(), pos, pb));
      pb := pb - n;
      pos := pos + n;
    }

    // sd4b_rdn
    method RdN(n: nat) returns (r: nat)
      requires Valid() && n <= 16
      modifies this
      ensures Valid() && pos == old(pos) + n && r == ValM(S(), old(pos), n)
    {
      Prepare();
      r := Peek(n);
      Skip(n);
    }
  }

  lemma ShrNone4(v: nat)
    ensures Shr(v, 0) == v
  {
  }

  // the low bits of the low bits
  lemma LowOfLow4(v: nat, m: nat, n: nat)
    requires m <= n
    ensures Low(Low(v, n), m) == Low(v, m)
  {
    hide *;
    LowSplit(v, m, n - m);
    ShrSum(Low(v, m), Low(Shr(v, m), n - m), m);
    ShrSmall(Low(v, m), m);
  }

  // n bits above the lowest k - n ones are among the k low bits
  lemma ShrLowBits(v: nat, k: nat, n: nat)
    requires n <= k
    ensures Low(Shr(v, k - n), n) == Low(Shr(Low(v, k), k - n), n)
  {
    hide *;
    var m: nat := k - n;
    LowSplit(v, m, n);
    ShrSum(Low(v, m), Low(Shr(v, m), n), m);
    ShrSmall(Low(v, m), m);
    ShrSmall(Low(Shr(v, m), n), n);
  }

  // a 16-bit shift in 32 bits; `have` bits count
  lemma ShiftIn(buf: nat, have: nat)
    requires have <= 16
    ensures Low(Shl(buf, 16), 32) == Shl(Low(buf, 16), 16) < Pow2(32)
    ensures Low(Shl(Low(buf, 16), 16), have + 16) == Shl(Low(buf, have), 16)
  {
    hide *;
    ShrSmall(0, 16) by { OnePow(16); }
    ShrSum(0, buf, 16);
    LowSplit(Shl(buf, 16), 16, 16);
    ShrSum(0, Low(buf, 16), 16);
    LowSplit(Shl(Low(buf, 16), 16), 16, have);
    LowOfLow4(buf, have, 16);
    ShlBound(Low(buf, 16), 16, 16);
    OnePow(16);
  }

  lemma OnePow(n: nat)
    ensures Pow2(n) >= 1
  {
  }

  lemma OrIn(v: nat, w: nat, have: nat)
    requires v < Pow2(16) && w < Pow2(16) && have <= 16
    ensures Or(Shl(v, 16), w) < Pow2(32) && Low(Or(Shl(v, 16), w), have + 16) == Shl(Low(v, have), 16) + w
  {
    hide *;
    OrBelow(w, v, 16);
    ShrSum(w, v, 16);
    ShrSmall(w, 16);
    LowSplit(w + Shl(v, 16), 16, have);
    ShlBound(v, 16, 16);
  }
}
