/**
 The bit writer and bit reader of the SQ, DS and JM codecs: a 32-bit buffer `buf`, a bit
 count `pb` and a pointer `pd` over 16-bit little-endian words ending at `pe`.

 Pointers are byte indices. The ghost fields say what the machine state stands for: the
 whole sequence of bits written so far, or the position reached in the bit stream.
 */
module LsbStream {
  import opened Bits

  function RoundUp2(n: nat): nat {
    (n + 1) / 2 * 2
  }

  class Writer {
    const out: array<byte>
    const pe: nat
    var buf: nat
    var pb: nat
    var pd: nat
    ghost var bits: seq<bool>

    // Once the buffer is full, pd stands one word after pe and stays there; what did not fit is lost.
    // A whole word is left over only after the 32 bits of a header written at once.
    ghost predicate Valid()
      reads this, out
    {
      Holding() && (pb < 16 || (pb == 16 && |bits| == 32))
    }

    ghost predicate Holding()
      reads this, out
    {
      && pe % 2 == 0 && pe <= out.Length
      && pd % 2 == 0 && pd <= pe + 2
      && buf < Pow2(pb)
      && (pd <= pe ==> bits == BytesBits(out[..pd]) + ToBits(buf, pb))
      && (pd > pe ==> |bits| >= 8 * pd && BytesBits(out[..pe]) <= bits)
    }

    // without overflow the bytes stored and the buffer hold everything written
    lemma Stored()
      requires Valid() && pd <= pe
      ensures bits == BytesBits(out[..][..pd]) + ToBits(buf, pb) && pb <= 16 && pe <= out.Length
      ensures |bits| == 8 * pd + pb
    {
      assert out[..][..pd] == out[..pd];
    }

    // The state of the writer tells how many bits there are, as far as they fit.
    lemma Size()
      requires Valid() && (|bits| == 32 ==> pb < 16)
      ensures pd > pe <==> |bits| / 16 * 2 > pe
      ensures pd <= pe ==> pd == |bits| / 16 * 2
    {
      hide BytesBits, ToBits, Pow2;
    }

    lemma Overflowed()
      requires Valid() && pd > pe
      ensures |bits| >= 8 * (pe + 2) && pe <= out.Length && BytesBits(out[..pe]) <= bits && pe % 2 == 0
    {
    }

    // what stands in the buffer is the front of what was written
    lemma Front()
      requires Valid()
      ensures BytesBits(out[..if pd <= pe then pd else pe]) <= bits
    {
    }

    constructor (pout: array<byte>, lin: nat)
      requires RoundUp2(lin) <= pout.Length
      ensures Valid() && out == pout && pe == RoundUp2(lin) && pd == 0 && pb == 0 && bits == []
    {
      out, pe, buf, pb, pd, bits := pout, RoundUp2(lin), 0, 0, 0, [];
    }

    // Appends the n lowest bits of u. A shift never leaves the 32-bit buffer.
    method WrN(u: nat, n: nat)
      requires Valid() && u < Pow2(n) && (n < 16 || (n == 16 && (pb < 16 || |bits| > 32)) || (bits == [] && n <= 32))
      modifies this, out
      ensures Valid() && bits == old(bits) + ToBits(u, n)
      ensures pb == if old(pb) + n >= 16 then old(pb) + n - 16 else old(pb) + n
      ensures n < 16 ==> pb < 16
      ensures old(pd) <= pd <= old(pd) + 2
      ensures old(pd) > pe ==> pd == old(pd)
      ensures pd > old(pd) ==> old(pb) + n >= 16
      ensures old(pb) + n >= 16 && old(pd) <= pe ==> pd == old(pd) + 2
      ensures out[..] == old(out[..]) || (old(pd) < pe && pd == old(pd) + 2)
      ensures forall i :: 0 <= i < old(pd) && i < out.Length ==> out[i] == old(out[i])
      ensures forall i :: pd <= i < out.Length ==> out[i] == old(out[i])
    {
      hide BytesBits, ToBits, Pow2, Shl, Shr, Or;
      PushBits(buf, pb, u, n);
      ghost var front, was, m := BytesBits(out[..if pd <= pe then pd else pe]), ToBits(buf, pb), pb;
      buf := Or(buf, Shl(u, pb));
      pb := pb + n;
      bits := bits + ToBits(u, n);
      assert front + was + ToBits(u, n) == front + ToBits(buf, pb);
      if pb >= 16 { StoreWord(); }
    }

    // the low word goes to the buffer, if there is room
    method StoreWord()
      requires Holding() && 16 <= pb <= 32 && (pb == 32 ==> |bits| == 32)
      modifies this`buf, this`pb, this`pd, out
      ensures Valid() && pb == old(pb) - 16 && pd == (if old(pd) <= pe then old(pd) + 2 else old(pd))
      ensures out[..] == old(out[..]) || old(pd) < pe
      ensures forall i :: 0 <= i < old(pd) && i < out.Length ==> out[i] == old(out[i])
      ensures forall i :: pd <= i < out.Length ==> out[i] == old(out[i])
    {
      hide BytesBits, ToBits, Pow2, Shr;
      if pd < pe {
        PutWord(buf % 65536);
      } else {
        ghost var done := out[..if pd <= pe then pd else 0];
        PopWord(done, buf, pb);
        if pd == pe { pd := pd + 2; }
      }
      buf := Shr(buf, 16);
      pb := pb - 16;
    }

    // the word w, the low part of the buffer, is stored
    method PutWord(w: nat)
      requires Holding() && 16 <= pb && pd < pe && w == buf % 65536
      modifies this`pd, out
      ensures pd == old(pd) + 2 && bits == BytesBits(out[..pd]) + ToBits(Shr(buf, 16), pb - 16) && Shr(buf, 16) < Pow2(pb - 16)
      ensures forall i :: 0 <= i < old(pd) && i < out.Length ==> out[i] == old(out[i])
      ensures forall i :: pd <= i < out.Length ==> out[i] == old(out[i])
    {
      hide BytesBits, ToBits, Pow2, Shr;
      ghost var done := out[..pd];
      PopWord(done, buf, pb);
      out[pd] := w % 256;
      out[pd + 1] := w / 256;
      pd := pd + 2;
      assert out[..pd] == done + [w % 256, w / 256];
    }
  }

  // what or-ing n more bits into the buffer does
  lemma PushBits(buf: nat, pb: nat, u: nat, n: nat)
    requires buf < Pow2(pb) && u < Pow2(n) && pb + n <= 32
    ensures ToBits(Or(buf, Shl(u, pb)), pb + n) == ToBits(buf, pb) + ToBits(u, n)
    ensures Or(buf, Shl(u, pb)) < Pow2(pb + n) <= Pow2(32)
  {
    ShlBound(u, n, pb);
    Pow2Mono(pb + n, 32);
    OrDisjoint(buf, u, pb);
    ToBitsAppend(buf, pb, u, n);
  }

  // what storing the low word of the buffer does
  lemma PopWord(done: seq<byte>, buf: nat, m: nat)
    requires buf < Pow2(m) && m >= 16
    ensures var w := buf % 65536;
            BytesBits(done) + ToBits(buf, m)
            == BytesBits(done + [w % 256, w / 256]) + ToBits(Shr(buf, 16), m - 16)
    ensures Shr(buf, 16) < Pow2(m - 16)
  {
    hide *;
    var w := buf % 65536;
    ShrBound(buf, m - 16, 16);
    assert ToBits(buf, m) == ToBits(w, 16) + ToBits(Shr(buf, 16), m - 16) by {
      ToBitsSplit(buf, 16, m - 16);
      ShrWord(buf);
      ToBitsLow(buf, 16);
    }
    BytesBitsWord(done, w);
  }

  // the little-endian word at byte index i; a missing last byte counts as zero
  function WordAt(data: seq<byte>, i: nat): (w: nat)
    requires i < |data|
    ensures w < 65536
  {
    data[i] as int + 256 * (if i + 1 < |data| then data[i + 1] as int else 0)
  }

  lemma WordBits(data: seq<byte>, i: nat)
    requires i < |data|
    ensures Val(BytesBits(data), 8 * i, 16) == WordAt(data, i)
  {
    var s := BytesBits(data);
    ValSplit(s, 8 * i, 8, 8);
    ShlSteps(Val(s, 8 * i + 8, 8));
    ByteVal(data, i);
    if i + 1 < |data| {
      ByteVal(data, i + 1);
    } else {
      ValPastEnd(s, 8 * i + 8, 8);
    }
  }

  lemma ByteVal(data: seq<byte>, i: nat)
    requires i < |data|
    ensures Val(BytesBits(data), 8 * i, 8) == data[i]
  {
    hide BytesBits, Val, ToBits, Low;
    BytesBitsSlice(data, i, 1);
    assert data[i..i + 1] == [data[i]];
    ByteBits(data[i]);
    ValRead(BytesBits(data), 8 * i, data[i], 8);
    ShrSteps8(data[i]);
  }

  class Reader {
    const data: seq<byte>
    var buf: nat
    var pb: nat
    var pd: nat
    ghost var pos: nat

    ghost function Stream(): seq<bool> {
      BytesBits(data)
    }

    // buf >> pb holds the 32-pb bits from pos on; behind the last word come zeros.
    ghost predicate Valid()
      reads this
    {
      && pb <= 32 && buf < Pow2(32)
      && pd % 2 == 0 && pd <= RoundUp2(|data|)
      && (pos + 32 - pb == 8 * pd || (pd == RoundUp2(|data|) && pos + 32 - pb >= 8 * pd))
      && Shr(buf, pb) == Val(Stream(), pos, 32 - pb)
    }

    // the buffer starts with arbitrary contents
    constructor (pin: seq<byte>, garbage: nat)
      requires garbage < Pow2(32)
      ensures Valid() && data == pin && pos == 0
    {
      data, buf, pb, pd, pos := pin, garbage, 32, 0, 0;
      new;
      ShrBound(garbage, 0, 32);
    }

    // RDN_G16: moves the next word into the buffer
    method G16()
      requires Valid() && pb >= 16
      modifies this
      ensures Valid() && pos == old(pos) && pb == old(pb) - 16
    {
      hide Shl, Shr, Or, Pow2, Val, BytesBits;
      ghost var s, have := Stream(), 32 - pb;
      ValSplit(s, pos, have, 16);
      ShrShr(buf, 16, pb - 16);
      ShrBound(buf, 16, 16);
      buf := Shr(buf, 16);
      pb := pb - 16;
      if pd < RoundUp2(|data|) {
        var w := WordAt(data, pd);
        WordBits(data, pd);
        PushWord(buf, pb, w);
        buf := Or(buf, Shl(w, 16));
        pd := pd + 2;
      } else {
        ValPastEnd(s, pos + have, 16);
        ShlZero(have);
        Pow2Mono(16, 32);
      }
    }

    // RDN_PR: at least 16 bits ahead of pos
    method Prepare() returns (u: nat)
      requires Valid()
      modifies this
      ensures Valid() && pos == old(pos) && pb <= 16
      ensures u == Val(Stream(), pos, 32 - pb)
    {
      if pb >= 16 { G16(); }
      u := Shr(buf, pb);
    }

    method Skip(n: nat)
      requires Valid() && pb + n <= 32
      modifies this
      ensures Valid() && pos == old(pos) + n && pb == old(pb) + n
    {
      hide BytesBits, Val, Shr, Low, Pow2;
      ghost var s, m := Stream(), 32 - pb;
      ValSub(s, pos, n, m - n, m);
      ShrShr(buf, pb, n);
      ShrBound(Val(s, pos, m), m - n, n);
      ShrSmall(Shr(Val(s, pos, m), n), m - n);
      pb := pb + n;
      pos := pos + n;
    }

    // reads n <= 16 bits
    method RdN(n: nat) returns (r: nat)
      requires Valid() && n <= 16
      modifies this
      ensures Valid() && pos == old(pos) + n && r == Val(Stream(), old(pos), n)
    {
      var u := Prepare();
      ValSub(Stream(), pos, 0, n, 32 - pb);
      Skip(n);
      r := Low(u, n);
    }
  }

  lemma PushWord(buf: nat, pb: nat, w: nat)
    requires buf < Pow2(16) && pb <= 16 && w < 65536
    ensures Or(buf, Shl(w, 16)) < Pow2(32)
    ensures Shr(Or(buf, Shl(w, 16)), pb) == Shr(buf, pb) + Shl(w, 16 - pb)
  {
    OrDisjoint(buf, w, 16);
    Pow2Values();
    ShlBound(w, 16, 16);
    ShrSumHigh(buf, w, pb, 16 - pb);
  }

  lemma ShlZero(k: nat)
    ensures Shl(0, k) == 0
    decreases k
  {
    if k > 0 { ShlZero(k - 1); }
  }
}
