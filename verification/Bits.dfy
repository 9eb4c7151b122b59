/**
 Bytes, shifts and bit sequences.

 A bit stream is a `seq<bool>`. Two readings of a run of bits as a number are used:
 `Val` puts the first bit in the lowest place (the SQ, DS and JM formats), `ValM` puts
 it in the highest place (Huffman codes, and the SD3 and SD4 formats). Both read zeros
 past the end of the stream, as the readers of the original do.
 */
module Bits {

  type byte = x: int | 0 <= x < 256

  // a sector of a volume
  type Sector = s: seq<byte> | |s| == 512 witness seq(512, _ => 0)

  function Pow2(n: nat): (p: nat)
    ensures p >= 1
  {
    if n == 0 then 1 else 2 * Pow2(n - 1)
  }

  // v << k, on unbounded numbers
  function Shl(v: nat, k: nat): nat
    decreases k, v
  {
    if k == 0 then v else 2 * Shl(v, k - 1)
  }

  // v >> k
  function Shr(v: nat, k: nat): nat
    decreases k, v
  {
    if k == 0 then v else Shr(v / 2, k - 1)
  }

  // the k lowest bits of v
  function Low(v: nat, k: nat): (r: nat)
    ensures r < Pow2(k)
    decreases k, v
  {
    if k == 0 then 0 else v % 2 + 2 * Low(v / 2, k - 1)
  }

  // bitwise or
  function Or(a: nat, b: nat): nat
    decreases a + b
  {
    if a == 0 then b
    else if b == 0 then a
    else (if a % 2 == 1 || b % 2 == 1 then 1 else 0) + 2 * Or(a / 2, b / 2)
  }

  // bitwise exclusive or
  function Xor(a: nat, b: nat): nat
    decreases a + b
  {
    if a == 0 then b
    else if b == 0 then a
    else (if a % 2 != b % 2 then 1 else 0) + 2 * Xor(a / 2, b / 2)
  }

  function BitAt(s: seq<bool>, i: nat): (b: nat)
    ensures b <= 1
  {
    if i < |s| && s[i] then 1 else 0
  }

  // n bits of s from pos on, first bit lowest
  function Val(s: seq<bool>, pos: nat, n: nat): (v: nat)
    ensures v < Pow2(n)
    decreases n, pos, s
  {
    if n == 0 then 0 else BitAt(s, pos) + 2 * Val(s, pos + 1, n - 1)
  }

  // n bits of s from pos on, first bit highest
  function ValM(s: seq<bool>, pos: nat, n: nat): (v: nat)
    ensures v < Pow2(n)
    decreases n, pos, s
  {
    if n == 0 then 0 else 2 * ValM(s, pos, n - 1) + BitAt(s, pos + n - 1)
  }

  function ToBits(v: nat, n: nat): (b: seq<bool>)
    ensures |b| == n
    decreases n, v
  {
    if n == 0 then [] else [v % 2 == 1] + ToBits(v / 2, n - 1)
  }

  function ToBitsM(v: nat, n: nat): (b: seq<bool>)
    ensures |b| == n
    decreases n, v
  {
    if n == 0 then [] else ToBitsM(v / 2, n - 1) + [v % 2 == 1]
  }

  // a byte buffer as a stream, each byte lowest bit first
  function BytesBits(data: seq<byte>): (b: seq<bool>)
    ensures |b| == 8 * |data|
  {
    if data == [] then [] else BytesBits(data[..|data| - 1]) + ToBits(data[|data| - 1], 8)
  }

  //////////////////////////////////////////////////////////////////////////////
  // Shifts
  //////////////////////////////////////////////////////////////////////////////

  lemma {:induction false} Pow2Mono(a: nat, b: nat)
    requires a <= b
    ensures Pow2(a) <= Pow2(b)
    decreases b
  {
    if a < b { Pow2Mono(a, b - 1); }
  }

  lemma Pow2Values()
    ensures Pow2(1) == 2 && Pow2(2) == 4 && Pow2(3) == 8 && Pow2(4) == 16 && Pow2(5) == 32
    ensures Pow2(6) == 64 && Pow2(7) == 128 && Pow2(8) == 256 && Pow2(9) == 512
    ensures Pow2(10) == 1024 && Pow2(11) == 2048 && Pow2(12) == 4096 && Pow2(13) == 8192
    ensures Pow2(14) == 16384 && Pow2(15) == 32768 && Pow2(16) == 65536
    ensures Pow2(32) == 0x1_0000_0000
  {
    assert Pow2(4) == 16;
    assert Pow2(8) == 256;
    assert Pow2(12) == 4096;
    assert Pow2(16) == 65536;
    assert Pow2(20) == 0x10_0000;
    assert Pow2(24) == 0x100_0000;
    assert Pow2(28) == 0x1000_0000;
  }

  lemma {:induction false} ShlBound(v: nat, n: nat, k: nat)
    requires v < Pow2(n)
    ensures Shl(v, k) + Pow2(k) <= Pow2(n + k)
    decreases k
  {
    if k > 0 { ShlBound(v, n, k - 1); }
  }

  lemma {:induction false} ShlAdd(a: nat, b: nat, k: nat)
    ensures Shl(a + b, k) == Shl(a, k) + Shl(b, k)
    decreases k
  {
    if k > 0 { ShlAdd(a, b, k - 1); }
  }

  lemma {:induction false} ShlShl(v: nat, a: nat, b: nat)
    ensures Shl(Shl(v, a), b) == Shl(v, a + b)
    decreases b
  {
    if b > 0 { ShlShl(v, a, b - 1); }
  }

  lemma {:induction false} ShrShr(v: nat, a: nat, b: nat)
    ensures Shr(Shr(v, a), b) == Shr(v, a + b)
    decreases a
  {
    if a > 0 { ShrShr(v / 2, a - 1, b); }
  }

  // x + (y << a), shifted back
  lemma {:induction false} ShrSum(x: nat, y: nat, a: nat)
    ensures Shr(x + Shl(y, a), a) == Shr(x, a) + y
    ensures Low(x + Shl(y, a), a) == Low(x, a)
    decreases a
  {
    if a > 0 {
      var c := Shl(y, a - 1);
      assert Shl(y, a) == 2 * c;
      assert (x + 2 * c) / 2 == x / 2 + c && (x + 2 * c) % 2 == x % 2;
      ShrSum(x / 2, y, a - 1);
    }
  }

  // x + (y << (a + b)), the low a bits dropped
  lemma ShrSumHigh(x: nat, y: nat, a: nat, b: nat)
    ensures Shr(x + Shl(y, a + b), a) == Shr(x, a) + Shl(y, b)
  {
    ShlShl(y, b, a);
    ShrSum(x, Shl(y, b), a);
  }

  lemma {:induction false} ShrSmall(v: nat, n: nat)
    requires v < Pow2(n)
    ensures Shr(v, n) == 0 && Low(v, n) == v
    decreases n
  {
    if n > 0 { ShrSmall(v / 2, n - 1); }
  }

  lemma {:induction false} ShrBound(v: nat, n: nat, k: nat)
    requires v < Pow2(n + k)
    ensures Shr(v, k) < Pow2(n)
    decreases k
  {
    if k > 0 { ShrBound(v / 2, n, k - 1); }
  }

  lemma {:induction false} ShrLow(v: nat, k: nat)
    ensures v == Low(v, k) + Shl(Shr(v, k), k)
    decreases k
  {
    if k > 0 { ShrLow(v / 2, k - 1); }
  }

  lemma {:induction false} ShrMono(v: nat, w: nat, k: nat)
    requires v <= w
    ensures Shr(v, k) <= Shr(w, k)
    decreases k
  {
    if k > 0 { ShrMono(v / 2, w / 2, k - 1); }
  }

  lemma {:induction false} ShlMono(v: nat, w: nat, k: nat)
    ensures v <= w ==> Shl(v, k) <= Shl(w, k)
    ensures v < w ==> Shl(v, k) + Pow2(k) <= Shl(w, k)
    decreases k
  {
    if k > 0 { ShlMono(v, w, k - 1); }
  }

  // small shift counts as division and remainder
  lemma ShrSteps(v: nat)
    ensures Shr(v, 0) == v && Shr(v, 1) == v / 2 && Shr(v, 2) == v / 4 && Shr(v, 3) == v / 8
    ensures Shr(v, 4) == v / 16 && Shr(v, 8) == v / 256 && Shr(v, 16) == v / 65536
    ensures Low(v, 0) == 0 && Low(v, 1) == v % 2 && Low(v, 2) == v % 4 && Low(v, 3) == v % 8
    ensures Low(v, 4) == v % 16 && Low(v, 8) == v % 256 && Low(v, 16) == v % 65536
  {
    hide *;
    ShrSteps4(v);
    ShrSteps4(v / 16);
    ShrSteps8(v);
    ShrSteps8(v / 256);
    ShrShr(v, 8, 8);
    LowSplit(v, 8, 8);
    ShlSteps(Low(v / 256, 8));
  }

  lemma ShrSteps2(v: nat)
    ensures Shr(v, 1) == v / 2 && Low(v, 1) == v % 2
    ensures Shr(v, 2) == v / 4 && Low(v, 2) == v % 4
  {
    assert Shr(v, 2) == Shr(v / 2, 1);
    assert Low(v, 2) == v % 2 + 2 * Low(v / 2, 1);
  }

  // a 16-bit word and what is above it
  lemma ShrWord(v: nat)
    ensures Shr(v, 16) == v / 65536 && Low(v, 16) == v % 65536
  {
    ShrSteps(v);
  }

  lemma ShrSteps4(v: nat)
    ensures Shr(v, 0) == v && Shr(v, 1) == v / 2 && Shr(v, 2) == v / 4 && Shr(v, 3) == v / 8
    ensures Shr(v, 4) == v / 16
    ensures Low(v, 0) == 0 && Low(v, 1) == v % 2 && Low(v, 2) == v % 4 && Low(v, 3) == v % 8
    ensures Low(v, 4) == v % 16
  {
    ShrSteps2(v);
    ShrSteps2(v / 2);
    ShrSteps2(v / 4);
    ShrShr(v, 2, 2);
    LowSplit(v, 2, 2);
    assert Shl(v / 4 % 4, 2) == v / 4 % 4 * 4;
  }

  lemma ShrSteps8(v: nat)
    ensures Shr(v, 8) == v / 256
    ensures Low(v, 8) == v % 256
  {
    ShrSteps4(v);
    ShrSteps4(v / 16);
    ShrShr(v, 4, 4);
    LowSplit(v, 4, 4);
    ShlStep4(v / 16 % 16);
  }

  lemma ShlSteps(v: nat)
    ensures Shl(v, 1) == v * 2 && Shl(v, 2) == v * 4 && Shl(v, 4) == v * 16
    ensures Shl(v, 8) == v * 256 && Shl(v, 16) == v * 65536
  {
    assert forall x: nat :: Shl(x, 1) == 2 * x;
    ShlShl(v, 1, 1);
    ShlShl(v, 2, 1);
    ShlShl(v, 3, 1);
    ShlStep4(v * 16);
    ShlShl(v, 4, 4);
    ShlStep4(v * 256);
    ShlStep4(v * 4096);
    ShlShl(v, 8, 4);
    ShlShl(v, 12, 4);
  }

  lemma ShlStep4(v: nat)
    ensures Shl(v, 4) == v * 16
  {
    assert forall x: nat :: Shl(x, 1) == 2 * x;
    ShlShl(v, 1, 1);
    ShlShl(v, 2, 1);
    ShlShl(v, 3, 1);
  }

  lemma {:induction false} LowSplit(v: nat, a: nat, b: nat)
    ensures Low(v, a + b) == Low(v, a) + Shl(Low(Shr(v, a), b), a)
    decreases a
  {
    if a > 0 { LowSplit(v / 2, a - 1, b); }
  }

  // or is addition when the bits do not overlap
  lemma {:induction false} OrDisjoint(a: nat, b: nat, k: nat)
    requires a < Pow2(k)
    ensures Or(a, Shl(b, k)) == a + Shl(b, k)
    decreases k
  {
    if k > 0 && a != 0 && Shl(b, k) != 0 { OrDisjoint(a / 2, b, k - 1); }
  }

  //////////////////////////////////////////////////////////////////////////////
  // Bit runs, first bit lowest
  //////////////////////////////////////////////////////////////////////////////

  lemma {:induction false} ValSplit(s: seq<bool>, pos: nat, a: nat, b: nat)
    ensures Val(s, pos, a + b) == Val(s, pos, a) + Shl(Val(s, pos + a, b), a)
    decreases a
  {
    if a > 0 { ValSplit(s, pos + 1, a - 1, b); }
  }

  // a run inside a run already read
  lemma ValSub(s: seq<bool>, pos: nat, k: nat, n: nat, m: nat)
    requires k + n <= m
    ensures Low(Shr(Val(s, pos, m), k), n) == Val(s, pos + k, n)
  {
    hide *;
    ValSplit(s, pos, k, m - k);
    ShrSum(Val(s, pos, k), Val(s, pos + k, m - k), k);
    ShrSmall(Val(s, pos, k), k);
    ValSplit(s, pos + k, n, m - k - n);
    ShrSum(Val(s, pos + k, n), Val(s, pos + k + n, m - k - n), n);
    ShrSmall(Val(s, pos + k, n), n);
  }

  lemma {:induction false} ValPastEnd(s: seq<bool>, pos: nat, n: nat)
    requires pos >= |s|
    ensures Val(s, pos, n) == 0
    decreases n
  {
    if n > 0 { ValPastEnd(s, pos + 1, n - 1); }
  }

  // reading back a run that was written
  lemma {:induction false} ValRead(s: seq<bool>, pos: nat, v: nat, n: nat)
    requires pos + n <= |s| && s[pos..pos + n] == ToBits(v, n)
    ensures Val(s, pos, n) == Low(v, n)
    decreases n
  {
    if n > 0 {
      assert s[pos..pos + n][0] == s[pos];
      assert s[pos + 1..pos + n] == s[pos..pos + n][1..] == ToBits(v / 2, n - 1);
      ValRead(s, pos + 1, v / 2, n - 1);
    }
  }

  // the bits b stand at position pos of s
  predicate Starts(s: seq<bool>, pos: nat, b: seq<bool>) {
    pos + |b| <= |s| && s[pos..pos + |b|] == b
  }

  lemma StartsConcat(s: seq<bool>, pos: nat, a: seq<bool>, b: seq<bool>)
    ensures Starts(s, pos, a + b) <==> Starts(s, pos, a) && Starts(s, pos + |a|, b)
  {
    if pos + |a| + |b| <= |s| {
      var t := s[pos..pos + |a + b|];
      assert t[..|a|] == s[pos..pos + |a|] && t[|a|..] == s[pos + |a|..pos + |a| + |b|];
      assert t == t[..|a|] + t[|a|..] && (a + b)[..|a|] == a && (a + b)[|a|..] == b;
    }
  }

  lemma StartsVal(s: seq<bool>, pos: nat, v: nat, n: nat)
    requires Starts(s, pos, ToBits(v, n)) && v < Pow2(n)
    ensures Val(s, pos, n) == v
  {
    ValRead(s, pos, v, n);
    ShrSmall(v, n);
  }

  // a field of n bits followed by more
  lemma StartsField(s: seq<bool>, pos: nat, v: nat, n: nat, rest: seq<bool>)
    requires Starts(s, pos, ToBits(v, n) + rest) && v < Pow2(n)
    ensures Val(s, pos, n) == v && Starts(s, pos + n, rest)
  {
    hide ToBits;
    StartsConcat(s, pos, ToBits(v, n), rest);
    StartsVal(s, pos, v, n);
  }

  lemma {:induction false} ToBitsLow(v: nat, n: nat)
    ensures ToBits(Low(v, n), n) == ToBits(v, n)
    decreases n
  {
    if n > 0 {
      assert Low(v, n) / 2 == Low(v / 2, n - 1);
      ToBitsLow(v / 2, n - 1);
    }
  }

  // appending a run is adding its shifted value
  lemma {:induction false} ToBitsAppend(a: nat, k: nat, b: nat, n: nat)
    requires a < Pow2(k)
    ensures ToBits(a + Shl(b, k), k + n) == ToBits(a, k) + ToBits(b, n)
    decreases k
  {
    if k > 0 {
      assert (a + Shl(b, k)) / 2 == a / 2 + Shl(b, k - 1);
      ToBitsAppend(a / 2, k - 1, b, n);
    }
  }

  lemma ToBitsSplit(v: nat, a: nat, b: nat)
    ensures ToBits(v, a + b) == ToBits(v, a) + ToBits(Shr(v, a), b)
  {
    ShrLow(v, a);
    ToBitsAppend(Low(v, a), a, Shr(v, a), b);
    ToBitsLow(v, a);
  }

  //////////////////////////////////////////////////////////////////////////////
  // Bytes as bits
  //////////////////////////////////////////////////////////////////////////////

  lemma {:induction false} BytesBitsConcat(a: seq<byte>, b: seq<byte>)
    ensures BytesBits(a + b) == BytesBits(a) + BytesBits(b)
    decreases |b|
  {
    hide ToBits;
    if b == [] {
      assert a + b == a;
    } else {
      var c := b[..|b| - 1];
      assert (a + b)[..|a + b| - 1] == a + c;
      BytesBitsConcat(a, c);
    }
  }

  lemma ByteBits(b: byte)
    ensures BytesBits([b]) == ToBits(b, 8)
  {
    hide ToBits;
    assert [b][..0] == [];
  }

  // two bytes hold one 16-bit word, low byte first
  lemma BytesBitsWord(a: seq<byte>, w: nat)
    requires w < 65536
    ensures BytesBits(a + [w % 256, w / 256]) == BytesBits(a) + ToBits(w, 16)
  {
    var lo: byte, hi: byte := w % 256, w / 256;
    hide *;
    assert [lo, hi] == [lo] + [hi];
    BytesBitsConcat(a, [lo, hi]);
    BytesBitsConcat([lo], [hi]);
    ByteBits(lo);
    ByteBits(hi);
    ToBitsSplit(w, 8, 8);
    ShrSteps8(w);
    ToBitsLow(w, 8);
  }

  lemma BytesBitsSlice(data: seq<byte>, i: nat, n: nat)
    requires i + n <= |data|
    ensures BytesBits(data)[8 * i..8 * (i + n)] == BytesBits(data[i..i + n])
  {
    hide *;
    var l, m, r := data[..i], data[i..i + n], data[i + n..];
    assert data == l + m + r;
    BytesBitsConcat(l + m, r);
    BytesBitsConcat(l, m);
  }
}
