/**
 Bit reversal. SQ streams are packed lowest bit first but Huffman codes stand in them
 highest bit first, so codes are written and looked up reversed.
 */
module Reverse {
  import opened Bits

  // the n low bits of v in opposite order
  function Rev(v: nat, n: nat): (r: nat)
    decreases n, v
  {
    if n == 0 then 0 else Shl(v % 2, n - 1) + Rev(v / 2, n - 1)
  }

  lemma {:induction false} RevBound(v: nat, n: nat)
    ensures Rev(v, n) < Pow2(n)
    decreases n
  {
    if n > 0 {
      RevBound(v / 2, n - 1);
      ShlBit(v % 2, n - 1);
    }
  }

  lemma {:induction false} ShlBit(b: nat, n: nat)
    requires b <= 1
    ensures Shl(b, n) == b * Pow2(n)
    decreases n
  {
    if n > 0 { ShlBit(b, n - 1); }
  }

  // the first bit on its own
  lemma {:induction false} ValMHead(s: seq<bool>, pos: nat, n: nat)
    requires n >= 1
    ensures ValM(s, pos, n) == Shl(BitAt(s, pos), n - 1) + ValM(s, pos + 1, n - 1)
    decreases n
  {
    if n > 1 { ValMHead(s, pos, n - 1); }
  }

  // the last bit on its own
  lemma FirstOf(s: seq<bool>, pos: nat, n: nat)
    ensures n == 0 ==> Rev(ValM(s, pos, n), n) == 0 == Val(s, pos, n)
    ensures n > 0 ==> Rev(ValM(s, pos, n), n) == Shl(Val(s, pos + n - 1, 1), n - 1) + Rev(ValM(s, pos, n - 1), n - 1)
  {
    hide Pow2, Shl;
    if n > 0 { assert Val(s, pos + n - 1, 1) == BitAt(s, pos + n - 1); }
  }

  // reversing the one reading of a run gives the other
  lemma {:induction false} RevVal(s: seq<bool>, pos: nat, n: nat)
    ensures Rev(Val(s, pos, n), n) == ValM(s, pos, n)
    decreases n
  {
    if n > 0 {
      RevVal(s, pos + 1, n - 1);
      ValMHead(s, pos, n);
    }
  }

  lemma {:induction false} RevValM(s: seq<bool>, pos: nat, n: nat)
    ensures Rev(ValM(s, pos, n), n) == Val(s, pos, n)
    decreases n
  {
    hide *;
    FirstOf(s, pos, n);
    if n > 0 {
      RevValM(s, pos, n - 1);
      ValSplit(s, pos, n - 1, 1);
    }
  }

  lemma {:induction false} RevBits(v: nat, n: nat)
    ensures ToBits(Rev(v, n), n) == ToBitsM(v, n)
    decreases n
  {
    if n > 0 {
      RevBits(v / 2, n - 1);
      RevBound(v / 2, n - 1);
      ToBitsAppend(Rev(v / 2, n - 1), n - 1, v % 2, 1);
      assert ToBits(v % 2, 1) == [v % 2 == 1];
    }
  }

  // reversing twice
  lemma RevRev(v: nat, n: nat)
    requires v < Pow2(n)
    ensures Rev(Rev(v, n), n) == v
  {
    var s := ToBits(v, n);
    assert s[0..0 + n] == s;
    ValRead(s, 0, v, n);
    ShrSmall(v, n);
    RevVal(s, 0, n);
    RevValM(s, 0, n);
  }

  lemma {:induction false} RevSplit(v: nat, a: nat, b: nat)
    ensures Rev(v, a + b) == Shl(Rev(Low(v, a), a), b) + Rev(Shr(v, a), b)
    decreases a
  {
    if a > 0 {
      RevSplit(v / 2, a - 1, b);
      ShlAdd(Shl(v % 2, a - 1), Rev(Low(v / 2, a - 1), a - 1), b);
      ShlShl(v % 2, a - 1, b);
      assert Low(v, a) % 2 == v % 2 && Low(v, a) / 2 == Low(v / 2, a - 1);
    } else {
      assert Rev(Low(v, 0), 0) == 0;
      ZeroShl(b);
    }
  }

  lemma {:induction false} ZeroShl(b: nat)
    ensures Shl(0, b) == 0 && Rev(0, b) == 0
    decreases b
  {
    if b > 0 { ZeroShl(b - 1); }
  }

  // a short code reversed in 16 bits and shifted down
  lemma RevShort(v: nat, n: nat, m: nat)
    requires v < Pow2(n)
    ensures Shr(Rev(v, n + m), m) == Rev(v, n)
  {
    RevSplit(v, n, m);
    ShrSmall(v, n);
    ZeroShl(m);
    ShrSum(0, Rev(v, n), m);
    ShrSmall(0, m);
  }

  // swap_bits_order_16; the table swap_bits_xlat holds the reversal of every byte
  function SwapBits16(d: nat): nat {
    Or(Rev(d / 256 % 256, 8), Shl(Rev(d % 256, 8), 8))
  }

  lemma SwapIsRev(d: nat)
    requires d < 65536
    ensures SwapBits16(d) == Rev(d, 16)
  {
    hide Rev, Shl, Or, Shr, Low;
    RevBound(d / 256, 8);
    OrDisjoint(Rev(d / 256, 8), Rev(d % 256, 8), 8);
    RevSplit(d, 8, 8);
    ShrSteps8(d);
  }

  // how the encoder and the table builder reverse a code of n bits
  lemma SwapCode(d: nat, n: nat)
    requires d < Pow2(n) && n <= 16
    ensures Shr(SwapBits16(d), 16 - n) == Rev(d, n)
  {
    hide Rev, SwapBits16;
    Pow2Mono(n, 16);
    Pow2Values();
    SwapIsRev(d);
    RevShort(d, n, 16 - n);
  }
}
