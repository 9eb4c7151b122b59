/**
 Where the fields of MDFAT entries stand, lowest bit first: the layouts of the volume types as bit strings.
 */
module MdfatLayout {
  import opened Bits
  import opened VolumeState
  import opened MdfatTables

  lemma {:induction false} ShlPow(v: nat, n: nat)
    ensures Shl(v, n) == v * Pow2(n)
    decreases n
  {
    if n > 0 {
      ShlPow(v, n - 1);
      assert 2 * (v * Pow2(n - 1)) == v * (2 * Pow2(n - 1));
    }
  }

  lemma Powers()
    ensures Pow2(21) == 0x20_0000 && Pow2(22) == 0x40_0000 && Pow2(26) == 0x400_0000 && Pow2(30) == 0x4000_0000 && Pow2(24) == 0x100_0000
  {
    Pow2Values();
    assert Pow2(20) == 16 * Pow2(16);
    assert Pow2(24) == 16 * Pow2(20);
    assert Pow2(28) == 16 * Pow2(24);
  }

  // two fields, the lower one of n bits
  lemma TwoFields(a: nat, n: nat, b: nat, k: nat)
    requires a < Pow2(n)
    ensures ToBits(a + b * Pow2(n), n + k) == ToBits(a, n) + ToBits(b, k)
  {
    hide *;
    ShlPow(b, n);
    ToBitsAppend(a, n, b, k);
  }

  lemma ByteFields(a: nat, n: nat, b: nat)
    requires n <= 8 && a < Pow2(n) && a + b * Pow2(n) < 256
    ensures BytesBits([a + b * Pow2(n)]) == ToBits(a, n) + ToBits(b, 8 - n)
  {
    hide Pow2, ToBits, BytesBits;
    ByteBits(a + b * Pow2(n));
    TwoFields(a, n, b, 8 - n);
  }

  // four bytes, lowest first
  lemma Number32(v: nat)
    requires v < 0x1_0000_0000
    ensures BytesBits([v % 0x100, v / 0x100 % 0x100, v / 0x1_0000 % 0x100, v / 0x100_0000 % 0x100]) == ToBits(v, 32)
  {
    hide ToBits, BytesBits, Pow2;
    Pow2Values();
    var w, x := v % 0x1_0000, v / 0x1_0000;
    Halves(v);
    BytesBitsWord([], w);
    BytesBitsWord([w % 0x100, w / 0x100], x);
    assert [] + [w % 0x100, w / 0x100] == [w % 0x100, w / 0x100];
    assert [w % 0x100, w / 0x100] + [x % 0x100, x / 0x100]
        == [v % 0x100, v / 0x100 % 0x100, v / 0x1_0000 % 0x100, v / 0x100_0000 % 0x100];
    NoBytes();
    assert [] + ToBits(w, 16) == ToBits(w, 16);
    TwoFields(w, 16, x, 16);
  }

  lemma NoBytes()
    ensures BytesBits([]) == []
  {
  }

  lemma Halves(v: nat)
    requires v < 0x1_0000_0000
    ensures var w, x := v % 0x1_0000, v / 0x1_0000;
            && w + x * 0x1_0000 == v && x < 0x1_0000 && w % 0x100 == v % 0x100 && w / 0x100 == v / 0x100 % 0x100
            && x / 0x100 == v / 0x100_0000 % 0x100 && x % 0x100 == v / 0x1_0000 % 0x100
  {
    var w, x := v % 0x1_0000, v / 0x1_0000;
    assert v == w + 0x1_0000 * x;
    assert v / 0x100 == w / 0x100 + 0x100 * x;
  }

  // DoubleSpace and DriveSpace: 21 bits of sector number, one unknown bit written as zero, both sizes, flags
  lemma Layout4(m: Mde)
    ensures BytesBits(Encode4(m)) == ToBits(m.sectorMinus1 % 0x20_0000, 21) + ToBits(0, 1) + ToBits(m.sizeLoMinus1 % 16, 4)
                                     + ToBits(m.sizeHiMinus1 % 16, 4) + ToBits(m.flags % 4, 2)
  {
    hide ToBits, BytesBits, Pow2;
    Pow2Values();
    Powers();
    var s, lo, hi, f := m.sectorMinus1 % 0x20_0000, m.sizeLoMinus1 % 16, m.sizeHiMinus1 % 16, m.flags % 4;
    var z := hi + f * 16;
    var y := lo + z * 16;
    var x := 0 + y * 2;
    assert s + x * 0x20_0000 == s + lo * 0x40_0000 + hi * 0x400_0000 + f * 0x4000_0000;
    Number32(s + x * 0x20_0000);
    TwoFields(s, 21, x, 11);
    TwoFields(0, 1, y, 10);
    TwoFields(lo, 4, z, 6);
    TwoFields(hi, 4, f, 2);
    var a, b, c, d, e := ToBits(s, 21), ToBits(0, 1), ToBits(lo, 4), ToBits(hi, 4), ToBits(f, 2);
    assert a + b + c + d + e == a + (b + (c + (d + e)));
  }

  // DriveSpace 3: 24 bits of sector number, two unknown bits (the second means fragmented), both sizes, flags
  lemma Layout5(m: Mde)
    ensures BytesBits(Encode5(m)) == ToBits(m.sectorMinus1 % 0x100_0000, 24) + ToBits(m.unknown % 4, 2) + ToBits(m.sizeLoMinus1 % 64, 6)
                                     + ToBits(m.sizeHiMinus1 % 64, 6) + ToBits(m.flags % 4, 2)
  {
    hide ToBits, BytesBits, Pow2;
    Pow2Values();
    var s, u, lo, hi, f := m.sectorMinus1, m.unknown % 4, m.sizeLoMinus1 % 64, m.sizeHiMinus1 % 64, m.flags % 4;
    ThreeNumber(s);
    ByteFields(u, 2, lo);
    ByteFields(hi, 6, f);
    var front: seq<byte> := [s % 0x100, s / 0x100 % 0x100, s / 0x1_0000 % 0x100];
    var p: byte, q: byte := u + lo * 4, hi + f * 64;
    assert Encode5(m) == front + [p] + [q];
    BytesBitsConcat(front + [p], [q]);
    BytesBitsConcat(front, [p]);
    var a, b, c, d, e := ToBits(s % 0x100_0000, 24), ToBits(u, 2), ToBits(lo, 6), ToBits(hi, 6), ToBits(f, 2);
    assert a + b + c + d + e == a + (b + c) + (d + e);
  }

  lemma ThreeNumber(s: nat)
    ensures BytesBits([s % 0x100, s / 0x100 % 0x100, s / 0x1_0000 % 0x100]) == ToBits(s % 0x100_0000, 24)
  {
    hide ToBits, BytesBits, Pow2;
    Pow2Values();
    var w, x: byte := s % 0x1_0000, s / 0x1_0000 % 0x100;
    ThreeHalves(s);
    BytesBitsWord([], w);
    NoBytes();
    assert [] + [w % 0x100, w / 0x100] == [w % 0x100, w / 0x100] && [] + ToBits(w, 16) == ToBits(w, 16);
    assert [w % 0x100, w / 0x100] + [x] == [s % 0x100, s / 0x100 % 0x100, x];
    BytesBitsConcat([w % 0x100, w / 0x100], [x]);
    ByteBits(x);
    TwoFields(w, 16, x, 8);
  }

  lemma ThreeHalves(s: nat)
    ensures var w, x := s % 0x1_0000, s / 0x1_0000 % 0x100;
            && w % 0x100 == s % 0x100 && w / 0x100 == s / 0x100 % 0x100 && w + x * 0x1_0000 == s % 0x100_0000
  {
    ThreeBytes(s);
    var q := s / 0x1_0000;
    assert s == s % 0x1_0000 + 0x1_0000 * q;
    assert s / 0x100 == s % 0x1_0000 / 0x100 + 0x100 * q;
    SectBits(s);
  }

  // Stacker: the sector number and the size are both in two parts
  lemma LayoutStac(m: StacMde, wide: bool)
    ensures BytesBits(EncodeStac(m, wide))
            == ToBits(m.sect % 0x1_0000, 16) + ToBits(m.sizeMinus1 % 16, 4) + ToBits(m.flags / 16 % 16, 4)
               + if wide then ToBits(m.sect / 0x1_0000 % 64, 6) + ToBits(m.sizeMinus1 / 16 % 4, 2) else []
  {
    hide ToBits, BytesBits, Pow2;
    Pow2Values();
    var w, n, f := m.sect % 0x1_0000, m.sizeMinus1, m.flags / 16 % 16;
    ThreeHalves(m.sect);
    BytesBitsWord([], w);
    NoBytes();
    var front: seq<byte> := [w % 0x100, w / 0x100];
    assert [] + front == front && [] + ToBits(w, 16) == ToBits(w, 16);
    var p: byte := n % 16 + f * 16;
    ByteFields(n % 16, 4, f);
    BytesBitsConcat(front, [p]);
    var a, b, c := ToBits(w, 16), ToBits(n % 16, 4), ToBits(f, 4);
    assert a + b + c == a + (b + c);
    if wide {
      var h := m.sect / 0x1_0000 % 64;
      var q: byte := h + n / 16 % 4 * 64;
      ByteFields(h, 6, n / 16 % 4);
      assert EncodeStac(m, wide) == front + [p] + [q];
      BytesBitsConcat(front + [p], [q]);
    } else {
      assert EncodeStac(m, wide) == front + [p];
      assert a + b + c + [] == a + b + c;
    }
  }
}
