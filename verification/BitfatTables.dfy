/**
 Access to the bitmap of sectors on disk: `dbl_bitfat_value` with its three layouts, through the
 sector cache.
 */
module BitfatTables {
  import opened Bits
  import opened Tables

  //////////////////////////////////////////////////////////////////////////////
  // Bits of numbers
  //////////////////////////////////////////////////////////////////////////////

  // bitwise and
  function And(a: nat, b: nat): nat
    decreases a + b
  {
    if a == 0 || b == 0 then 0 else (if a % 2 == 1 && b % 2 == 1 then 1 else 0) + 2 * And(a / 2, b / 2)
  }

  // a & ~b
  function AndNot(a: nat, b: nat): nat
    decreases a + b
  {
    if a == 0 || b == 0 then a else (if a % 2 == 1 && b % 2 == 0 then 1 else 0) + 2 * AndNot(a / 2, b / 2)
  }

  predicate Test(a: nat, i: nat)
    decreases i, a
  {
    if i == 0 then a % 2 == 1 else Test(a / 2, i - 1)
  }

  lemma {:induction false} TestZero(i: nat)
    ensures !Test(0, i)
    decreases i
  {
    if i > 0 { TestZero(i - 1); }
  }

  lemma {:induction false} TestOr(a: nat, b: nat, i: nat)
    ensures Test(Or(a, b), i) <==> Test(a, i) || Test(b, i)
    decreases i
  {
    TestZero(i);
    if i > 0 && a != 0 && b != 0 { TestOr(a / 2, b / 2, i - 1); }
  }

  lemma {:induction false} TestAnd(a: nat, b: nat, i: nat)
    ensures Test(And(a, b), i) <==> Test(a, i) && Test(b, i)
    decreases i
  {
    TestZero(i);
    if i > 0 && a != 0 && b != 0 { TestAnd(a / 2, b / 2, i - 1); }
  }

  lemma {:induction false} TestAndNot(a: nat, b: nat, i: nat)
    ensures Test(AndNot(a, b), i) <==> Test(a, i) && !Test(b, i)
    decreases i
  {
    TestZero(i);
    if i > 0 && a != 0 && b != 0 { TestAndNot(a / 2, b / 2, i - 1); }
  }

  lemma {:induction false} TestShl(v: nat, j: nat, i: nat)
    ensures Test(Shl(v, j), i) <==> i >= j && Test(v, i - j)
    decreases j, i
  {
    if j > 0 && i > 0 {
      assert Shl(v, j) / 2 == Shl(v, j - 1);
      TestShl(v, j - 1, i - 1);
    }
  }

  lemma {:induction false} TestShr(a: nat, s: nat, i: nat)
    ensures Test(Shr(a, s), i) <==> Test(a, s + i)
    decreases s
  {
    if s > 0 { TestShr(a / 2, s - 1, i); }
  }

  lemma {:induction false} TestLow(a: nat, n: nat, i: nat)
    ensures Test(Low(a, n), i) <==> i < n && Test(a, i)
    decreases n, i
  {
    if n == 0 {
      TestZero(i);
    } else if i > 0 {
      assert Low(a, n) / 2 == Low(a / 2, n - 1);
      TestLow(a / 2, n - 1, i - 1);
    }
  }

  // numbers with the same low bits
  lemma {:induction false} LowSame(a: nat, b: nat, n: nat)
    requires forall i :: 0 <= i < n ==> (Test(a, i) <==> Test(b, i))
    ensures Low(a, n) == Low(b, n)
    decreases n
  {
    if n > 0 {
      assert Test(a, 0) <==> Test(b, 0);
      forall i | 0 <= i < n - 1 ensures Test(a / 2, i) <==> Test(b / 2, i) { assert Test(a, i + 1) <==> Test(b, i + 1); }
      LowSame(a / 2, b / 2, n - 1);
    }
  }

  //////////////////////////////////////////////////////////////////////////////
  // Where the state of a sector is
  //////////////////////////////////////////////////////////////////////////////

  // DoubleSpace and DriveSpace have words filled from the highest bit, Stacker 3 bytes filled from
  // the lowest one; Stacker 4 has two bits a sector.
  datatype Form = Word16 | OneBit | TwoBits

  function Width(f: Form): nat {
    if f == TwoBits then 2 else 1
  }

  function Unit(f: Form): nat {
    if f == Word16 then 2 else 1
  }

  // the first byte of the unit that holds the state of sector k of the data area
  function PosOf(f: Form, k: nat): nat {
    match f
    case Word16 => 2 * (k / 16)
    case OneBit => k / 8
    case TwoBits => k / 4
  }

  function ShiftOf(f: Form, k: nat): nat {
    match f
    case Word16 => 15 - k % 16
    case OneBit => k % 8
    case TwoBits => 2 * (k % 4)
  }

  function RawState(disk: seq<Sector>, f: Form, start: nat, k: nat): nat {
    if f == Word16 then RawAt(disk, Linear, start, PosOf(f, k)) else ByteAt(disk, Linear, start, PosOf(f, k))
  }

  // the state of sector k: zero for free
  function StateAt(disk: seq<Sector>, f: Form, start: nat, k: nat): nat {
    Low(Shr(RawState(disk, f, start, k), ShiftOf(f, k)), Width(f))
  }

  // what a state becomes when it is stored
  function StateStored(f: Form, v: nat): nat {
    if f == Word16 then (if v != 0 then 1 else 0) else Low(v, Width(f))
  }

  lemma UnitFits(f: Form, k: nat)
    ensures PosOf(f, k) % 512 + Unit(f) <= 512
  {
    if f == Word16 { EvenFits(k / 16); }
  }

  //////////////////////////////////////////////////////////////////////////////
  // How it is changed
  //////////////////////////////////////////////////////////////////////////////

  // the unit with a new state for sector k
  function NewUnit(f: Form, k: nat, raw: nat, v: nat): nat {
    if f == Word16 then
      var bitmask := Shr(0x8000, k % 16);
      if v != 0 then Or(raw, bitmask) else AndNot(raw, bitmask)
    else
      var bitmask := if f == OneBit then 1 else 3;
      Or(AndNot(raw, Shl(bitmask, ShiftOf(f, k))), Shl(And(v, bitmask), ShiftOf(f, k)))
  }

  function UnitBytes(f: Form, u: nat): (b: seq<byte>)
    ensures |b| == Unit(f)
  {
    if f == Word16 then [u % 0x100, u / 0x100 % 0x100] else [u % 0x100]
  }

  lemma MaskIs(k: nat)
    requires k < 16
    ensures Shr(0x8000, k) == Shl(1, 15 - k)
  {
    hide Shr, Shl, Low;
    HighBit();
    ShlShl(1, 15 - k, k);
    ShrSum(0, Shl(1, 15 - k), k);
    ShrZero(k);
  }

  lemma HighBit()
    ensures Shl(1, 15) == 0x8000
  {
    assert Shl(1, 4) == 16 && Shl(1, 8) == 256 && Shl(1, 12) == 4096;
  }

  lemma {:induction false} ShrZero(k: nat)
    ensures Shr(0, k) == 0
    decreases k
  {
    if k > 0 { ShrZero(k - 1); }
  }

  lemma TestOne(i: nat)
    ensures Test(1, i) <==> i == 0
  {
    if i > 0 { TestZero(i - 1); }
  }

  lemma TestThree(i: nat)
    ensures Test(3, i) <==> i < 2
  {
    if i > 1 {
      TestZero(i - 2);
      assert Test(3, i) == Test(1, i - 1) == Test(0, i - 2);
    }
  }

  // bit by bit: the new state in its place, all other bits as they were
  lemma NewUnitBits(f: Form, k: nat, raw: nat, v: nat, i: nat)
    ensures Test(NewUnit(f, k, raw, v), i) <==>
              var s := ShiftOf(f, k);
              if s <= i < s + Width(f) then Test(StateStored(f, v), i - s) else Test(raw, i)
  {
    hide Test, Or, AndNot, And, Shl, Shr, Low;
    var s := ShiftOf(f, k);
    if f == Word16 {
      MaskIs(k % 16);
      var m := Shl(1, s);
      TestOr(raw, m, i);
      TestAndNot(raw, m, i);
      TestShl(1, s, i);
      if i >= s { TestOne(i - s); }
      TestOne(0);
      TestZero(0);
    } else {
      var bits: nat := if f == OneBit then 1 else 3;
      TestOr(AndNot(raw, Shl(bits, s)), Shl(And(v, bits), s), i);
      TestAndNot(raw, Shl(bits, s), i);
      TestShl(bits, s, i);
      TestShl(And(v, bits), s, i);
      if i >= s {
        TestAnd(v, bits, i - s);
        TestOne(i - s);
        TestThree(i - s);
        TestLow(v, Width(f), i - s);
      }
    }
  }

  // The unit of sector k on disk is the new one.
  ghost predicate StatePut(disk: seq<Sector>, disk': seq<Sector>, f: Form, start: nat, k: nat, v: nat) {
    BytesPut(disk, disk', Linear, start, PosOf(f, k), UnitBytes(f, NewUnit(f, k, RawState(disk, f, start, k), v)))
  }

  function UnitSize(f: Form): nat {
    if f == Word16 then 16 else 8
  }

  lemma UnitRead(disk: seq<Sector>, disk': seq<Sector>, f: Form, start: nat, k: nat, v: nat)
    requires StatePut(disk, disk', f, start, k, v)
    ensures RawState(disk', f, start, k) == Low(NewUnit(f, k, RawState(disk, f, start, k), v), UnitSize(f))
  {
    hide ByteAt, NewUnit, Low, BytesPut, PosOf;
    var u := NewUnit(f, k, RawState(disk, f, start, k), v);
    var pos, b := PosOf(f, k), UnitBytes(f, u);
    BytePut(disk, disk', start, pos, b, 0);
    if f == Word16 {
      BytePut(disk, disk', start, pos, b, 1);
      ShrWord(u);
      WordOf(u);
    } else {
      ShrSteps8(u);
    }
  }

  lemma BytePut(disk: seq<Sector>, disk': seq<Sector>, start: nat, pos: nat, b: seq<byte>, i: nat)
    requires BytesPut(disk, disk', Linear, start, pos, b) && i < |b|
    ensures ByteAt(disk', Linear, start, pos + i) == b[i]
  {
    hide ByteAt;
  }

  lemma WordOf(u: nat)
    ensures u % 0x100 + 0x100 * (u / 0x100 % 0x100) == u % 0x1_0000
  {
    var q, r := u / 0x1_0000, u % 0x1_0000;
    assert u == 0x1_0000 * q + r;
    assert u / 0x100 == 0x100 * q + r / 0x100 && u % 0x100 == r % 0x100;
  }

  // the unit of another sector
  lemma OtherUnit(disk: seq<Sector>, disk': seq<Sector>, f: Form, start: nat, k: nat, v: nat, j: nat)
    requires StatePut(disk, disk', f, start, k, v) && PosOf(f, j) != PosOf(f, k)
    ensures RawState(disk', f, start, j) == RawState(disk, f, start, j)
  {
    hide ByteAt, NewUnit;
  }

  lemma SameUnit(f: Form, j: nat, k: nat)
    requires PosOf(f, j) == PosOf(f, k) && j != k
    ensures var s, t := ShiftOf(f, j), ShiftOf(f, k); s + Width(f) <= t || t + Width(f) <= s
  {
  }

  lemma ShiftsFit(f: Form, k: nat)
    ensures ShiftOf(f, k) + Width(f) <= UnitSize(f)
  {
  }

  lemma StoredFits(f: Form, v: nat)
    ensures Low(StateStored(f, v), Width(f)) == StateStored(f, v)
  {
    Pow2Values();
    ShrSmall(StateStored(f, v), Width(f));
  }

  // The bitmap is a flat array of states: changing one gives back what can be stored of it and
  // leaves all others alone, though several share a byte.
  lemma StateKept(disk: seq<Sector>, disk': seq<Sector>, f: Form, start: nat, k: nat, v: nat, j: nat)
    requires StatePut(disk, disk', f, start, k, v)
    ensures StateAt(disk', f, start, j) == if j == k then StateStored(f, v) else StateAt(disk, f, start, j)
  {
    hide Test, Low, Shr, NewUnit, RawState, StatePut, ShiftOf, PosOf, StateStored;
    if PosOf(f, j) != PosOf(f, k) {
      OtherUnit(disk, disk', f, start, k, v, j);
    } else {
      SameRaw(disk, f, start, j, k);
      SameRaw(disk', f, start, j, k);
      UnitRead(disk, disk', f, start, k, v);
      var raw := RawState(disk, f, start, k);
      var u, s, w := NewUnit(f, k, raw, v), ShiftOf(f, j), Width(f);
      ShiftsFit(f, j);
      if j != k { SameUnit(f, j, k); }
      forall i | 0 <= i < w
        ensures Test(Shr(Low(u, UnitSize(f)), s), i) <==> if j == k then Test(StateStored(f, v), i) else Test(Shr(raw, s), i)
      {
        TestShr(Low(u, UnitSize(f)), s, i);
        TestLow(u, UnitSize(f), s + i);
        NewUnitBits(f, k, raw, v, s + i);
        TestShr(raw, s, i);
      }
      if j == k {
        LowSame(Shr(Low(u, UnitSize(f)), s), StateStored(f, v), w);
        StoredFits(f, v);
      } else {
        LowSame(Shr(Low(u, UnitSize(f)), s), Shr(raw, s), w);
      }
    }
  }

  lemma SameRaw(disk: seq<Sector>, f: Form, start: nat, j: nat, k: nat)
    requires PosOf(f, j) == PosOf(f, k)
    ensures RawState(disk, f, start, j) == RawState(disk, f, start, k)
  {
  }

  //////////////////////////////////////////////////////////////////////////////
  // dbl_bitfat_value
  //////////////////////////////////////////////////////////////////////////////

  // how a known number of free sectors follows a change of state
  function FreeAfter(free: int, was: nat, v: nat): int {
    if free >= 0 && was != 0 && v == 0 then free + 1
    else if free >= 0 && was == 0 && v != 0 then free - 1
    else free
  }

  // dbl_bitfat_value; `val` is empty or holds the new state. -1 for an error.
  method BitfatValue(t: Table, f: Form, datastart: nat, dataend: nat, s: int, val: seq<nat>, free0: int, now: nat)
    returns (res: int, free: int)
    requires t.Valid() && t.layout == Linear
    modifies t.cache.slots, t.cache.disk
    ensures t.Valid()
    ensures !(datastart <= s <= dataend) ==> res == -1
    ensures datastart <= s <= dataend && !Exists(old(t.Disk()), Linear, t.start, PosOf(f, s - datastart), Unit(f)) ==> res == -1
    ensures res == -1 ==> t.Disk() == old(t.Disk()) && free == free0
    ensures datastart <= s <= dataend && Exists(old(t.Disk()), Linear, t.start, PosOf(f, s - datastart), Unit(f)) ==>
              var k := s - datastart;
              && res == StateAt(old(t.Disk()), f, t.start, k)
              && (val == [] ==> t.Disk() == old(t.Disk()) && free == free0)
              && (val != [] ==> StatePut(old(t.Disk()), t.Disk(), f, t.start, k, val[0]) && free == FreeAfter(free0, res, val[0]))
  {
    hide ByteAt, AreaOf, Exists, t.cache.Coherent, BytesPut, NewUnit, PosOf, ShiftOf, And, Shr, Low, UnitBytes;
    free := free0;
    if !(datastart <= s <= dataend) { return -1, free; }
    var k: nat := s - datastart;
    var pos, n := PosOf(f, k), Unit(f);
    UnitFits(f, k);
    var ok, i1, i2 := t.Locate(pos, n, now);
    if !ok { return -1, free; }
    t.SlotByte(pos, n, i1, i2, 0);
    var raw: nat := t.InSlots(i1, i2, pos, 0);
    if f == Word16 {
      t.SlotByte(pos, n, i1, i2, 1);
      raw := raw + 0x100 * t.InSlots(i1, i2, pos, 1) as int;
      res := if And(raw, Shr(0x8000, k % 16)) != 0 then 1 else 0;
      BitIs(raw, k);
    } else {
      res := Low(Shr(raw, ShiftOf(f, k)), Width(f));
    }
    if val != [] {
      t.Write(pos, UnitBytes(f, NewUnit(f, k, raw, val[0])), i1, i2);
      free := FreeAfter(free0, res, val[0]);
    }
  }

  // testing one bit
  lemma BitIs(raw: nat, k: nat)
    ensures (if And(raw, Shr(0x8000, k % 16)) != 0 then 1 else 0) == Low(Shr(raw, ShiftOf(Word16, k)), 1)
  {
    hide Test, And, Shr, Shl;
    var s := 15 - k % 16;
    MaskIs(k % 16);
    AndBit(raw, s);
    TestShr(raw, s, 0);
    LowestBit(Shr(raw, s));
  }

  lemma LowestBit(a: nat)
    ensures Low(a, 1) == if Test(a, 0) then 1 else 0
  {
    assert Low(a / 2, 0) == 0;
  }

  lemma {:induction false} AndBit(a: nat, s: nat)
    ensures And(a, Shl(1, s)) != 0 <==> Test(a, s)
    decreases s
  {
    ShlPositive(s);
    if a == 0 {
      TestZero(s);
    } else if s > 0 {
      assert Shl(1, s) / 2 == Shl(1, s - 1) && Shl(1, s) % 2 == 0;
      AndBit(a / 2, s - 1);
    } else {
      assert And(a / 2, 0) == 0;
    }
  }

  lemma {:induction false} ShlPositive(s: nat)
    ensures Shl(1, s) > 0
    decreases s
  {
    if s > 0 { ShlPositive(s - 1); }
  }
}
