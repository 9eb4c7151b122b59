/**
 The MDFAT of all volume types, byte by byte: entries of four bytes (DoubleSpace, DriveSpace),
 five bytes (DriveSpace 3), and three or four bytes (Stacker).
 */
module MdfatTables {
  import opened Bits
  import opened Tables
  import opened VolumeState

  //////////////////////////////////////////////////////////////////////////////
  // DoubleSpace and DriveSpace: one 32-bit number
  //////////////////////////////////////////////////////////////////////////////

  function Encode4(m: Mde): (b: seq<byte>)
    ensures |b| == 4
  {
    var res := m.sectorMinus1 % 0x20_0000 + m.sizeLoMinus1 % 16 * 0x40_0000 + m.sizeHiMinus1 % 16 * 0x400_0000 + m.flags % 4 * 0x4000_0000;
    [res % 0x100, res / 0x100 % 0x100, res / 0x1_0000 % 0x100, res / 0x100_0000 % 0x100]
  }

  function Decode4(b: seq<byte>): Mde
    requires |b| == 4
  {
    var res: nat := b[0] as int + 0x100 * b[1] as int + 0x1_0000 * b[2] as int + 0x100_0000 * b[3] as int;
    Mde(res % 0x20_0000, res / 0x40_0000 % 16, res / 0x400_0000 % 16, res / 0x4000_0000 % 4, res / 0x20_0000 % 2)
  }

  lemma FourBytes(res: nat)
    requires res < 0x1_0000_0000
    ensures res % 0x100 + 0x100 * (res / 0x100 % 0x100) + 0x1_0000 * (res / 0x1_0000 % 0x100) + 0x100_0000 * (res / 0x100_0000 % 0x100) == res
  {
    var a := res / 0x100;
    var c := a / 0x100;
    assert res / 0x1_0000 == c && res / 0x100_0000 == c / 0x100;
  }

  // the fields of the number
  lemma Fields(s: nat, lo: nat, hi: nat, f: nat)
    requires s < 0x20_0000 && lo < 16 && hi < 16 && f < 4
    ensures var res := s + lo * 0x40_0000 + hi * 0x400_0000 + f * 0x4000_0000;
            && res < 0x1_0000_0000 && res % 0x20_0000 == s && res / 0x40_0000 % 16 == lo && res / 0x400_0000 % 16 == hi
            && res / 0x4000_0000 % 4 == f && res / 0x20_0000 % 2 == 0
  {
    var res := s + lo * 0x40_0000 + hi * 0x400_0000 + f * 0x4000_0000;
    var r := lo + hi * 16 + f * 256;
    assert res == s + 0x20_0000 * (2 * r);
    assert res / 0x20_0000 == 2 * r && res / 0x40_0000 == r;
    assert r / 16 == hi + 16 * f && res / 0x400_0000 == r / 16;
    assert r / 256 == f && res / 0x4000_0000 == r / 256;
  }

  lemma RoundTrip4(m: Mde)
    ensures Decode4(Encode4(m)) == Stored(DblSp, m) == Stored(DrvSp, m)
  {
    Fields(m.sectorMinus1 % 0x20_0000, m.sizeLoMinus1 % 16, m.sizeHiMinus1 % 16, m.flags % 4);
    FourBytes(m.sectorMinus1 % 0x20_0000 + m.sizeLoMinus1 % 16 * 0x40_0000 + m.sizeHiMinus1 % 16 * 0x400_0000 + m.flags % 4 * 0x4000_0000);
  }

  //////////////////////////////////////////////////////////////////////////////
  // DriveSpace 3: five bytes
  //////////////////////////////////////////////////////////////////////////////

  function Encode5(m: Mde): (b: seq<byte>)
    ensures |b| == 5
  {
    [m.sectorMinus1 % 0x100, m.sectorMinus1 / 0x100 % 0x100, m.sectorMinus1 / 0x1_0000 % 0x100,
     m.unknown % 4 + m.sizeLoMinus1 % 64 * 4, m.sizeHiMinus1 % 64 + m.flags % 4 * 64]
  }

  function Decode5(b: seq<byte>): Mde
    requires |b| == 5
  {
    Mde(b[0] as int + 0x100 * b[1] as int + 0x1_0000 * b[2] as int, b[3] as int / 4, b[4] as int % 64, b[4] as int / 64, b[3] as int % 4)
  }

  lemma RoundTrip5(m: Mde)
    ensures Decode5(Encode5(m)) == Stored(DrvSp3, m)
  {
    ThreeBytes(m.sectorMinus1);
  }

  // the digits of s to the base 256
  lemma Digits(s: nat) returns (d: nat, z: nat, y: nat, x: nat)
    ensures z < 0x100 && y < 0x100 && x < 0x100 && s == 0x100_0000 * d + 0x1_0000 * z + 0x100 * y + x
    ensures s % 0x100 == x && s / 0x100 % 0x100 == y && s / 0x1_0000 == 0x100 * d + z
  {
    x := s % 0x100;
    var a := s / 0x100;
    y := a % 0x100;
    var c := a / 0x100;
    z, d := c % 0x100, c / 0x100;
    Twice(s);
  }

  lemma Twice(s: nat)
    ensures s / 0x1_0000 == s / 0x100 / 0x100
  {
  }

  lemma ThreeBytes(s: nat)
    ensures s % 0x100 + 0x100 * (s / 0x100 % 0x100) + 0x1_0000 * (s / 0x1_0000 % 0x100) == s % 0x100_0000
  {
    var d, z, y, x := Digits(s);
    Rest(s, 0x100_0000, d, 0x1_0000 * z + 0x100 * y + x);
    Rest(s / 0x1_0000, 0x100, d, z);
  }

  // the remainder is what is left
  lemma Rest(s: nat, n: nat, q: nat, r: nat)
    requires n > 0 && r < n && s == n * q + r
    ensures s % n == r && s / n == q
  {
    if s / n != q {
      assert s == n * (s / n) + s % n;
      if s / n < q { assert n * (s / n) + n <= n * q by { Times(n, s / n + 1, q); } } else { assert n * q + n <= n * (s / n) by { Times(n, q + 1, s / n); } }
    }
  }

  lemma Times(n: nat, a: nat, b: nat)
    requires a <= b
    ensures n * a <= n * b
  {
  }

  //////////////////////////////////////////////////////////////////////////////
  // Stacker: three or four bytes
  //////////////////////////////////////////////////////////////////////////////

  // sector number, number of sectors less one, and the upper four flag bits
  datatype StacMde = StacMde(sect: nat, sizeMinus1: nat, flags: nat)

  function EncodeStac(m: StacMde, wide: bool): (b: seq<byte>)
    ensures |b| == if wide then 4 else 3
  {
    [m.sect % 0x100, m.sect / 0x100 % 0x100, m.sizeMinus1 % 16 + m.flags / 16 % 16 * 16]
    + if wide then [m.sect / 0x1_0000 % 64 + m.sizeMinus1 / 16 % 4 * 64] else []
  }

  // the fourth byte counts as zero if there is none
  function DecodeStac(b: seq<byte>): StacMde
    requires 3 <= |b| <= 4
  {
    var b3: nat := if |b| == 4 then b[3] as int else 0;
    StacMde(b[0] as int + 0x100 * b[1] as int + b3 % 64 * 0x1_0000, b[2] as int % 16 + b3 / 64 * 16, b[2] as int / 16 * 16)
  }

  // what an entry becomes when it is stored
  function StacStored(m: StacMde, wide: bool): StacMde {
    StacMde(m.sect % (if wide then 0x40_0000 else 0x1_0000), m.sizeMinus1 % (if wide then 64 else 16), m.flags / 16 % 16 * 16)
  }

  lemma RoundTripStac(m: StacMde, wide: bool)
    ensures DecodeStac(EncodeStac(m, wide)) == StacStored(m, wide)
  {
    SectBits(m.sect);
    SizeBits(m.sizeMinus1, m.flags, m.sect / 0x1_0000 % 64);
  }

  lemma SectBits(s: nat)
    ensures s % 0x100 + 0x100 * (s / 0x100 % 0x100) == s % 0x1_0000
    ensures s % 0x100 + 0x100 * (s / 0x100 % 0x100) + s / 0x1_0000 % 64 * 0x1_0000 == s % 0x40_0000
  {
    var d, z, y, x := Digits(s);
    var e := z / 64;
    Rest(s, 0x1_0000, 0x100 * d + z, 0x100 * y + x);
    Rest(s, 0x40_0000, 4 * d + e, 0x1_0000 * (z - 64 * e) + 0x100 * y + x);
    Rest(s / 0x1_0000, 64, 4 * d + e, z - 64 * e);
  }

  // the third and the fourth byte
  lemma SizeBits(n: nat, f: nat, h: nat)
    requires h < 64
    ensures n % 16 + f / 16 % 16 * 16 < 256 && (n % 16 + f / 16 % 16 * 16) % 16 == n % 16
    ensures (n % 16 + f / 16 % 16 * 16) / 16 == f / 16 % 16
    ensures n % 16 + n / 16 % 4 * 16 == n % 64
    ensures (h + n / 16 % 4 * 64) / 64 == n / 16 % 4 && (h + n / 16 % 4 * 64) % 64 == h
  {
  }

  //////////////////////////////////////////////////////////////////////////////
  // Entries in place
  //////////////////////////////////////////////////////////////////////////////

  datatype Kind = Four(dcluster: nat) | Five(dcluster: nat) | Stac(wide: bool)

  function SizeOf(k: Kind): (n: nat)
    ensures 3 <= n <= 5
  {
    match k
    case Four(_) => 4
    case Five(_) => 5
    case Stac(wide) => if wide then 4 else 3
  }

  function LayoutOf(k: Kind): Layout {
    if k.Stac? then StacMdfat else Linear
  }

  // where the entry of cluster c begins
  function EntryPos(k: Kind, c: nat): nat {
    match k
    case Four(dc) => (dc + c) * 4
    case Five(dc) => FivePos(dc + c)
    case Stac(wide) => if wide then 4 * c else 3 * c
  }

  lemma EntryReachable(k: Kind, c: nat)
    ensures Reachable(LayoutOf(k), EntryPos(k, c), SizeOf(k))
    ensures !k.Stac? ==> EntryPos(k, c) % 512 + SizeOf(k) <= 512
  {
    match k
    case Four(dc) => FourFits(dc + c);
    case Five(dc) => FiveReachable(dc + c);
    case Stac(wide) => StacReachable(wide, c);
  }

  lemma FourFits(n: nat)
    ensures n * 4 % 512 + 4 <= 512
  {
    assert n * 4 % 512 == 4 * (n % 128);
  }

  // entries do not overlap
  lemma EntriesApart(k: Kind, c: nat, d: nat)
    requires c < d
    ensures EntryPos(k, c) + SizeOf(k) <= EntryPos(k, d)
  {
    hide FivePos;
    if k.Five? { FiveRises(k.dcluster + c, k.dcluster + d); }
  }

  lemma FiveRises(m: nat, n: nat)
    requires m < n
    ensures FivePos(m) + 5 <= FivePos(n)
  {
    assert m / 102 <= n / 102 by { Quotients(m, n); }
  }

  lemma Quotients(m: nat, n: nat)
    requires m < n
    ensures m / 102 <= n / 102
  {
  }

  function EntryBytes(disk: seq<Sector>, k: Kind, start: nat, c: nat): (b: seq<byte>)
    ensures |b| == SizeOf(k)
  {
    BytesAt(disk, LayoutOf(k), start, EntryPos(k, c), SizeOf(k))
  }

  // reads the bytes of an entry and, if `b` is not empty, replaces them
  method AccessEntry(t: Table, k: Kind, c: int, max: nat, b: seq<byte>, now: nat) returns (ok: bool, was: seq<byte>)
    requires t.Valid() && t.layout == LayoutOf(k) && (b == [] || |b| == SizeOf(k))
    modifies t.cache.slots, t.cache.disk
    ensures t.Valid()
    ensures ok <==> 2 <= c <= max && Exists(old(t.Disk()), t.layout, t.start, EntryPos(k, c), SizeOf(k))
    ensures ok ==> was == EntryBytes(old(t.Disk()), k, t.start, c)
    ensures !ok || b == [] ==> t.Disk() == old(t.Disk())
    ensures ok && b != [] ==> BytesPut(old(t.Disk()), t.Disk(), t.layout, t.start, EntryPos(k, c), b)
  {
    hide ByteAt, AreaOf, Exists, t.cache.Coherent, BytesPut, EntryPos, Reachable;
    was := [];
    if !(2 <= c <= max) { return false, was; }
    var pos, n := EntryPos(k, c), SizeOf(k);
    EntryReachable(k, c);
    var i1, i2;
    ok, i1, i2 := t.Locate(pos, n, now);
    if !ok { return; }
    var i := 0;
    while i < n
      invariant i <= n && |was| == i && forall j :: 0 <= j < i ==> was[j] == ByteAt(t.Disk(), t.layout, t.start, pos + j)
      modifies {}
    {
      t.SlotByte(pos, n, i1, i2, i);
      was := was + [t.InSlots(i1, i2, pos, i)];
      i := i + 1;
    }
    if b != [] { t.Write(pos, b, i1, i2); }
  }

  // The entry written is there, and all other entries are what they were.
  lemma EntryPut(disk: seq<Sector>, disk': seq<Sector>, k: Kind, start: nat, c: nat, b: seq<byte>, d: nat)
    requires |b| == SizeOf(k) && BytesPut(disk, disk', LayoutOf(k), start, EntryPos(k, c), b)
    ensures EntryBytes(disk', k, start, d) == if d == c then b else EntryBytes(disk, k, start, d)
  {
    hide ByteAt, EntryPos;
    if d < c { EntriesApart(k, d, c); }
    if c < d { EntriesApart(k, c, d); }
  }

  // dbl_mdfat_value for the volumes of DoubleSpace and DriveSpace
  method MdfatValue(t: Table, v: Version, dcluster: nat, c: int, max: nat, val: seq<Mde>, now: nat) returns (ok: bool, m: Mde)
    requires t.Valid() && t.layout == Linear
    modifies t.cache.slots, t.cache.disk
    ensures t.Valid()
    ensures var k := if v == DrvSp3 then Five(dcluster) else Four(dcluster);
            && (ok <==> 2 <= c <= max && Exists(old(t.Disk()), t.layout, t.start, EntryPos(k, c), SizeOf(k)))
            && m == (if ok then MdeAt(old(t.Disk()), v, dcluster, t.start, c) else NO_MDE)
            && (!ok || val == [] ==> t.Disk() == old(t.Disk()))
            && (ok && val != [] ==> BytesPut(old(t.Disk()), t.Disk(), Linear, t.start, EntryPos(k, c), MdeBytes(v, val[0])))
  {
    hide ByteAt, AreaOf, Exists, t.cache.Coherent, BytesPut, EntryPos, Decode4, Decode5, Encode4, Encode5;
    var k := if v == DrvSp3 then Five(dcluster) else Four(dcluster);
    var b;
    ok, b := AccessEntry(t, k, c, max, if val == [] then [] else MdeBytes(v, val[0]), now);
    m := NO_MDE;
    if ok { m := if v == DrvSp3 then Decode5(b) else Decode4(b); }
  }

  function MdeBytes(v: Version, m: Mde): (b: seq<byte>)
    ensures |b| == if v == DrvSp3 then 5 else 4
  {
    if v == DrvSp3 then Encode5(m) else Encode4(m)
  }

  // the entry of cluster c
  function MdeAt(disk: seq<Sector>, v: Version, dcluster: nat, start: nat, c: nat): Mde {
    if v == DrvSp3 then Decode5(EntryBytes(disk, Five(dcluster), start, c)) else Decode4(EntryBytes(disk, Four(dcluster), start, c))
  }

  // The table is a flat array of entries: writing one gives back what can be stored of it and
  // leaves all others alone.
  lemma MdePut(disk: seq<Sector>, disk': seq<Sector>, v: Version, dcluster: nat, start: nat, c: nat, m: Mde, d: nat)
    requires var k := if v == DrvSp3 then Five(dcluster) else Four(dcluster);
             BytesPut(disk, disk', Linear, start, EntryPos(k, c), MdeBytes(v, m))
    ensures MdeAt(disk', v, dcluster, start, d) == if d == c then Stored(v, m) else MdeAt(disk, v, dcluster, start, d)
  {
    hide EntryBytes, BytesPut, EntryPos, Decode4, Decode5, Encode4, Encode5, Stored;
    EntryPut(disk, disk', if v == DrvSp3 then Five(dcluster) else Four(dcluster), start, c, MdeBytes(v, m), d);
    RoundTrip4(m);
    RoundTrip5(m);
  }

  // the same for Stacker volumes
  lemma StacPut(disk: seq<Sector>, disk': seq<Sector>, wide: bool, start: nat, c: nat, m: StacMde, d: nat)
    requires BytesPut(disk, disk', StacMdfat, start, EntryPos(Stac(wide), c), EncodeStac(m, wide))
    ensures DecodeStac(EntryBytes(disk', Stac(wide), start, d))
            == if d == c then StacStored(m, wide) else DecodeStac(EntryBytes(disk, Stac(wide), start, d))
  {
    hide EntryBytes, BytesPut, EntryPos, DecodeStac, EncodeStac, StacStored;
    EntryPut(disk, disk', Stac(wide), start, c, EncodeStac(m, wide), d);
    RoundTripStac(m, wide);
  }
}
