/**
 FAT and MDFAT of all volume types as flat arrays of entries, and the access to them through
 the sector cache: `dbl_fat_nextcluster` and `dbl_mdfat_value`.
 */
module Tables {
  import opened Bits
  import opened TableCache

  //////////////////////////////////////////////////////////////////////////////
  // Where the sectors of a table lie
  //////////////////////////////////////////////////////////////////////////////

  // One after the other; or, on Stacker volumes, three of every nine sectors for the FAT and the
  // other six for the MDFAT.
  datatype Layout = Linear | StacFat | StacMdfat

  function AreaOf(l: Layout, start: nat, k: nat): nat {
    match l
    case Linear => k + start
    case StacFat => k / 3 * 9 + k % 3 + start
    case StacMdfat => k / 6 * 9 + k % 6 + 3 + start
  }

  lemma AreasDiffer(l: Layout, start: nat, j: nat, k: nat)
    requires j != k
    ensures AreaOf(l, start, j) != AreaOf(l, start, k)
  {
  }

  // the two tables of a Stacker volume never share a sector
  lemma TablesApart(start: nat, j: nat, k: nat)
    ensures AreaOf(StacFat, start, j) != AreaOf(StacMdfat, start, k)
  {
    assert (AreaOf(StacFat, start, j) - start) % 9 == j % 3;
    assert (AreaOf(StacMdfat, start, k) - start) % 9 == k % 6 + 3;
  }

  // Groups of nine sectors: three of the FAT, then six of the MDFAT, each table in its order.
  lemma Groups(start: nat, a: nat)
    requires a >= start
    ensures (exists k: nat :: AreaOf(StacFat, start, k) == a) <==> (a - start) % 9 < 3
    ensures (exists k: nat :: AreaOf(StacMdfat, start, k) == a) <==> (a - start) % 9 >= 3
  {
    var g, r := (a - start) / 9, (a - start) % 9;
    if r < 3 {
      var k: nat := 3 * g + r;
      assert k / 3 == g && k % 3 == r;
      assert AreaOf(StacFat, start, k) == a;
    } else {
      var k: nat := 6 * g + (r - 3);
      assert k / 6 == g && k % 6 == r - 3;
      assert AreaOf(StacMdfat, start, k) == a;
    }
    forall k: nat ensures (AreaOf(StacFat, start, k) - start) % 9 < 3 && (AreaOf(StacMdfat, start, k) - start) % 9 >= 3 {
      assert (9 * (k / 3) + k % 3) % 9 == k % 3;
      assert (9 * (k / 6) + k % 6 + 3) % 9 == k % 6 + 3;
    }
  }

  lemma AreasRise(l: Layout, start: nat, k: nat)
    ensures AreaOf(l, start, k) < AreaOf(l, start, k + 1)
  {
  }

  // The next sector of the table is the next sector on disk, except at the end of a group.
  lemma NextArea(l: Layout, start: nat, k: nat)
    ensures AreaOf(l, start, k + 1) == AreaOf(l, start, k) + 1 <==>
              l == Linear || (l == StacFat && k % 3 != 2) || (l == StacMdfat && k % 6 != 5)
  {
  }

  // An entry of n bytes at pos lies in one sector or in two that follow one another on disk.
  predicate Reachable(l: Layout, pos: nat, n: nat) {
    pos % 512 + n <= 512 || l == Linear || (l == StacFat && pos / 512 % 3 != 2) || (l == StacMdfat && pos / 512 % 6 != 5)
  }

  // Entries of a byte and a half never straddle the end of a group of three sectors ...
  lemma FatReachable(l: Layout, fat16: bool, c: nat)
    requires l != StacMdfat
    ensures Reachable(l, FatPos(fat16, c), 2)
  {
    if fat16 {
      EvenFits(c);
    } else {
      var g, r := c / 1024, c % 1024;
      assert 3 * c == 2 * (1536 * g) + 3 * r;
      InGroup(3 * g, 3 * r / 2);
    }
  }

  lemma EvenFits(c: nat)
    ensures 2 * c % 512 <= 510
  {
    assert 2 * c % 512 == 2 * (c % 256);
  }

  // place q behind a boundary of the sectors
  lemma InGroup(k: nat, q: nat)
    ensures (512 * k + q) / 512 == k + q / 512 && (512 * k + q) % 512 == q % 512
  {
  }

  lemma LastOfSix(g: nat, q: nat)
    requires q <= 3069 && q % 3 == 0
    ensures (6 * g + q / 512) % 6 == 5 ==> q % 512 + 3 <= 512
  {
    assert q / 512 < 6;
    assert (6 * g + q / 512) % 6 == q / 512;
  }

  lemma FourFit(c: nat)
    ensures 4 * c % 512 + 4 <= 512
  {
    assert 4 * c % 512 == 4 * (c % 128);
  }

  lemma ThreeFit(c: nat)
    ensures 3 * c % 512 + 3 <= 512 || 3 * c / 512 % 6 != 5
  {
    var g, r := c / 1024, c % 1024;
    assert 3 * c == 512 * (6 * g) + 3 * r;
    InGroup(6 * g, 3 * r);
    LastOfSix(g, 3 * r);
  }

  // ... nor entries of three bytes the end of a group of six, nor entries of four bytes any sector.
  lemma StacReachable(wide: bool, c: nat)
    ensures Reachable(StacMdfat, if wide then 4 * c else 3 * c, if wide then 4 else 3)
  {
    if wide { FourFit(c); } else { ThreeFit(c); }
  }

  // Entries of five bytes, 102 to a sector, never leave theirs.
  lemma FiveReachable(n: nat)
    ensures FivePos(n) % 512 + 5 <= 512 && FivePos(n) / 512 == n / 102
  {
    var q, r := n / 102, n % 102;
    assert n == 102 * q + r;
    assert FivePos(n) == 512 * q + 5 * r;
    InGroup(q, 5 * r);
  }

  function FatPos(fat16: bool, c: nat): nat {
    if fat16 then 2 * c else 3 * c / 2
  }

  // n entries of five bytes, the last two bytes of every sector being left out
  function FivePos(n: nat): nat {
    n * 5 + n / 102 * 2
  }

  //////////////////////////////////////////////////////////////////////////////
  // The bytes of a table
  //////////////////////////////////////////////////////////////////////////////

  // byte pos of the table
  function ByteAt(disk: seq<Sector>, l: Layout, start: nat, pos: nat): byte {
    var a := AreaOf(l, start, pos / 512);
    if a < |disk| then disk[a][pos % 512] else 0
  }

  function BytesAt(disk: seq<Sector>, l: Layout, start: nat, pos: nat, n: nat): (b: seq<byte>)
    ensures |b| == n
  {
    seq<byte>(n, i requires 0 <= i < n => ByteAt(disk, l, start, pos + i))
  }

  // no part of the table is in sector a
  ghost predicate Outside(l: Layout, start: nat, a: nat) {
    forall k: nat :: AreaOf(l, start, k) != a
  }

  // disk' differs from disk in the bytes b at pos only
  ghost predicate BytesPut(disk: seq<Sector>, disk': seq<Sector>, l: Layout, start: nat, pos: nat, b: seq<byte>) {
    && |disk'| == |disk|
    && (forall p: nat :: ByteAt(disk', l, start, p) == if pos <= p < pos + |b| then b[p - pos] else ByteAt(disk, l, start, p))
    && forall a :: 0 <= a < |disk| && Outside(l, start, a) ==> disk'[a] == disk[a]
  }

  // the sectors that hold n bytes at pos exist
  predicate Exists(disk: seq<Sector>, l: Layout, start: nat, pos: nat, n: nat) {
    AreaOf(l, start, pos / 512) < |disk| && (pos % 512 + n > 512 ==> AreaOf(l, start, pos / 512 + 1) < |disk|)
  }

  class Table {
    const cache: Acache
    const layout: Layout
    const start: nat

    constructor (c: Acache, l: Layout, s: nat)
      ensures cache == c && layout == l && start == s
    {
      cache, layout, start := c, l, s;
    }

    ghost predicate Valid()
      reads this, cache, cache.disk, cache.slots
    {
      cache.Coherent()
    }

    ghost function Disk(): seq<Sector>
      reads this, cache, cache.disk
    {
      cache.disk.sectors
    }

    // the slots that hold the sector of pos and, if the entry goes on there, the next one
    method Locate(pos: nat, n: nat, now: nat) returns (ok: bool, i1: nat, i2: nat)
      requires Valid() && 1 <= n <= 5 && Reachable(layout, pos, n)
      modifies cache.slots
      ensures Valid() && (ok <==> Exists(Disk(), layout, start, pos, n))
      ensures ok ==> cache.Has(i1, AreaOf(layout, start, pos / 512))
      ensures ok ==> if pos % 512 + n > 512 then cache.Has(i2, AreaOf(layout, start, pos / 512 + 1)) else i2 == i1
    {
      hide AreaOf, cache.Coherent;
      var area := AreaOf(layout, start, pos / 512);
      var m := cache.Get(area, -1, now);
      i1, i2 := 0, 0;
      if m < 0 { return false, 0, 0; }
      i1, i2 := m, m;
      if pos % 512 + n > 512 {
        NextArea(layout, start, pos / 512);
        var m2 := cache.Get(area + 1, m, now);
        if m2 < 0 { return false, 0, 0; }
        assert cache.Has(m, area);
        i2 := m2;
      }
      ok := true;
    }

    // byte i of an entry at pos, in the slots located for it
    function InSlots(i1: nat, i2: nat, pos: nat, i: nat): byte
      requires i1 < cache.slots.Length && i2 < cache.slots.Length && cache.slots[i1].Holding? && cache.slots[i2].Holding?
      requires pos % 512 + i < 1024
      reads cache, cache.slots
    {
      if pos % 512 + i < 512 then cache.slots[i1].buf[pos % 512 + i] else cache.slots[i2].buf[pos % 512 + i - 512]
    }

    // slots located for an entry
    ghost predicate Located(pos: nat, n: nat, i1: nat, i2: nat)
      reads this, cache, cache.slots
    {
      && cache.Has(i1, AreaOf(layout, start, pos / 512))
      && if pos % 512 + n > 512 then cache.Has(i2, AreaOf(layout, start, pos / 512 + 1)) else i2 == i1
    }

    lemma SlotByte(pos: nat, n: nat, i1: nat, i2: nat, i: nat)
      requires Valid() && 1 <= n <= 5 && i < n && Located(pos, n, i1, i2)
      ensures InSlots(i1, i2, pos, i) == ByteAt(Disk(), layout, start, pos + i)
    {
      hide AreaOf;
      InGroup(pos / 512, pos % 512 + i);
    }

    // reads n bytes at pos
    method Read(pos: nat, n: nat, now: nat) returns (ok: bool, b: seq<byte>)
      requires Valid() && 1 <= n <= 5 && Reachable(layout, pos, n)
      modifies cache.slots
      ensures Valid() && (ok <==> Exists(Disk(), layout, start, pos, n))
      ensures ok ==> b == BytesAt(Disk(), layout, start, pos, n)
    {
      hide AreaOf, cache.Coherent, ByteAt;
      var i1, i2;
      b := [];
      ok, i1, i2 := Locate(pos, n, now);
      if !ok { return; }
      var i := 0;
      while i < n
        invariant i <= n && |b| == i && forall k :: 0 <= k < i ==> b[k] == ByteAt(Disk(), layout, start, pos + k)
        modifies {}
      {
        SlotByte(pos, n, i1, i2, i);
        b := b + [InSlots(i1, i2, pos, i)];
        i := i + 1;
      }
    }

    // the sector k of the table replaced
    lemma OneSector(disk: seq<Sector>, k: nat, sec: Sector, p: nat)
      requires AreaOf(layout, start, k) < |disk|
      ensures ByteAt(disk[AreaOf(layout, start, k) := sec], layout, start, p)
              == if p / 512 == k then sec[p % 512] else ByteAt(disk, layout, start, p)
    {
      hide AreaOf;
      if p / 512 != k { AreasDiffer(layout, start, p / 512, k); }
    }

    // writes the bytes b at pos, in one sector or in two
    method Write(pos: nat, b: seq<byte>, i1: nat, i2: nat)
      requires Valid() && 1 <= |b| <= 5 && Located(pos, |b|, i1, i2)
      modifies cache.slots, cache.disk
      ensures Valid() && BytesPut(old(Disk()), Disk(), layout, start, pos, b)
    {
      hide AreaOf, cache.Coherent, ByteAt;
      ghost var disk, k := Disk(), pos / 512;
      var off, n := pos % 512, |b|;
      SlotsInside(i1);
      if off + n <= 512 {
        var sec: Sector := Patched(cache.slots[i1].buf, off, b);
        cache.Put(i1, sec);
        forall p: nat ensures ByteAt(Disk(), layout, start, p) == if pos <= p < pos + n then b[p - pos] else ByteAt(disk, layout, start, p) {
          OneSector(disk, k, sec, p);
          SameSector(disk, k, p);
        }
      } else {
        WriteTwo(pos, b, i1, i2);
      }
    }

    lemma SlotsInside(i: nat)
      requires Valid() && i < cache.slots.Length && cache.slots[i].Holding?
      ensures cache.slots[i].area < |Disk()| && cache.slots[i].buf == Disk()[cache.slots[i].area]
    {
    }

    lemma SameSector(disk: seq<Sector>, k: nat, p: nat)
      requires AreaOf(layout, start, k) < |disk|
      ensures p / 512 == k ==> ByteAt(disk, layout, start, p) == disk[AreaOf(layout, start, k)][p % 512]
    {
      hide AreaOf;
    }

    method WriteTwo(pos: nat, b: seq<byte>, i1: nat, i2: nat)
      requires Valid() && 1 <= |b| <= 5 && Located(pos, |b|, i1, i2) && pos % 512 + |b| > 512
      modifies cache.slots, cache.disk
      ensures Valid() && BytesPut(old(Disk()), Disk(), layout, start, pos, b)
    {
      hide AreaOf, cache.Coherent, ByteAt;
      ghost var disk, k := Disk(), pos / 512;
      var off, n := pos % 512, |b|;
      AreasDiffer(layout, start, k, k + 1);
      SlotsInside(i1);
      SlotsInside(i2);
      var first: Sector := Patched(cache.slots[i1].buf, off, b[..512 - off]);
      var second: Sector := Patched(cache.slots[i2].buf, 0, b[512 - off..]);
      cache.Put(i1, first);
      ghost var mid := Disk();
      cache.Put(i2, second);
      forall p: nat ensures ByteAt(Disk(), layout, start, p) == if pos <= p < pos + n then b[p - pos] else ByteAt(disk, layout, start, p) {
        OneSector(disk, k, first, p);
        OneSector(mid, k + 1, second, p);
        SameSector(disk, k, p);
        SameSector(disk, k + 1, p);
      }
    }
  }

  // some bytes of a sector replaced
  function Patched(sec: Sector, off: nat, b: seq<byte>): (r: seq<byte>)
    requires off + |b| <= 512
    ensures |r| == 512 && forall i :: 0 <= i < 512 ==> r[i] == if off <= i < off + |b| then b[i - off] else sec[i]
  {
    sec[..off] + b + sec[off + |b|..]
  }

  //////////////////////////////////////////////////////////////////////////////
  // The FAT
  //////////////////////////////////////////////////////////////////////////////

  const FAT_EOF: int := -1

  // the word an entry lies in
  function RawAt(disk: seq<Sector>, l: Layout, start: nat, pos: nat): (w: nat)
    ensures w < 0x1_0000
  {
    ByteAt(disk, l, start, pos) as int + 0x100 * ByteAt(disk, l, start, pos + 1) as int
  }

  // the entry of cluster c in its word; the highest values mean the end of a chain
  function FatEntry(fat16: bool, c: nat, raw: nat): int {
    if fat16 then (if raw >= 0xFFF7 then FAT_EOF else raw)
    else var e := if c % 2 == 1 then raw / 16 else raw % 0x1000; if e >= 0xFF7 then FAT_EOF else e
  }

  // the word with a new entry
  function NewRaw(fat16: bool, c: nat, raw: nat, v: int): (w: nat)
    requires raw < 0x1_0000
    ensures w < 0x1_0000
  {
    if fat16 then v % 0x1_0000
    else if c % 2 == 1 then raw % 16 + v % 0x1000 * 16
    else raw / 0x1000 * 0x1000 + v % 0x1000
  }

  function FatValue(disk: seq<Sector>, l: Layout, start: nat, fat16: bool, c: nat): int {
    FatEntry(fat16, c, RawAt(disk, l, start, FatPos(fat16, c)))
  }

  // what a value becomes when it is stored and read again
  function FatStored(fat16: bool, v: int): int {
    if fat16 then (if v % 0x1_0000 >= 0xFFF7 then FAT_EOF else v % 0x1_0000)
    else if v % 0x1000 >= 0xFF7 then FAT_EOF else v % 0x1000
  }

  // dbl_fat_nextcluster; `val` is empty or holds the new value
  method FatNextCluster(t: Table, c: int, max: nat, fat16: bool, val: seq<int>, now: nat) returns (res: int)
    requires t.Valid() && t.layout != StacMdfat
    modifies t.cache.slots, t.cache.disk
    ensures t.Valid()
    ensures !(2 <= c <= max) ==> res == -1 && t.Disk() == old(t.Disk())
    ensures 2 <= c <= max && !Exists(old(t.Disk()), t.layout, t.start, FatPos(fat16, c), 2) ==> res == -1 && t.Disk() == old(t.Disk())
    ensures 2 <= c <= max && Exists(old(t.Disk()), t.layout, t.start, FatPos(fat16, c), 2) ==>
              && res == FatValue(old(t.Disk()), t.layout, t.start, fat16, c)
              && (val == [] ==> t.Disk() == old(t.Disk()))
              && (val != [] ==> FatPut(old(t.Disk()), t.Disk(), t.layout, t.start, fat16, c, val[0]))
  {
    hide ByteAt, AreaOf, Exists, t.cache.Coherent, NewRaw, FatEntry, BytesPut;
    if !(2 <= c <= max) { return -1; }
    var pos := FatPos(fat16, c);
    FatReachable(t.layout, fat16, c);
    var ok, i1, i2 := t.Locate(pos, 2, now);
    if !ok { return -1; }
    t.SlotByte(pos, 2, i1, i2, 0);
    t.SlotByte(pos, 2, i1, i2, 1);
    var raw: nat := t.InSlots(i1, i2, pos, 0) as int + 0x100 * t.InSlots(i1, i2, pos, 1) as int;
    if val != [] {
      var w := NewRaw(fat16, c, raw, val[0]);
      t.Write(pos, [w % 0x100, w / 0x100], i1, i2);
    }
    res := FatEntry(fat16, c, raw);
  }

  // the word of cluster c has got the new entry
  ghost predicate FatPut(disk: seq<Sector>, disk': seq<Sector>, l: Layout, start: nat, fat16: bool, c: nat, v: int) {
    var w := NewRaw(fat16, c, RawAt(disk, l, start, FatPos(fat16, c)), v);
    BytesPut(disk, disk', l, start, FatPos(fat16, c), [w % 0x100, w / 0x100])
  }

  // The entry of c is the new one ...
  lemma FatSame(disk: seq<Sector>, disk': seq<Sector>, l: Layout, start: nat, fat16: bool, c: nat, v: int)
    requires FatPut(disk, disk', l, start, fat16, c, v)
    ensures FatValue(disk', l, start, fat16, c) == FatStored(fat16, v)
  {
    hide ByteAt;
    var pos := FatPos(fat16, c);
    var raw := RawAt(disk, l, start, pos);
    var w := NewRaw(fat16, c, raw, v);
    assert RawAt(disk', l, start, pos) == w;
    if !fat16 && c % 2 == 1 { assert w / 16 == v % 0x1000; }
  }

  // ... and all others are what they were, though entries of a byte and a half share bytes.
  lemma FatOthers(disk: seq<Sector>, disk': seq<Sector>, l: Layout, start: nat, fat16: bool, c: nat, v: int, d: nat)
    requires FatPut(disk, disk', l, start, fat16, c, v) && d != c
    ensures FatValue(disk', l, start, fat16, d) == FatValue(disk, l, start, fat16, d)
  {
    hide *;
    var pos, q := FatPos(fat16, c), FatPos(fat16, d);
    var w := NewRaw(fat16, c, RawAt(disk, l, start, pos), v);
    PutBytes(disk, disk', l, start, fat16, c, v);
    Positions(fat16, c, d);
    ValueIs(disk, l, start, fat16, d);
    ValueIs(disk', l, start, fat16, d);
    if q == pos + 1 {
      Upper(c, d, v, ByteAt(disk, l, start, pos), ByteAt(disk, l, start, q), ByteAt(disk, l, start, q + 1));
    } else if pos == q + 1 {
      Lower(c, d, v, ByteAt(disk, l, start, q), ByteAt(disk, l, start, pos), ByteAt(disk, l, start, pos + 1));
    }
  }

  // a word made of two bytes
  function Pair(lo: byte, hi: byte): (w: nat)
    ensures w < 0x1_0000
  {
    lo as int + 0x100 * hi as int
  }

  lemma PutBytes(disk: seq<Sector>, disk': seq<Sector>, l: Layout, start: nat, fat16: bool, c: nat, v: int)
    requires FatPut(disk, disk', l, start, fat16, c, v)
    ensures var pos := FatPos(fat16, c);
            var w := NewRaw(fat16, c, Pair(ByteAt(disk, l, start, pos), ByteAt(disk, l, start, pos + 1)), v);
            && RawAt(disk, l, start, pos) == Pair(ByteAt(disk, l, start, pos), ByteAt(disk, l, start, pos + 1))
            && ByteAt(disk', l, start, pos) == w % 0x100 && ByteAt(disk', l, start, pos + 1) == w / 0x100
            && forall p: nat :: p != pos && p != pos + 1 ==> ByteAt(disk', l, start, p) == ByteAt(disk, l, start, p)
  {
    hide ByteAt, NewRaw;
  }

  lemma ValueIs(disk: seq<Sector>, l: Layout, start: nat, fat16: bool, d: nat)
    ensures var q := FatPos(fat16, d);
            FatValue(disk, l, start, fat16, d) == FatEntry(fat16, d, Pair(ByteAt(disk, l, start, q), ByteAt(disk, l, start, q + 1)))
  {
    hide ByteAt, FatEntry;
  }

  // c keeps the upper half of the byte it shares with d = c + 1
  lemma Upper(c: nat, d: nat, v: int, a: byte, b: byte, e: byte)
    requires c % 2 == 0 && d % 2 == 1
    ensures var w := NewRaw(false, c, Pair(a, b), v); FatEntry(false, d, Pair(w / 0x100, e)) == FatEntry(false, d, Pair(b, e))
  {
    hide NewRaw, FatEntry, Pair;
    var w := NewRaw(false, c, Pair(a, b), v);
    var x: byte := w / 0x100;
    KeptNibble(c, Pair(a, b), v);
    NibbleHigh(w, a, b);
    OddEntry(d, x, b, e);
  }

  // c keeps the lower half of the byte it shares with d = c - 1
  lemma Lower(c: nat, d: nat, v: int, e: byte, a: byte, b: byte)
    requires c % 2 == 1 && d % 2 == 0
    ensures var w := NewRaw(false, c, Pair(a, b), v); FatEntry(false, d, Pair(e, w % 0x100)) == FatEntry(false, d, Pair(e, a))
  {
    hide NewRaw, FatEntry, Pair;
    var w := NewRaw(false, c, Pair(a, b), v);
    var x: byte := w % 0x100;
    KeptNibble(c, Pair(a, b), v);
    NibbleLow(w, a, b);
    EvenEntry(d, e, x, a);
  }

  // different entries lie at different places, and only neighbours share a byte
  lemma Positions(fat16: bool, c: nat, d: nat)
    requires c != d
    ensures var p, q := FatPos(fat16, c), FatPos(fat16, d);
            && p != q && (fat16 ==> q != p + 1 && p != q + 1)
            && (q == p + 1 ==> c % 2 == 0 && d % 2 == 1) && (p == q + 1 ==> d % 2 == 0 && c % 2 == 1)
  {
    var i, r, j, t := c / 2, c % 2, d / 2, d % 2;
    assert c == 2 * i + r && d == 2 * j + t;
    assert 3 * c == 2 * (3 * i) + 3 * r && 3 * d == 2 * (3 * j) + 3 * t;
    assert FatPos(false, c) == 3 * i + r && FatPos(false, d) == 3 * j + t;
  }

  lemma OddEntry(d: nat, lo: byte, lo': byte, hi: byte)
    requires d % 2 == 1 && lo as int / 16 == lo' as int / 16
    ensures FatEntry(false, d, Pair(lo, hi)) == FatEntry(false, d, Pair(lo', hi))
  {
    assert Pair(lo, hi) / 16 == lo as int / 16 + 16 * hi as int && Pair(lo', hi) / 16 == lo' as int / 16 + 16 * hi as int;
  }

  lemma EvenEntry(d: nat, lo: byte, hi: byte, hi': byte)
    requires d % 2 == 0 && hi as int % 16 == hi' as int % 16
    ensures FatEntry(false, d, Pair(lo, hi)) == FatEntry(false, d, Pair(lo, hi'))
  {
    assert Pair(lo, hi) % 0x1000 == lo as int + 0x100 * (hi as int % 16) && Pair(lo, hi') % 0x1000 == lo as int + 0x100 * (hi' as int % 16);
  }

  lemma KeptNibble(c: nat, raw: nat, v: int)
    requires raw < 0x1_0000
    ensures c % 2 == 1 ==> NewRaw(false, c, raw, v) % 16 == raw % 16
    ensures c % 2 == 0 ==> NewRaw(false, c, raw, v) / 0x1000 == raw / 0x1000
  {
  }

  lemma NibbleHigh(w: nat, a: byte, b: byte)
    requires w / 0x1000 == Pair(a, b) / 0x1000
    ensures w / 0x100 / 16 == b as int / 16
  {
  }

  lemma NibbleLow(w: nat, a: byte, b: byte)
    requires w % 16 == Pair(a, b) % 16
    ensures w % 0x100 % 16 == a as int % 16
  {
  }
}
