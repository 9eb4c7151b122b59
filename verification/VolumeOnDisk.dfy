/**
 The three tables of a DoubleSpace or DriveSpace volume and its data on one disk. Each access to
 a table through the sector cache changes what the volume is taken to be in one place only.
 */
module VolumeOnDisk {
  import opened Bits
  import opened SectorMap
  import opened VolumeState
  import opened VolumeAlloc
  import opened Tables
  import opened MdfatTables
  import opened BitfatTables

  // BITFAT begins in sector 1, followed by MDFAT, FAT, root directory and data area.
  datatype Geometry = Geometry(version: Version, mdfatstart: nat, fatstart: nat, rootdir: nat, datastart: nat, dataend: nat,
                               maxCluster: nat, dcluster: nat, fat16: bool)

  function KindOf(g: Geometry): Kind {
    if g.version == DrvSp3 then Five(g.dcluster) else Four(g.dcluster)
  }

  // every table ends before the next begins
  predicate Apart(g: Geometry) {
    && 1 <= g.mdfatstart <= g.fatstart <= g.rootdir <= g.datastart <= g.dataend
    && PosOf(Word16, g.dataend - g.datastart) + 2 <= 512 * (g.mdfatstart - 1)
    && EntryPos(KindOf(g), g.maxCluster) + SizeOf(KindOf(g)) <= 512 * (g.fatstart - g.mdfatstart)
    && FatPos(g.fat16, g.maxCluster) + 2 <= 512 * (g.rootdir - g.fatstart)
  }

  // The disk holds a volume with these tables and data.
  ghost predicate Shows(disk: seq<Sector>, g: Geometry, used: seq<bool>, mdfat: seq<Mde>, fat: seq<int>, data: seq<Sector>) {
    && Apart(g) && |disk| > g.dataend && |used| == |data| == g.dataend + 1 && |mdfat| == |fat| == g.maxCluster + 1
    && (forall s :: g.datastart <= s <= g.dataend ==> BitShown(disk, g, used, s))
    && (forall c :: 2 <= c <= g.maxCluster ==> MdeShown(disk, g, mdfat, c) && LinkShown(disk, g, fat, c))
    && (forall s :: g.datastart <= s <= g.dataend ==> disk[s] == data[s])
  }

  ghost predicate BitShown(disk: seq<Sector>, g: Geometry, used: seq<bool>, s: int) {
    g.datastart <= s < |used| && (used[s] <==> StateAt(disk, Word16, 1, s - g.datastart) != 0)
  }

  ghost predicate MdeShown(disk: seq<Sector>, g: Geometry, mdfat: seq<Mde>, c: int) {
    0 <= c < |mdfat| && mdfat[c] == MdeAt(disk, g.version, g.dcluster, g.mdfatstart, c)
  }

  ghost predicate LinkShown(disk: seq<Sector>, g: Geometry, fat: seq<int>, c: int) {
    0 <= c < |fat| && fat[c] == FatValue(disk, Linear, g.fatstart, g.fat16, c)
  }

  //////////////////////////////////////////////////////////////////////////////
  // Bytes outside the place written
  //////////////////////////////////////////////////////////////////////////////

  lemma Below(start: nat, a: nat)
    requires a < start
    ensures Outside(Linear, start, a)
  {
  }

  // a byte at p of the table from start2 on is not among n bytes at pos of the table from start on
  predicate Elsewhere(start: nat, pos: nat, n: nat, start2: nat, p: nat) {
    512 * start2 + p < 512 * start + pos || 512 * start + pos + n <= 512 * start2 + p
  }

  lemma ByteKept(disk: seq<Sector>, disk': seq<Sector>, start: nat, pos: nat, b: seq<byte>, start2: nat, p: nat)
    requires BytesPut(disk, disk', Linear, start, pos, b) && Elsewhere(start, pos, |b|, start2, p)
    ensures ByteAt(disk', Linear, start2, p) == ByteAt(disk, Linear, start2, p)
  {
    var a := p / 512 + start2;
    if a < start {
      if a < |disk| { Below(start, a); }
    } else {
      var q: nat := 512 * (a - start) + p % 512;
      assert q / 512 == a - start && q % 512 == p % 512;
      assert 512 * start2 + p == 512 * start + q;
      assert ByteAt(disk', Linear, start, q) == ByteAt(disk, Linear, start, q);
    }
  }

  // all n2 bytes at pos2
  predicate AllElsewhere(start: nat, pos: nat, n: nat, start2: nat, pos2: nat, n2: nat) {
    512 * start2 + pos2 + n2 <= 512 * start + pos || 512 * start + pos + n <= 512 * start2 + pos2
  }

  lemma BytesKept(disk: seq<Sector>, disk': seq<Sector>, start: nat, pos: nat, b: seq<byte>, start2: nat, pos2: nat, n2: nat)
    requires BytesPut(disk, disk', Linear, start, pos, b) && AllElsewhere(start, pos, |b|, start2, pos2, n2)
    ensures BytesAt(disk', Linear, start2, pos2, n2) == BytesAt(disk, Linear, start2, pos2, n2)
    ensures forall p: nat :: pos2 <= p < pos2 + n2 ==> ByteAt(disk', Linear, start2, p) == ByteAt(disk, Linear, start2, p)
  {
    hide ByteAt, BytesPut;
    forall p: nat | pos2 <= p < pos2 + n2 ensures ByteAt(disk', Linear, start2, p) == ByteAt(disk, Linear, start2, p) {
      ByteKept(disk, disk', start, pos, b, start2, p);
    }
  }

  lemma SectorKept(disk: seq<Sector>, disk': seq<Sector>, start: nat, pos: nat, b: seq<byte>, s: nat)
    requires BytesPut(disk, disk', Linear, start, pos, b) && 512 * start + pos + |b| <= 512 * s && s < |disk|
    ensures |disk'| == |disk| && disk'[s] == disk[s]
  {
    hide BytesPut;
    assert |disk'| == |disk| by { SameSize(disk, disk', start, pos, b); }
    forall i | 0 <= i < 512 ensures disk'[s][i] == disk[s][i] {
      ByteKept(disk, disk', start, pos, b, s, i);
      assert ByteAt(disk', Linear, s, i) == disk'[s][i] && ByteAt(disk, Linear, s, i) == disk[s][i];
    }
  }

  lemma SameSize(disk: seq<Sector>, disk': seq<Sector>, start: nat, pos: nat, b: seq<byte>)
    requires BytesPut(disk, disk', Linear, start, pos, b)
    ensures |disk'| == |disk|
  {
  }

  lemma BitKept(disk: seq<Sector>, disk': seq<Sector>, g: Geometry, used: seq<bool>, start: nat, pos: nat, b: seq<byte>, s: int)
    requires BytesPut(disk, disk', Linear, start, pos, b) && BitShown(disk, g, used, s)
    requires AllElsewhere(start, pos, |b|, 1, PosOf(Word16, s - g.datastart), 2)
    ensures BitShown(disk', g, used, s)
  {
    hide ByteAt, BytesPut;
    BytesKept(disk, disk', start, pos, b, 1, PosOf(Word16, s - g.datastart), 2);
  }

  lemma MdeKept(disk: seq<Sector>, disk': seq<Sector>, g: Geometry, mdfat: seq<Mde>, start: nat, pos: nat, b: seq<byte>, c: int)
    requires BytesPut(disk, disk', Linear, start, pos, b) && MdeShown(disk, g, mdfat, c)
    requires AllElsewhere(start, pos, |b|, g.mdfatstart, EntryPos(KindOf(g), c), SizeOf(KindOf(g)))
    ensures MdeShown(disk', g, mdfat, c)
  {
    hide ByteAt, BytesPut, EntryPos, Decode4, Decode5;
    BytesKept(disk, disk', start, pos, b, g.mdfatstart, EntryPos(KindOf(g), c), SizeOf(KindOf(g)));
  }

  lemma LinkKept(disk: seq<Sector>, disk': seq<Sector>, g: Geometry, fat: seq<int>, start: nat, pos: nat, b: seq<byte>, c: int)
    requires BytesPut(disk, disk', Linear, start, pos, b) && LinkShown(disk, g, fat, c)
    requires AllElsewhere(start, pos, |b|, g.fatstart, FatPos(g.fat16, c), 2)
    ensures LinkShown(disk', g, fat, c)
  {
    hide ByteAt, BytesPut, FatEntry;
    var q := FatPos(g.fat16, c);
    BytesKept(disk, disk', start, pos, b, g.fatstart, q, 2);
  }

  // where the places of the tables end
  lemma BitEnds(g: Geometry, s: int)
    requires Apart(g) && g.datastart <= s <= g.dataend
    ensures 512 + PosOf(Word16, s - g.datastart) + 2 <= 512 * g.mdfatstart
  {
    hide EntryPos, FatPos;
    UnitsRise(s - g.datastart, g.dataend - g.datastart);
  }

  lemma UnitsRise(j: nat, k: nat)
    requires j <= k
    ensures PosOf(Word16, j) <= PosOf(Word16, k)
  {
    assert j / 16 <= k / 16;
  }

  lemma MdeEnds(g: Geometry, c: nat)
    requires Apart(g) && c <= g.maxCluster
    ensures 512 * g.mdfatstart + EntryPos(KindOf(g), c) + SizeOf(KindOf(g)) <= 512 * g.fatstart
  {
    hide EntryPos, FatPos;
    if c < g.maxCluster { EntriesApart(KindOf(g), c, g.maxCluster); }
  }

  lemma LinkEnds(g: Geometry, c: nat)
    requires Apart(g) && c <= g.maxCluster
    ensures 512 * g.fatstart + FatPos(g.fat16, c) + 2 <= 512 * g.rootdir
  {
    hide EntryPos;
  }

  //////////////////////////////////////////////////////////////////////////////
  // Every access refines a step of the volume
  //////////////////////////////////////////////////////////////////////////////

  // A bit written in BITFAT is a sector taken or given back.
  lemma BitWritten(disk: seq<Sector>, disk': seq<Sector>, g: Geometry, used: seq<bool>, mdfat: seq<Mde>, fat: seq<int>, data: seq<Sector>,
                   s: nat, v: nat)
    requires Shows(disk, g, used, mdfat, fat, data) && g.datastart <= s <= g.dataend
    requires StatePut(disk, disk', Word16, 1, s - g.datastart, v)
    ensures Shows(disk', g, used[s := v != 0], mdfat, fat, data)
  {
    hide BytesPut, BitShown, MdeShown, LinkShown, EntryPos, FatPos, NewUnit, PosOf;
    var pos := PosOf(Word16, s - g.datastart);
    var b := UnitBytes(Word16, NewUnit(Word16, s - g.datastart, RawState(disk, Word16, 1, s - g.datastart), v));
    SameSize(disk, disk', 1, pos, b);
    BitEnds(g, s);
    var used' := used[s := v != 0];
    forall x | g.datastart <= x <= g.dataend ensures BitShown(disk', g, used', x) {
      assert BitShown(disk, g, used, x);
      StateKept(disk, disk', Word16, 1, s - g.datastart, v, x - g.datastart);
      NewBit(disk, disk', g, used, s, v, x);
    }
    forall x | g.datastart <= x <= g.dataend ensures disk'[x] == data[x] { SectorKept(disk, disk', 1, pos, b, x); }
    forall c | 2 <= c <= g.maxCluster ensures MdeShown(disk', g, mdfat, c) && LinkShown(disk', g, fat, c) {
      assert MdeShown(disk, g, mdfat, c) && LinkShown(disk, g, fat, c);
      MdeKept(disk, disk', g, mdfat, 1, pos, b, c);
      LinkKept(disk, disk', g, fat, 1, pos, b, c);
    }
  }

  lemma NewBit(disk: seq<Sector>, disk': seq<Sector>, g: Geometry, used: seq<bool>, s: nat, v: nat, x: nat)
    requires g.datastart <= s < |used| && g.datastart <= x && BitShown(disk, g, used, x)
    requires StateAt(disk', Word16, 1, x - g.datastart)
             == if x - g.datastart == s - g.datastart then StateStored(Word16, v) else StateAt(disk, Word16, 1, x - g.datastart)
    ensures BitShown(disk', g, used[s := v != 0], x)
  {
    hide StateAt;
  }

  // An entry written in MDFAT is the entry of its cluster, as far as it can be stored.
  lemma MdeWritten(disk: seq<Sector>, disk': seq<Sector>, g: Geometry, used: seq<bool>, mdfat: seq<Mde>, fat: seq<int>, data: seq<Sector>,
                   c: nat, m: Mde)
    requires Shows(disk, g, used, mdfat, fat, data) && 2 <= c <= g.maxCluster
    requires BytesPut(disk, disk', Linear, g.mdfatstart, EntryPos(KindOf(g), c), MdeBytes(g.version, m))
    ensures Shows(disk', g, used, mdfat[c := Stored(g.version, m)], fat, data)
  {
    hide BytesPut, BitShown, MdeShown, LinkShown, EntryPos, FatPos, PosOf, Stored, MdeBytes;
    var pos, b := EntryPos(KindOf(g), c), MdeBytes(g.version, m);
    SameSize(disk, disk', g.mdfatstart, pos, b);
    MdeEnds(g, c);
    forall x | g.datastart <= x <= g.dataend ensures BitShown(disk', g, used, x) {
      assert BitShown(disk, g, used, x);
      BitEnds(g, x);
      BitKept(disk, disk', g, used, g.mdfatstart, pos, b, x);
    }
    forall x | g.datastart <= x <= g.dataend ensures disk'[x] == data[x] { SectorKept(disk, disk', g.mdfatstart, pos, b, x); }
    var mdfat' := mdfat[c := Stored(g.version, m)];
    forall d | 2 <= d <= g.maxCluster ensures MdeShown(disk', g, mdfat', d) {
      assert MdeShown(disk, g, mdfat, d);
      MdePut(disk, disk', g.version, g.dcluster, g.mdfatstart, c, m, d);
      NewMde(disk, disk', g, mdfat, c, m, d);
    }
    forall d | 2 <= d <= g.maxCluster ensures LinkShown(disk', g, fat, d) {
      assert LinkShown(disk, g, fat, d);
      LinkKept(disk, disk', g, fat, g.mdfatstart, pos, b, d);
    }
  }

  lemma NewMde(disk: seq<Sector>, disk': seq<Sector>, g: Geometry, mdfat: seq<Mde>, c: nat, m: Mde, d: nat)
    requires c < |mdfat| && MdeShown(disk, g, mdfat, d)
    requires MdeAt(disk', g.version, g.dcluster, g.mdfatstart, d)
             == if d == c then Stored(g.version, m) else MdeAt(disk, g.version, g.dcluster, g.mdfatstart, d)
    ensures MdeShown(disk', g, mdfat[c := Stored(g.version, m)], d)
  {
    hide MdeAt, Stored;
  }

  // A link written in the FAT is the successor of its cluster.
  lemma LinkWritten(disk: seq<Sector>, disk': seq<Sector>, g: Geometry, used: seq<bool>, mdfat: seq<Mde>, fat: seq<int>, data: seq<Sector>,
                    c: nat, v: int)
    requires Shows(disk, g, used, mdfat, fat, data) && 2 <= c <= g.maxCluster
    requires FatPut(disk, disk', Linear, g.fatstart, g.fat16, c, v)
    ensures Shows(disk', g, used, mdfat, fat[c := FatStored(g.fat16, v)], data)
  {
    hide BytesPut, BitShown, MdeShown, LinkShown, EntryPos, FatPos, PosOf, NewRaw, FatStored;
    var pos := FatPos(g.fat16, c);
    var w := NewRaw(g.fat16, c, RawAt(disk, Linear, g.fatstart, pos), v);
    var b: seq<byte> := [w % 0x100, w / 0x100];
    SameSize(disk, disk', g.fatstart, pos, b);
    LinkEnds(g, c);
    forall x | g.datastart <= x <= g.dataend ensures BitShown(disk', g, used, x) {
      assert BitShown(disk, g, used, x);
      BitEnds(g, x);
      BitKept(disk, disk', g, used, g.fatstart, pos, b, x);
    }
    forall x | g.datastart <= x <= g.dataend ensures disk'[x] == data[x] { SectorKept(disk, disk', g.fatstart, pos, b, x); }
    var fat' := fat[c := FatStored(g.fat16, v)];
    forall d | 2 <= d <= g.maxCluster ensures MdeShown(disk', g, mdfat, d) {
      assert MdeShown(disk, g, mdfat, d);
      MdeEnds(g, d);
      MdeKept(disk, disk', g, mdfat, g.fatstart, pos, b, d);
    }
    forall d | 2 <= d <= g.maxCluster ensures LinkShown(disk', g, fat', d) {
      assert LinkShown(disk, g, fat, d);
      if d == c { FatSame(disk, disk', Linear, g.fatstart, g.fat16, c, v); } else { FatOthers(disk, disk', Linear, g.fatstart, g.fat16, c, v, d); }
      NewLink(disk, disk', g, fat, c, v, d);
    }
  }

  lemma NewLink(disk: seq<Sector>, disk': seq<Sector>, g: Geometry, fat: seq<int>, c: nat, v: int, d: nat)
    requires c < |fat| && LinkShown(disk, g, fat, d)
    requires FatValue(disk', Linear, g.fatstart, g.fat16, d)
             == if d == c then FatStored(g.fat16, v) else FatValue(disk, Linear, g.fatstart, g.fat16, d)
    ensures LinkShown(disk', g, fat[c := FatStored(g.fat16, v)], d)
  {
    hide FatValue, FatStored;
  }

  // A data sector written leaves the tables alone.
  lemma DataWritten(disk: seq<Sector>, g: Geometry, used: seq<bool>, mdfat: seq<Mde>, fat: seq<int>, data: seq<Sector>, s: nat, sec: Sector)
    requires Shows(disk, g, used, mdfat, fat, data) && g.datastart <= s <= g.dataend
    ensures Shows(disk[s := sec], g, used, mdfat, fat, data[s := sec])
  {
    hide BitShown, MdeShown, LinkShown, EntryPos, FatPos, PosOf;
    var disk' := disk[s := sec];
    SectorPut(disk, s, sec);
    forall x | g.datastart <= x <= g.dataend ensures BitShown(disk', g, used, x) {
      assert BitShown(disk, g, used, x);
      BitEnds(g, x);
      BitKept(disk, disk', g, used, s, 0, sec, x);
    }
    forall c | 2 <= c <= g.maxCluster ensures MdeShown(disk', g, mdfat, c) && LinkShown(disk', g, fat, c) {
      assert MdeShown(disk, g, mdfat, c) && LinkShown(disk, g, fat, c);
      MdeEnds(g, c);
      LinkEnds(g, c);
      MdeKept(disk, disk', g, mdfat, s, 0, sec, c);
      LinkKept(disk, disk', g, fat, s, 0, sec, c);
    }
  }

  lemma SectorPut(disk: seq<Sector>, s: nat, sec: Sector)
    requires s < |disk|
    ensures BytesPut(disk, disk[s := sec], Linear, s, 0, sec)
  {
    assert AreaOf(Linear, s, 0) == s;
  }

  // A known number of free sectors stays right.
  lemma CountFollows(disk: seq<Sector>, g: Geometry, used: seq<bool>, s: nat, v: nat)
    requires g.datastart <= s < |used| && BitShown(disk, g, used, s)
    ensures FreeAfter(FreeCount(used, g.datastart), StateAt(disk, Word16, 1, s - g.datastart), v)
            == FreeCount(used[s := v != 0], g.datastart)
  {
    hide FreeCount, StateAt;
    CountSet(used, g.datastart, s, v != 0);
  }

  //////////////////////////////////////////////////////////////////////////////
  // The volume of the allocator
  //////////////////////////////////////////////////////////////////////////////

  // The disk holds the volume v.
  ghost predicate OnDisk(disk: seq<Sector>, g: Geometry, v: Volume, fat: seq<int>)
    reads v
  {
    && g.version == v.version && g.datastart == v.datastart && g.dataend == v.dataend && g.maxCluster == v.maxCluster
    && Shows(disk, g, v.used, v.mdfat, fat, v.disk)
  }

  lemma BitExists(disk: seq<Sector>, g: Geometry, s: nat)
    requires Apart(g) && |disk| > g.dataend && g.datastart <= s <= g.dataend
    ensures Exists(disk, Linear, 1, PosOf(Word16, s - g.datastart), 2)
  {
    hide EntryPos, FatPos, PosOf;
    BitEnds(g, s);
    UnitFits(Word16, s - g.datastart);
  }

  // On disk and in the allocator a bit is set in step, and the number of free sectors with it.
  method SetBitOnDisk(t: Table, g: Geometry, v: Volume, ghost fat: seq<int>, s: nat, on: bool, now: nat)
    requires t.Valid() && t.layout == Linear && t.start == 1
    requires v.Shape() && OnDisk(t.Disk(), g, v, fat) && g.datastart <= s <= g.dataend
    modifies t.cache.slots, t.cache.disk, v`used, v`freeSectors
    ensures t.Valid() && v.Shape() && OnDisk(t.Disk(), g, v, fat) && v.used == old(v.used)[s := on]
  {
    hide Exists, StatePut, StateAt, FreeCount, Apart, BitShown, t.cache.Coherent;
    ghost var disk := t.Disk();
    BitExists(disk, g, s);
    var state: nat := if on then 1 else 0;
    var res, free := BitfatValue(t, Word16, v.datastart, v.dataend, s, [state], v.freeSectors, now);
    assert BitShown(disk, g, v.used, s);
    BitWritten(disk, t.Disk(), g, v.used, v.mdfat, fat, v.disk, s, state);
    CountFollows(disk, g, v.used, s, state);
    v.SetBit(s, on);
    assert free == v.freeSectors;
  }
}
