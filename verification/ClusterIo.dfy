/**
 Writing and reading whole clusters of a DoubleSpace or DriveSpace volume.
 */
module ClusterIo {
  import opened Bits
  import opened Lz
  import opened SectorMap
  import opened FragList
  import opened VolumeState
  import opened VolumeAlloc
  import opened ClusterCodec
  import opened ClusterSpec
  import DsCompress
  import DsFormat
  import SqHeader
  import SqCompress

  //////////////////////////////////////////////////////////////////////////////
  // Sectors on disk
  //////////////////////////////////////////////////////////////////////////////

  // sector i of the data; what is missing at the end comes from `rest`
  function Chunk(data: seq<byte>, from: nat, rest: Sector): (s: Sector) {
    if from + 512 <= |data| then data[from..from + 512]
    else if from <= |data| then data[from..] + rest[|data| - from..]
    else rest
  }

  // the data written to the sectors listed
  function Spread(disk: seq<Sector>, list: seq<nat>, data: seq<byte>, rest: Sector): (d: seq<Sector>)
    ensures |d| == |disk|
  {
    if list == [] then disk
    else
      var n := |list| - 1;
      var d := Spread(disk, list[..n], data, rest);
      if list[n] < |d| then d[list[n] := Chunk(data, 512 * n, rest)] else d
  }

  lemma {:induction false} SpreadElsewhere(disk: seq<Sector>, list: seq<nat>, data: seq<byte>, rest: Sector, s: nat)
    requires s < |disk| && s !in list
    ensures Spread(disk, list, data, rest)[s] == disk[s]
    decreases |list|
  {
    hide Chunk;
    if list != [] {
      assert list == list[..|list| - 1] + [list[|list| - 1]];
      SpreadElsewhere(disk, list[..|list| - 1], data, rest, s);
    }
  }

  // What is written to different sectors is read back.
  lemma {:induction false} SpreadFlat(disk: seq<Sector>, list: seq<nat>, data: seq<byte>, rest: Sector)
    requires NoDup(list) && Inside(list, disk) && |data| >= 512 * |list|
    ensures Inside(list, Spread(disk, list, data, rest))
    ensures Flat(Spread(disk, list, data, rest), list) == data[..512 * |list|]
    decreases |list|
  {
    if list != [] {
      var n := |list| - 1;
      var front, d := list[..n], Spread(disk, list[..n], data, rest);
      assert forall s :: s in front ==> s in list;
      SpreadFlat(disk, front, data, rest);
      var d' := Spread(disk, list, data, rest);
      assert list[n] in list;
      assert d' == d[list[n] := Chunk(data, 512 * n, rest)];
      forall i | 0 <= i < n ensures list[i] != list[n] { }
      FlatAgree(d, d', front);
      assert data[..512 * n] + data[512 * n..512 * n + 512] == data[..512 * (n + 1)];
    }
  }

  lemma SpreadNext(disk: seq<Sector>, list: seq<nat>, k: nat, data: seq<byte>, rest: Sector)
    requires k < |list| && list[k] < |disk|
    ensures Spread(disk, list[..k + 1], data, rest) == Spread(disk, list[..k], data, rest)[list[k] := Chunk(data, 512 * k, rest)]
  {
    assert list[..k + 1][..k] == list[..k];
  }

  // writes the data to the sectors listed, one after the other
  method WriteSectors(v: Volume, list: seq<nat>, data: seq<byte>, rest: Sector)
    requires v.Layout() && Inside(list, v.disk)
    modifies v`disk
    ensures v.Layout() && v.disk == Spread(old(v.disk), list, data, rest)
  {
    hide Chunk;
    var i := 0;
    while i < |list|
      invariant i <= |list| && v.Layout() && v.disk == Spread(old(v.disk), list[..i], data, rest)
    {
      assert list[i] in list;
      SpreadNext(old(v.disk), list, i, data, rest);
      v.disk := v.disk[list[i] := Chunk(data, 512 * i, rest)];
      i := i + 1;
    }
    assert list[..i] == list;
  }

  // the contents of the sectors listed
  method ReadSectors(v: Volume, list: seq<nat>) returns (b: seq<byte>)
    requires v.Layout() && Inside(list, v.disk)
    ensures b == Flat(v.disk, list)
  {
    b := [];
    var i := 0;
    while i < |list|
      invariant i <= |list| && Inside(list[..i], v.disk) && b == Flat(v.disk, list[..i])
    {
      assert list[..i + 1][..i] == list[..i] && list[i] in list && list[..i + 1] == list[..i] + [list[i]];
      b := b + v.disk[list[i]];
      i := i + 1;
    }
    assert list[..i] == list;
  }

  //////////////////////////////////////////////////////////////////////////////
  // Fragmented clusters
  //////////////////////////////////////////////////////////////////////////////

  // The first sector of a fragmented cluster. Behind the list the contents are arbitrary. For
  // a compressed cluster the data are copied over the list instead of behind it.
  function ListSector(list: seq<byte>, n: nat, compressed: bool, data: seq<byte>, rest: Sector): (s: Sector)
    requires n <= 65 && |list| == 264 && |data| >= 512
  {
    var s := list[..4 * n + 4] + rest[4 * n + 4..];
    if compressed then data[..508 - 4 * n] + s[508 - 4 * n..] else s
  }

  // how much of the data the first sector holds
  function InFirst(n: nat, compressed: bool): nat
    requires n <= 65
  {
    if compressed then 508 - 4 * n else 0
  }

  lemma ListSectorRuns(list: seq<byte>, runs: seq<Run>, data: seq<byte>, rest: Sector)
    requires Volume.Describes(list, runs) && |data| >= 512 && |runs| >= 1
    ensures var s := ListSector(list, |runs|, false, data, rest);
            s[0] == |runs| && s[1] == 0 && s[2] == 0 && s[3] == 0 && ListRuns(s) == runs && FragAt(s, 1) == runs[0]
  {
    hide FragAt;
    var s := ListSector(list, |runs|, false, data, rest);
    assert forall j :: 0 <= j < 4 * |runs| + 4 ==> s[j] == list[j];
    forall i | 0 <= i < |runs| ensures ListRuns(s)[i] == runs[i] {
      SameFrag(list, s, i + 1);
      assert ListRuns(list)[i] == FragAt(list, i + 1);
    }
    assert ListRuns(s)[0] == FragAt(s, 1);
  }

  lemma SameFrag(list: seq<byte>, sec: Sector, k: nat)
    requires |list| == 264 && k <= 65 && forall j :: 4 * k <= j < 4 * k + 4 ==> sec[j] == list[j]
    ensures FragAt(list, k) == FragAt(sec, k)
  {
  }

  // the sectors of the list in memory
  method ListSectors(list: seq<byte>) returns (own: seq<nat>)
    requires |list| == 264 && list[0] as int <= 65
    ensures own == SectorsOf(ListRuns(list))
  {
    hide FragAt;
    ghost var runs := ListRuns(list);
    own := [];
    var k: nat := 1;
    assert runs[..0] == [];
    while k <= list[0] as int
      invariant 1 <= k <= list[0] as int + 1 && own == SectorsOf(runs[..k - 1])
    {
      var r := FragAt(list, k);
      assert runs[..k] == runs[..k - 1] + [r];
      SectorsAdd(runs[..k - 1], r);
      own := own + RunList(r.sector, r.count);
      k := k + 1;
    }
    assert runs[..k - 1] == runs;
  }

  // write_fragmented
  method WriteFragmented(v: Volume, list: seq<byte>, m: Mde, data: seq<byte>, rest: Sector, ghost own: seq<nat>, ghost runs: seq<Run>)
    requires v.Layout() && Volume.Describes(list, runs) && |runs| >= 1 && own == SectorsOf(runs) && |data| >= 512
    requires Inside(own, v.disk) && own != [] && own[0] < |v.disk|
    modifies v`disk
    ensures v.Layout()
    ensures v.disk == Spread(old(v.disk)[own[0] := ListSector(list, |runs|, !Uncompressed(m), data, rest)], own[1..],
                             data[InFirst(|runs|, !Uncompressed(m))..], rest)
  {
    hide ListSector, SectorsOf, Spread, ListRuns;
    var secs := ListSectors(list);
    var n: nat := list[0] as int;
    assert secs[0] in secs;
    TailIn(secs, secs[1..]);
    v.disk := v.disk[secs[0] := ListSector(list, n, !Uncompressed(m), data, rest)];
    WriteSectors(v, secs[1..], data[InFirst(n, !Uncompressed(m))..], rest);
  }

  // sectors other than those owned are not touched, and the first keeps its contents
  lemma FragmentedDisk(disk: seq<Sector>, own: seq<nat>, sec: Sector, data: seq<byte>, rest: Sector)
    requires own != [] && NoDup(own) && Inside(own, disk) && own[0] < |disk|
    ensures var d := Spread(disk[own[0] := sec], own[1..], data, rest);
            && |d| == |disk| && own[0] < |d| && d[own[0]] == sec
            && (forall s :: 0 <= s < |disk| && s !in own ==> d[s] == disk[s])
  {
    hide Spread;
    assert own[0] in own;
    TailIn(own, own[1..]);
    var mid := disk[own[0] := sec];
    SpreadElsewhere(mid, own[1..], data, rest, own[0]);
    forall s | 0 <= s < |disk| && s !in own ensures Spread(mid, own[1..], data, rest)[s] == disk[s] {
      SpreadElsewhere(mid, own[1..], data, rest, s);
    }
  }

  // what the cluster owns once its first sector is written
  lemma OwnedNow(m: Mde, disk: seq<Sector>, spc: nat, own: seq<nat>, runs: seq<Run>)
    requires spc <= 64 && Used(m) && Fragmented(m) && own == SectorsOf(runs) && 2 <= |runs| <= spc + 1 && runs[0] == FirstRun(m)
    requires m.sectorMinus1 + 1 < |disk|
    requires var sec := disk[m.sectorMinus1 + 1];
             (sec[0] == |runs| && sec[1] == 0 && sec[2] == 0 && sec[3] == 0 && ListRuns(sec) == runs && FragAt(sec, 1) == runs[0])
             || sec[1] != 0
    ensures Owned(m, disk, spc) <= own
  {
    hide FragAt, SectorsOf, ListRuns;
    assert runs[..1] == [runs[0]];
    SectorsPrefix(runs, 1);
  }

  //////////////////////////////////////////////////////////////////////////////
  // Writing
  //////////////////////////////////////////////////////////////////////////////

  // The entry fits the cluster size and a fragment list, if any, agrees with it.
  predicate Tidy(m: Mde, disk: seq<Sector>, spc: nat)
    requires spc <= 64
  {
    && m.sizeLoMinus1 < spc && m.sizeHiMinus1 < spc
    && (Fragmented(m) && m.sectorMinus1 + 1 < |disk| ==> ListOk(disk[m.sectorMinus1 + 1], m, spc))
  }

  ghost predicate SameRead(m: Mde, disk: seq<Sector>, disk': seq<Sector>, spc: nat)
    requires spc <= 64
  {
    Tidy(m, disk, spc) ==> forall buf: seq<byte>, mem: Sector :: |buf| == 512 * spc ==> ReadOf(m, disk', spc, buf, mem) == ReadOf(m, disk, spc, buf, mem)
  }

  // all clusters but c have the entries they had, and tidy ones are read as before
  ghost predicate OthersKept(mdfat: seq<Mde>, disk: seq<Sector>, v: Volume, c: int)
    requires v.Layout()
    reads v
  {
    |mdfat| == |v.mdfat| && forall d :: 0 <= d < |mdfat| && d != c ==> v.mdfat[d] == mdfat[d] && SameRead(mdfat[d], disk, v.disk, v.sectperclust)
  }

  // Cluster c is read as the data, filled up with zeros, whatever the buffer held.
  ghost predicate ReadsBack(v: Volume, c: int, data: seq<byte>)
    requires v.Layout()
    reads v
  {
    var m, spc := v.Entry(c), v.sectperclust;
    m.sizeLoMinus1 < spc && m.sizeHiMinus1 < spc && |data| <= 512 * spc
    && forall buf: seq<byte>, mem: Sector :: |buf| == 512 * spc ==>
         ReadOf(m, v.disk, spc, buf, mem) == Data(data + Zeros(512 * spc - |data|), |data|)
  }

  lemma SameReadFrame(m: Mde, disk: seq<Sector>, disk': seq<Sector>, spc: nat)
    requires spc <= 64 && Agree(disk, disk', Owned(m, disk, spc))
    ensures SameRead(m, disk, disk', spc)
  {
    hide ReadOf, Owned, ListOk;
    if Tidy(m, disk, spc) {
      forall buf: seq<byte>, mem: Sector | |buf| == 512 * spc ensures ReadOf(m, disk', spc, buf, mem) == ReadOf(m, disk, spc, buf, mem) {
        ReadFrame(m, disk, disk', spc, buf, mem);
      }
    }
  }

  lemma OthersFrame(mdfat: seq<Mde>, disk: seq<Sector>, v: Volume, c: int, own: seq<nat>)
    requires v.Layout() && |mdfat| == |v.mdfat| && |disk| == |v.disk|
    requires mdfat == v.mdfat || (0 <= c < |mdfat| && v.mdfat == mdfat[c := v.mdfat[c]])
    requires Clear(v.mdfat, disk, v.sectperclust, v.Key(c), own)
    requires forall s :: 0 <= s < |disk| && s !in own ==> v.disk[s] == disk[s]
    ensures OthersKept(mdfat, disk, v, c)
  {
    hide Owned, SameRead;
    forall d | 0 <= d < |mdfat| && d != c ensures SameRead(mdfat[d], disk, v.disk, v.sectperclust) {
      assert Disjoint(Owned(v.mdfat[d], disk, v.sectperclust), own);
      SameReadFrame(mdfat[d], disk, v.disk, v.sectperclust);
    }
  }

  // What has been granted to a cluster lies on disk.
  lemma GrantedInside(v: Volume, c: int, m: Mde, own: seq<nat>, runs: seq<Run>, size: nat)
    requires v.Layout() && v.Granted(c, m, own, runs, size)
    ensures Inside(own, v.disk) && NoDup(own) && Clear(v.mdfat, v.disk, v.sectperclust, v.Key(c), own)
    ensures Marked(own, v.used, v.datastart) && |own| <= v.sectperclust + 1
  {
    hide Owned;
  }

  // The sectors of cluster c are written; the volume is safe again if c owns no more than them.
  lemma WrittenSafe(v: Volume, disk: seq<Sector>, c: int, own: seq<nat>)
    requires v.Shape() && |disk| == |v.disk| && Safe(v.mdfat, disk, v.used, v.datastart, v.sectperclust, v.Key(c))
    requires Clear(v.mdfat, disk, v.sectperclust, v.Key(c), own) && Marked(own, v.used, v.datastart) && |own| <= v.sectperclust + 1
    requires forall s :: 0 <= s < |disk| && s !in own ==> v.disk[s] == disk[s]
    requires v.OwnedBy(c) <= own
    ensures v.Valid()
  {
    hide Safe, Clear, Owned;
    SafeDisk(v.mdfat, disk, v.disk, v.used, v.datastart, v.sectperclust, v.Key(c), own);
    v.PartSafe(v.OwnedBy(c), own, v.Key(c));
    if 2 <= c <= v.maxCluster { SafeAll(v.mdfat, v.disk, v.used, v.datastart, v.sectperclust, c); }
  }

  // the data of an unfragmented cluster
  method StorePlain(v: Volume, c: int, m: Mde, data: seq<byte>, rest: Sector, ghost own: seq<nat>, ghost size: nat)
    requires v.Valid() && v.Granted(c, m, own, [], size) && Used(m) && !Fragmented(m) && |data| >= 512 * size
    requires 2 <= c <= v.maxCluster ==> v.mdfat[c] == m
    modifies v`disk
    ensures v.Valid() && OthersKept(v.mdfat, old(v.disk), v, c)
    ensures Inside(own, v.disk) && Flat(v.disk, own) == data[..512 * size]
  {
    hide Safe, Clear, Owned, Marked, OthersKept, Flat, Spread;
    ghost var disk := v.disk;
    v.ClusterSafe(c);
    GrantedInside(v, c, m, own, [], size);
    WriteSectors(v, RunList(m.sectorMinus1 + 1, m.sizeLoMinus1 + 1), data, rest);
    forall s | 0 <= s < |disk| && s !in own ensures v.disk[s] == disk[s] { SpreadElsewhere(disk, own, data, rest, s); }
    SpreadFlat(disk, own, data, rest);
    PlainOwned(v, c, m, own);
    WrittenSafe(v, disk, c, own);
    OthersFrame(v.mdfat, disk, v, c, own);
  }

  lemma PlainOwned(v: Volume, c: int, m: Mde, own: seq<nat>)
    requires v.Layout() && Used(m) && !Fragmented(m) && (2 <= c <= v.maxCluster ==> v.mdfat[c] == m)
    requires own == RunList(m.sectorMinus1 + 1, m.sizeLoMinus1 + 1)
    ensures v.OwnedBy(c) <= own
  {
    hide Owned;
    if 2 <= c <= v.maxCluster { OwnedPlain(m, v.disk, v.sectperclust); } else { v.NothingOwned(NO_MDE); }
  }

  // the list and data of a fragmented cluster
  method StoreFragmented(v: Volume, c: int, m: Mde, list: seq<byte>, data: seq<byte>, rest: Sector,
                         ghost own: seq<nat>, ghost runs: seq<Run>, ghost size: nat)
    requires v.Layout() && v.SafeFor(v.Key(c)) && v.Granted(c, m, own, runs, size) && Used(m) && Fragmented(m) && size >= 1
    requires Volume.Describes(list, runs) && |data| >= 512 * size && (Uncompressed(m) || data[1] != 0)
    requires 2 <= c <= v.maxCluster ==> v.mdfat[c] == m
    modifies v`disk
    ensures v.Valid() && OthersKept(v.mdfat, old(v.disk), v, c)
    ensures m.sectorMinus1 + 1 < |v.disk| && FirstHolds(v.disk[m.sectorMinus1 + 1], m, list, runs, data, rest)
    ensures Uncompressed(m) ==> Inside(own[1..], v.disk) && Flat(v.disk, own[1..]) == data[..512 * size]
  {
    hide Safe, Clear, Owned, Marked, OthersKept, Flat, Spread, ListSector, SectorsOf, ListRuns, FirstHolds, FragAt;
    ghost var disk := v.disk;
    GrantedInside(v, c, m, own, runs, size);
    FirstOf(v, c, m, own, runs, size);
    WriteFragmented(v, list, m, data, rest, own, runs);
    ghost var sec := ListSector(list, |runs|, !Uncompressed(m), data, rest);
    ghost var body := data[InFirst(|runs|, !Uncompressed(m))..];
    FragmentedDisk(disk, own, sec, body, rest);
    SectorHolds(m, list, runs, data, rest);
    FragmentedOwned(v, c, m, own, runs, list, data, rest);
    WrittenSafe(v, disk, c, own);
    OthersFrame(v.mdfat, disk, v, c, own);
    if Uncompressed(m) {
      ghost var mid := disk[own[0] := sec];
      TailIn(own, own[1..]);
      NoDupTail(own);
      SpreadFlat(mid, own[1..], body, rest);
    }
  }

  lemma NoDupTail(own: seq<nat>)
    requires NoDup(own) && own != []
    ensures NoDup(own[1..])
  {
  }

  lemma FirstOf(v: Volume, c: int, m: Mde, own: seq<nat>, runs: seq<Run>, size: nat)
    requires v.Layout() && v.Granted(c, m, own, runs, size) && Fragmented(m)
    ensures own != [] && own[0] == m.sectorMinus1 + 1 < |v.disk| && 2 <= |runs| <= v.sectperclust + 1 && own == SectorsOf(runs)
    ensures runs[0] == FirstRun(m) && |own| == size + 1
  {
    hide SectorsOf, Clear, Marked, Safe;
    assert runs[..1] == [runs[0]];
    SectorsPrefix(runs, 1);
    SectorsOne(runs[0]);
    assert SectorsOf(runs[..1])[0] == own[0];
  }

  // what the first sector of a fragmented cluster holds
  ghost predicate FirstHolds(sec: Sector, m: Mde, list: seq<byte>, runs: seq<Run>, data: seq<byte>, rest: Sector) {
    if Uncompressed(m) then
      |runs| >= 1 && sec[0] == |runs| <= 65 && sec[1] == 0 && sec[2] == 0 && sec[3] == 0 && ListRuns(sec) == runs && FragAt(sec, 1) == runs[0]
    else sec[1] != 0
  }

  lemma SectorHolds(m: Mde, list: seq<byte>, runs: seq<Run>, data: seq<byte>, rest: Sector)
    requires Volume.Describes(list, runs) && |data| >= 512 && |runs| >= 1 && (Uncompressed(m) || data[1] != 0)
    ensures FirstHolds(ListSector(list, |runs|, !Uncompressed(m), data, rest), m, list, runs, data, rest)
  {
    hide FragAt, ListRuns;
    if Uncompressed(m) { ListSectorRuns(list, runs, data, rest); }
  }

  lemma FragmentedOwned(v: Volume, c: int, m: Mde, own: seq<nat>, runs: seq<Run>, list: seq<byte>, data: seq<byte>, rest: Sector)
    requires v.Layout() && Used(m) && Fragmented(m) && (2 <= c <= v.maxCluster ==> v.mdfat[c] == m)
    requires own == SectorsOf(runs) && 2 <= |runs| <= v.sectperclust + 1 && runs[0] == FirstRun(m) && m.sectorMinus1 + 1 < |v.disk|
    requires FirstHolds(v.disk[m.sectorMinus1 + 1], m, list, runs, data, rest)
    ensures v.OwnedBy(c) <= own
  {
    hide Owned, SectorsOf, ListRuns, FragAt;
    if 2 <= c <= v.maxCluster { OwnedNow(m, v.disk, v.sectperclust, own, runs); } else { v.NothingOwned(NO_MDE); }
  }

  //////////////////////////////////////////////////////////////////////////////
  // dbl_write_cluster and dbl_read_cluster
  //////////////////////////////////////////////////////////////////////////////

  const UC_UNCOMPR := 1
  const UC_TEST := 2
  const CCACHESIZE := 64

  // how a cluster is going to be stored: uncompressed, or k sectors that stand for the data
  ghost predicate Prepared(flags: nat, k: nat, data: seq<byte>, clusterd: seq<byte>, size: nat) {
    && 1 <= k <= size && |data| >= 512 * k && size * 512 <= |clusterd|
    && if flags == 3 then k == size && data == clusterd
       else flags == 2 && StandsFor(data[..512 * k], clusterd[..512 * size])
  }

  // How the cluster goes to disk: k sectors, packed or not, and what the compressor meant to write
  // into which buffer.
  datatype Choice = Choice(packed: bool, k: nat, zk: seq<byte>, code: Code)

  // A cluster is stored as it is only if that is asked for or compressing it does not save a sector.
  ghost predicate Chosen(ch: Choice, m: int, data: seq<byte>)
    requires |data| >= 512
  {
    && (m == UNCOMPRESSED ==> !ch.packed)
    && (m != UNCOMPRESSED ==> Accounted(if ch.packed then ch.k else -1, m, ch.zk, data, ch.code))
    && if ch.packed then 1 <= ch.k < |data| / 512 else ch.k == |data| / 512
  }

  // compresses the data if possible
  method Prepare(clusterd: seq<byte>, size: nat, m: int, cf: nat, addr: nat)
    returns (flags: nat, k: nat, data: seq<byte>, ghost ch: Choice)
    requires size > 0 && |clusterd| >= 512 * size && cf < |DsCompress.MAX_TRY|
    ensures Prepared(flags, k, data, clusterd, size)
    ensures Chosen(ch, m, clusterd[..512 * size]) && ch.k == k && flags == if ch.packed then 2 else 3
  {
    hide StandsFor, Accounted;
    if m == UNCOMPRESSED { return 3, size, clusterd, Choice(false, size, [], Nothing); }
    var clusterk := new byte[size * 512];
    var n;
    ghost var code;
    n, code := DblCompress(clusterk, clusterd[..512 * size], size, m, cf, addr);
    if n < 0 { return 3, size, clusterd, Choice(false, size, clusterk[..], code); }
    data := clusterk[..];
    assert data[..512 * n] == clusterk[..n * 512];
    return 2, n, data, Choice(true, n, clusterk[..], code);
  }

  // A compressed cluster does not look like a fragment list.
  lemma PackedHead(z: seq<byte>, data: seq<byte>)
    requires StandsFor(z, data) && |data| > 0
    ensures z[1] != 0
  {
    hide Expand;
    var buf := data;
    assert Expand(z, buf) == Good(data);
    MethodKnown(z, buf);
  }

  lemma MethodKnown(z: seq<byte>, buf: seq<byte>)
    requires |z| >= 4 && |buf| > 0 && Expand(z, buf).Good?
    ensures z[1] != 0
  {
    hide DsFormat.Decode, SqHeader.Decode;
    assert DsCompress.KnownMethod(MethodOf(z)) || MethodOf(z) == SqCompress.SQ_0_0;
    assert MethodOf(z) in [0x5344, 0x1005344, 0x2005344, 0x4D4A, 0x1004D4A, 0x5153];
  }

  // what was stored is read back
  lemma PlainReads(m: Mde, disk: seq<Sector>, spc: nat, buf: seq<byte>, mem: Sector, k: nat, data: seq<byte>, clusterd: seq<byte>, size: nat)
    requires Used(m) && !Fragmented(m) && m.sizeLoMinus1 + 1 == k && m.sizeHiMinus1 + 1 == size <= spc <= 64 && |buf| == 512 * spc
    requires Prepared(if Uncompressed(m) then 3 else 2, k, data, clusterd, size)
    requires var own := RunList(m.sectorMinus1 + 1, k); Inside(own, disk) && Flat(disk, own) == data[..512 * k]
    ensures ReadOf(m, disk, spc, buf, mem) == Data(clusterd[..512 * size] + Zeros(512 * spc - 512 * size), 512 * size)
  {
    hide Flat, Expand;
    var want := clusterd[..512 * size];
    if !Uncompressed(m) {
      assert Expand(data[..512 * k], buf[..512 * size]) == Good(want);
    }
    Slack(want, buf);
  }

  lemma Slack(want: seq<byte>, buf: seq<byte>)
    requires |want| <= |buf|
    ensures ZeroSlack(Over(want, buf), |want|) == want + Zeros(|buf| - |want|)
  {
  }

  // An uncompressed fragmented cluster is read back if and only if its list is not too long.
  lemma FragmentedReads(m: Mde, disk: seq<Sector>, spc: nat, buf: seq<byte>, mem: Sector, list: seq<byte>, own: seq<nat>, runs: seq<Run>,
                        data: seq<byte>, rest: Sector, size: nat)
    requires spc <= 64 && Used(m) && Fragmented(m) && Uncompressed(m) && m.sizeLoMinus1 < spc && m.sizeHiMinus1 + 1 == size <= spc
    requires |buf| == 512 * spc && |data| >= 512 * size && m.sectorMinus1 + 1 < |disk|
    requires FirstHolds(disk[m.sectorMinus1 + 1], m, list, runs, data, rest) && own == SectorsOf(runs) && runs[0] == FirstRun(m)
    requires |own| == size + 1 && Inside(own[1..], disk) && Flat(disk, own[1..]) == data[..512 * size]
    ensures ReadOf(m, disk, spc, buf, mem)
            == if |runs| <= spc then Data(data[..512 * size] + Zeros(512 * spc - 512 * size), 512 * size) else Failed
  {
    hide Flat, SectorsOf, FragAt, ListRuns, ReadOf, FragSectors, Owned, ZeroSlack, Over, FirstHolds;
    FragReads(m, disk, spc, buf, mem);
    FirstParts(m, disk, spc, list, runs, data, rest);
    if |runs| <= spc {
      FragSectorsOwned(m, disk, spc);
      OwnedRuns(m, disk, spc, runs);
      Slack(data[..512 * size], buf);
    }
  }

  lemma FirstParts(m: Mde, disk: seq<Sector>, spc: nat, list: seq<byte>, runs: seq<Run>, data: seq<byte>, rest: Sector)
    requires spc <= 64 && Fragmented(m) && Uncompressed(m) && m.sectorMinus1 + 1 < |disk|
    requires FirstHolds(disk[m.sectorMinus1 + 1], m, list, runs, data, rest) && runs[0] == FirstRun(m)
    ensures var sec := disk[m.sectorMinus1 + 1];
            && ListRuns(sec) == runs && (FragHead(sec, spc) <==> |runs| <= spc)
            && (|runs| <= spc ==> ListOk(sec, m, spc))
  {
    hide SectorsOf;
  }

  lemma FragReads(m: Mde, disk: seq<Sector>, spc: nat, buf: seq<byte>, mem: Sector)
    requires spc <= 64 && Used(m) && Fragmented(m) && Uncompressed(m) && m.sizeLoMinus1 < spc && m.sizeHiMinus1 < spc
    requires |buf| == 512 * spc && m.sectorMinus1 + 1 < |disk|
    ensures var sec := disk[m.sectorMinus1 + 1];
            && (!FragHead(sec, spc) ==> ReadOf(m, disk, spc, buf, mem) == Failed)
            && (FragHead(sec, spc) && |FragSectors(m, sec)| <= spc && Inside(FragSectors(m, sec), disk) ==>
                  var n := 512 * (m.sizeHiMinus1 + 1);
                  ReadOf(m, disk, spc, buf, mem) == Data(ZeroSlack(Over(Flat(disk, FragSectors(m, sec)), buf), n), n))
  {
    hide Flat, FragSectors, ZeroSlack, Over;
  }

  lemma OwnedRuns(m: Mde, disk: seq<Sector>, spc: nat, runs: seq<Run>)
    requires spc <= 64 && Used(m) && Fragmented(m) && m.sectorMinus1 + 1 < |disk| && ListOk(disk[m.sectorMinus1 + 1], m, spc)
    requires ListRuns(disk[m.sectorMinus1 + 1]) == runs
    ensures Owned(m, disk, spc) == SectorsOf(runs)
  {
    hide SectorsOf, ListRuns, FragAt;
  }

  // A compressed fragmented cluster has data in the place of its list, and they never look like one.
  lemma PackedFragmentFails(m: Mde, disk: seq<Sector>, spc: nat, buf: seq<byte>, mem: Sector)
    requires spc <= 64 && Used(m) && Fragmented(m) && m.sizeLoMinus1 < spc && m.sizeHiMinus1 < spc && |buf| == 512 * spc
    requires m.sectorMinus1 + 1 < |disk| && disk[m.sectorMinus1 + 1][1] != 0
    ensures ReadOf(m, disk, spc, buf, mem) == Failed
  {
    hide FragSectors, Flat, Unpacked;
  }

  // reading cluster c is refused, whatever the buffer held
  ghost predicate Unreadable(v: Volume, c: int)
    requires v.Layout()
    reads v
  {
    var m, spc := v.Entry(c), v.sectperclust;
    m.sizeLoMinus1 < spc && m.sizeHiMinus1 < spc
    && forall buf: seq<byte>, mem: Sector :: |buf| == 512 * spc ==> ReadOf(m, v.disk, spc, buf, mem) == Failed
  }

  // Cluster c holds the first size sectors of the data: they are read back, except for fragmented
  // clusters that are compressed or have too long a list, which cannot be read at all.
  ghost predicate Holds(v: Volume, c: int, clusterd: seq<byte>, size: nat)
    requires v.Layout() && |clusterd| >= 512 * size
    reads v
  {
    var m := v.Entry(c);
    && Used(m) && m.sizeHiMinus1 + 1 == size && m.sectorMinus1 + 1 < |v.disk|
    && if !Fragmented(m) || (Uncompressed(m) && v.disk[m.sectorMinus1 + 1][0] as int <= v.sectperclust)
       then ReadsBack(v, c, clusterd[..512 * size]) else Unreadable(v, c)
  }

  // What writing cluster c leaves behind if it succeeds.
  ghost predicate Written(v: Volume, c: int, clusterd: seq<byte>, size: nat, mdfat: seq<Mde>, disk: seq<Sector>)
    requires |clusterd| >= 512 * size
    reads v
  {
    v.Valid() && OthersKept(mdfat, disk, v, c) && (2 <= c <= v.maxCluster ==> Holds(v, c, clusterd, size))
  }

  // Cluster c has no data and is read as zeros.
  ghost predicate ReadsEmpty(v: Volume, c: int)
    requires v.Layout()
    reads v
  {
    var m, spc := v.Entry(c), v.sectperclust;
    m.sizeLoMinus1 < spc && m.sizeHiMinus1 < spc
    && forall buf: seq<byte>, mem: Sector :: |buf| == 512 * spc ==> ReadOf(m, v.disk, spc, buf, mem) == Data(Zeros(512 * spc), 0)
  }

  // the entry of cluster c says how it is stored
  ghost predicate EntryTells(v: Volume, c: int, ch: Choice)
    requires v.Layout()
    reads v
  {
    var m := v.Entry(c);
    (Uncompressed(m) <==> !ch.packed) && (!Fragmented(m) ==> m.sizeLoMinus1 + 1 == ch.k)
  }

  // room is left for new clusters
  predicate PlentyFree(v: Volume)
    reads v
  {
    v.full == 0 && v.sectperclust * CCACHESIZE + 100 < v.freeSectors
  }

  // dbl_write_cluster. A length of 0 deletes the cluster; ucflag is not negative (no raw write).
  method WriteCluster(v: Volume, clusterd: seq<byte>, length: nat, c: int, near: int, ucflag: nat, comp: int, cf: nat, addr: nat, rest: Sector)
    returns (res: int, ghost ch: Choice)
    requires v.Valid() && cf < |DsCompress.MAX_TRY|
    requires length > 0 ==> length <= 512 * v.sectperclust && |clusterd| >= 512 * ((length - 1) / 512 + 1)
    modifies v
    ensures v.Valid() && (res == 0 || res == ENOSPC)
    ensures length == 0 ==> res == 0 && v.disk == old(v.disk)
    ensures length == 0 ==> v.mdfat == if 2 <= c <= v.maxCluster then old(v.mdfat)[c := NO_MDE] else old(v.mdfat)
    ensures length == 0 && 2 <= c <= v.maxCluster ==> ReadsEmpty(v, c)
    ensures length > 0 && ucflag == UC_TEST ==> v.mdfat == old(v.mdfat) && v.disk == old(v.disk) && v.used == old(v.used)
    ensures length > 0 && ucflag == UC_TEST ==> (res == 0 <==> old(PlentyFree(v)))
    ensures length > 0 && ucflag != UC_TEST ==>
              Chosen(ch, if length <= 512 || ucflag == UC_UNCOMPR then UNCOMPRESSED else comp, clusterd[..512 * ((length - 1) / 512 + 1)])
    ensures length > 0 && ucflag != UC_TEST && res == 0 && 2 <= c <= v.maxCluster ==> EntryTells(v, c, ch)
    ensures length > 0 && ucflag != UC_TEST && res == 0 ==>
              Written(v, c, clusterd, (length - 1) / 512 + 1, old(v.mdfat), old(v.disk))
    ensures length > 0 && ucflag != UC_TEST && res == ENOSPC ==>
              && v.used == old(v.used) && v.disk == old(v.disk)
              && v.mdfat == (if 2 <= c <= v.maxCluster && old(Used(v.Entry(c))) then old(v.mdfat)[c := NO_MDE] else old(v.mdfat))
              && v.NoSpace(SetAll(v.used, old(v.FreedBy(c)), false), ch.k, true)
  {
    hide Safe, Clear, Owned, Written, StandsFor, Chosen;
    ch := Choice(false, 0, [], Nothing);
    if length == 0 {
      var _ := v.FreeClusterSectors(c);
      return 0, ch;
    }
    if ucflag == UC_TEST {
      return if v.full == 0 && v.sectperclust * CCACHESIZE + 100 < v.freeSectors then 0 else ENOSPC, ch;
    }
    var size := (length - 1) / 512 + 1;
    var m := if size == 1 || ucflag == UC_UNCOMPR then UNCOMPRESSED else comp;
    var flags, k, data;
    flags, k, data, ch := Prepare(clusterd, size, m, cf, addr);
    res := Store(v, clusterd, size, c, near, flags, k, data, rest);
  }

  // finds room for the prepared cluster and writes it
  method Store(v: Volume, clusterd: seq<byte>, size: nat, c: int, near: int, flags: nat, k: nat, data: seq<byte>, rest: Sector) returns (res: int)
    requires v.Valid() && Prepared(flags, k, data, clusterd, size) && size <= v.sectperclust
    modifies v
    ensures v.Valid() && (res == 0 || res == ENOSPC)
    ensures res == 0 ==> Written(v, c, clusterd, size, old(v.mdfat), old(v.disk))
    ensures res == 0 && 2 <= c <= v.maxCluster ==>
              (Uncompressed(v.Entry(c)) <==> flags == 3) && (!Fragmented(v.Entry(c)) ==> v.Entry(c).sizeLoMinus1 + 1 == k)
    ensures res == ENOSPC ==>
              && v.used == old(v.used) && v.disk == old(v.disk)
              && v.mdfat == (if 2 <= c <= v.maxCluster && old(Used(v.Entry(c))) then old(v.mdfat)[c := NO_MDE] else old(v.mdfat))
              && v.NoSpace(SetAll(v.used, old(v.FreedBy(c)), false), k, true)
  {
    hide Safe, Clear, Owned, Marked, SectorsOf, ListRuns, FragAt, StandsFor, Flat, Expand, OthersKept, FirstHolds, Holds;
    var fraglist := new byte[264];
    var sector, m;
    ghost var own, runs;
    ghost var mdfat, disk := v.mdfat, v.disk;
    sector, m, own, runs := v.Replace(c, near, Mde(0, k - 1, size - 1, flags, 0), fraglist, true);
    if sector < 0 { return ENOSPC; }
    GrantedFlags(m, flags);
    PreparedHead(flags, k, data, clusterd, size);
    ghost var mid := v.mdfat;
    if Fragmented(m) {
      FirstOf(v, c, m, own, runs, k);
      StoreFragmented(v, c, m, fraglist[..], data, rest, own, runs, k);
      if 2 <= c <= v.maxCluster { HoldsFragmented(v, c, m, own, runs, fraglist[..], data, clusterd, rest, k, size); }
    } else {
      StorePlain(v, c, m, data, rest, own, k);
      if 2 <= c <= v.maxCluster { HoldsPlain(v, c, m, own, k, data, clusterd, size); }
    }
    OthersMid(mdfat, mid, disk, v, c);
    res := 0;
  }

  lemma GrantedFlags(m: Mde, flags: nat)
    requires flags == 2 || flags == 3
    ensures WithUsed(flags) == flags && (m.flags == flags ==> Used(m) && (Uncompressed(m) <==> flags == 3))
  {
  }

  lemma PreparedHead(flags: nat, k: nat, data: seq<byte>, clusterd: seq<byte>, size: nat)
    requires Prepared(flags, k, data, clusterd, size)
    ensures 1 <= k <= size && |data| >= 512 * k && |clusterd| >= 512 * size && (flags == 2 || flags == 3)
    ensures flags == 2 ==> data[1] != 0
    ensures flags == 3 ==> k == size && data == clusterd
  {
    hide StandsFor;
    if flags == 2 { PackedHead(data[..512 * k], clusterd[..512 * size]); }
  }

  lemma HoldsPlain(v: Volume, c: int, m: Mde, own: seq<nat>, k: nat, data: seq<byte>, clusterd: seq<byte>, size: nat)
    requires v.Layout() && v.Entry(c) == m && Used(m) && !Fragmented(m) && m.sizeLoMinus1 + 1 == k && m.sizeHiMinus1 + 1 == size <= v.sectperclust
    requires Prepared(if Uncompressed(m) then 3 else 2, k, data, clusterd, size) && own == RunList(m.sectorMinus1 + 1, k)
    requires m.sectorMinus1 + 1 < |v.disk| && Inside(own, v.disk) && Flat(v.disk, own) == data[..512 * k]
    ensures Holds(v, c, clusterd, size)
  {
    hide Flat, ReadOf, StandsFor;
    var spc := v.sectperclust;
    forall buf: seq<byte>, mem: Sector | |buf| == 512 * spc
      ensures ReadOf(m, v.disk, spc, buf, mem) == Data(clusterd[..512 * size] + Zeros(512 * spc - 512 * size), 512 * size)
    {
      PlainReads(m, v.disk, spc, buf, mem, k, data, clusterd, size);
    }
  }

  lemma HoldsFragmented(v: Volume, c: int, m: Mde, own: seq<nat>, runs: seq<Run>, list: seq<byte>, data: seq<byte>, clusterd: seq<byte>,
                        rest: Sector, k: nat, size: nat)
    requires v.Layout() && v.Entry(c) == m && Used(m) && Fragmented(m) && m.sizeLoMinus1 < v.sectperclust && m.sizeHiMinus1 + 1 == size <= v.sectperclust
    requires m.sectorMinus1 + 1 < |v.disk| && |clusterd| >= 512 * size
    requires FirstHolds(v.disk[m.sectorMinus1 + 1], m, list, runs, data, rest) && own == SectorsOf(runs) && |runs| >= 1 && runs[0] == FirstRun(m)
    requires Uncompressed(m) ==> k == size && data == clusterd && |own| == k + 1 && Inside(own[1..], v.disk) && Flat(v.disk, own[1..]) == data[..512 * k]
    ensures Holds(v, c, clusterd, size)
  {
    hide Flat, ReadOf, SectorsOf, ListRuns, FragAt;
    var spc := v.sectperclust;
    forall buf: seq<byte>, mem: Sector | |buf| == 512 * spc
      ensures ReadOf(m, v.disk, spc, buf, mem)
              == if Uncompressed(m) && |runs| <= spc then Data(clusterd[..512 * size] + Zeros(512 * spc - 512 * size), 512 * size) else Failed
    {
      if Uncompressed(m) {
        FragmentedReads(m, v.disk, spc, buf, mem, list, own, runs, data, rest, size);
      } else {
        PackedFragmentFails(m, v.disk, spc, buf, mem);
      }
    }
  }

  lemma OthersMid(mdfat: seq<Mde>, mid: seq<Mde>, disk: seq<Sector>, v: Volume, c: int)
    requires v.Layout() && OthersKept(mid, disk, v, c) && |mid| == |mdfat|
    requires forall d :: 0 <= d < |mid| && d != c ==> mid[d] == mdfat[d]
    ensures OthersKept(mdfat, disk, v, c)
  {
    hide SameRead;
  }

  // puts b over the front of the buffer and zeros behind place n
  method Fill(clusterd: array<byte>, b: seq<byte>, n: nat)
    modifies clusterd
    ensures clusterd[..] == ZeroSlack(Over(b, old(clusterd[..])), n)
  {
    var i := 0;
    while i < |b| && i < clusterd.Length
      invariant i <= |b| && i <= clusterd.Length && clusterd[..i] == b[..i]
      invariant forall j :: i <= j < clusterd.Length ==> clusterd[j] == old(clusterd[j])
    {
      clusterd[i] := b[i];
      i := i + 1;
    }
    ghost var mid := clusterd[..];
    assert mid == Over(b, old(clusterd[..]));
    i := n;
    while i < clusterd.Length
      invariant n <= i && forall j :: 0 <= j < clusterd.Length ==> clusterd[j] == if n <= j < i then 0 else mid[j]
    {
      clusterd[i] := 0;
      i := i + 1;
    }
  }

  method AllInside(v: Volume, list: seq<nat>) returns (ok: bool)
    requires v.Layout()
    ensures ok <==> Inside(list, v.disk)
  {
    ok := true;
    var i := 0;
    while i < |list|
      invariant i <= |list| && (ok <==> Inside(list[..i], v.disk))
    {
      InsideNext(list, i, v.disk);
      if list[i] >= |v.disk| { ok := false; }
      i := i + 1;
    }
    assert list[..i] == list;
  }

  lemma InsideNext(list: seq<nat>, i: nat, disk: seq<Sector>)
    requires i < |list|
    ensures Inside(list[..i + 1], disk) <==> Inside(list[..i], disk) && list[i] < |disk|
  {
    var front := list[..i];
    assert list[..i + 1] == front + [list[i]];
    assert list[i] in front + [list[i]];
    assert forall s :: s in front ==> s in front + [list[i]];
  }

  // read_fragments
  method ReadFragments(v: Volume, m: Mde) returns (ok: bool, b: seq<byte>)
    requires v.Layout() && Fragmented(m)
    ensures FragmentData(m, v.disk, v.sectperclust) == if ok then Some(b) else None
  {
    hide Flat, SectorsOf, FragAt, ListRuns, FragSectors;
    if m.sectorMinus1 + 1 >= |v.disk| { return false, []; }
    var sec := v.disk[m.sectorMinus1 + 1];
    if !(1 <= sec[0] as int <= v.sectperclust && sec[1] == 0 && sec[2] == 0 && sec[3] == 0) { return false, []; }
    var list := WalkFragments(m, sec);
    if Uncompressed(m) && |list| > v.sectperclust { return false, []; }
    var part := Front(list, v.sectperclust);
    var inside := AllInside(v, part);
    if !inside { return false, []; }
    b := ReadSectors(v, part);
    if !Uncompressed(m) { b := Front(sec[4 * (sec[0] as int + 1)..] + b, 512 * v.sectperclust); }
    ok := true;
  }

  // the sectors of a fragmented cluster: the rest of the first run, then the other runs
  method WalkFragments(m: Mde, sec: Sector) returns (list: seq<nat>)
    requires 1 <= sec[0] as int <= 65
    ensures list == FragSectors(m, sec)
  {
    hide FragAt, ListRuns;
    ghost var runs := ListRuns(sec);
    list := RunList(m.sectorMinus1 + 2, m.sizeLoMinus1);
    var k: nat := 2;
    RunsAt(sec);
    assert SectorsOf(runs[1..1]) == [];
    while k <= sec[0] as int
      invariant 2 <= k <= |runs| + 1 && list == RunList(m.sectorMinus1 + 2, m.sizeLoMinus1) + SectorsOf(runs[1..k - 1])
    {
      var r := FragAt(sec, k);
      assert runs[1..k] == runs[1..k - 1] + [r];
      SectorsAdd(runs[1..k - 1], r);
      list := list + RunList(r.sector, r.count);
      k := k + 1;
    }
    assert runs[1..k - 1] == runs[1..];
  }

  lemma RunsAt(sec: Sector)
    requires 1 <= sec[0] as int <= 65
    ensures |ListRuns(sec)| == sec[0] as int
    ensures forall k :: 1 <= k <= sec[0] as int ==> ListRuns(sec)[k - 1] == FragAt(sec, k)
  {
    hide FragAt;
  }

  // dbl_read_cluster: the length, or a negative error
  method ReadCluster(v: Volume, clusterd: array<byte>, c: int, garbage: nat, mem: Sector) returns (modelled: bool, res: int)
    requires v.Layout() && clusterd.Length == 512 * v.sectperclust && garbage < Pow2(32)
    requires v.Entry(c).sizeLoMinus1 < v.sectperclust && v.Entry(c).sizeHiMinus1 < v.sectperclust
    modifies clusterd
    ensures match ReadOf(v.Entry(c), v.disk, v.sectperclust, old(clusterd[..]), mem)
            case Data(buf, n) => modelled && res == n && clusterd[..] == buf
            case Failed => modelled && res < 0
            case NotModelled => !modelled
  {
    hide Flat, Expand, ReadFragmented, ReadPlain, Pow2, ZeroSlack, Over, v.Layout;
    var m := Lookup(v, c);
    if !Used(m) {
      AllZero(clusterd[..]);
      Fill(clusterd, [], 0);
      return true, 0;
    }
    if Fragmented(m) {
      modelled, res := ReadFragmentedCluster(v, m, clusterd, garbage, mem);
    } else {
      modelled, res := ReadUnfragmented(v, m, clusterd, garbage);
    }
  }

  lemma AllZero(buf: seq<byte>)
    ensures ZeroSlack(Over([], buf), 0) == Zeros(|buf|)
  {
  }

  method ReadFragmentedCluster(v: Volume, m: Mde, clusterd: array<byte>, garbage: nat, mem: Sector) returns (modelled: bool, res: int)
    requires v.Layout() && clusterd.Length == 512 * v.sectperclust && Fragmented(m) && m.sizeHiMinus1 < v.sectperclust && garbage < Pow2(32)
    modifies clusterd
    ensures match ReadFragmented(m, v.disk, v.sectperclust, old(clusterd[..]), mem)
            case Data(buf, n) => modelled && res == n && clusterd[..] == buf
            case Failed => modelled && res < 0
            case NotModelled => !modelled
  {
    hide FragmentData, ZeroSlack, Over, Unpacked, Filled, Pow2;
    var ok, b := ReadFragments(v, m);
    if !ok { return true, EIO; }
    res := 512 * (m.sizeHiMinus1 + 1);
    if Uncompressed(m) {
      Fill(clusterd, b, res);
      modelled := true;
    } else {
      modelled, res := Unpack(Filled(b, mem), res, clusterd, garbage);
    }
  }

  // decompresses n bytes into the front of the buffer
  method Unpack(z: seq<byte>, n: nat, clusterd: array<byte>, garbage: nat) returns (modelled: bool, res: int)
    requires |z| >= 4 && 0 < n <= clusterd.Length && garbage < Pow2(32)
    modifies clusterd
    ensures match Unpacked(z, n, old(clusterd[..]))
            case Data(buf, k) => modelled && res == k && clusterd[..] == buf
            case Failed => modelled && res < 0
            case NotModelled => !modelled
  {
    hide Expand, Pow2, ZeroSlack, Over;
    var part := new byte[n](i reads clusterd requires 0 <= i < n && n <= clusterd.Length => clusterd[i]);
    assert part[..] == clusterd[..n];
    modelled, res := DblDecompress(part, z, garbage);
    if !modelled { return; }
    if res != 0 { return true, EIO; }
    Fill(clusterd, part[..], n);
    res := n;
  }

  method Lookup(v: Volume, c: int) returns (m: Mde)
    requires v.Layout()
    ensures m == v.Entry(c)
  {
    m := NO_MDE;
    if 2 <= c <= v.maxCluster { m := v.mdfat[c]; }
  }

  method ReadUnfragmented(v: Volume, m: Mde, clusterd: array<byte>, garbage: nat) returns (modelled: bool, res: int)
    requires v.Layout() && clusterd.Length == 512 * v.sectperclust && garbage < Pow2(32)
    requires m.sizeLoMinus1 < v.sectperclust && m.sizeHiMinus1 < v.sectperclust
    modifies clusterd
    ensures match ReadPlain(m, v.disk, v.sectperclust, old(clusterd[..]))
            case Data(buf, n) => modelled && res == n && clusterd[..] == buf
            case Failed => modelled && res < 0
            case NotModelled => !modelled
  {
    hide Flat, Unpacked, Pow2, ZeroSlack, Over;
    var n := 512 * (m.sizeHiMinus1 + 1);
    var list := RunList(m.sectorMinus1 + 1, m.sizeLoMinus1 + 1);
    var inside := AllInside(v, list);
    if !inside { return true, EIO; }
    var z := ReadSectors(v, list);
    if Uncompressed(m) {
      Fill(clusterd, z, n);
      return true, n;
    }
    modelled, res := Unpack(z, n, clusterd, garbage);
  }
}
