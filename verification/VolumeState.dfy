/**
 What is stored about the clusters of a DoubleSpace or DriveSpace volume, and which sectors
 belong to which cluster.
 */
module VolumeState {
  import opened Bits
  import opened SectorMap
  import opened FragList

  const SECTOR_SIZE := 512

  datatype Version = DblSp | DrvSp | DrvSp3

  // an MDFAT entry
  datatype Mde = Mde(sectorMinus1: nat, sizeLoMinus1: nat, sizeHiMinus1: nat, flags: nat, unknown: nat)

  const NO_MDE := Mde(0, 0, 0, 0, 0)

  predicate Used(m: Mde) { m.flags / 2 % 2 == 1 }

  predicate Uncompressed(m: Mde) { m.flags % 2 == 1 }

  predicate Fragmented(m: Mde) { m.unknown / 2 % 2 == 1 }

  // the first run of the cluster
  function FirstRun(m: Mde): Run {
    Run(m.sectorMinus1 + 1, m.sizeLoMinus1 + 1)
  }

  // what an entry becomes when it is stored: 21-bit sector numbers and 4-bit sizes without the
  // fragmented bit, or 24-bit numbers and 6-bit sizes
  function Stored(v: Version, m: Mde): Mde {
    if v == DrvSp3 then
      Mde(m.sectorMinus1 % 0x100_0000, m.sizeLoMinus1 % 64, m.sizeHiMinus1 % 64, m.flags % 4, m.unknown % 4)
    else
      Mde(m.sectorMinus1 % 0x20_0000, m.sizeLoMinus1 % 16, m.sizeHiMinus1 % 16, m.flags % 4, 0)
  }

  // highest number of sectors in a cluster, and of sectors on a volume
  function MaxSize(v: Version): nat {
    if v == DrvSp3 then 64 else 16
  }

  function MaxSectors(v: Version): nat {
    if v == DrvSp3 then 0x100_0000 else 0x20_0000
  }

  // a list of at most n fragments, the first of which agrees with the entry
  predicate ListOk(sec: Sector, m: Mde, n: nat)
    requires n <= 65
  {
    1 <= sec[0] as int <= n && sec[1] == 0 && sec[2] == 0 && sec[3] == 0 && FragAt(sec, 1) == FirstRun(m)
  }

  // The sectors of a cluster, if lists of up to n fragments are accepted. Without an acceptable
  // list only the first run is known.
  function SectorsIn(m: Mde, disk: seq<Sector>, n: nat): seq<nat>
    requires n <= 65
  {
    if !Used(m) then []
    else if Fragmented(m) && m.sectorMinus1 + 1 < |disk| && ListOk(disk[m.sectorMinus1 + 1], m, n) then
      SectorsOf(ListRuns(disk[m.sectorMinus1 + 1]))
    else SectorsOf([FirstRun(m)])
  }

  // Clusters are written with up to spc + 1 fragments ...
  function Owned(m: Mde, disk: seq<Sector>, spc: nat): seq<nat>
    requires spc <= 64
  {
    SectorsIn(m, disk, spc + 1)
  }

  // ... but freed, in this order, only with up to spc.
  function Freed(m: Mde, disk: seq<Sector>, spc: nat): seq<nat>
    requires spc <= 64
  {
    SectorsIn(m, disk, spc)
  }

  predicate TooManyFragments(m: Mde, disk: seq<Sector>, spc: nat) {
    Used(m) && Fragmented(m) && m.sectorMinus1 + 1 < |disk| && disk[m.sectorMinus1 + 1][0] == spc + 1
  }

  // What is freed is owned; it is all there is unless the list has spc + 1 entries.
  lemma FreedOwned(m: Mde, disk: seq<Sector>, spc: nat)
    requires spc <= 64
    ensures Freed(m, disk, spc) <= Owned(m, disk, spc)
    ensures !TooManyFragments(m, disk, spc) ==> Freed(m, disk, spc) == Owned(m, disk, spc)
  {
    hide FragAt;
    if Used(m) {
      if Owned(m, disk, spc) != Freed(m, disk, spc) {
        var runs := ListRuns(disk[m.sectorMinus1 + 1]);
        assert runs == [runs[0]] + runs[1..];
        SectorsConcat([runs[0]], runs[1..]);
      }
    }
  }

  lemma OwnedPlain(m: Mde, disk: seq<Sector>, spc: nat)
    requires spc <= 64 && Used(m) && !Fragmented(m)
    ensures Owned(m, disk, spc) == RunList(m.sectorMinus1 + 1, m.sizeLoMinus1 + 1)
  {
    SectorsOne(FirstRun(m));
  }

  // the first sector of a used cluster is its own
  lemma FirstOwned(m: Mde, disk: seq<Sector>, spc: nat)
    requires spc <= 64 && Used(m)
    ensures m.sectorMinus1 + 1 in Owned(m, disk, spc)
  {
    hide FragAt;
    SectorsOne(FirstRun(m));
    var first := RunList(m.sectorMinus1 + 1, m.sizeLoMinus1 + 1);
    assert first[0] == m.sectorMinus1 + 1;
    if Fragmented(m) && m.sectorMinus1 + 1 < |disk| && ListOk(disk[m.sectorMinus1 + 1], m, spc + 1) {
      var runs := ListRuns(disk[m.sectorMinus1 + 1]);
      assert runs == [runs[0]] + runs[1..];
      SectorsConcat([runs[0]], runs[1..]);
    }
  }

  // Ownership depends on the entry and on the first sector only.
  lemma OwnedFrame(m: Mde, disk: seq<Sector>, disk': seq<Sector>, spc: nat)
    requires spc <= 64 && |disk| == |disk'|
    requires Used(m) && m.sectorMinus1 + 1 < |disk| ==> disk[m.sectorMinus1 + 1] == disk'[m.sectorMinus1 + 1]
    ensures Owned(m, disk, spc) == Owned(m, disk', spc)
  {
    hide ListOk, ListRuns, SectorsOf;
  }

  //////////////////////////////////////////////////////////////////////////////
  // The safety invariant
  //////////////////////////////////////////////////////////////////////////////

  // the sectors are in the data area, marked, and each is named once
  ghost predicate Marked(own: seq<nat>, used: seq<bool>, lo: nat) {
    NoDup(own) && forall s :: s in own ==> lo <= s < |used| && used[s]
  }

  ghost predicate Disjoint(a: seq<nat>, b: seq<nat>) {
    forall s :: s in a ==> s !in b
  }

  // no two clusters other than `but` share a sector, and all their sectors are marked
  ghost predicate Safe(mdfat: seq<Mde>, disk: seq<Sector>, used: seq<bool>, lo: nat, spc: nat, but: nat)
    requires spc <= 64
  {
    && (forall c :: 0 <= c < |mdfat| && c != but ==> Marked(Owned(mdfat[c], disk, spc), used, lo))
    && (forall c :: 0 <= c < |mdfat| && c != but ==> |Owned(mdfat[c], disk, spc)| <= spc + 1)
    && (forall c, d :: 0 <= c < d < |mdfat| && c != but && d != but ==>
          Disjoint(Owned(mdfat[c], disk, spc), Owned(mdfat[d], disk, spc)))
  }

  // no cluster but `but` owns any of the sectors
  ghost predicate Clear(mdfat: seq<Mde>, disk: seq<Sector>, spc: nat, but: nat, own: seq<nat>)
    requires spc <= 64
  {
    forall c :: 0 <= c < |mdfat| && c != but ==> Disjoint(Owned(mdfat[c], disk, spc), own)
  }

  // Leaving out a cluster weakens the invariant; `but` = |mdfat| leaves out none.
  lemma SafeBut(mdfat: seq<Mde>, disk: seq<Sector>, used: seq<bool>, lo: nat, spc: nat, c: nat)
    requires spc <= 64 && c < |mdfat| && Safe(mdfat, disk, used, lo, spc, |mdfat|)
    ensures Safe(mdfat, disk, used, lo, spc, c) && Clear(mdfat, disk, spc, c, Owned(mdfat[c], disk, spc))
    ensures Marked(Owned(mdfat[c], disk, spc), used, lo) && |Owned(mdfat[c], disk, spc)| <= spc + 1
  {
    hide Owned, Marked;
    var own := Owned(mdfat[c], disk, spc);
    forall d | 0 <= d < |mdfat| && d != c ensures Disjoint(Owned(mdfat[d], disk, spc), own) {
      if d > c { assert Disjoint(own, Owned(mdfat[d], disk, spc)); }
    }
  }

  // ... and taking it in again needs exactly that
  lemma SafeAll(mdfat: seq<Mde>, disk: seq<Sector>, used: seq<bool>, lo: nat, spc: nat, c: nat)
    requires spc <= 64 && c < |mdfat| && Safe(mdfat, disk, used, lo, spc, c)
    requires Clear(mdfat, disk, spc, c, Owned(mdfat[c], disk, spc))
    requires Marked(Owned(mdfat[c], disk, spc), used, lo) && |Owned(mdfat[c], disk, spc)| <= spc + 1
    ensures Safe(mdfat, disk, used, lo, spc, |mdfat|)
  {
    hide Owned, Marked;
    var own := Owned(mdfat[c], disk, spc);
    forall a, b | 0 <= a < b < |mdfat| ensures Disjoint(Owned(mdfat[a], disk, spc), Owned(mdfat[b], disk, spc)) {
      if a == c { assert Disjoint(Owned(mdfat[b], disk, spc), own); }
    }
  }

  // Changing the entry of a cluster left out changes nothing for the others.
  lemma SafeEntry(mdfat: seq<Mde>, disk: seq<Sector>, used: seq<bool>, lo: nat, spc: nat, c: nat, m: Mde)
    requires spc <= 64 && c < |mdfat| && Safe(mdfat, disk, used, lo, spc, c)
    ensures Safe(mdfat[c := m], disk, used, lo, spc, c)
  {
    hide Owned, Marked, Disjoint;
    var t := mdfat[c := m];
    forall d | 0 <= d < |t| && d != c ensures Marked(Owned(t[d], disk, spc), used, lo) && |Owned(t[d], disk, spc)| <= spc + 1 {
      assert t[d] == mdfat[d];
    }
    forall a, b | 0 <= a < b < |t| && a != c && b != c ensures Disjoint(Owned(t[a], disk, spc), Owned(t[b], disk, spc)) {
      assert t[a] == mdfat[a] && t[b] == mdfat[b];
    }
  }

  lemma ClearEntry(mdfat: seq<Mde>, disk: seq<Sector>, spc: nat, c: nat, m: Mde, own: seq<nat>)
    requires spc <= 64 && c < |mdfat| && Clear(mdfat, disk, spc, c, own)
    ensures Clear(mdfat[c := m], disk, spc, c, own)
  {
    hide Owned, Disjoint;
    var t := mdfat[c := m];
    forall d | 0 <= d < |t| && d != c ensures Disjoint(Owned(t[d], disk, spc), own) { assert t[d] == mdfat[d]; }
  }

  // Bits outside the other clusters may change.
  lemma SafeBits(mdfat: seq<Mde>, disk: seq<Sector>, used: seq<bool>, used': seq<bool>, lo: nat, spc: nat, c: nat, own: seq<nat>)
    requires spc <= 64 && Safe(mdfat, disk, used, lo, spc, c) && Clear(mdfat, disk, spc, c, own) && |used'| == |used|
    requires forall s :: 0 <= s < |used| && s !in own ==> used'[s] == used[s]
    ensures Safe(mdfat, disk, used', lo, spc, c)
  {
    hide Owned;
    forall d | 0 <= d < |mdfat| && d != c ensures Marked(Owned(mdfat[d], disk, spc), used', lo) {
      assert Marked(Owned(mdfat[d], disk, spc), used, lo);
      assert Disjoint(Owned(mdfat[d], disk, spc), own);
    }
  }

  // Free sectors belong to no cluster.
  lemma FreeClear(mdfat: seq<Mde>, disk: seq<Sector>, used: seq<bool>, lo: nat, spc: nat, c: nat, own: seq<nat>)
    requires spc <= 64 && Safe(mdfat, disk, used, lo, spc, c) && forall s :: s in own ==> Free(used, lo, s)
    ensures Clear(mdfat, disk, spc, c, own)
  {
    hide Owned;
    forall d | 0 <= d < |mdfat| && d != c ensures Disjoint(Owned(mdfat[d], disk, spc), own) {
      assert Marked(Owned(mdfat[d], disk, spc), used, lo);
    }
  }

  // Sectors outside the other clusters may be written.
  lemma SafeDisk(mdfat: seq<Mde>, disk: seq<Sector>, disk': seq<Sector>, used: seq<bool>, lo: nat, spc: nat, c: nat, own: seq<nat>)
    requires spc <= 64 && Safe(mdfat, disk, used, lo, spc, c) && Clear(mdfat, disk, spc, c, own) && |disk'| == |disk|
    requires forall s :: 0 <= s < |disk| && s !in own ==> disk'[s] == disk[s]
    ensures Safe(mdfat, disk', used, lo, spc, c) && Clear(mdfat, disk', spc, c, own)
    ensures forall d :: 0 <= d < |mdfat| && d != c ==> Owned(mdfat[d], disk', spc) == Owned(mdfat[d], disk, spc)
  {
    hide Owned, Marked;
    forall d | 0 <= d < |mdfat| && d != c ensures Owned(mdfat[d], disk', spc) == Owned(mdfat[d], disk, spc) {
      assert Disjoint(Owned(mdfat[d], disk, spc), own);
      if Used(mdfat[d]) { FirstOwned(mdfat[d], disk, spc); }
      OwnedFrame(mdfat[d], disk, disk', spc);
    }
  }
}
