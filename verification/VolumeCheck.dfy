/**
 `simple_check` for DoubleSpace and DriveSpace volumes: what a check without complaints says
 about FAT, MDFAT and BITFAT. It establishes the safety invariant that the allocator keeps.
 */
module VolumeCheck {
  import opened Bits
  import opened SectorMap
  import opened FragList
  import opened VolumeState
  import opened VolumeAlloc

  //////////////////////////////////////////////////////////////////////////////
  // What is checked
  //////////////////////////////////////////////////////////////////////////////

  // No two entries before n lead to the same cluster.
  ghost predicate Successors(fat: seq<int>, n: nat) {
    n <= |fat| && forall c, d :: 2 <= c < d < n && fat[c] != 0 && fat[c] != -1 ==> fat[c] != fat[d]
  }

  // No cluster before n that is free in the FAT has a used MDFAT entry.
  ghost predicate NoneDead(fat: seq<int>, mdfat: seq<Mde>, n: nat) {
    n <= |fat| == |mdfat| && forall c :: 2 <= c < n && fat[c] == 0 ==> !Used(mdfat[c])
  }

  // The entries before n have different successors, but not so that of cluster n.
  ghost predicate FirstClash(fat: seq<int>, n: nat, max: nat) {
    n < max && Successors(fat, n) && !Successors(fat, n + 1)
  }

  lemma ClashAt(fat: seq<int>, i: nat, n: nat)
    requires i < n <= |fat| && Successors(fat, i) && !Successors(fat, i + 1)
    ensures FirstClash(fat, i, n) && !Successors(fat, n)
  {
  }

  // what becomes of the entries before n of clusters that are free in the FAT
  function Buried(fat: seq<int>, mdfat: seq<Mde>, n: nat): (r: seq<Mde>)
    requires n <= |fat| == |mdfat|
    ensures |r| == |mdfat|
    ensures forall c :: 0 <= c < |mdfat| ==>
              r[c] == if 2 <= c < n && fat[c] == 0 && Used(mdfat[c]) then Mde(0, 0, 0, 0, mdfat[c].unknown) else mdfat[c]
  {
    seq(|mdfat|, c requires 0 <= c < |mdfat| =>
      if 2 <= c < n && fat[c] == 0 && Used(mdfat[c]) then Mde(0, 0, 0, 0, mdfat[c].unknown) else mdfat[c])
  }

  // the sectors of the clusters from 2 up to n, lists of up to spc fragments being accepted
  function AllSectors(mdfat: seq<Mde>, disk: seq<Sector>, spc: nat, n: nat): seq<nat>
    requires spc <= 64 && n <= |mdfat|
  {
    if n <= 2 then [] else AllSectors(mdfat, disk, spc, n - 1) + Freed(mdfat[n - 1], disk, spc)
  }

  // the bits that are set in the field
  ghost predicate Shows(field: seq<bool>, list: seq<nat>) {
    forall s :: 0 <= s < |field| ==> (field[s] <==> s in list)
  }

  //////////////////////////////////////////////////////////////////////////////
  // Part 1: the FAT
  //////////////////////////////////////////////////////////////////////////////

  // The field of bits has room for all entries of the FAT.
  ghost predicate FatFits(fat: seq<int>, max: nat) {
    |fat| == max + 1 && forall c :: 2 <= c <= max ==> -1 <= fat[c] < 8 * (max / 8 + 1)
  }

  // the successors of the clusters before n are marked
  ghost predicate Marks(field: seq<bool>, fat: seq<int>, n: nat) {
    forall s :: 0 <= s < |field| ==> (field[s] <==> exists c :: 2 <= c < n && c < |fat| && fat[c] == s && s != 0)
  }

  // marks the successor of cluster c; a clash if it is marked already
  method MarkSuccessor(field: array<bool>, fat: seq<int>, c: nat) returns (clash: bool)
    requires 2 <= c < |fat| && -1 <= fat[c] < field.Length && Marks(field[..], fat, c) && Successors(fat, c)
    modifies field
    ensures !clash ==> Marks(field[..], fat, c + 1) && Successors(fat, c + 1)
    ensures clash ==> !Successors(fat, c + 1)
  {
    var val := fat[c];
    if val != 0 && val != -1 {
      if field[val] { return true; }
      ghost var was := field[..];
      field[val] := true;
      assert field[..] == was[val := true];
    }
    clash := false;
  }

  // the entry of a cluster that may be free in the FAT; left if it should not be there
  method Bury(v: Volume, fat: seq<int>, c: nat, repair: bool) returns (left: bool)
    requires v.Layout() && 2 <= c <= v.maxCluster && |fat| == v.maxCluster + 1
    modifies v`mdfat
    ensures var m := old(v.mdfat)[c];
            && v.Layout() && (left <==> fat[c] == 0 && Used(m) && !repair)
            && v.mdfat == if fat[c] == 0 && Used(m) && repair then old(v.mdfat)[c := Mde(0, 0, 0, 0, m.unknown)] else old(v.mdfat)
    ensures fat[c] == 0 && !left ==> !Used(v.mdfat[c])
  {
    left := false;
    var _, m := v.MdfatValue(c);
    if fat[c] == 0 && Used(m) {
      if !repair {
        left := true;
      } else {
        BuriedFits(v.version, m);
        v.SetMdfatValue(c, Mde(0, 0, 0, 0, m.unknown));
      }
    }
  }

  method CheckFat(v: Volume, fat: seq<int>, repair: bool) returns (errorcode: int)
    requires v.Layout() && FatFits(fat, v.maxCluster)
    modifies v`mdfat
    ensures v.Layout() && (errorcode == 0 || errorcode == -1 || errorcode == -2)
    ensures errorcode == 0 ==> Successors(fat, v.maxCluster + 1) && NoneDead(fat, v.mdfat, v.maxCluster + 1)
    ensures errorcode == -1 <==> !Successors(fat, v.maxCluster + 1)
    ensures errorcode == -2 <==> !repair && Successors(fat, v.maxCluster + 1) && !NoneDead(fat, v.mdfat, v.maxCluster + 1)
    ensures errorcode != -1 && repair ==> v.mdfat == Buried(fat, old(v.mdfat), v.maxCluster + 1)
    ensures errorcode == -1 && repair ==>
              exists n :: FirstClash(fat, n, v.maxCluster + 1) && v.mdfat == Buried(fat, old(v.mdfat), n)
    ensures !repair ==> v.mdfat == old(v.mdfat)
  {
    hide Marks, Successors, Used, Stored;
    var field := new bool[8 * (v.maxCluster / 8 + 1)](_ => false);
    errorcode := 0;
    NoneMarked(field[..], fat);
    ghost var mdfat := v.mdfat;
    var i := 2;
    while i <= v.maxCluster
      invariant 2 <= i && (i <= v.maxCluster + 1 || v.maxCluster == 0) && v.Layout() && Successors(fat, Upto(i, v.maxCluster))
      invariant errorcode == 0 || (errorcode == -2 && !repair && !NoneDead(fat, v.mdfat, v.maxCluster + 1))
      invariant errorcode == 0 ==> NoneDead(fat, v.mdfat, Upto(i, v.maxCluster))
      invariant v.mdfat == if repair then Buried(fat, mdfat, Upto(i, v.maxCluster)) else mdfat
      invariant Marks(field[..], fat, i)
      decreases v.maxCluster + 1 - i
    {
      var clash := MarkSuccessor(field, fat, i);
      if clash {
        ClashAt(fat, i, v.maxCluster + 1);
        return -1;
      }
      var left := Bury(v, fat, i, repair);
      if left { errorcode := -2; }
      i := i + 1;
    }
  }

  lemma NoneMarked(field: seq<bool>, fat: seq<int>)
    requires forall s :: 0 <= s < |field| ==> !field[s]
    ensures Marks(field, fat, 2) && forall n: nat :: n <= 2 && n <= |fat| ==> Successors(fat, n)
  {
  }

  ghost function Upto(i: nat, max: nat): nat {
    if i <= max + 1 then i else max + 1
  }

  lemma BuriedFits(v: Version, m: Mde)
    requires Stored(v, m) == m
    ensures Stored(v, Mde(0, 0, 0, 0, m.unknown)) == Mde(0, 0, 0, 0, m.unknown)
  {
  }

  //////////////////////////////////////////////////////////////////////////////
  // Part 2: the MDFAT
  //////////////////////////////////////////////////////////////////////////////

  // sets the bits of a run; clean if none of them was set
  method MarkRun(field: array<bool>, sector: nat, count: nat, ghost all: seq<nat>) returns (clean: bool)
    requires sector + count <= field.Length && Shows(field[..], all) && NoDup(all)
    modifies field
    ensures Shows(field[..], all + RunList(sector, count))
    ensures clean <==> NoDup(all + RunList(sector, count))
  {
    clean := true;
    var j := 0;
    ghost var list := RunList(sector, count);
    assert all + list[..0] == all;
    while j < count
      invariant j <= count && Shows(field[..], all + list[..j]) && (clean <==> NoDup(all + list[..j]))
    {
      var was := field[sector + j];
      OneMore(all + list[..j], sector + j);
      assert all + list[..j + 1] == all + list[..j] + [sector + j];
      if was { clean := false; }
      field[sector + j] := true;
      j := j + 1;
    }
    assert list[..j] == list;
  }

  lemma OneMore(list: seq<nat>, s: nat)
    ensures NoDup(list + [s]) <==> NoDup(list) && s !in list
  {
    var r := list + [s];
    if NoDup(r) {
      forall i, j | 0 <= i < j < |list| ensures list[i] != list[j] { assert r[i] != r[j]; }
      forall i | 0 <= i < |list| ensures list[i] != s { assert r[i] != r[|list|]; }
    }
  }

  lemma NoDupFront(a: seq<nat>, b: seq<nat>)
    requires NoDup(a + b)
    ensures NoDup(a) && NoDup(b) && Disjoint(a, b)
  {
    var r := a + b;
    forall i, j | 0 <= i < j < |a| ensures a[i] != a[j] { assert r[i] != r[j]; }
    forall i, j | 0 <= i < j < |b| ensures b[i] != b[j] { assert r[|a| + i] != r[|a| + j]; }
    forall s | s in a ensures s !in b {
      var i :| 0 <= i < |a| && a[i] == s;
      forall j | 0 <= j < |b| ensures b[j] != s { assert r[i] != r[|a| + j]; }
    }
  }

  ghost predicate RunsInside(runs: seq<Run>, lo: nat, hi: nat) {
    forall i :: 0 <= i < |runs| ==> lo <= runs[i].sector && runs[i].sector + runs[i].count <= hi + 1
  }

  // The further fragments of a cluster whose first run is marked already. The loop stops at the
  // first complaint; later ones would change messages only.
  method MarkFragments(v: Volume, m: Mde, sec: Sector, field: array<bool>, ghost all: seq<nat>) returns (bad: bool)
    requires v.Layout() && field.Length > v.dataend && 1 <= sec[0] as int <= v.sectperclust
    requires ghost var first := RunList(m.sectorMinus1 + 1, m.sizeLoMinus1 + 1);
             Shows(field[..], all + first) && NoDup(all + first)
    modifies field
    ensures !bad <==> FragAt(sec, 1) == FirstRun(m) && RunsInside(ListRuns(sec), v.datastart, v.dataend)
                      && NoDup(all + SectorsOf(ListRuns(sec)))
    ensures !bad ==> Shows(field[..], all + SectorsOf(ListRuns(sec)))
  {
    hide NoDup, Shows, SectorsOf, FragAt;
    ghost var runs := ListRuns(sec);
    var r := FragAt(sec, 1);
    assert runs[0] == r;
    if r.sector + r.count > v.dataend + 1 || r.sector < v.datastart { return true; }
    if r != FirstRun(m) { return true; }
    assert runs[..1] == [r];
    SectorsOne(r);
    var k: nat := 2;
    while k <= sec[0] as int
      invariant 2 <= k <= |runs| + 1 && RunsInside(runs[..k - 1], v.datastart, v.dataend)
      invariant Shows(field[..], all + SectorsOf(runs[..k - 1])) && NoDup(all + SectorsOf(runs[..k - 1]))
    {
      r := FragAt(sec, k);
      assert runs[k - 1] == r && runs[..k] == runs[..k - 1] + [r];
      if r.sector + r.count > v.dataend + 1 || r.sector < v.datastart { return true; }
      SectorsAdd(runs[..k - 1], r);
      assert all + (SectorsOf(runs[..k - 1]) + RunList(r.sector, r.count)) == all + SectorsOf(runs[..k - 1]) + RunList(r.sector, r.count);
      var clean := MarkRun(field, r.sector, r.count, all + SectorsOf(runs[..k - 1]));
      if !clean {
        DupStays(all, runs, k);
        return true;
      }
      k := k + 1;
    }
    assert runs[..k - 1] == runs;
    bad := false;
  }

  lemma DupStays(all: seq<nat>, runs: seq<Run>, k: nat)
    requires k <= |runs| && !NoDup(all + SectorsOf(runs[..k]))
    ensures !NoDup(all + SectorsOf(runs))
  {
    hide SectorsOf;
    SectorsPrefix(runs, k);
    var a, b := all + SectorsOf(runs[..k]), all + SectorsOf(runs);
    assert a <= b;
    assert forall i :: 0 <= i < |a| ==> a[i] == b[i];
  }

  // The sectors of the entry are in the data area and its fragment list, if any, is acceptable.
  ghost predicate EntryGood(m: Mde, disk: seq<Sector>, lo: nat, hi: nat, spc: nat)
    requires spc <= 64 && hi < |disk|
  {
    Used(m) ==>
      && lo <= m.sectorMinus1 + 1 && m.sectorMinus1 + 1 + m.sizeLoMinus1 <= hi
      && (Fragmented(m) ==> var sec := disk[m.sectorMinus1 + 1]; ListOk(sec, m, spc) && RunsInside(ListRuns(sec), lo, hi))
  }

  // one MDFAT entry
  method MarkCluster(v: Volume, m: Mde, field: array<bool>, ghost all: seq<nat>) returns (bad: bool)
    requires v.Layout() && field.Length > v.dataend && Shows(field[..], all) && NoDup(all)
    modifies field
    ensures !bad <==> EntryGood(m, v.disk, v.datastart, v.dataend, v.sectperclust) && NoDup(all + Freed(m, v.disk, v.sectperclust))
    ensures !bad ==> Shows(field[..], all + Freed(m, v.disk, v.sectperclust))
  {
    hide NoDup, Shows, SectorsOf, FragAt, RunsInside;
    if !Used(m) {
      assert all + [] == all;
      return false;
    }
    if m.sectorMinus1 + m.sizeLoMinus1 >= v.dataend || m.sectorMinus1 + 1 < v.datastart { return true; }
    SectorsOne(FirstRun(m));
    var clean := MarkRun(field, m.sectorMinus1 + 1, m.sizeLoMinus1 + 1, all);
    if Fragmented(m) {
      var sec := v.disk[m.sectorMinus1 + 1];
      if sec[1] != 0 || sec[2] != 0 || sec[3] != 0 || sec[0] as int <= 0 || sec[0] as int > v.sectperclust { return true; }
      if !clean {
        FirstDup(all, m, sec);
        return true;
      }
      bad := MarkFragments(v, m, sec, field, all);
    } else {
      bad := !clean;
    }
  }

  // A first run that collides spoils the whole list.
  lemma FirstDup(all: seq<nat>, m: Mde, sec: Sector)
    requires 1 <= sec[0] as int <= 64 && !NoDup(all + RunList(m.sectorMinus1 + 1, m.sizeLoMinus1 + 1))
    ensures FragAt(sec, 1) == FirstRun(m) ==> !NoDup(all + SectorsOf(ListRuns(sec)))
  {
    hide FragAt, SectorsOf, NoDup;
    if FragAt(sec, 1) == FirstRun(m) {
      var runs := ListRuns(sec);
      assert runs[..1] == [FirstRun(m)];
      SectorsOne(FirstRun(m));
      DupStays(all, runs, 1);
    }
  }

  // What part 2 looks for.
  ghost predicate MdfatGood(mdfat: seq<Mde>, disk: seq<Sector>, lo: nat, hi: nat, spc: nat, n: nat)
    requires spc <= 64 && hi < |disk| && n <= |mdfat|
  {
    && (forall c :: 2 <= c < n ==> EntryGood(mdfat[c], disk, lo, hi, spc))
    && NoDup(AllSectors(mdfat, disk, spc, n))
  }

  lemma AllPrefix(mdfat: seq<Mde>, disk: seq<Sector>, spc: nat, n: nat, m: nat)
    requires spc <= 64 && n <= m <= |mdfat|
    ensures AllSectors(mdfat, disk, spc, n) <= AllSectors(mdfat, disk, spc, m)
    decreases m
  {
    hide Freed;
    if n < m { AllPrefix(mdfat, disk, spc, n, m - 1); }
  }

  method CheckMdfat(v: Volume) returns (errorcode: int, field: array<bool>)
    requires v.Layout()
    ensures fresh(field) && field.Length == v.dataend + 1 && (errorcode == 0 || errorcode == -2)
    ensures errorcode == 0 <==> MdfatGood(v.mdfat, v.disk, v.datastart, v.dataend, v.sectperclust, v.maxCluster + 1)
    ensures errorcode == 0 ==> Shows(field[..], AllSectors(v.mdfat, v.disk, v.sectperclust, v.maxCluster + 1))
  {
    hide NoDup, Shows, EntryGood, Freed, Stored;
    ghost var t, disk, spc := v.mdfat, v.disk, v.sectperclust;
    field := new bool[v.dataend + 1](_ => false);
    NothingShown(field[..], t, disk, spc);
    var i: nat := 2;
    while i <= v.maxCluster
      invariant 2 <= i && (i <= v.maxCluster + 1 || v.maxCluster < 2)
      invariant MdfatGood(t, disk, v.datastart, v.dataend, spc, Upto(i, v.maxCluster))
      invariant Shows(field[..], AllSectors(t, disk, spc, Upto(i, v.maxCluster)))
      decreases v.maxCluster + 1 - i
    {
      ghost var all := AllSectors(t, disk, spc, i);
      var _, m := v.MdfatValue(i);
      var bad := MarkCluster(v, m, field, all);
      if bad {
        NotGood(t, disk, v.datastart, v.dataend, spc, i, v.maxCluster + 1);
        return -2, field;
      }
      i := i + 1;
    }
    errorcode := 0;
    FewClusters(t, disk, spc, Upto(i, v.maxCluster), v.maxCluster);
  }

  lemma FewClusters(t: seq<Mde>, disk: seq<Sector>, spc: nat, n: nat, max: nat)
    requires spc <= 64 && |t| == max + 1 && n <= max + 1 && (n == max + 1 || max < 2)
    ensures AllSectors(t, disk, spc, n) == AllSectors(t, disk, spc, max + 1)
  {
  }

  lemma NothingShown(field: seq<bool>, t: seq<Mde>, disk: seq<Sector>, spc: nat)
    requires spc <= 64 && forall s :: 0 <= s < |field| ==> !field[s]
    ensures forall n :: 0 <= n <= |t| && n <= 2 ==> AllSectors(t, disk, spc, n) == []
    ensures Shows(field, []) && NoDup([])
  {
  }

  lemma NotGood(t: seq<Mde>, disk: seq<Sector>, lo: nat, hi: nat, spc: nat, i: nat, n: nat)
    requires spc <= 64 && hi < |disk| && 2 <= i < n <= |t|
    requires !(EntryGood(t[i], disk, lo, hi, spc) && NoDup(AllSectors(t, disk, spc, i) + Freed(t[i], disk, spc)))
    ensures !MdfatGood(t, disk, lo, hi, spc, n)
  {
    hide EntryGood, Freed;
    AllPrefix(t, disk, spc, i + 1, n);
    var a, b := AllSectors(t, disk, spc, i + 1), AllSectors(t, disk, spc, n);
    assert forall k :: 0 <= k < |a| ==> a[k] == b[k];
  }

  //////////////////////////////////////////////////////////////////////////////
  // Part 3: the BITFAT
  //////////////////////////////////////////////////////////////////////////////

  // The bitmap marks exactly the sectors listed.
  ghost predicate BitmapIs(used: seq<bool>, lo: nat, list: seq<nat>) {
    forall s :: lo <= s < |used| ==> (used[s] <==> s in list)
  }

  // compares or repairs; returns the number of mismatches and the number of sectors that were free
  method CheckBitfat(v: Volume, field: array<bool>, repair: bool, ghost all: seq<nat>) returns (j: nat, freeSects: nat)
    requires v.Layout() && field.Length == v.dataend + 1 && Shows(field[..], all)
    modifies v`used, v`freeSectors
    ensures v.Layout() && freeSects == FreeCount(old(v.used), v.datastart)
    ensures j == 0 <==> BitmapIs(old(v.used), v.datastart, all)
    ensures !repair || j == 0 ==> v.used == old(v.used)
    ensures repair ==> BitmapIs(v.used, v.datastart, all)
    ensures !repair ==> v.freeSectors == old(v.freeSectors)
    ensures forall s :: 0 <= s < v.datastart ==> v.used[s] == old(v.used[s])
  {
    hide FreeCount, v.Layout;
    ghost var was := v.used;
    j, freeSects := 0, 0;
    var i: nat := v.datastart;
    FieldFits(v);
    NoneCounted(was, v.datastart);
    while i <= v.dataend
      invariant v.datastart <= i <= v.dataend + 1 && v.Layout() && |v.used| == |was| == v.dataend + 1
      invariant freeSects == FreeCount(was[..i], v.datastart)
      invariant j == 0 <==> forall s :: v.datastart <= s < i ==> (was[s] <==> field[s])
      invariant forall s :: 0 <= s < |was| ==> v.used[s] == if repair && v.datastart <= s < i then field[s] else was[s]
      invariant !repair ==> v.freeSectors == old(v.freeSectors)
    {
      var val := v.InUse(i);
      assert val == was[i];
      CountNext(was, v.datastart, i);
      if !val { freeSects := freeSects + 1; }
      if val != field[i] {
        if repair { v.SetBit(i, field[i]); }
        j := j + 1;
      }
      FieldFits(v);
      i := i + 1;
    }
    assert was[..i] == was;
    assert forall s :: 0 <= s < field.Length ==> (field[s] <==> s in all);
    if !repair || j == 0 { assert v.used == was; }
  }

  lemma FieldFits(v: Volume)
    requires v.Layout()
    ensures |v.used| == v.dataend + 1 && 1 <= v.datastart <= v.dataend
  {
  }

  lemma NoneCounted(b: seq<bool>, lo: nat)
    requires lo <= |b|
    ensures FreeCount(b[..lo], lo) == 0
  {
  }

  //////////////////////////////////////////////////////////////////////////////
  // The whole check
  //////////////////////////////////////////////////////////////////////////////

  // what a volume is like after a check without complaints
  ghost predicate Sound(v: Volume, fat: seq<int>)
    requires v.Layout()
    reads v
  {
    && Successors(fat, v.maxCluster + 1) && NoneDead(fat, v.mdfat, v.maxCluster + 1)
    && MdfatGood(v.mdfat, v.disk, v.datastart, v.dataend, v.sectperclust, v.maxCluster + 1)
    && BitmapIs(v.used, v.datastart, AllSectors(v.mdfat, v.disk, v.sectperclust, v.maxCluster + 1))
  }

  // the MDFAT the second part of the check looks at
  ghost function AfterPart1(v: Volume, fat: seq<int>, repair: bool): seq<Mde>
    requires v.Layout() && |fat| == v.maxCluster + 1
    reads v
  {
    if repair then Buried(fat, v.mdfat, v.maxCluster + 1) else v.mdfat
  }

  // Part 2 finds nothing to complain about in the table t.
  ghost predicate TableGood(v: Volume, t: seq<Mde>)
    requires v.Layout()
    reads v
  {
    |t| == v.maxCluster + 1 && MdfatGood(t, v.disk, v.datastart, v.dataend, v.sectperclust, v.maxCluster + 1)
  }

  // simple_check: what each result says of the volume before the check. Without repair 0 means that it is
  // sound. With repair it is made sound if the FAT and the rest of the MDFAT are in order; then the number of
  // free sectors is the one from before the repair. Otherwise the bitmap stays as it is.
  method SimpleCheck(v: Volume, fat: seq<int>, repair0: bool, readOnly: bool) returns (res: int)
    requires v.Layout() && FatFits(fat, v.maxCluster)
    modifies v`mdfat, v`used, v`freeSectors
    ensures v.Layout() && (res == 0 || res == -1 || res == -2 || res == -3)
    ensures res == -1 <==> !Successors(fat, v.maxCluster + 1)
    ensures var repair := repair0 && !readOnly;
            && (res == -2 <==> Successors(fat, v.maxCluster + 1)
                               && ((!repair && !NoneDead(fat, old(v.mdfat), v.maxCluster + 1)) || !old(TableGood(v, AfterPart1(v, fat, repair)))))
            && (res == -3 <==> !repair && Successors(fat, v.maxCluster + 1) && NoneDead(fat, old(v.mdfat), v.maxCluster + 1)
                               && old(TableGood(v, v.mdfat)) && !old(Sound(v, fat)))
            && (!repair ==> v.mdfat == old(v.mdfat) && v.used == old(v.used) && (res == 0 <==> old(Sound(v, fat))))
            && (repair ==> (res == 0 <==> Successors(fat, v.maxCluster + 1) && old(TableGood(v, AfterPart1(v, fat, true)))))
            && (repair && res != -1 ==> v.mdfat == old(AfterPart1(v, fat, true)))
            && (repair && res == -1 ==> exists n :: FirstClash(fat, n, v.maxCluster + 1) && v.mdfat == Buried(fat, old(v.mdfat), n))
    ensures res == 0 ==> Sound(v, fat) && v.freeSectors == FreeCount(old(v.used), v.datastart)
    ensures res != 0 ==> v.used == old(v.used) && v.freeSectors == old(v.freeSectors)
    ensures forall s :: 0 <= s < v.datastart ==> v.used[s] == old(v.used[s])
  {
    hide FreeCount, MdfatGood, Stored, Successors, NoneDead, Buried, BitmapIs, FirstClash;
    var repair := repair0 && !readOnly;
    ghost var t := AfterPart1(v, fat, repair);
    res := CheckFat(v, fat, repair);
    if res != 0 { return; }
    assert v.mdfat == t;
    var field;
    res, field := CheckMdfat(v);
    if res != 0 { return; }
    ghost var all := AllSectors(v.mdfat, v.disk, v.sectperclust, v.maxCluster + 1);
    var j, free := CheckBitfat(v, field, repair, all);
    if j != 0 && !repair { return -3; }
    v.freeSectors := free;
    res := 0;
  }

  //////////////////////////////////////////////////////////////////////////////
  // A sound volume is safe
  //////////////////////////////////////////////////////////////////////////////

  lemma NoDupShorter(a: seq<nat>, b: seq<nat>)
    requires a <= b && NoDup(b)
    ensures NoDup(a)
  {
    assert forall i :: 0 <= i < |a| ==> a[i] == b[i];
  }

  // the sectors of a good entry lie in the data area
  lemma EntryInside(m: Mde, disk: seq<Sector>, lo: nat, hi: nat, spc: nat)
    requires spc <= 64 && hi < |disk| && EntryGood(m, disk, lo, hi, spc)
    ensures forall s :: s in Freed(m, disk, spc) ==> lo <= s <= hi
    ensures Owned(m, disk, spc) == Freed(m, disk, spc)
  {
    hide SectorsOf, FragAt;
    FreedOwned(m, disk, spc);
    if Used(m) {
      SectorsOne(FirstRun(m));
      if Fragmented(m) {
        var runs := ListRuns(disk[m.sectorMinus1 + 1]);
        forall s | s in SectorsOf(runs) ensures lo <= s <= hi {
          var i := SectorIn(runs, s);
          assert runs[i].sector + runs[i].count <= hi + 1;
        }
      }
    }
  }

  // a cluster inside all the sectors
  lemma ClusterPart(t: seq<Mde>, disk: seq<Sector>, lo: nat, hi: nat, spc: nat, c: nat, n: nat)
    requires spc <= 64 && hi < |disk| && 2 <= c < n <= |t| && MdfatGood(t, disk, lo, hi, spc, n)
    ensures NoDup(Freed(t[c], disk, spc)) && Disjoint(AllSectors(t, disk, spc, c), Freed(t[c], disk, spc))
    ensures forall s :: s in Freed(t[c], disk, spc) ==> s in AllSectors(t, disk, spc, c + 1)
    ensures forall s :: s in AllSectors(t, disk, spc, c + 1) ==> s in AllSectors(t, disk, spc, n)
  {
    hide Freed, EntryGood, NoDup;
    AllPrefix(t, disk, spc, c + 1, n);
    var a, b := AllSectors(t, disk, spc, c), Freed(t[c], disk, spc);
    assert AllSectors(t, disk, spc, c + 1) == a + b;
    NoDupShorter(a + b, AllSectors(t, disk, spc, n));
    NoDupFront(a, b);
    Within(a + b, AllSectors(t, disk, spc, n));
  }

  lemma Within(a: seq<nat>, b: seq<nat>)
    requires a <= b
    ensures forall s :: s in a ==> s in b
  {
  }

  lemma SectorsApart(t: seq<Mde>, disk: seq<Sector>, lo: nat, hi: nat, spc: nat, c: nat, d: nat, n: nat)
    requires spc <= 64 && hi < |disk| && 2 <= c < d < n <= |t| && MdfatGood(t, disk, lo, hi, spc, n)
    ensures Disjoint(Freed(t[c], disk, spc), Freed(t[d], disk, spc))
  {
    hide Freed, EntryGood, NoDup;
    ClusterPart(t, disk, lo, hi, spc, c, n);
    ClusterPart(t, disk, lo, hi, spc, d, n);
    AllPrefix(t, disk, spc, c + 1, d);
    Within(AllSectors(t, disk, spc, c + 1), AllSectors(t, disk, spc, d));
  }

  lemma NoneTwice()
    ensures NoDup([])
  {
  }

  // A sound volume with a right count satisfies the invariant the allocator keeps, if and only if no
  // cluster has more than spc + 1 sectors. simple_check does not look at that: it limits the number
  // of fragments but not the sum of their counts.
  lemma SoundValid(v: Volume, fat: seq<int>)
    requires v.Shape() && Sound(v, fat)
    ensures v.Valid() <==> forall c :: 0 <= c <= v.maxCluster ==> |Owned(v.mdfat[c], v.disk, v.sectperclust)| <= v.sectperclust + 1
  {
    hide Owned, Freed, EntryGood, AllSectors, NoDup;
    var t, disk, lo, hi, spc, n := v.mdfat, v.disk, v.datastart, v.dataend, v.sectperclust, v.maxCluster + 1;
    forall c | 0 <= c < n ensures Owned(t[c], disk, spc) == Freed(t[c], disk, spc) && Marked(Owned(t[c], disk, spc), v.used, lo) {
      if c < 2 {
        v.NothingOwned(t[c]);
        NoneTwice();
      } else {
        EntryInside(t[c], disk, lo, hi, spc);
        ClusterPart(t, disk, lo, hi, spc, c, n);
      }
    }
    forall c, d | 0 <= c < d < n ensures Disjoint(Owned(t[c], disk, spc), Owned(t[d], disk, spc)) {
      if c < 2 {
        v.NothingOwned(t[c]);
      } else {
        SectorsApart(t, disk, lo, hi, spc, c, d, n);
      }
    }
  }

  // an uncompressed cluster of one sector and four more, on a volume with two sectors a cluster
  const LONG_MDE := Mde(0, 0, 1, 3, 2)
  const LONG_LIST: seq<byte> := [2, 0, 0, 0, 0, 0, 0, 0, 1, 0, 0, 12]

  // A volume that passes the check without being valid.
  lemma SoundNotValid(v: Volume, fat: seq<int>)
    requires v.Layout() && v.version == DrvSp3 && v.datastart == 1 && v.dataend == 5 && v.sectperclust == 2
    requires v.maxCluster == 2 && fat == [0, 0, -1] && v.mdfat == [NO_MDE, NO_MDE, LONG_MDE]
    requires v.used == [false, true, true, true, true, true] && v.freeSectors == 0 && LONG_LIST <= v.disk[1]
    ensures v.Shape() && Sound(v, fat) && !v.Valid()
  {
    hide FreeCount;
    LongList(v.disk[1]);
    LongSectors(v.disk);
    AllUsed(v.used);
  }

  lemma LongList(sec: Sector)
    requires LONG_LIST <= sec
    ensures ListRuns(sec) == [Run(1, 1), Run(2, 4)] && ListOk(sec, LONG_MDE, 2)
  {
    assert sec[0] == LONG_LIST[0] && sec[1] == LONG_LIST[1] && sec[2] == LONG_LIST[2] && sec[3] == LONG_LIST[3];
    assert FragAt(sec, 1) == Run(1, 1) && FragAt(sec, 2) == Run(2, 4);
  }

  lemma LongSectors(disk: seq<Sector>)
    requires |disk| == 6 && LONG_LIST <= disk[1]
    ensures Owned(LONG_MDE, disk, 2) == [1, 2, 3, 4, 5] == Freed(LONG_MDE, disk, 2)
    ensures AllSectors([NO_MDE, NO_MDE, LONG_MDE], disk, 2, 3) == [1, 2, 3, 4, 5]
  {
    hide FragAt, ListRuns, SectorsOf;
    LongList(disk[1]);
    var front := [NO_MDE, NO_MDE, LONG_MDE];
    assert front[..2] == [NO_MDE, NO_MDE] && AllSectors(front, disk, 2, 2) == [];
    var a, b := Run(1, 1), Run(2, 4);
    SectorsOne(a);
    SectorsAdd([a], b);
    assert [a, b] == [a] + [b];
    assert RunList(1, 1) == [1] && RunList(2, 4) == [2, 3, 4, 5];
  }

  lemma AllUsed(used: seq<bool>)
    requires used == [false, true, true, true, true, true]
    ensures FreeCount(used, 1) == 0
  {
    assert FreeCount(used[..1], 1) == 0;
    assert used[..2][..1] == used[..1] && FreeCount(used[..2], 1) == 0;
    assert used[..3][..2] == used[..2] && FreeCount(used[..3], 1) == 0;
    assert used[..4][..3] == used[..3] && FreeCount(used[..4], 1) == 0;
    assert used[..5][..4] == used[..4] && FreeCount(used[..5], 1) == 0;
  }
}
