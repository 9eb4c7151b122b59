/**
 The sector allocator: BITFAT and MDFAT of a DoubleSpace or DriveSpace volume, the search for
 free sectors, and freeing and replacing clusters.
 */
module VolumeAlloc {
  import opened Bits
  import opened SectorMap
  import opened FragList
  import opened VolumeState

  const NEAR_AREA := 512
  const ENOSPC: int := -28
  const EIO: int := -5
  // a greater number of free sectors is not believed
  const FREE_LIMIT: int := 0x200_0000
  const CHECK_INTERVAL := 1000

  class Volume {
    const version: Version
    const datastart: nat
    const dataend: nat
    const sectperclust: nat
    const maxCluster: nat
    // the switches SP_FAST_BITFAT_ALLOC, SP_NO_EXACT_SEARCH and SP_NO_FRAG_WRITE
    const fast: bool
    const noExact: bool
    const noFragWrite: bool
    var used: seq<bool>
    var mdfat: seq<Mde>
    var disk: seq<Sector>
    var freeSectors: int
    var lastnear: int
    var lastbig: int
    var full: nat
    // calls of check_free_sectors since the last count
    var fscCount: nat

    ghost predicate Layout()
      reads this
    {
      && 1 <= datastart <= dataend < MaxSectors(version) && 1 <= sectperclust <= MaxSize(version)
      && |used| == |disk| == dataend + 1 && |mdfat| == maxCluster + 1
      && (forall c :: 0 <= c < |mdfat| ==> Stored(version, mdfat[c]) == mdfat[c])
      && (forall c :: 0 <= c < |mdfat| && c < 2 ==> !Used(mdfat[c]))
    }

    ghost predicate Shape()
      reads this
    {
      Layout() && CountKnown()
    }

    // The number of free sectors is right if it is known at all.
    ghost predicate CountKnown()
      reads this
    {
      freeSectors >= 0 ==> freeSectors == FreeCount(used, datastart)
    }

    // every cluster but `but` owns its sectors
    ghost predicate SafeFor(but: nat)
      reads this
    {
      Shape() && Safe(mdfat, disk, used, datastart, sectperclust, but)
    }

    // The invariant of all operations.
    ghost predicate Valid()
      reads this
    {
      SafeFor(|mdfat|)
    }

    function BigHole(): nat {
      sectperclust * 3 + 2
    }

    //////////////////////////////////////////////////////////////////////////////
    // Table access
    //////////////////////////////////////////////////////////////////////////////

    // dbl_bitfat_value without a new value; sectors outside the data area count as used
    function InUse(s: int): (r: bool)
      requires Layout()
      reads this
      ensures r <==> !Free(used, datastart, s)
    {
      !(datastart <= s <= dataend) || used[s]
    }

    // dbl_bitfat_value with a new value
    method SetBit(s: nat, v: bool)
      requires Layout()
      modifies this`used, this`freeSectors
      ensures Layout() && used == if datastart <= s <= dataend then old(used)[s := v] else old(used)
      ensures old(CountKnown()) ==> CountKnown() && (freeSectors >= 0 <==> old(freeSectors) >= 0)
      ensures old(freeSectors) < 0 ==> freeSectors == old(freeSectors)
    {
      if datastart <= s <= dataend {
        CountSet(used, datastart, s, v);
        if freeSectors >= 0 && used[s] && !v { freeSectors := freeSectors + 1; }
        if freeSectors >= 0 && !used[s] && v { freeSectors := freeSectors - 1; }
        used := used[s := v];
      }
    }

    // sets the bits of the sectors listed, one after the other
    method SetSectors(list: seq<nat>, v: bool)
      requires Shape() && forall s :: s in list ==> datastart <= s <= dataend
      modifies this`used, this`freeSectors
      ensures Shape() && used == SetAll(old(used), list, v)
      ensures freeSectors >= 0 <==> old(freeSectors) >= 0
    {
      hide FreeCount;
      var i := 0;
      while i < |list|
        invariant i <= |list| && Shape() && used == SetAll(old(used), list[..i], v)
        invariant freeSectors >= 0 <==> old(freeSectors) >= 0
      {
        SetNext(old(used), list, i, v);
        assert list[i] in list;
        SetBit(list[i], v);
        i := i + 1;
      }
      assert list[..i] == list;
    }

    // check_free_sectors: counts if the number is unknown, and from time to time
    method CheckFreeSectors()
      requires Shape()
      modifies this`freeSectors, this`fscCount
      ensures Shape() && freeSectors == FreeCount(used, datastart)
    {
      if fscCount <= CHECK_INTERVAL && freeSectors >= 0 {
        fscCount := fscCount + 1;
        return;
      }
      fscCount := 0;
      var c := 0;
      var i := datastart;
      assert FreeCount(used[..datastart], datastart) == 0;
      while i <= dataend
        invariant Shape() && datastart <= i <= dataend + 1 && c == FreeCount(used[..i], datastart)
      {
        CountNext(used, datastart, i);
        if !InUse(i) { c := c + 1; }
        i := i + 1;
      }
      assert used[..i] == used;
      freeSectors := c;
    }

    // dbl_mdfat_value without a new value; false and an empty entry for an illegal cluster number
    method MdfatValue(c: int) returns (ok: bool, m: Mde)
      requires Layout()
      ensures ok <==> 2 <= c <= maxCluster
      ensures m == if ok then mdfat[c] else NO_MDE
    {
      if 2 <= c <= maxCluster { return true, mdfat[c]; }
      return false, NO_MDE;
    }

    method SetMdfatValue(c: int, m: Mde)
      requires Layout()
      modifies this`mdfat
      ensures Layout() && mdfat == if 2 <= c <= maxCluster then old(mdfat)[c := Stored(version, m)] else old(mdfat)
    {
      StoredTwice(version, m);
      if 2 <= c <= maxCluster { mdfat := mdfat[c := Stored(version, m)]; }
    }

    //////////////////////////////////////////////////////////////////////////////
    // Searching
    //////////////////////////////////////////////////////////////////////////////

    // how many sectors from s on are free, at most limit
    method CountFree(s: nat, limit: nat) returns (i: nat)
      requires Layout() && !InUse(s) && limit >= 1
      ensures 1 <= i <= limit && FreeRun(used, datastart, s, i)
      ensures i < limit ==> InUse(s + i)
    {
      i := 1;
      while i < limit && !InUse(s + i)
        invariant 1 <= i <= limit && FreeRun(used, datastart, s, i)
      {
        i := i + 1;
      }
    }

    // the same backwards
    method CountFreeBack(s: int, limit: nat) returns (i: nat)
      requires Layout() && !InUse(s) && limit >= 1
      ensures 1 <= i <= limit && FreeRun(used, datastart, s - i + 1, i)
      ensures i < limit ==> InUse(s - i)
    {
      i := 1;
      while i < limit && !InUse(s - i)
        invariant 1 <= i <= limit && FreeRun(used, datastart, s - i + 1, i)
      {
        i := i + 1;
      }
    }

    // No run of n free sectors starts from a up to b.
    ghost predicate NoRun(a: int, b: int, n: nat)
      reads this`used
    {
      forall s :: a <= s <= b ==> !FreeRun(used, datastart, s, n)
    }

    // The first place from `from` up to `last` where exactly `want` sectors are counted, counting up
    // to `limit`. With limit == want this finds any hole large enough, with a greater limit
    // only holes that end there. 0 if there is none.
    method Forward(from: int, last: int, limit: nat, want: nat) returns (r: int)
      requires Layout() && 1 <= want <= limit <= want + 1
      ensures r == 0 || (from <= r <= last && FreeRun(used, datastart, r, want))
      ensures r != 0 && limit > want ==> InUse(r + want)
      ensures r == 0 && limit == want ==> NoRun(from, last, want)
    {
      var testsek := from;
      while testsek <= last
        invariant testsek >= from && (limit == want ==> NoRun(from, testsek - 1, want))
        decreases last - testsek
      {
        if InUse(testsek) {
          testsek := testsek + 1;
          continue;
        }
        var i := CountFree(testsek, limit);
        if i == want { return testsek; }
        if limit == want { Blocked(testsek, i, want); }
        testsek := testsek + i;
      }
      r := 0;
    }

    // A used sector blocks all runs that would contain it.
    lemma Blocked(s: int, i: nat, n: nat)
      requires Layout() && i < n && InUse(s + i)
      ensures NoRun(s, s + i - 1, n)
    {
      forall t | s <= t <= s + i - 1 ensures !FreeRun(used, datastart, t, n) {
        assert !Free(used, datastart, s + i) && t <= s + i < t + n;
      }
    }

    // exactly fitting holes from `from` downwards
    method Backward(from: int, last: int, want: nat) returns (r: int)
      requires Layout() && 1 <= want
      ensures r == 0 || (FreeRun(used, datastart, r, want) && InUse(r - 1) && datastart <= r <= from)
    {
      var testsek := from;
      while testsek > last
        invariant testsek <= from
        decreases testsek - last
      {
        if InUse(testsek) {
          testsek := testsek - 1;
          continue;
        }
        var i := CountFreeBack(testsek, want + 1);
        if i == want {
          assert Free(used, datastart, testsek - i + 1);
          return testsek - i + 1;
        }
        testsek := testsek - i;
      }
      r := 0;
    }

    // search in the near environment of sectornr
    method SearchNear(sectornr: int, size: nat) returns (r: int)
      requires Shape() && size >= 1
      modifies this`lastnear, this`full
      ensures Shape() && (r == 0 || (r > 0 && FreeRun(used, datastart, r, size) && (InUse(r + size) || InUse(r - 1))))
    {
      var near := if sectornr == 0 then lastnear else sectornr;
      r := 0;
      if datastart <= near <= dataend - size {
        r := Forward(near, near + NEAR_AREA - 1, size + 1, size);
        if r == 0 { r := Backward(near, near - NEAR_AREA, size); }
        if r != 0 {
          full := 0;
          lastnear := r;
        }
      }
    }

    // search for a big hole, from where the last one was found
    method SearchBig(size: nat) returns (r: int)
      requires Shape() && size >= 1
      modifies this`lastbig, this`full
      ensures Shape() && (r == 0 || (r > 0 && FreeRun(used, datastart, r, BigHole())))
    {
      if lastbig == -1 { return 0; }
      var from := lastbig;
      if from < datastart || from + size > dataend { from := datastart; }
      r := Forward(from, dataend - size, BigHole(), BigHole());
      if r != 0 {
        full := 0;
        lastbig := r;
      } else {
        lastbig := if lastbig == 0 then -1 else 0;
      }
    }

    // search for any hole, beginning with the last result
    method SearchFast(size: nat) returns (r: int)
      requires Shape() && size >= 1
      modifies this`lastnear, this`full
      ensures Shape() && (r == 0 || (r > 0 && FreeRun(used, datastart, r, size)))
    {
      var from := lastnear;
      if from < datastart || from > dataend - size { from := datastart; }
      r := Forward(from, dataend - size, size, size);
      if r != 0 {
        lastnear := r + size;
        full := 0;
      }
    }

    // exactly fitting holes in the whole area
    method SearchExact(size: nat) returns (r: int)
      requires Shape() && size >= 1
      modifies this`full
      ensures Shape() && (r == 0 || (r > 0 && FreeRun(used, datastart, r, size) && InUse(r + size)))
    {
      r := 0;
      if !noExact {
        r := Forward(datastart, dataend - size, size + 1, size);
        if r != 0 { full := 0; }
      }
      if r == 0 && full == 0 { full := 1; }
    }

    // The result of a search: a place for size sectors, or certainty that the area from datastart
    // to dataend - size offers none. The last possible place, dataend - size + 1, is not tried.
    ghost predicate Found(r: int, size: nat)
      reads this
    {
      if r > 0 then FreeRun(used, datastart, r, size)
      else
        && (r == 0 || r == ENOSPC) && NoRun(datastart, dataend - size, size)
        && (r == ENOSPC ==> FreeCount(used, datastart) < size)
    }

    // A longer run starts with a shorter one.
    lemma RunPart(r: int, n: nat, m: nat)
      requires FreeRun(used, datastart, r, n) && m <= n
      ensures FreeRun(used, datastart, r, m)
    {
    }

    // With too few free sectors there is no run.
    lemma TooFew(n: nat)
      requires Layout() && n > 0 && FreeCount(used, datastart) < n
      ensures NoRun(datastart, dataend - n, n)
    {
      hide FreeCount;
      forall s | datastart <= s <= dataend - n ensures !FreeRun(used, datastart, s, n) {
        if FreeRun(used, datastart, s, n) { RunCounts(used, datastart, s, n); }
      }
    }

    // the searches in the order of the old strategy
    method SearchOld(sectornr: int, size: nat) returns (r: int)
      requires Shape() && 1 <= size <= BigHole()
      modifies this`lastnear, this`lastbig, this`full
      ensures Shape() && r >= 0 && (r == 0 || FreeRun(used, datastart, r, size))
    {
      hide FreeRun, FreeCount;
      r := SearchNear(sectornr, size);
      if r != 0 { return; }
      r := SearchBig(size);
      if r != 0 {
        RunPart(r, BigHole(), size);
        return;
      }
      r := SearchExact(size);
    }

    // find_free_bitfat
    method FindFree(sectornr: int, size: nat) returns (r: int)
      requires Shape() && 1 <= size <= BigHole()
      modifies this`freeSectors, this`fscCount, this`lastnear, this`lastbig, this`full
      ensures Shape() && freeSectors >= 0 && Found(r, size)
      ensures r <= 0 ==> full != 0 && (r == ENOSPC || version != DrvSp3 ==> full == 2)
    {
      hide FreeRun, FreeCount;
      if freeSectors < 0 || freeSectors > FREE_LIMIT { CheckFreeSectors(); }
      if freeSectors < size {
        full := 2;
        TooFew(size);
        return ENOSPC;
      }
      if fast {
        r := SearchFast(size);
      } else {
        r := SearchOld(sectornr, size);
      }
      if r != 0 { return; }
      r := Forward(datastart, dataend - size, size, size);
      if r != 0 { return; }
      full := if version == DrvSp3 then (if full == 0 then 1 else full) else 2;
    }

    //////////////////////////////////////////////////////////////////////////////
    // Fragmented space
    //////////////////////////////////////////////////////////////////////////////

    // The fragments collected so far, and the list in memory.
    static ghost predicate Listed(runs: seq<Run>, list: seq<byte>) {
      && Proper(runs) && |runs| < 66 && |list| == 264 && ListBytes(runs) <= list
    }

    // one pass over the free sectors from `from` on, until nr of them are collected
    method Collect(from: nat, nr: nat, fraglist: array<byte>) returns (cnt: nat, sector: nat, ghost runs: seq<Run>)
      requires Layout() && datastart <= from && 1 <= nr <= 65 && fraglist.Length == 264
      modifies fraglist
      ensures Collected(runs, used, datastart, sector) && Total(runs) + cnt == nr && Listed(runs, fraglist[..])
      ensures cnt > 0 && from == datastart ==> FreeCount(used, datastart) < nr
    {
      hide FreeCount, FreeRun, Collected, Listed, Total;
      fraglist[0], fraglist[1], fraglist[2], fraglist[3] := 0, 0, 0, 0;
      cnt, sector, runs := nr, from, [];
      var frags := 0;
      NothingCollected(from, fraglist[..]);
      while cnt > 0 && sector <= dataend
        invariant Collected(runs, used, datastart, sector) && Total(runs) + cnt == nr && |runs| == frags <= Total(runs)
        invariant Listed(runs, fraglist[..]) && datastart <= from <= sector
        invariant cnt > 0 && from == datastart ==> Total(runs) == FreeCount(used[..Cap(sector)], datastart)
        decreases dataend + 1 - sector
      {
        if InUse(sector) {
          CountNext(used, datastart, sector);
          CollectedMore(runs, sector);
          sector := sector + 1;
          continue;
        }
        var i := CountFree(sector, cnt);
        ghost var r := Run(sector, i);
        frags := frags + 1;
        PutFragment(fraglist, frags, sector, i, runs);
        CollectedAdd(runs, used, datastart, sector, r, sector + i + 1);
        TotalAdd(runs, r);
        if i < cnt { CountPast(sector, i); }
        runs := runs + [r];
        sector := sector + i + 1;
        cnt := cnt - i;
      }
      if cnt > 0 { assert used[..Cap(sector)] == used; }
    }

    ghost function Cap(sector: nat): nat {
      if sector <= dataend then sector else dataend + 1
    }

    lemma NothingCollected(from: nat, list: seq<byte>)
      requires Layout() && datastart <= from && |list| == 264 && list[0] == list[1] == list[2] == list[3] == 0
      ensures Collected([], used, datastart, from) && Total([]) == 0 && Listed([], list)
      ensures from == datastart ==> FreeCount(used[..Cap(from)], datastart) == 0
    {
    }

    lemma CollectedMore(runs: seq<Run>, upto: nat)
      requires Collected(runs, used, datastart, upto)
      ensures Collected(runs, used, datastart, upto + 1)
    {
    }

    // counting past a run and the used sector behind it
    lemma CountPast(s: nat, i: nat)
      requires Layout() && datastart <= s && FreeRun(used, datastart, s, i) && InUse(s + i) && i >= 1
      ensures s + i <= dataend + 1
      ensures FreeCount(used[..Cap(s + i + 1)], datastart) == FreeCount(used[..s], datastart) + i
    {
      hide FreeCount;
      assert Free(used, datastart, s + i - 1);
      CountRun(used, datastart, s, i);
      if s + i <= dataend { CountNext(used, datastart, s + i); }
    }

    // enters a fragment in the list
    method PutFragment(fraglist: array<byte>, frags: nat, sector: nat, i: nat, ghost runs: seq<Run>)
      requires fraglist.Length == 264 && Listed(runs, fraglist[..]) && frags == |runs| + 1 < 66 && sector >= 1 && i >= 1
      modifies fraglist
      ensures Listed(runs + [Run(sector, i)], fraglist[..])
    {
      hide ListBytes, FragBytes, CountByte, Proper;
      ghost var r, was := Run(sector, i), fraglist[..];
      PutBytes(fraglist, frags, sector, i);
      ListGrows(runs, r, was, fraglist[..]);
    }

    method PutBytes(fraglist: array<byte>, frags: nat, sector: nat, i: nat)
      requires fraglist.Length == 264 && frags < 66 && frags >= 1 && sector >= 1 && i >= 1
      modifies fraglist
      ensures fraglist[..] == [frags as byte] + old(fraglist[1..4 * frags]) + FragBytes(Run(sector, i)) + old(fraglist[4 * frags + 4..])
    {
      hide CountByte;
      var s := sector - 1;
      fraglist[frags * 4] := s % 0x100;
      fraglist[frags * 4 + 1] := s / 0x100 % 0x100;
      fraglist[frags * 4 + 2] := s / 0x1_0000 % 0x100;
      fraglist[frags * 4 + 3] := CountByte(Run(sector, i));
      fraglist[0] := frags;
    }

    lemma ListGrows(runs: seq<Run>, r: Run, was: seq<byte>, list: seq<byte>)
      requires Listed(runs, was) && |runs| + 1 < 66 && r.sector >= 1 && r.count >= 1
      requires var n := 4 * (|runs| + 1); list == [(|runs| + 1) as byte] + was[1..n] + FragBytes(r) + was[n + 4..]
      ensures Listed(runs + [r], list)
    {
      hide EntryBytes, FragBytes;
      var n, b := 4 * (|runs| + 1), ListBytes(runs);
      ListAdd(runs, r);
      assert was[..n] == b && was[1..n] == b[1..] == b[1..4] + b[4..] && b[1..4] == [0, 0, 0];
      assert list[..n + 4] == [(|runs| + 1) as byte] + ([0, 0, 0] + b[4..]) + FragBytes(r)
          == [(|runs| + 1) as byte, 0, 0, 0] + b[4..] + FragBytes(r);
    }

    // The fragments put together for nr sectors.
    ghost predicate Fragments(runs: seq<Run>, nr: nat, list: seq<byte>)
      reads this`used
    {
      && Rising(runs) && AllFree(runs, used, datastart) && Total(runs) == nr && 2 <= |runs| <= nr && Listed(runs, list)
    }

    // try_fragmented
    method TryFragmented(anear: int, nr: nat, fraglist: array<byte>) returns (res: int, ghost runs: seq<Run>)
      requires Layout() && 1 <= nr <= sectperclust + 1 && fraglist.Length == 264
      modifies fraglist, this`lastnear, this`full
      ensures Layout() && (res == 0 || res == ENOSPC || res == EIO)
      ensures res == 0 ==> Fragments(runs, nr, fraglist[..])
      ensures res == ENOSPC ==> freeSectors < nr || FreeCount(used, datastart) < nr
      ensures res == EIO ==> |runs| == 1 && FreeRun(used, datastart, runs[0].sector, nr)
    {
      hide FreeCount, FreeRun, Collected, Listed, Total;
      runs := [];
      if freeSectors < nr {
        full := 2;
        return ENOSPC, runs;
      }
      var sector := if anear == 0 then lastnear else anear;
      var again := true;
      if sector < datastart || sector > dataend {
        sector := datastart;
        again := false;
      }
      var cnt;
      cnt, sector, runs := Collect(sector, nr, fraglist);
      if cnt > 0 && again {
        cnt, sector, runs := Collect(datastart, nr, fraglist);
      }
      if cnt > 0 {
        full := 2;
        return ENOSPC, runs;
      }
      CollectedAll(runs, nr, sector, fraglist[..]);
      var frags := fraglist[0];
      if frags < 2 || frags as int > sectperclust + 1 { return EIO, runs; }
      lastnear := sector;
      full := 1;
      res := 0;
    }

    lemma CollectedAll(runs: seq<Run>, nr: nat, upto: nat, list: seq<byte>)
      requires Collected(runs, used, datastart, upto) && Total(runs) == nr && 1 <= nr && Listed(runs, list)
      ensures 1 <= |runs| <= nr && list[0] == |runs| && Rising(runs) && AllFree(runs, used, datastart)
      ensures |runs| == 1 ==> FreeRun(used, datastart, runs[0].sector, nr)
    {
      hide FreeRun;
      TotalMany(runs, used, datastart);
      assert ListBytes(runs)[0] == list[0];
      if |runs| == 1 { assert runs == [] + [runs[0]]; TotalAdd([], runs[0]); }
    }

    //////////////////////////////////////////////////////////////////////////////
    // Freeing and replacing clusters
    //////////////////////////////////////////////////////////////////////////////

    // The entry dbl_mdfat_value reports, and the place that stands for a cluster in the invariant.
    ghost function Entry(c: int): Mde
      requires Layout()
      reads this
    {
      if 2 <= c <= maxCluster then mdfat[c] else NO_MDE
    }

    ghost function Key(c: int): nat
      requires Layout()
      reads this
    {
      if 2 <= c <= maxCluster then c else maxCluster + 1
    }

    ghost function OwnedBy(c: int): seq<nat>
      requires Layout()
      reads this
    {
      Owned(Entry(c), disk, sectperclust)
    }

    ghost function FreedBy(c: int): seq<nat>
      requires Layout()
      reads this
    {
      Freed(Entry(c), disk, sectperclust)
    }

    // what Valid says about one cluster
    lemma ClusterSafe(c: int)
      requires Valid()
      ensures SafeFor(Key(c)) && Clear(mdfat, disk, sectperclust, Key(c), OwnedBy(c))
      ensures Marked(OwnedBy(c), used, datastart) && |OwnedBy(c)| <= sectperclust + 1
      ensures FreedBy(c) <= OwnedBy(c) && Marked(FreedBy(c), used, datastart)
      ensures Clear(mdfat, disk, sectperclust, Key(c), FreedBy(c))
      ensures Used(Entry(c)) ==> datastart <= Entry(c).sectorMinus1 + 1 <= dataend
    {
      hide Safe, Clear, Owned, Freed;
      FreedOwned(Entry(c), disk, sectperclust);
      if 2 <= c <= maxCluster {
        SafeBut(mdfat, disk, used, datastart, sectperclust, c);
        if Used(Entry(c)) { FirstOwned(Entry(c), disk, sectperclust); }
      } else {
        NothingOwned(Entry(c));
      }
      PartSafe(FreedBy(c), OwnedBy(c), Key(c));
    }

    lemma NothingOwned(m: Mde)
      requires Layout() && !Used(m)
      ensures Owned(m, disk, sectperclust) == [] && Freed(m, disk, sectperclust) == []
      ensures forall but :: Clear(mdfat, disk, sectperclust, but, [])
    {
      hide ListOk;
    }

    lemma PartSafe(a: seq<nat>, b: seq<nat>, but: nat)
      requires Layout() && a <= b && Marked(b, used, datastart) && Clear(mdfat, disk, sectperclust, but, b)
      ensures Marked(a, used, datastart) && Clear(mdfat, disk, sectperclust, but, a)
    {
      hide Owned;
      assert forall i :: 0 <= i < |a| ==> a[i] == b[i];
      InArea(a, b);
      forall c | 0 <= c < |mdfat| && c != but ensures Disjoint(Owned(mdfat[c], disk, sectperclust), a) {
        assert Disjoint(Owned(mdfat[c], disk, sectperclust), b);
      }
    }

    // Cluster c no longer owns anything.
    lemma Emptied(c: int)
      requires Layout() && SafeFor(Key(c)) && !Used(Entry(c))
      ensures Valid()
    {
      hide Safe, Clear, Owned, Freed;
      NothingOwned(Entry(c));
      if 2 <= c <= maxCluster { SafeAll(mdfat, disk, used, datastart, sectperclust, c); }
    }

    // u_free_cluster_sectors; the undo list names the sectors freed
    method FreeClusterSectors(c: int) returns (undo: seq<nat>)
      requires Valid()
      modifies this`used, this`freeSectors, this`mdfat, this`full
      ensures Valid() && undo == old(FreedBy(c)) && used == SetAll(old(used), undo, false)
      ensures mdfat == if 2 <= c <= maxCluster then old(mdfat)[c := NO_MDE] else old(mdfat)
      ensures (freeSectors >= 0 <==> old(freeSectors) >= 0) && (!old(Used(Entry(c))) ==> full == old(full))
    {
      hide Safe, Clear, Marked, Owned, Freed, SectorsOf;
      ClusterSafe(c);
      ghost var own, k := FreedBy(c), Key(c);
      var ok, m := MdfatValue(c);
      SetMdfatValue(c, NO_MDE);
      KeepEntry(old(mdfat), c, own, NO_MDE);
      undo := [];
      if Used(m) {
        undo := FreeSectorsOf(m, own);
        full := 0;
      } else {
        assert own == [] by { NothingOwned(m); }
      }
      FreedSafe(old(used), undo, k);
      Emptied(c);
    }

    // clears the bits of the sectors of the entry m
    method FreeSectorsOf(m: Mde, ghost own: seq<nat>) returns (undo: seq<nat>)
      requires Shape() && Used(m) && own == Freed(m, disk, sectperclust) && Marked(own, used, datastart)
      requires m.sectorMinus1 + 1 < |disk|
      modifies this`used, this`freeSectors
      ensures Shape() && undo == own && used == SetAll(old(used), own, false)
      ensures freeSectors >= 0 <==> old(freeSectors) >= 0
    {
      hide FreeCount, FragAt, SetAll, NoDup;
      var sec := disk[m.sectorMinus1 + 1];
      MarkedArea(own);
      if Fragmented(m) && 1 <= sec[0] as int <= sectperclust && sec[1] == 0 && sec[2] == 0 && sec[3] == 0
         && FragAt(sec, 1) == FirstRun(m) {
        undo := FreeFragments(sec);
      } else {
        undo := RunList(m.sectorMinus1 + 1, m.sizeLoMinus1 + 1);
        SectorsOne(FirstRun(m));
        SetSectors(undo, false);
      }
    }

    lemma MarkedArea(own: seq<nat>)
      requires Layout() && Marked(own, used, datastart)
      ensures forall s :: s in own ==> datastart <= s <= dataend
    {
    }

    // clears the bits of all fragments listed
    method FreeFragments(sec: Sector) returns (undo: seq<nat>)
      requires Shape() && sec[0] as int <= sectperclust && forall s :: s in SectorsOf(ListRuns(sec)) ==> datastart <= s <= dataend
      modifies this`used, this`freeSectors
      ensures Shape() && undo == SectorsOf(ListRuns(sec)) && used == SetAll(old(used), undo, false)
      ensures freeSectors >= 0 <==> old(freeSectors) >= 0
    {
      hide FreeCount, FragAt, SectorsOf, SetAll;
      ghost var runs := ListRuns(sec);
      undo := [];
      var i: nat := 1;
      NoneFreed(old(used), runs);
      while i <= sec[0] as int
        invariant 1 <= i <= sec[0] as int + 1 && Shape() && undo == SectorsOf(runs[..i - 1])
        invariant used == SetAll(old(used), undo, false) && (freeSectors >= 0 <==> old(freeSectors) >= 0)
      {
        var r := FragAt(sec, i);
        var list := RunList(r.sector, r.count);
        assert runs[..i] == runs[..i - 1] + [r];
        SectorsAdd(runs[..i - 1], r);
        SectorsPrefix(runs, i);
        SetConcat(old(used), undo, list, false);
        InArea(undo + list, SectorsOf(runs));
        forall x | x in list ensures datastart <= x <= dataend { assert x in undo + list; }
        SetSectors(list, false);
        undo := undo + list;
        i := i + 1;
      }
      assert runs[..i - 1] == runs;
    }

    lemma InArea(a: seq<nat>, b: seq<nat>)
      requires a <= b
      ensures forall s :: s in a ==> s in b
    {
    }

    lemma NoneFreed(b: seq<bool>, runs: seq<Run>)
      ensures SectorsOf(runs[..0]) == [] && forall v :: SetAll(b, [], v) == b
    {
    }

    // The entry of c is changed; the sectors still belong to no other cluster.
    lemma KeepEntry(was: seq<Mde>, c: int, own: seq<nat>, m: Mde)
      requires Layout() && |was| == |mdfat| && mdfat == (if 2 <= c <= maxCluster then was[c := Stored(version, m)] else was)
      requires Safe(was, disk, used, datastart, sectperclust, Key(c)) && Clear(was, disk, sectperclust, Key(c), own)
      ensures Safe(mdfat, disk, used, datastart, sectperclust, Key(c)) && Clear(mdfat, disk, sectperclust, Key(c), own)
      ensures Stored(version, NO_MDE) == NO_MDE
    {
      hide Safe, Clear;
      if 2 <= c <= maxCluster {
        SafeEntry(was, disk, used, datastart, sectperclust, c, Stored(version, m));
        ClearEntry(was, disk, sectperclust, c, Stored(version, m), own);
      }
    }

    // Clearing bits of sectors no other cluster owns is safe for the others.
    lemma FreedSafe(was: seq<bool>, own: seq<nat>, but: nat)
      requires Layout() && |was| == |used| && used == SetAll(was, own, false)
      requires Safe(mdfat, disk, was, datastart, sectperclust, but) && Clear(mdfat, disk, sectperclust, but, own)
      ensures Safe(mdfat, disk, used, datastart, sectperclust, but)
    {
      hide Safe, Clear;
      forall s | 0 <= s < |was| && s !in own ensures used[s] == was[s] { SetAllAt(was, own, false, s); }
      SafeBits(mdfat, disk, was, used, datastart, sectperclust, but, own);
    }

    // bit for bit: the sectors in `own` are taken, those in `freed` given back
    ghost predicate Exchanged(was: seq<bool>, freed: seq<nat>, own: seq<nat>)
      reads this`used
    {
      |used| == |was| && forall s :: 0 <= s < |was| ==> (used[s] <==> s in own || (was[s] && s !in freed))
    }

    // The list in memory names the runs.
    static ghost predicate Describes(list: seq<byte>, runs: seq<Run>) {
      |list| == 264 && list[0] == |runs| <= 65 && list[1] == 0 && list[2] == 0 && list[3] == 0 && ListRuns(list) == runs
    }

    // The sectors `own` are at the disposal of cluster c, as entry m and the fragment list say.
    ghost predicate Granted(c: int, m: Mde, own: seq<nat>, runs: seq<Run>, size: nat)
      requires Layout()
      reads this
    {
      && Marked(own, used, datastart) && |own| <= sectperclust + 1
      && Clear(mdfat, disk, sectperclust, Key(c), own)
      && datastart <= m.sectorMinus1 + 1 <= dataend && m.sizeLoMinus1 < sectperclust
      && if Fragmented(m) then
           version == DrvSp3 && m.unknown == 2 && own == SectorsOf(runs) && |own| == size + 1 && 2 <= |runs| <= sectperclust + 1 && runs[0] == FirstRun(m)
         else m.unknown == 0 && m.sizeLoMinus1 + 1 == size && own == RunList(m.sectorMinus1 + 1, size)
    }

    // Marking free sectors for cluster c is safe.
    lemma TakenSafe(was: seq<bool>, c: int, own: seq<nat>)
      requires Shape() && |was| == |used| && Safe(mdfat, disk, was, datastart, sectperclust, |mdfat|)
      requires NoDup(own) && (forall s :: s in own ==> Free(was, datastart, s)) && used == SetAll(was, own, true)
      ensures Valid() && Exchanged(was, [], own) && Marked(own, used, datastart)
      ensures Clear(mdfat, disk, sectperclust, Key(c), own)
    {
      hide Safe, Clear, Owned, FreeCount;
      FreeClear(mdfat, disk, was, datastart, sectperclust, |mdfat|, own);
      forall s | 0 <= s < |was| ensures used[s] <==> s in own || was[s] { SetAllAt(was, own, true, s); }
      SafeBits(mdfat, disk, was, used, datastart, sectperclust, |mdfat|, own);
      ClearMore(mdfat, disk, sectperclust, Key(c), own);
    }

    lemma ClearMore(t: seq<Mde>, d: seq<Sector>, spc: nat, c: nat, own: seq<nat>)
      requires spc <= 64 && Clear(t, d, spc, |t|, own)
      ensures Clear(t, d, spc, c, own)
    {
      hide Owned, Disjoint;
    }

    // Are all the sectors free?
    method CheckFree(list: seq<nat>) returns (bad: bool)
      requires Layout()
      ensures bad <==> exists s :: s in list && InUse(s)
    {
      bad := false;
      var i := 0;
      while i < |list|
        invariant i <= |list| && (bad <==> exists s :: s in list[..i] && InUse(s))
      {
        assert list[..i + 1] == list[..i] + [list[i]];
        if InUse(list[i]) { bad := true; }
        i := i + 1;
      }
      assert list[..i] == list;
    }

    // one run of sectors for cluster c
    method TakeRun(c: int, sector: nat, size: nat, mde: Mde) returns (m: Mde, ghost own: seq<nat>)
      requires Valid() && 1 <= size <= sectperclust && FreeRun(used, datastart, sector, size) && sector >= 1
      requires mde.sizeLoMinus1 + 1 == size && mde.unknown == 0
      modifies this`used, this`freeSectors
      ensures Valid() && Exchanged(old(used), [], own) && (freeSectors >= 0 <==> old(freeSectors) >= 0)
      ensures Granted(c, m, own, [], size) && m == mde.(sectorMinus1 := sector - 1)
    {
      hide Safe, Clear, Owned, FreeCount, Exchanged;
      own := RunList(sector, size);
      m := mde.(sectorMinus1 := sector - 1);
      forall s | s in own ensures Free(used, datastart, s) { var i :| 0 <= i < size && own[i] == s; }
      assert Free(used, datastart, sector);
      var bad := CheckFree(RunList(sector, size));
      assert !bad;
      SetSectors(RunList(sector, size), true);
      TakenSafe(old(used), c, own);
    }

    lemma AnyFree(was: seq<bool>, a: seq<nat>, b: seq<nat>)
      requires Layout() && |was| == |used| && used == SetAll(was, a, true) && NoDup(a + b)
      requires forall s :: s in a + b ==> Free(was, datastart, s)
      ensures forall s :: s in b ==> datastart <= s <= dataend && !InUse(s)
    {
      forall s | s in b ensures datastart <= s <= dataend && !InUse(s) {
        var j :| 0 <= j < |b| && b[j] == s;
        assert (a + b)[|a| + j] == s && s in a + b;
        forall i | 0 <= i < |a| ensures a[i] != s { assert (a + b)[i] == a[i]; }
        SetAllAt(was, a, true, s);
      }
    }

    lemma NoDupPrefix(a: seq<nat>, b: seq<nat>)
      requires a <= b && NoDup(b)
      ensures NoDup(a)
    {
      assert forall i :: 0 <= i < |a| ==> a[i] == b[i];
    }

    // the fragments just found, taken for cluster c
    method TakeFragments(c: int, size: nat, mde: Mde, fraglist: array<byte>, ghost runs: seq<Run>) returns (m: Mde, ghost own: seq<nat>)
      requires Valid() && version == DrvSp3 && 1 <= size <= sectperclust && fraglist.Length == 264
      requires Rising(runs) && AllFree(runs, used, datastart) && Total(runs) == size + 1 && 2 <= |runs| <= size + 1
      requires Describes(fraglist[..], runs) && runs[0].count <= sectperclust
      modifies this`used, this`freeSectors
      ensures Valid() && Exchanged(old(used), [], own) && (freeSectors >= 0 <==> old(freeSectors) >= 0)
      ensures Granted(c, m, own, runs, size)
      ensures m == mde.(sectorMinus1 := m.sectorMinus1, sizeLoMinus1 := m.sizeLoMinus1, unknown := 2)
    {
      hide Safe, Clear, Owned, FreeCount, Exchanged, SectorsOf, FragAt, SetAll, FreeRun, NoDup, Rising, AllFree, Total;
      ghost var was := used;
      own := SectorsOf(runs);
      FragmentsFit(runs, size);
      m := mde;
      var i: nat := 1;
      ghost var done: seq<nat> := [];
      NoneFreed(was, runs);
      while i <= fraglist[0] as int
        invariant 1 <= i <= |runs| + 1 && Shape() && done == SectorsOf(runs[..i - 1])
        invariant used == SetAll(was, done, true) && (freeSectors >= 0 <==> old(freeSectors) >= 0)
        invariant m == if i == 1 then mde else mde.(sectorMinus1 := runs[0].sector - 1, sizeLoMinus1 := runs[0].count - 1)
      {
        var r := FragAt(fraglist[..], i);
        FragHasNumber(fraglist[..], i);
        if i == 1 { m := m.(sectorMinus1 := r.sector - 1, sizeLoMinus1 := r.count - 1); }
        var list := RunList(r.sector, r.count);
        assert runs[..i] == runs[..i - 1] + [r];
        SectorsAdd(runs[..i - 1], r);
        SectorsPrefix(runs, i);
        SetConcat(was, done, list, true);
        InArea(done + list, own);
        NoDupPrefix(done + list, own);
        AnyFree(was, done, list);
        var bad := CheckFree(list);
        assert !bad;
        SetSectors(list, true);
        done := done + list;
        i := i + 1;
      }
      assert runs[..i - 1] == runs;
      TakenSafe(was, c, own);
      m := m.(unknown := 2);
      assert runs[0].sector in own;
    }

    lemma FragHasNumber(sec: seq<byte>, k: nat)
      requires 4 * k + 4 <= |sec|
      ensures FragAt(sec, k).sector >= 1 && FragAt(sec, k).count >= 1
    {
    }

    // what is known of the sectors of fragments found
    lemma FragmentsFit(runs: seq<Run>, size: nat)
      requires Layout() && Rising(runs) && AllFree(runs, used, datastart) && Total(runs) == size + 1 && 2 <= |runs|
      ensures NoDup(SectorsOf(runs)) && |SectorsOf(runs)| == size + 1
      ensures forall s :: s in SectorsOf(runs) ==> Free(used, datastart, s)
      ensures runs[0].count >= 1 && runs[0].sector in SectorsOf(runs) && runs[0].sector >= 1
    {
      hide FreeRun;
      RisingNoDup(runs);
      TotalSize(runs);
      FreeSectors(runs, used, datastart);
      SectorsOne(runs[0]);
      SectorsPrefix(runs, 1);
      assert runs[..1] == [runs[0]];
      assert RunList(runs[0].sector, runs[0].count)[0] == runs[0].sector;
      InArea(SectorsOf([runs[0]]), SectorsOf(runs));
    }

    // The bitmap b has no place for size sectors, not even in fragments if those are allowed.
    ghost predicate NoSpace(b: seq<bool>, size: nat, mayFragment: bool) {
      && (forall s :: datastart <= s <= dataend - size ==> !FreeRun(b, datastart, s, size))
      && (version == DrvSp3 && mayFragment && !noFragWrite ==> FreeCount(b, datastart) < size + 1)
    }

    // Without a run of size sectors every fragment is short enough for its entry, and one is not enough.
    lemma FragmentsShort(runs: seq<Run>, size: nat, list: seq<byte>)
      requires Layout() && version == DrvSp3 && 1 <= size <= sectperclust && NoRun(datastart, dataend - size, size)
      requires Fragments(runs, size + 1, list)
      ensures Describes(list, runs) && runs[0].count <= sectperclust
    {
      hide EntryBytes, FragAt;
      forall i | 0 <= i < |runs| ensures Encodable(runs[i]) && runs[i].count <= size {
        var r := runs[i];
        assert Free(used, datastart, r.sector) && Free(used, datastart, r.sector + r.count - 1);
        if r.count > size { OneLess(r.sector, r.count, size); }
      }
      ListRoundTrip(runs, list);
    }

    // A run longer than size starts where the search looks.
    lemma OneLess(s: int, n: nat, size: nat)
      requires Layout() && FreeRun(used, datastart, s, n) && n > size >= 1
      ensures !NoRun(datastart, dataend - size, size)
    {
      RunPart(s, n, size);
      assert Free(used, datastart, s) && Free(used, datastart, s + n - 1);
    }

    // space for cluster c: one run, or as a last resort fragments with one sector more for the list
    method Grab(c: int, near: int, size: nat, mde: Mde, fraglist: array<byte>, mayFragment: bool)
      returns (ok: bool, m: Mde, ghost own: seq<nat>, ghost runs: seq<Run>)
      requires Valid() && 1 <= size <= sectperclust && mde.unknown == 0 && mde.sizeLoMinus1 + 1 == size && fraglist.Length == 264
      modifies this`used, this`freeSectors, this`fscCount, this`lastnear, this`lastbig, this`full, fraglist
      ensures Valid() && freeSectors >= 0
      ensures ok ==> Exchanged(old(used), [], own) && Granted(c, m, own, runs, size)
      ensures ok && Fragmented(m) ==> mayFragment && Describes(fraglist[..], runs)
      ensures ok ==> m.flags == mde.flags && m.sizeHiMinus1 == mde.sizeHiMinus1
      ensures !ok ==> used == old(used) && NoSpace(used, size, mayFragment)
    {
      hide Safe, Clear, Owned, FreeCount, Exchanged, FreeRun, Granted, NoRun, NoSpace, Fragments, Describes;
      runs, own, m := [], [], mde;
      var sector := FindFree(near, size);
      if sector > 0 {
        m, own := TakeRun(c, sector, size, mde);
        return true, m, own, runs;
      }
      ok := false;
      if version == DrvSp3 && mayFragment && !noFragWrite {
        var res;
        res, runs := TryFragmented(near, size + 1, fraglist);
        if res == 0 {
          FragmentsShort(runs, size, fraglist[..]);
          FragmentsParts(runs, size + 1, fraglist[..]);
          m, own := TakeFragments(c, size, mde, fraglist, runs);
          return true, m, own, runs;
        }
        if res == EIO { OneLess(runs[0].sector, size + 1, size); }
      }
      NoPlace(size, mayFragment);
    }

    lemma NoPlace(size: nat, mayFragment: bool)
      requires NoRun(datastart, dataend - size, size)
      requires version == DrvSp3 && mayFragment && !noFragWrite ==> FreeCount(used, datastart) < size + 1
      ensures NoSpace(used, size, mayFragment)
    {
      hide FreeRun, FreeCount;
    }

    lemma FragmentsParts(runs: seq<Run>, nr: nat, list: seq<byte>)
      requires Fragments(runs, nr, list)
      ensures Rising(runs) && AllFree(runs, used, datastart) && Total(runs) == nr && 2 <= |runs| <= nr
    {
    }

    // the sum of the counts in a list
    method SumCounts(sec: Sector) returns (sects: nat)
      requires sec[0] as int <= 65
      ensures sects == |SectorsOf(ListRuns(sec))|
    {
      hide FragAt;
      ghost var runs := ListRuns(sec);
      sects := 0;
      var k: nat := 1;
      NoTotal(runs);
      while k <= sec[0] as int
        invariant 1 <= k <= sec[0] as int + 1 && sects == Total(runs[..k - 1])
      {
        assert runs[..k] == runs[..k - 1] + [FragAt(sec, k)];
        TotalAdd(runs[..k - 1], FragAt(sec, k));
        sects := sects + FragAt(sec, k).count;
        k := k + 1;
      }
      assert runs[..k - 1] == runs;
      TotalSize(runs);
    }

    lemma NoTotal(runs: seq<Run>)
      ensures Total(runs[..0]) == 0
    {
    }

    // a fragmented cluster that already has as many sectors as needed
    method Reuse(c: int, old_mde: Mde, size: nat, mde: Mde, fraglist: array<byte>)
      returns (ok: bool, m: Mde, ghost own: seq<nat>, ghost runs: seq<Run>)
      requires Valid() && version == DrvSp3 && Used(old_mde) && Fragmented(old_mde) && old_mde == Entry(c)
      requires 1 <= size <= sectperclust && mde.unknown == 0 && fraglist.Length == 264
      modifies fraglist
      ensures ok ==> Exchanged(used, FreedBy(c), own) && Granted(c, m, own, runs, size) && Describes(fraglist[..], runs) && Fragmented(m)
      ensures ok ==> m.flags == mde.flags && m.sizeHiMinus1 == mde.sizeHiMinus1
      ensures ok ==> own == OwnedBy(c)
    {
      hide Safe, Clear, FreeCount, Marked, Owned, Freed, FragAt, SectorsOf;
      ok, m, own, runs := false, mde, [], [];
      ClusterSafe(c);
      var sec := disk[old_mde.sectorMinus1 + 1];
      var fragcount := sec[0];
      if fragcount < 2 || fragcount as int > sectperclust + 1 || sec[1] != 0 || sec[2] != 0 || sec[3] != 0 { return; }
      if FragAt(sec, 1) != FirstRun(old_mde) { return; }
      var sects := SumCounts(sec);
      if sects != size + 1 { return; }
      OwnedList(c, sec);
      runs, own := ListRuns(sec), OwnedBy(c);
      CopyList(sec, fraglist);
      OwnMarked(c, own);
      FirstShort(runs, sec);
      m := mde.(unknown := 2, sizeLoMinus1 := FragAt(sec, 1).count - 1, sectorMinus1 := FragAt(sec, 1).sector - 1);
      ok := true;
    }

    // The first of several fragments is not all of them.
    lemma FirstShort(runs: seq<Run>, sec: Sector)
      requires sec[0] as int <= 65 && runs == ListRuns(sec) && |runs| >= 2
      ensures runs[0].count < |SectorsOf(runs)|
    {
      hide SectorsOf;
      assert runs == [runs[0]] + [runs[1]] + runs[2..];
      SectorsConcat([runs[0]] + [runs[1]], runs[2..]);
      SectorsConcat([runs[0]], [runs[1]]);
      SectorsOne(runs[0]);
      SectorsOne(runs[1]);
    }

    lemma OwnedList(c: int, sec: Sector)
      requires Layout() && Used(Entry(c)) && Fragmented(Entry(c)) && Entry(c).sectorMinus1 + 1 < |disk|
      requires sec == disk[Entry(c).sectorMinus1 + 1] && ListOk(sec, Entry(c), sectperclust + 1)
      ensures OwnedBy(c) == SectorsOf(ListRuns(sec)) && ListRuns(sec)[0] == FirstRun(Entry(c))
    {
      hide FragAt, SectorsOf;
    }

    // What a cluster owns is marked already.
    lemma OwnMarked(c: int, own: seq<nat>)
      requires Layout() && own == OwnedBy(c) && Marked(own, used, datastart) && FreedBy(c) <= own
      ensures Exchanged(used, FreedBy(c), own)
    {
      hide Owned, Freed;
      InArea(FreedBy(c), own);
    }

    method CopyList(sec: Sector, fraglist: array<byte>)
      requires fraglist.Length == 264 && sec[0] as int <= 65 && sec[1] == 0 && sec[2] == 0 && sec[3] == 0
      modifies fraglist
      ensures Describes(fraglist[..], ListRuns(sec))
    {
      var n: nat := 4 * (sec[0] as int + 1);
      var i := 0;
      while i < n
        invariant i <= n && forall j :: 0 <= j < i ==> fraglist[j] == sec[j]
      {
        fraglist[i] := sec[i];
        i := i + 1;
      }
      SameList(sec, fraglist[..]);
    }

    static lemma SameList(sec: Sector, list: seq<byte>)
      requires |list| == 264 && sec[0] as int <= 65 && sec[1] == 0 && sec[2] == 0 && sec[3] == 0
      requires forall j :: 0 <= j < 4 * (sec[0] as int + 1) ==> list[j] == sec[j]
      ensures Describes(list, ListRuns(sec))
    {
      hide FragAt;
      var n: nat := sec[0] as int;
      assert list[0] == sec[0] && list[1] == sec[1] && list[2] == sec[2] && list[3] == sec[3];
      forall i | 0 <= i < n ensures ListRuns(list)[i] == ListRuns(sec)[i] { SameFrag(sec, list, i + 1); }
    }

    static lemma SameFrag(sec: Sector, list: seq<byte>, k: nat)
      requires |list| == 264 && k <= 65 && forall j :: 4 * k <= j < 4 * k + 4 ==> list[j] == sec[j]
      ensures FragAt(list, k) == FragAt(sec, k)
    {
    }

    //////////////////////////////////////////////////////////////////////////////
    // Replacing a cluster
    //////////////////////////////////////////////////////////////////////////////

    // What Replace leaves behind when it succeeds. A fragmented cluster is safe only after the
    // list has been written to its first sector.
    ghost predicate Replaced(c: int, m: Mde, own: seq<nat>, runs: seq<Run>, size: nat)
      reads this
    {
      && Shape() && Granted(c, m, own, runs, size) && Used(m)
      && (if Fragmented(m) then SafeFor(Key(c)) else Valid())
    }

    // the new entry is put into the table
    method PutEntry(c: int, m0: Mde, ghost own: seq<nat>, ghost runs: seq<Run>, ghost size: nat) returns (sector: int, m: Mde)
      requires Layout() && SafeFor(Key(c)) && Granted(c, m0, own, runs, size) && m0.flags < 4 && m0.sizeHiMinus1 < MaxSize(version)
      modifies this`mdfat
      ensures Replaced(c, m, own, runs, size) && sector == m.sectorMinus1 + 1 > 0
      ensures m == m0.(flags := WithUsed(m0.flags)) && mdfat == if 2 <= c <= maxCluster then old(mdfat)[c := m] else old(mdfat)
    {
      hide Safe, Clear, Marked, Owned, FreeCount, SectorsOf;
      m := m0.(flags := WithUsed(m0.flags));
      EntryFits(m);
      SetMdfatValue(c, m);
      KeepEntry(old(mdfat), c, own, m);
      sector := m.sectorMinus1 + 1;
      if !Fragmented(m) { PlainSafe(c, m, own); }
    }

    lemma EntryFits(m: Mde)
      requires Layout() && m.sectorMinus1 < dataend && m.sizeLoMinus1 < sectperclust && m.flags < 4 && m.sizeHiMinus1 < MaxSize(version)
      requires m.unknown == 0 || (m.unknown == 2 && version == DrvSp3)
      ensures Stored(version, m) == m
    {
    }

    // An unfragmented cluster is safe as soon as it is in the table.
    lemma PlainSafe(c: int, m: Mde, own: seq<nat>)
      requires Shape() && SafeFor(Key(c)) && Used(m) && !Fragmented(m) && (2 <= c <= maxCluster ==> mdfat[c] == m)
      requires Marked(own, used, datastart) && Clear(mdfat, disk, sectperclust, Key(c), own) && |own| <= sectperclust + 1
      requires own == RunList(m.sectorMinus1 + 1, m.sizeLoMinus1 + 1)
      ensures Valid()
    {
      hide Safe, Clear, Marked, Owned;
      if 2 <= c <= maxCluster {
        OwnedPlain(m, disk, sectperclust);
        SafeAll(mdfat, disk, used, datastart, sectperclust, c);
      }
    }

    // the entry and sectors of c stay as they are
    method Keep(c: int, old_mde: Mde, mde: Mde) returns (m: Mde, ghost own: seq<nat>)
      requires Valid() && Used(old_mde) && old_mde == Entry(c) && !Fragmented(old_mde) && mde.unknown == 0
      requires old_mde.sizeLoMinus1 == mde.sizeLoMinus1 < sectperclust
      ensures Exchanged(used, FreedBy(c), own) && Granted(c, m, own, [], mde.sizeLoMinus1 + 1) && SafeFor(Key(c))
      ensures m == mde.(sectorMinus1 := old_mde.sectorMinus1) && own == OwnedBy(c)
    {
      hide Safe, Clear, Marked, Owned, Freed, FreeCount;
      ClusterSafe(c);
      own := OwnedBy(c);
      OwnedPlain(old_mde, disk, sectperclust);
      OwnMarked(c, own);
      m := mde.(sectorMinus1 := old_mde.sectorMinus1);
    }

    // Bits freed first and taken then.
    lemma ExchangedAfter(was: seq<bool>, mid: seq<bool>, freed: seq<nat>, own: seq<nat>)
      requires |was| == |mid| && mid == SetAll(was, freed, false) && Exchanged(mid, [], own)
      ensures Exchanged(was, freed, own)
    {
      forall s | 0 <= s < |was| ensures used[s] <==> s in own || (was[s] && s !in freed) { SetAllAt(was, freed, false, s); }
    }

    // the sectors freed before are taken back
    method Undo(undo: seq<nat>, ghost was: seq<bool>)
      requires Valid() && |was| == |used| && used == SetAll(was, undo, false) && Marked(undo, was, datastart)
      requires Clear(mdfat, disk, sectperclust, |mdfat|, undo)
      modifies this`used, this`freeSectors
      ensures Valid() && used == was && (freeSectors >= 0 <==> old(freeSectors) >= 0)
    {
      hide Safe, Clear, Owned, FreeCount;
      ghost var mid := used;
      SetSectors(undo, true);
      SetTwice(was, undo, true);
      forall s | 0 <= s < |mid| && s !in undo ensures used[s] == mid[s] { SetAllAt(was, undo, false, s); }
      SafeBits(mdfat, disk, mid, used, datastart, sectperclust, |mdfat|, undo);
    }

    lemma AllClear(c: int, own: seq<nat>)
      requires Layout() && Clear(mdfat, disk, sectperclust, Key(c), own) && !Used(Entry(c))
      ensures Clear(mdfat, disk, sectperclust, |mdfat|, own)
    {
      hide Disjoint;
      NothingOwned(Entry(c));
      NoneDisjoint(own);
      if 2 <= c <= maxCluster { ClearOne(mdfat, disk, sectperclust, c, own); }
    }

    lemma NoneDisjoint(own: seq<nat>)
      ensures Disjoint([], own)
    {
    }

    lemma ClearOne(t: seq<Mde>, d: seq<Sector>, spc: nat, c: nat, own: seq<nat>)
      requires spc <= 64 && c < |t| && Clear(t, d, spc, c, own) && Disjoint(Owned(t[c], d, spc), own)
      ensures Clear(t, d, spc, |t|, own)
    {
      hide Owned, Disjoint;
    }

    // dbl_replace_existing_cluster; mayFragment says whether a fragment list is wanted
    method Replace(c: int, near: int, mde: Mde, fraglist: array<byte>, mayFragment: bool)
      returns (sector: int, m: Mde, ghost own: seq<nat>, ghost runs: seq<Run>)
      requires Valid() && fraglist.Length == 264
      requires mde.sizeLoMinus1 < sectperclust && mde.sizeHiMinus1 < MaxSize(version) && mde.flags < 4
      modifies this`used, this`freeSectors, this`fscCount, this`mdfat, this`lastnear, this`lastbig, this`full, fraglist
      ensures sector == ENOSPC || sector == m.sectorMinus1 + 1 > 0
      ensures sector > 0 ==>
                && Replaced(c, m, own, runs, mde.sizeLoMinus1 + 1) && Exchanged(old(used), old(FreedBy(c)), own)
                && mdfat == (if 2 <= c <= maxCluster then old(mdfat)[c := m] else old(mdfat))
                && m.flags == WithUsed(mde.flags) && m.sizeHiMinus1 == mde.sizeHiMinus1
      ensures sector > 0 && Fragmented(m) ==> mayFragment && Describes(fraglist[..], runs)
      ensures sector == ENOSPC ==>
                && Valid() && used == old(used) && NoSpace(SetAll(used, old(FreedBy(c)), false), mde.sizeLoMinus1 + 1, mayFragment)
                && mdfat == (if 2 <= c <= maxCluster && old(Used(Entry(c))) then old(mdfat)[c := NO_MDE] else old(mdfat))
    {
      hide Safe, Clear, Marked, Owned, Freed, FreeCount, Exchanged, Granted, Describes, NoSpace, SetAll, Stored, Safe, FreeRun;
      ghost var was, freed := used, FreedBy(c);
      ClusterSafe(c);
      var ok, old_mde := MdfatValue(c);
      var size, m0 := mde.sizeLoMinus1 + 1, mde.(unknown := 0);
      if Used(old_mde) {
        if old_mde.sizeLoMinus1 + 1 == size && (version != DrvSp3 || !Fragmented(old_mde)) {
          OnlyDrvSp3(c);
          m0, own := Keep(c, old_mde, m0);
          runs := [];
          sector, m := PutEntry(c, m0, own, runs, size);
          return;
        }
        if version == DrvSp3 && Fragmented(old_mde) && mayFragment {
          var reused, m1;
          reused, m1, own, runs := Reuse(c, old_mde, size, m0, fraglist);
          if reused {
            sector, m := PutEntry(c, m1, own, runs, size);
            return;
          }
        }
      }
      sector, m, own, runs := Move(c, near, m0, old_mde, fraglist, mayFragment);
    }

    // the second half: the old sectors are freed before new ones are looked for
    method Move(c: int, near: int, m0: Mde, old_mde: Mde, fraglist: array<byte>, mayFragment: bool)
      returns (sector: int, m: Mde, ghost own: seq<nat>, ghost runs: seq<Run>)
      requires Valid() && fraglist.Length == 264 && old_mde == Entry(c) && m0.unknown == 0
      requires m0.sizeLoMinus1 < sectperclust && m0.sizeHiMinus1 < MaxSize(version) && m0.flags < 4
      modifies this`used, this`freeSectors, this`fscCount, this`mdfat, this`lastnear, this`lastbig, this`full, fraglist
      ensures sector == ENOSPC || sector == m.sectorMinus1 + 1 > 0
      ensures sector > 0 ==>
                && Replaced(c, m, own, runs, m0.sizeLoMinus1 + 1) && Exchanged(old(used), old(FreedBy(c)), own)
                && mdfat == (if 2 <= c <= maxCluster then old(mdfat)[c := m] else old(mdfat))
                && m.flags == WithUsed(m0.flags) && m.sizeHiMinus1 == m0.sizeHiMinus1
      ensures sector > 0 && Fragmented(m) ==> mayFragment && Describes(fraglist[..], runs)
      ensures sector == ENOSPC ==>
                && Valid() && used == old(used) && NoSpace(SetAll(used, old(FreedBy(c)), false), m0.sizeLoMinus1 + 1, mayFragment)
                && mdfat == (if 2 <= c <= maxCluster && old(Used(Entry(c))) then old(mdfat)[c := NO_MDE] else old(mdfat))
    {
      hide Safe, Clear, Marked, Owned, Freed, FreeCount, Exchanged, Granted, Describes, NoSpace, SetAll, Stored, Safe, FreeRun;
      ghost var was, freed, t := used, FreedBy(c), mdfat;
      ClusterSafe(c);
      var size := m0.sizeLoMinus1 + 1;
      var undo: seq<nat> := [];
      if Used(old_mde) {
        undo := FreeClusterSectors(c);
      } else {
        NothingOwned(old_mde);
        NothingSet(was);
      }
      ghost var mid, t1 := used, mdfat;
      var ok, m1;
      ok, m1, own, runs := Grab(c, near, size, m0, fraglist, mayFragment);
      if !ok {
        Returned(c, t, freed);
        if Used(old_mde) { Undo(undo, was); }
        return ENOSPC, m1, own, runs;
      }
      ExchangedAfter(was, mid, freed, own);
      ValidFor(c);
      sector, m := PutEntry(c, m1, own, runs, size);
    }

    lemma NothingSet(b: seq<bool>)
      ensures SetAll(b, [], false) == b
    {
    }

    lemma OnlyDrvSp3(c: int)
      requires Layout()
      ensures version != DrvSp3 ==> !Fragmented(Entry(c))
    {
      if version != DrvSp3 && 2 <= c <= maxCluster { assert Stored(version, mdfat[c]) == mdfat[c]; }
    }

    lemma ValidFor(c: int)
      requires Valid()
      ensures SafeFor(Key(c))
    {
      ClusterSafe(c);
    }

    // With its entry cleared, cluster c owns nothing, and the sectors freed belong to no cluster.
    lemma Returned(c: int, t: seq<Mde>, freed: seq<nat>)
      requires Valid() && |t| == |mdfat| && !Used(Entry(c)) && (mdfat == t || (2 <= c <= maxCluster && mdfat == t[c := NO_MDE]))
      requires Clear(t, disk, sectperclust, Key(c), freed)
      ensures Clear(mdfat, disk, sectperclust, |mdfat|, freed)
    {
      hide Safe, Clear, Owned;
      if mdfat != t { ClearEntry(t, disk, sectperclust, c, NO_MDE, freed); }
      AllClear(c, freed);
    }
  }

  // flags |= 2
  function WithUsed(flags: nat): nat {
    if flags / 2 % 2 == 1 then flags else flags + 2
  }

  lemma StoredTwice(v: Version, m: Mde)
    ensures Stored(v, Stored(v, m)) == Stored(v, m)
  {
  }
}
