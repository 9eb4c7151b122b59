/**
 What reading a cluster gives: a function of its MDFAT entry and the sectors on disk.
 */
module ClusterSpec {
  import opened Bits
  import opened Lz
  import opened SectorMap
  import opened FragList
  import opened VolumeState
  import opened ClusterCodec

  function Zeros(n: nat): (s: seq<byte>)
    ensures |s| == n && forall i :: 0 <= i < n ==> s[i] == 0
  {
    seq(n, _ => 0)
  }

  predicate Inside(list: seq<nat>, disk: seq<Sector>) {
    forall s :: s in list ==> s < |disk|
  }

  lemma InsideFront(list: seq<nat>, disk: seq<Sector>)
    requires Inside(list, disk) && list != []
    ensures Inside(list[..|list| - 1], disk) && list[|list| - 1] < |disk|
  {
    var front := list[..|list| - 1];
    assert forall s :: s in front ==> s in list;
    assert list[|list| - 1] in list;
  }

  // the contents of the sectors listed, one after the other
  function Flat(disk: seq<Sector>, list: seq<nat>): (b: seq<byte>)
    requires Inside(list, disk)
    ensures |b| == 512 * |list|
  {
    if list == [] then []
    else
      InsideFront(list, disk);
      Flat(disk, list[..|list| - 1]) + disk[list[|list| - 1]]
  }

  // zeros from n on
  function ZeroSlack(b: seq<byte>, n: nat): (r: seq<byte>)
    ensures |r| == |b|
  {
    if n < |b| then b[..n] + Zeros(|b| - n) else b
  }

  // b over the front of buf
  function Over(b: seq<byte>, buf: seq<byte>): (r: seq<byte>)
    ensures |r| == |buf|
  {
    if |b| <= |buf| then b + buf[|b|..] else b[..|buf|]
  }

  // the result of a read: the buffer and the length reported, or an error
  datatype Content = Data(buf: seq<byte>, n: nat) | Failed | NotModelled

  // the sectors of a fragmented cluster behind its list, as read_fragments walks them
  function FragSectors(m: Mde, sec: Sector): seq<nat>
    requires 1 <= sec[0] as int <= 65
  {
    RunList(m.sectorMinus1 + 2, m.sizeLoMinus1) + SectorsOf(ListRuns(sec)[1..])
  }

  predicate FragHead(sec: Sector, spc: nat) {
    1 <= sec[0] as int <= spc && sec[1] == 0 && sec[2] == 0 && sec[3] == 0
  }

  function Front<T>(b: seq<T>, n: nat): (r: seq<T>)
    ensures |r| == if |b| > n then n else |b|
    ensures forall x :: x in r ==> x in b
  {
    if |b| > n then b[..n] else b
  }

  // read_fragments: the sectors listed, behind the rest of the first sector if the cluster is
  // compressed. A compressed cluster is cut to the size of the buffer, an uncompressed one refused.
  function FragmentData(m: Mde, disk: seq<Sector>, spc: nat): (d: Option<seq<byte>>)
    requires 1 <= spc <= 64
    ensures d.Some? && !Uncompressed(m) ==> |d.value| >= 4
  {
    if m.sectorMinus1 + 1 >= |disk| || !FragHead(disk[m.sectorMinus1 + 1], spc) then None
    else
      var sec := disk[m.sectorMinus1 + 1];
      var list := FragSectors(m, sec);
      if Uncompressed(m) then
        if |list| > spc || !Inside(list, disk) then None else Some(Flat(disk, list))
      else if !Inside(Front(list, spc), disk) then None
      else Some(Front(sec[4 * (sec[0] as int + 1)..] + Flat(disk, Front(list, spc)), 512 * spc))
  }

  // made up to whole sectors with what the memory behind the data holds
  function Filled(b: seq<byte>, mem: Sector): (z: seq<byte>)
    ensures b <= z && |z| % 512 == 0
  {
    b + mem[..(|b| + 511) / 512 * 512 - |b|]
  }

  // a fragmented cluster
  function ReadFragmented(m: Mde, disk: seq<Sector>, spc: nat, buf: seq<byte>, mem: Sector): Content
    requires Fragmented(m) && m.sizeHiMinus1 < spc <= 64 && |buf| == 512 * spc
  {
    var n := 512 * (m.sizeHiMinus1 + 1);
    match FragmentData(m, disk, spc)
    case None => Failed
    case Some(b) => if Uncompressed(m) then Data(ZeroSlack(Over(b, buf), n), n) else Unpacked(Filled(b, mem), n, buf)
  }

  // a compressed cluster of n bytes
  function Unpacked(z: seq<byte>, n: nat, buf: seq<byte>): Content
    requires |z| >= 4 && 0 < n <= |buf|
  {
    match Expand(z, buf[..n])
    case Good(out) => Data(ZeroSlack(Over(out, buf), n), n)
    case Bad(_) => Failed
    case Unmodelled(_) => NotModelled
  }

  function ReadPlain(m: Mde, disk: seq<Sector>, spc: nat, buf: seq<byte>): Content
    requires m.sizeLoMinus1 < spc && m.sizeHiMinus1 < spc && |buf| == 512 * spc
  {
    var list, n := RunList(m.sectorMinus1 + 1, m.sizeLoMinus1 + 1), 512 * (m.sizeHiMinus1 + 1);
    if !Inside(list, disk) then Failed
    else if Uncompressed(m) then Data(ZeroSlack(Over(Flat(disk, list), buf), n), n)
    else Unpacked(Flat(disk, list), n, buf)
  }

  // dbl_read_cluster into buf; mem is what freshly allocated memory holds
  function ReadOf(m: Mde, disk: seq<Sector>, spc: nat, buf: seq<byte>, mem: Sector): Content
    requires spc <= 64 && m.sizeLoMinus1 < spc && m.sizeHiMinus1 < spc && |buf| == 512 * spc
  {
    if !Used(m) then Data(Zeros(512 * spc), 0)
    else if Fragmented(m) then ReadFragmented(m, disk, spc, buf, mem)
    else ReadPlain(m, disk, spc, buf)
  }

  //////////////////////////////////////////////////////////////////////////////
  // Reading depends on the sectors owned only
  //////////////////////////////////////////////////////////////////////////////

  ghost predicate Agree(disk: seq<Sector>, disk': seq<Sector>, list: seq<nat>) {
    |disk| == |disk'| && forall s :: s in list && s < |disk| ==> disk[s] == disk'[s]
  }

  lemma {:induction false} FlatAgree(disk: seq<Sector>, disk': seq<Sector>, list: seq<nat>)
    requires Agree(disk, disk', list) && Inside(list, disk)
    ensures Inside(list, disk') && Flat(disk, list) == Flat(disk', list)
    decreases |list|
  {
    if list != [] {
      var rest := list[..|list| - 1];
      assert forall s :: s in rest ==> s in list;
      assert list[|list| - 1] in list;
      FlatAgree(disk, disk', rest);
    }
  }

  // With an acceptable list the sectors read are those owned, less the first.
  lemma FragSectorsOwned(m: Mde, disk: seq<Sector>, spc: nat)
    requires spc <= 64 && Used(m) && Fragmented(m) && m.sectorMinus1 + 1 < |disk| && ListOk(disk[m.sectorMinus1 + 1], m, spc)
    ensures FragSectors(m, disk[m.sectorMinus1 + 1]) == Owned(m, disk, spc)[1..]
  {
    hide FragAt, SectorsOf;
    var runs := ListRuns(disk[m.sectorMinus1 + 1]);
    assert runs == [runs[0]] + runs[1..];
    SectorsConcat([runs[0]], runs[1..]);
    SectorsOne(runs[0]);
    assert RunList(m.sectorMinus1 + 1, m.sizeLoMinus1 + 1)[1..] == RunList(m.sectorMinus1 + 2, m.sizeLoMinus1);
  }

  // Writing elsewhere does not change what is read, provided the fragment list agrees with the entry.
  lemma ReadFrame(m: Mde, disk: seq<Sector>, disk': seq<Sector>, spc: nat, buf: seq<byte>, mem: Sector)
    requires spc <= 64 && m.sizeLoMinus1 < spc && m.sizeHiMinus1 < spc && |buf| == 512 * spc
    requires Agree(disk, disk', Owned(m, disk, spc))
    requires Fragmented(m) && m.sectorMinus1 + 1 < |disk| ==> ListOk(disk[m.sectorMinus1 + 1], m, spc)
    ensures ReadOf(m, disk', spc, buf, mem) == ReadOf(m, disk, spc, buf, mem)
  {
    hide Owned, Unpacked, Flat, FragSectors, ListOk, SectorsOf, Front, Filled;
    if Used(m) {
      FirstOwned(m, disk, spc);
      if Fragmented(m) {
        if m.sectorMinus1 + 1 < |disk| && FragHead(disk[m.sectorMinus1 + 1], spc) {
          var list := FragSectors(m, disk[m.sectorMinus1 + 1]);
          FragSectorsOwned(m, disk, spc);
          TailIn(Owned(m, disk, spc), list);
          if Inside(list, disk) { FlatAgree(disk, disk', list); }
          if Inside(Front(list, spc), disk) { FlatAgree(disk, disk', Front(list, spc)); }
        }
      } else {
        OwnedPlain(m, disk, spc);
        var list := RunList(m.sectorMinus1 + 1, m.sizeLoMinus1 + 1);
        if Inside(list, disk) { FlatAgree(disk, disk', list); }
      }
    }
  }

  lemma TailIn(own: seq<nat>, list: seq<nat>)
    requires own != [] && list == own[1..]
    ensures forall s :: s in list ==> s in own
  {
  }
}
