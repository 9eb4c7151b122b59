/**
 Walking over the sectors of a Stacker cluster: `stac_cwalk_init`, `stac_cwalk_sector` and the
 loop of `stac_read_cluster` that collects the data.
 */
module StacWalk {
  import opened Bits

  const SECTOR_SIZE: int := 512

  // an MDFAT entry of a Stacker volume, its length at least one sector
  datatype Entry = Entry(sect: nat, len: Length, flags: nat)

  type Length = n: nat | n >= 1 witness 1

  // a little-endian word
  function Word(b: seq<byte>, i: nat): (w: nat)
    requires i + 2 <= |b|
    ensures w < 0x1_0000
  {
    b[i] as int + 0x100 * b[i + 1] as int
  }

  //////////////////////////////////////////////////////////////////////////////
  // Fragment lists: four bytes a piece
  //////////////////////////////////////////////////////////////////////////////

  function PieceSect(f: seq<byte>): nat
    requires |f| >= 4
  {
    f[0] as int + 0x100 * f[1] as int + 0x1_0000 * (f[3] as int % 64)
  }

  // the stored length, which is one less than the number of sectors
  function PieceLen(f: seq<byte>): nat
    requires |f| >= 4
  {
    f[2] as int % 16 + f[3] as int / 64 * 16
  }

  // sectors in the first n pieces of a list
  function PieceSum(f: seq<byte>, n: nat): nat
    requires |f| >= 4 * n
    decreases n
  {
    if n == 0 then 0 else PieceLen(f) + 1 + PieceSum(f[4..], n - 1)
  }

  // No piece starts at sector 0, which ends a walk.
  ghost predicate PiecesReal(f: seq<byte>, n: nat)
    requires |f| >= 4 * n
    decreases n
  {
    n == 0 || (PieceSect(f) > 0 && PiecesReal(f[4..], n - 1))
  }

  lemma {:induction false} PieceSumNext(f: seq<byte>, n: nat)
    requires |f| >= 4 * n + 4
    ensures PieceSum(f, n + 1) == PieceSum(f, n) + PieceLen(f[4 * n..]) + 1
    decreases n
  {
    if n > 0 {
      PieceSumNext(f[4..], n - 1);
      assert f[4..][4 * (n - 1)..] == f[4 * n..];
    } else {
      assert f[0..] == f;
      assert PieceSum(f[4..], 0) == 0;
    }
  }

  // n sectors from s on
  function RunFrom(s: nat, n: nat): (r: seq<nat>)
    ensures |r| == n && forall i :: 0 <= i < n ==> r[i] == s + i
  {
    seq(n, i => s + i)
  }

  // the sectors of the first n pieces of a list, in order
  function PieceSectors(f: seq<byte>, n: nat): (r: seq<nat>)
    requires |f| >= 4 * n
    ensures |r| == PieceSum(f, n)
    decreases n
  {
    if n == 0 then [] else RunFrom(PieceSect(f), PieceLen(f) + 1) + PieceSectors(f[4..], n - 1)
  }

  //////////////////////////////////////////////////////////////////////////////
  // What an entry stands for
  //////////////////////////////////////////////////////////////////////////////

  // the allocation type: three flag bits, and whether the first piece is as long as a cluster
  function Kind(e: Entry, spc: nat): nat {
    e.flags / 0x20 % 8 + if e.len == spc then 8 else 0
  }

  predicate Fragmented(e: Entry, spc: nat) {
    Kind(e, spc) in {4, 6}
  }

  predicate Suballocated(e: Entry, spc: nat) {
    Kind(e, spc) in {5, 7, 13, 15}
  }

  // a sector; what is not on disk counts as zeros
  function SectorAt(disk: seq<Sector>, s: nat): Sector {
    if s < |disk| then disk[s] else seq(512, _ => 0)
  }

  function PieceCount(e: Entry, disk: seq<Sector>, spc: nat): (n: nat)
    ensures n >= 1
  {
    if Fragmented(e, spc) then SectorAt(disk, e.sect)[1] as int + 1 else 1
  }

  // the sectors of all pieces
  function SectorCount(e: Entry, disk: seq<Sector>, spc: nat): nat {
    e.len + if Fragmented(e, spc) then SectorAt(disk, e.sect)[2] as int % 0x40 + 1 else 0
  }

  // the sectors of the cluster: the run of the entry, and those of the fragments in their order
  function ClusterSectors(e: Entry, disk: seq<Sector>, spc: nat): (r: seq<nat>)
    ensures |r| >= 1 && r[0] == e.sect
  {
    RunFrom(e.sect, e.len) +
    if Fragmented(e, spc) && PieceCount(e, disk, spc) <= 128 then PieceSectors(SectorAt(disk, e.sect)[4..], PieceCount(e, disk, spc) - 1) else []
  }

  // No fragment starts at sector 0, which would end a walk.
  ghost predicate ListReal(e: Entry, disk: seq<Sector>, spc: nat) {
    Fragmented(e, spc) && PieceCount(e, disk, spc) <= 128 ==>
      PiecesReal(SectorAt(disk, e.sect)[4..], PieceCount(e, disk, spc) - 1)
  }

  // the data of the cluster in its first sector: from where on, and up to where if they all are in it
  function FirstOffset(e: Entry, disk: seq<Sector>, spc: nat): nat {
    if Fragmented(e, spc) then 4 * PieceCount(e, disk, spc)
    else if Suballocated(e, spc) then Word(SectorAt(disk, e.sect), if e.len == 1 then 506 else 504) % SECTOR_SIZE
    else 0
  }

  function FirstEnd(e: Entry, disk: seq<Sector>, spc: nat): (n: int)
    ensures 0 <= n <= SECTOR_SIZE
  {
    if !Suballocated(e, spc) then SECTOR_SIZE
    else if e.len == 1 then Word(SectorAt(disk, e.sect), 504) % SECTOR_SIZE
    else SECTOR_SIZE - 8
  }

  // the last sector; 0 for a cluster whose end is known from the first one
  function LastSector(e: Entry, disk: seq<Sector>, spc: nat): nat {
    if Fragmented(e, spc) && 2 <= PieceCount(e, disk, spc) <= 128 then
      var f := SectorAt(disk, e.sect)[4 * (PieceCount(e, disk, spc) - 1)..];
      PieceSect(f) + PieceLen(f)
    else if Suballocated(e, spc) && e.len == 1 then 0
    else e.sect + e.len - 1
  }

  // the state of a sector in the bitmap; a sector outside has a state above 1
  function State(bits: seq<nat>, s: nat): nat {
    if s < |bits| then bits[s] else 0xFFFF_FFFF
  }

  // Another cluster begins in the last sector: the next one, or one the bitmap tells of.
  predicate EndShared(e: Entry, disk: seq<Sector>, bits: seq<nat>, next: seq<Entry>, spc: nat, stac4: bool) {
    var s := LastSector(e, disk, spc);
    stac4 && s != 0 && (State(bits, s) > 1 || Adjoins(next, s))
  }

  function EndOffset(e: Entry, disk: seq<Sector>, spc: nat): nat {
    Word(SectorAt(disk, LastSector(e, disk, spc)), 506) % SECTOR_SIZE
  }

  // the data of the cluster before it is cut to its size
  function DataBytes(e: Entry, disk: seq<Sector>, spc: nat, shared: bool): int {
    var n, front := SectorCount(e, disk, spc), FirstEnd(e, disk, spc) - FirstOffset(e, disk, spc);
    if !shared then (n - 1) * SECTOR_SIZE + front
    else if n > 1 then (n - 2) * SECTOR_SIZE + front + EndOffset(e, disk, spc)
    else Min(FirstEnd(e, disk, spc), EndOffset(e, disk, spc)) - FirstOffset(e, disk, spc)
  }

  function Min(a: int, b: int): int {
    if a < b then a else b
  }

  // the contents of the sectors listed
  function Contents(disk: seq<Sector>, list: seq<nat>): (b: seq<byte>)
    ensures |b| == 512 * |list|
  {
    if list == [] then [] else Contents(disk, list[..|list| - 1]) + SectorAt(disk, list[|list| - 1])
  }

  function Slice(b: seq<byte>, from: int, to: int): (s: seq<byte>)
    ensures 0 <= from <= to <= |b| ==> |s| == to - from
  {
    if 0 <= from <= to <= |b| then b[from..to] else []
  }

  // everything in the sectors of the cluster that may be its data; the data are the front of it
  function AllData(e: Entry, disk: seq<Sector>, spc: nat): seq<byte> {
    Slice(SectorAt(disk, e.sect), FirstOffset(e, disk, spc), FirstEnd(e, disk, spc)) + Contents(disk, ClusterSectors(e, disk, spc)[1..])
  }

  // Is the cluster compressed?
  function Packed(e: Entry, disk: seq<Sector>, spc: nat): bool {
    if Fragmented(e, spc) then SectorAt(disk, e.sect)[2] < 0x80
    else if Suballocated(e, spc) then Word(SectorAt(disk, e.sect), if e.len == 1 then 506 else 504) < 0x8000
    else Kind(e, spc) in {0, 2}
  }

  //////////////////////////////////////////////////////////////////////////////
  // Which entries are accepted
  //////////////////////////////////////////////////////////////////////////////

  predicate FragmentsOk(e: Entry, disk: seq<Sector>, spc: nat) {
    && e.sect < |disk| && disk[e.sect][0] == 0xED && PieceCount(e, disk, spc) <= spc && PieceCount(e, disk, spc) <= 128
    && e.len + PieceSum(disk[e.sect][4..], PieceCount(e, disk, spc) - 1) == SectorCount(e, disk, spc)
  }

  predicate SuballocationOk(e: Entry, disk: seq<Sector>, spc: nat) {
    && e.sect < |disk| && Word(disk[e.sect], 510) == 0x1234
    && Word(disk[e.sect], if e.len == 1 then 506 else 504) / 0x4000 % 2 == 0
    && FirstEnd(e, disk, spc) <= 504 && FirstOffset(e, disk, spc) <= 504
    && (e.len == 1 ==> FirstOffset(e, disk, spc) < FirstEnd(e, disk, spc))
  }

  // a last sector that may be shared with another cluster
  predicate EndOk(e: Entry, disk: seq<Sector>, bits: seq<nat>, next: seq<Entry>, spc: nat, flg: nat) {
    var s := LastSector(e, disk, spc);
    && (Adjoins(next, s) ==> next[0].flags / 0x20 % 2 == 1 && next[0].flags / 0x80 % 2 == 1)
    && (flg >= 3 ==> State(bits, s) != 0 && (Adjoins(next, s) ==> State(bits, s) > 1))
    && (State(bits, s) > 1 || Adjoins(next, s) ==>
          && s < |disk| && Word(disk[s], 510) == 0x1234 && EndOffset(e, disk, spc) <= Word(disk[s], 504) % SECTOR_SIZE
          && (SectorCount(e, disk, spc) == 1 ==>
                EndOffset(e, disk, spc) > FirstOffset(e, disk, spc) || EndOffset(e, disk, spc) >= FirstEnd(e, disk, spc)))
  }

  predicate Adjoins(next: seq<Entry>, s: nat) {
    |next| > 0 && next[0].sect == s
  }

  predicate Accepted(e: Entry, disk: seq<Sector>, bits: seq<nat>, next: seq<Entry>, spc: nat, stac4: bool, flg: nat) {
    && Kind(e, spc) != 9 && Kind(e, spc) != 11
    && (Fragmented(e, spc) ==> FragmentsOk(e, disk, spc)) && (Suballocated(e, spc) ==> SuballocationOk(e, disk, spc))
    && (stac4 && flg >= 2 && LastSector(e, disk, spc) != 0 ==> EndOk(e, disk, bits, next, spc, flg))
    && (flg >= 2 && EndShared(e, disk, bits, next, spc, stac4) ==>
          DataBytes(e, disk, spc, true) - spc * SECTOR_SIZE <= EndOffset(e, disk, spc))
  }

  //////////////////////////////////////////////////////////////////////////////
  // The walk
  //////////////////////////////////////////////////////////////////////////////

  class Cwalk {
    var startSect: nat
    var startLen: nat
    var flags: nat
    var sectCnt: nat
    var compressed: bool
    // bytes in the last sector if it is shared; 0x4000 is added as a mark
    var bytesInLast: int
    var bytesInClust: int
    // pieces not begun, sectors left in the current one, the current sector and its data
    var fcnt: nat
    var flen: nat
    var sect: nat
    var offset: int
    var bytes: int
    // the pieces after the first
    var finfo: seq<byte>

    constructor ()
    {
    }

    ghost predicate Walking()
      reads this
    {
      sect > 0 && |finfo| >= 4 * fcnt && 0 <= offset && 0 <= bytes && offset + bytes <= SECTOR_SIZE
    }

    // sectors still to come
    ghost function Ahead(): (r: seq<nat>)
      requires |finfo| >= 4 * fcnt
      reads this
    {
      Rest(sect + 1, flen, finfo, fcnt)
    }

    // data in n sectors the last of which is the last of the cluster
    ghost function DataIn(n: nat): int
      reads this`bytesInLast
    {
      n * SECTOR_SIZE - if n > 0 && bytesInLast != 0 then SECTOR_SIZE - bytesInLast % SECTOR_SIZE else 0
    }

    // stac_cwalk_sector, from the second sector on: the next sector, and how much of it
    method Advance() returns (s: nat)
      requires Walking()
      modifies this`fcnt, this`flen, this`sect, this`offset, this`bytes, this`finfo
      ensures old(Ahead()) == [] ==> s == 0
      ensures old(Ahead()) != [] ==> s == sect == old(Ahead())[0] && |finfo| >= 4 * fcnt && Ahead() == old(Ahead())[1..]
      ensures old(PiecesReal(finfo, fcnt)) && old(Ahead()) != [] ==> s > 0 && PiecesReal(finfo, fcnt)
      ensures s > 0 ==> Walking() && offset == 0 && bytes == if Ahead() == [] && bytesInLast != 0 then bytesInLast % SECTOR_SIZE else SECTOR_SIZE
    {
      hide Rest, PiecesReal, PieceSect, PieceLen;
      RestEmpty(sect + 1, flen, finfo, fcnt);
      if flen == 0 {
        if fcnt == 0 { return 0; }
        RestPiece(sect + 1, finfo, fcnt);
        fcnt := fcnt - 1;
        sect := PieceSect(finfo);
        flen := PieceLen(finfo);
        finfo := finfo[4..];
      } else {
        RestNext(sect + 1, flen, finfo, fcnt);
        sect := sect + 1;
        flen := flen - 1;
      }
      RestEmpty(sect + 1, flen, finfo, fcnt);
      offset := 0;
      if flen == 0 && fcnt == 0 && bytesInLast != 0 {
        bytes := bytesInLast % SECTOR_SIZE;
      } else {
        bytes := SECTOR_SIZE;
      }
      s := sect;
    }

    // the state after a successful start, before the first sector
    ghost predicate Started()
      reads this
    {
      && sect == 0 && startSect > 0 && fcnt >= 1 && flen == startLen >= 1
      && |finfo| >= 4 * (fcnt - 1) && sectCnt == startLen + PieceSum(finfo, fcnt - 1)
      && 0 <= offset && 0 <= bytes && offset + bytes <= SECTOR_SIZE
    }

    // all sectors, from the first one on
    ghost function Coming(): (r: seq<nat>)
      requires |finfo| >= 4 * (fcnt - 1) && fcnt >= 1
      reads this
    {
      Rest(startSect, startLen, finfo, fcnt - 1)
    }

    // no piece is at sector 0
    ghost predicate Real()
      requires Started()
      reads this
    {
      PiecesReal(finfo, fcnt - 1)
    }

    // the first sector
    method First() returns (s: nat)
      requires Started()
      modifies this`fcnt, this`flen, this`sect
      ensures Walking() && s == sect == startSect > 0 && [s] + Ahead() == old(Coming()) && |Ahead()| == sectCnt - 1
      ensures old(Real()) <==> PiecesReal(finfo, fcnt)
    {
      hide Rest;
      RestNext(startSect, startLen, finfo, fcnt - 1);
      fcnt := fcnt - 1;
      flen := flen - 1;
      sect := startSect;
      s := sect;
    }

    // The walk has reached a sector; those visited have been taken.
    ghost predicate Underway(e: Entry, disk: seq<Sector>, spc: nat, visited: seq<nat>, data: seq<byte>, n: nat, b0: int)
      reads this
    {
      && Walking() && visited + [sect] + Ahead() == ClusterSectors(e, disk, spc) && OnDisk(visited, disk) && Taken(visited, data, e, disk, spc)
      && |visited| + |Ahead()| == n && |data| + bytes == b0 + DataIn(n) - DataIn(|Ahead()|)
      && if visited == [] then
           && data == [] && offset == FirstOffset(e, disk, spc) && offset + bytes <= FirstEnd(e, disk, spc)
           && (Ahead() != [] ==> offset + bytes == FirstEnd(e, disk, spc))
         else offset == 0 && bytes == if Ahead() == [] && bytesInLast != 0 then bytesInLast % SECTOR_SIZE else SECTOR_SIZE
    }

    // takes the data of the current sector and goes on to the next
    method TakeCurrent(disk: seq<Sector>, visited: seq<nat>, data: seq<byte>, ghost e: Entry, ghost spc: nat, ghost n: nat, ghost b0: int)
      returns (s: nat, visited': seq<nat>, data': seq<byte>)
      requires Underway(e, disk, spc, visited, data, n, b0) && sect < |disk|
      modifies this`fcnt, this`flen, this`sect, this`offset, this`bytes, this`finfo
      ensures |visited'| == |visited| + 1 && |visited'| <= n + 1 && |data'| == |data| + old(bytes)
      ensures s > 0 ==> s == sect && Underway(e, disk, spc, visited', data', n, b0)
      ensures old(PiecesReal(finfo, fcnt)) && s > 0 ==> PiecesReal(finfo, fcnt)
      ensures old(PiecesReal(finfo, fcnt)) && s == 0 ==>
                && visited' == ClusterSectors(e, disk, spc) && OnDisk(visited', disk)
                && |data'| == b0 + DataIn(n) && data' <= AllData(e, disk, spc)
    {
      hide PieceSum, PiecesReal, Rest, ClusterSectors, FirstOffset, FirstEnd, Taken, AllData, OnDisk, DataIn;
      ghost var ahead := Ahead();
      data' := data + disk[sect][offset..offset + bytes];
      visited' := visited + [sect];
      if visited == [] {
        assert visited + [sect] == [sect] && data' == disk[sect][offset..offset + bytes];
        TakeFirst(e, disk, spc, sect, ahead, offset, bytes);
      } else {
        TakeNext(e, disk, spc, visited, data, sect, ahead, bytes);
      }
      NothingLeft();
      s := Advance();
      if s > 0 {
        assert ahead == [s] + Ahead();
        OneLess(|ahead|);
      } else {
        assert ahead == [] ==> visited' + [] == visited';
      }
    }

    lemma NothingLeft()
      ensures DataIn(0) == 0
    {
    }

    lemma OneLess(n: nat)
      requires n >= 1
      ensures DataIn(n) - DataIn(n - 1) == if n == 1 && bytesInLast != 0 then bytesInLast % SECTOR_SIZE else SECTOR_SIZE
    {
    }

    // The loop of stac_read_cluster. It fails where a sector is not on disk, or if the walk gives out more bytes
    // than announced (internal error 1).
    method CollectBytes(disk: seq<Sector>, ghost e: Entry, ghost spc: nat, ghost shared: bool)
      returns (visited: seq<nat>, data: seq<byte>, failed: bool)
      requires spc >= 1 && Ready(e, disk, spc, shared)
      modifies this`fcnt, this`flen, this`sect, this`offset, this`bytes, this`finfo
      ensures sectCnt == old(sectCnt) && bytesInClust == old(bytesInClust) && compressed == old(compressed)
      ensures ListReal(e, disk, spc) ==>
                (!failed && |data| == bytesInClust <==> old(Adds()) && OnDisk(ClusterSectors(e, disk, spc), disk))
      ensures ListReal(e, disk, spc) && !failed && |data| == bytesInClust ==>
                visited == ClusterSectors(e, disk, spc) && data == Slice(AllData(e, disk, spc), 0, bytesInClust)
    {
      hide PieceSum, PiecesReal, Rest, ClusterSectors, ListReal, DataBytes, SectorCount, FirstOffset, FirstEnd, Taken, AllData, OnDisk, DataIn;
      ghost var b0, n: nat, allReal := bytes, sectCnt - 1, Real();
      visited, data, failed := [], [], false;
      NothingTaken(e, disk, spc);
      var s: nat := First();
      assert [] + [s] + Ahead() == [s] + Ahead();
      while s > 0
        invariant bytesInLast == old(bytesInLast) && bytesInClust == old(bytesInClust) && sectCnt == old(sectCnt) && compressed == old(compressed)
        invariant s > 0 ==> s == sect && Underway(e, disk, spc, visited, data, n, b0) && (allReal ==> PiecesReal(finfo, fcnt))
        invariant s == 0 && allReal ==>
                    && visited == ClusterSectors(e, disk, spc) && OnDisk(visited, disk)
                    && |data| == b0 + DataIn(n) && data <= AllData(e, disk, spc)
        decreases if s > 0 then n + 1 - |visited| else -1
      {
        DataGrows(|Ahead()|);
        if s >= |disk| {
          NotOnDisk(ClusterSectors(e, disk, spc), |visited|, disk);
          return visited, data, true;
        }
        if |data| + bytes > bytesInClust { return visited, data, true; }
        s, visited, data := TakeCurrent(disk, visited, data, e, spc, n, b0);
      }
    }

    lemma DataGrows(n: nat)
      ensures DataIn(n) >= 0
    {
    }

    //////////////////////////////////////////////////////////////////////////////
    // stac_cwalk_init
    //////////////////////////////////////////////////////////////////////////////

    // what the walk is going to give out
    ghost predicate Adds()
      requires sectCnt >= 1
      reads this
    {
      bytes + DataIn((sectCnt - 1) as nat) == bytesInClust
    }

    // The fields are set for the entry e; no shared last sector is known yet.
    ghost predicate Prepared(e: Entry, disk: seq<Sector>, spc: nat)
      reads this
    {
      && sect == 0 && startSect > 0 && fcnt == PieceCount(e, disk, spc) && flen == startLen == e.len && bytesInLast == 0
      && |finfo| >= 4 * (fcnt - 1) && sectCnt == SectorCount(e, disk, spc) == startLen + PieceSum(finfo, fcnt - 1)
      && (ListReal(e, disk, spc) ==> PiecesReal(finfo, fcnt - 1))
      && offset == FirstOffset(e, disk, spc) && bytes == FirstEnd(e, disk, spc) - offset && 0 <= bytes <= SECTOR_SIZE
      && bytesInClust == DataBytes(e, disk, spc, false)
      && Coming() == ClusterSectors(e, disk, spc) && compressed == Packed(e, disk, spc)
    }

    // a cluster of one piece
    ghost predicate Plain(e: Entry)
      reads this
    {
      && sect == 0 && startSect == e.sect > 0 && fcnt == 1 && flen == startLen == sectCnt == e.len && bytesInLast == 0
      && finfo == [] && offset == 0 && bytes == SECTOR_SIZE && bytesInClust == e.len * SECTOR_SIZE
    }

    method SetPlain(e: Entry)
      requires e.sect > 0
      modifies this
      ensures Plain(e) && flags == e.flags
    {
      startSect, startLen, sectCnt, flags := e.sect, e.len, e.len, e.flags;
      sect, fcnt, flen, finfo := 0, 1, e.len, [];
      bytesInClust := sectCnt * SECTOR_SIZE;
      offset, bytes, bytesInLast := 0, SECTOR_SIZE, 0;
    }

    // a fragmented cluster: its list stands at the start of the first sector
    method SetFragmented(e: Entry, disk: seq<Sector>, spc: nat) returns (ok: bool, lastSect: nat)
      requires Plain(e) && Fragmented(e, spc)
      modifies this`fcnt, this`compressed, this`sectCnt, this`finfo, this`offset, this`bytes, this`bytesInClust
      ensures ok ==> Prepared(e, disk, spc) && lastSect == LastSector(e, disk, spc)
      ensures ok <==> FragmentsOk(e, disk, spc)
    {
      hide PieceSect, PieceLen, PieceSum, PiecesReal, PieceSectors, ClusterSectors, Packed;
      lastSect := 0;
      if startSect >= |disk| { return false, 0; }
      var b: seq<byte> := disk[startSect];
      if b[0] != 0xED { return false, 0; }
      var n: nat := b[1] as int + 1;
      if n > spc || n * 4 > SECTOR_SIZE { return false, 0; }
      compressed := b[2] as int / 0x80 % 2 == 0;
      var cnt := sectCnt + b[2] as int % 0x40 + 1;
      var sum;
      sum, lastSect := SumPieces(b, n);
      if sectCnt + sum != cnt { return false, 0; }
      fcnt, sectCnt, finfo := n, cnt, b[4..];
      offset := 4 * n;
      bytes := SECTOR_SIZE - offset;
      bytesInClust := (sectCnt - 1) * SECTOR_SIZE + bytes;
      FragmentsAre(e, disk, spc);
      ok := true;
    }

    // the sectors in the pieces behind the first one, and where the last one ends
    method SumPieces(b: seq<byte>, n: nat) returns (sum: nat, lastSect: nat)
      requires |b| == SECTOR_SIZE && 1 <= n <= 128
      ensures sum == PieceSum(b[4..], n - 1) && (sum > 0 ==> n >= 2)
      ensures n >= 2 ==> lastSect == PieceSect(b[4 * (n - 1)..]) + PieceLen(b[4 * (n - 1)..])
    {
      hide PieceSect, PieceLen;
      sum, lastSect := 0, 0;
      var i := 1;
      var f: seq<byte> := b[4..];
      assert f[0..] == f;
      while i < n
        invariant 1 <= i <= n && sum == PieceSum(f, i - 1) && (sum > 0 ==> i >= 2)
        invariant i >= 2 ==> lastSect == PieceSect(b[4 * (i - 1)..]) + PieceLen(b[4 * (i - 1)..])
      {
        PieceSumNext(f, i - 1);
        assert f[4 * (i - 1)..] == b[4 * i..];
        sum := sum + PieceLen(f[4 * (i - 1)..]) + 1;
        lastSect := PieceSect(f[4 * (i - 1)..]) + PieceLen(f[4 * (i - 1)..]);
        i := i + 1;
      }
    }

    lemma FragmentsAre(e: Entry, disk: seq<Sector>, spc: nat)
      requires e.sect < |disk| && Fragmented(e, spc) && PieceCount(e, disk, spc) <= 128
      ensures var n := PieceCount(e, disk, spc);
              && ClusterSectors(e, disk, spc) == Rest(e.sect, e.len, disk[e.sect][4..], n - 1)
              && Packed(e, disk, spc) == (disk[e.sect][2] as int / 0x80 % 2 == 0)
    {
      hide PieceSum, PieceSectors, PieceSect, PieceLen, PiecesReal;
    }

    // a cluster that begins behind other data in its first sector
    method SetSuballocated(e: Entry, disk: seq<Sector>, spc: nat) returns (ok: bool)
      requires Plain(e) && Suballocated(e, spc)
      modifies this`compressed, this`offset, this`bytes, this`bytesInClust
      ensures ok ==> Prepared(e, disk, spc)
      ensures ok <==> SuballocationOk(e, disk, spc)
    {
      if startSect >= |disk| { return false; }
      var b: seq<byte> := disk[startSect];
      if Word(b, 510) != 0x1234 { return false; }
      var w := Word(b, if startLen == 1 then 506 else 504);
      offset := w % SECTOR_SIZE;
      compressed := w / 0x8000 == 0;
      if w / 0x4000 % 2 == 1 { return false; }
      if startLen == 1 {
        bytes := Word(b, 504) % SECTOR_SIZE;
        if bytes != 0 && bytes <= SECTOR_SIZE - 8 && bytes > offset {
          bytes := bytes - offset;
        } else {
          return false;
        }
        bytesInClust := bytes;
      } else {
        bytes := SECTOR_SIZE - offset - 8;
        bytesInClust := bytesInClust + bytes - SECTOR_SIZE;
        if bytes < 0 { return false; }
      }
      ok := true;
    }

    // Nothing is missing but the cut.
    ghost predicate Measured(e: Entry, disk: seq<Sector>, spc: nat, shared: bool)
      reads this
    {
      && sect == 0 && startSect > 0 && fcnt >= 1 && flen == startLen >= 1
      && |finfo| >= 4 * (fcnt - 1) && sectCnt == SectorCount(e, disk, spc) == startLen + PieceSum(finfo, fcnt - 1)
      && (ListReal(e, disk, spc) ==> PiecesReal(finfo, fcnt - 1))
      && 0 <= bytes <= SECTOR_SIZE && Adds() && (bytesInLast == 0 || 0x4000 <= bytesInLast < 0x4000 + SECTOR_SIZE)
      && bytesInClust == DataBytes(e, disk, spc, shared)
      && compressed == Packed(e, disk, spc) && Coming() == ClusterSectors(e, disk, spc) && FrontTold(e, disk, spc)
      && (shared && bytesInLast != 0 ==> bytesInLast == 0x4000 + EndOffset(e, disk, spc)) && (shared <==> bytesInLast != 0)
    }

    // the data in the first sector
    ghost predicate FrontTold(e: Entry, disk: seq<Sector>, spc: nat)
      reads this
    {
      && offset == FirstOffset(e, disk, spc) && offset + bytes <= FirstEnd(e, disk, spc) <= SECTOR_SIZE
      && (sectCnt > 1 ==> offset + bytes == FirstEnd(e, disk, spc))
    }

    // looks for an end that is shared; `next` is the entry of the next cluster, if there is one
    method ShareEnd(e: Entry, disk: seq<Sector>, bits: seq<nat>, spc: nat, lastSect: nat, next: seq<Entry>, flg: nat) returns (ok: bool)
      requires Prepared(e, disk, spc) && lastSect == LastSector(e, disk, spc) != 0
      modifies this`bytesInLast, this`bytesInClust, this`bytes
      ensures ok ==> Measured(e, disk, spc, EndShared(e, disk, bits, next, spc, true))
      ensures ok <==> EndOk(e, disk, bits, next, spc, flg)
    {
      hide PieceCount, SectorCount, LastSector, FirstOffset, FirstEnd, ListReal, PieceSum, PiecesReal, Word, ClusterSectors, Packed, DataBytes;
      PreparedMeasured(e, disk, spc);
      var bit := State(bits, lastSect);
      var linear := |next| > 0 && next[0].sect == lastSect;
      if linear && !(next[0].flags / 0x20 % 2 == 1 && next[0].flags / 0x80 % 2 == 1) { return false; }
      if bit == 0 && flg >= 3 { return false; }
      if bit > 1 || linear {
        if bit <= 1 && flg >= 3 { return false; }
        if lastSect >= |disk| { return false; }
        var b: seq<byte> := disk[lastSect];
        if Word(b, 510) != 0x1234 { return false; }
        var u, v := Word(b, 506) % SECTOR_SIZE, Word(b, 504) % SECTOR_SIZE;
        if v < u { return false; }
        ok := SetLast(e, disk, spc, u);
        return;
      }
      ok := true;
    }

    // u bytes of the last sector are in front of the cluster that shares it
    method SetLast(e: Entry, disk: seq<Sector>, spc: nat, u: int) returns (ok: bool)
      requires Prepared(e, disk, spc) && 0 <= u < SECTOR_SIZE && u == EndOffset(e, disk, spc)
      modifies this`bytesInLast, this`bytesInClust, this`bytes
      ensures ok ==> Measured(e, disk, spc, true)
      ensures ok <==> (SectorCount(e, disk, spc) == 1 ==> u > FirstOffset(e, disk, spc) || u >= FirstEnd(e, disk, spc))
    {
      hide PieceSum, PiecesReal, PieceCount, SectorCount, FirstOffset, FirstEnd, ListReal, EndOffset, ClusterSectors, Packed;
      bytesInLast := u;
      if sectCnt > 1 {
        bytesInClust := bytesInClust - (SECTOR_SIZE - u);
      } else {
        var i := bytes + offset - bytesInLast;
        if i > 0 {
          bytes := bytes - i;
          if bytes <= 0 { return false; }
          bytesInClust := bytesInClust - i;
        }
      }
      bytesInLast := bytesInLast + 0x4000;
      ok := true;
    }

    // The cluster is cut to its size.
    method Cut(e: Entry, disk: seq<Sector>, spc: nat, shared: bool) returns (ok: bool)
      requires Measured(e, disk, spc, shared) && spc >= 1
      modifies this`bytesInLast, this`bytesInClust
      ensures ok ==> Ready(e, disk, spc, shared)
      ensures ok <==> (shared ==> DataBytes(e, disk, spc, true) - spc * SECTOR_SIZE <= EndOffset(e, disk, spc))
    {
      hide PieceSum, PiecesReal, PieceCount, SectorCount, DataBytes, ListReal, ClusterSectors, Packed, FirstOffset, FirstEnd, EndOffset;
      var i := bytesInClust - spc * SECTOR_SIZE;
      if i > 0 {
        bytesInClust := bytesInClust - i;
        if bytesInLast == 0 {
          bytesInLast := SECTOR_SIZE - i;
        } else {
          bytesInLast := bytesInLast - i;
          if bytesInLast < 0x4000 { return false; }
        }
      }
      ok := true;
    }

    // The walk may start. It is going to add up if the cluster was less than a sector too long.
    ghost predicate Ready(e: Entry, disk: seq<Sector>, spc: nat, shared: bool)
      reads this
    {
      var n := DataBytes(e, disk, spc, shared);
      && Started() && sectCnt == SectorCount(e, disk, spc) && bytesInClust == Min(n, spc * SECTOR_SIZE)
      && (ListReal(e, disk, spc) ==> Real()) && (Adds() <==> n < (spc + 1) * SECTOR_SIZE)
      && compressed == Packed(e, disk, spc) && Coming() == ClusterSectors(e, disk, spc) && FrontTold(e, disk, spc)
    }

    // stac_cwalk_init: -1 for an error, 0 for an empty entry, the number of bytes, or just 1 when only
    // sectors are asked for (flg 0) of a suballocated cluster. `bits` holds the states of the sectors.
    method Init(disk: seq<Sector>, bits: seq<nat>, e: Entry, next: seq<Entry>, spc: nat, stac4: bool, flg: nat)
      returns (val: int)
      requires spc >= 1
      modifies this
      ensures flg == 0 && e.sect != 0 && Suballocated(e, spc) ==> val == 1
      ensures flg >= 1 || !Suballocated(e, spc) ==>
                var shared := flg >= 2 && EndShared(e, disk, bits, next, spc, stac4);
                && val == (if e.sect == 0 then 0
                           else if !Accepted(e, disk, bits, next, spc, stac4, flg) then -1
                           else Min(DataBytes(e, disk, spc, shared), spc * SECTOR_SIZE))
                && (val >= 0 && e.sect != 0 ==> val == bytesInClust && Ready(e, disk, spc, shared))
    {
      hide PieceCount, SectorCount, FirstOffset, FirstEnd, ListReal, PieceSum, PiecesReal, DataBytes, Started, Real, Adds, Coming, State, EndOk,
        FragmentsOk, SuballocationOk, LastSector, Packed, ClusterSectors, FrontTold;
      finfo, sect := [], 0;
      startSect, sectCnt, startLen, flags := e.sect, e.len, e.len, e.flags;
      if startSect == 0 {
        fcnt := 0;
        return 0;
      }
      SetPlain(e);
      var lastSect := startSect + sectCnt - 1;
      var u := flags / 0x20 % 8 + if startLen == spc then 8 else 0;
      var ok := true;
      if u in {0, 2} {
        compressed := true;
        PlainPrepared(e, disk, spc);
      } else if u in {1, 3, 8, 10, 12, 14} {
        compressed := false;
        PlainPrepared(e, disk, spc);
      } else if u in {4, 6} {
        ok, lastSect := SetFragmented(e, disk, spc);
      } else if u in {5, 7, 13, 15} {
        if flg == 0 {
          bytesInClust, bytes := 0, 0;
          return 1;
        }
        var short := startLen == 1;
        SuballocatedLast(e, disk, spc);
        ok := SetSuballocated(e, disk, spc);
        if short { lastSect := 0; }
      } else {
        ok := false;
      }
      if !ok { return -1; }
      PreparedMeasured(e, disk, spc);
      if lastSect != 0 && stac4 && flg >= 2 {
        ok := ShareEnd(e, disk, bits, spc, lastSect, next, flg);
        if !ok { return -1; }
      }
      ok := Cut(e, disk, spc, flg >= 2 && EndShared(e, disk, bits, next, spc, stac4));
      if !ok { return -1; }
      val := bytesInClust;
    }

    lemma SuballocatedLast(e: Entry, disk: seq<Sector>, spc: nat)
      requires Suballocated(e, spc)
      ensures LastSector(e, disk, spc) == if e.len == 1 then 0 else e.sect + e.len - 1
    {
    }

    lemma PlainPrepared(e: Entry, disk: seq<Sector>, spc: nat)
      requires Plain(e) && !Fragmented(e, spc) && !Suballocated(e, spc)
      requires Kind(e, spc) in {0, 2} <==> compressed
      ensures Prepared(e, disk, spc) && LastSector(e, disk, spc) == e.sect + e.len - 1
    {
    }

    lemma PreparedMeasured(e: Entry, disk: seq<Sector>, spc: nat)
      requires Prepared(e, disk, spc)
      ensures Measured(e, disk, spc, false)
    {
      hide PieceCount, SectorCount, FirstOffset, FirstEnd, ListReal, PieceSum, PiecesReal, ClusterSectors, Packed;
    }
  }

  predicate OnDisk(list: seq<nat>, disk: seq<Sector>) {
    forall s :: s in list ==> s < |disk|
  }

  lemma NotOnDisk(list: seq<nat>, k: nat, disk: seq<Sector>)
    requires k < |list| && list[k] >= |disk|
    ensures !OnDisk(list, disk)
  {
    assert list[k] in list;
  }

  // the data of some whole sectors at the front of the cluster
  ghost predicate Taken(visited: seq<nat>, data: seq<byte>, e: Entry, disk: seq<Sector>, spc: nat) {
    if visited == [] then data == []
    else data == Slice(SectorAt(disk, e.sect), FirstOffset(e, disk, spc), FirstEnd(e, disk, spc)) + Contents(disk, visited[1..])
  }

  lemma NothingTaken(e: Entry, disk: seq<Sector>, spc: nat)
    ensures Taken([], [], e, disk, spc) && OnDisk([], disk)
  {
  }

  lemma {:induction false} ContentsPrefix(disk: seq<Sector>, list: seq<nat>, k: nat)
    requires k < |list|
    ensures Contents(disk, list[..k]) + SectorAt(disk, list[k]) <= Contents(disk, list)
    decreases |list|
  {
    var front := list[..|list| - 1];
    if k < |front| {
      assert front[..k] == list[..k];
      ContentsPrefix(disk, front, k);
    }
  }

  // One more sector. All but the last one are taken whole.
  lemma TakeFirst(e: Entry, disk: seq<Sector>, spc: nat, s: nat, ahead: seq<nat>, offset: int, bytes: int)
    requires s < |disk| && [s] + ahead == ClusterSectors(e, disk, spc)
    requires 0 <= offset && 0 <= bytes && offset == FirstOffset(e, disk, spc) && offset + bytes <= FirstEnd(e, disk, spc)
    requires ahead != [] ==> offset + bytes == FirstEnd(e, disk, spc)
    ensures OnDisk([s], disk) && disk[s][offset..offset + bytes] <= AllData(e, disk, spc)
    ensures ahead != [] ==> Taken([s], disk[s][offset..offset + bytes], e, disk, spc)
  {
    hide FirstOffset, FirstEnd, ClusterSectors, Contents;
    assert ClusterSectors(e, disk, spc)[0] == s == e.sect;
    assert [s][1..] == [] && ClusterSectors(e, disk, spc)[1..] == ahead;
    NoContents(disk);
    var d := SectorAt(disk, e.sect);
    var front := Slice(d, offset, FirstEnd(e, disk, spc));
    assert front[..bytes] == d[offset..offset + bytes];
  }

  lemma NoContents(disk: seq<Sector>)
    ensures Contents(disk, []) == []
  {
  }

  lemma TakeNext(e: Entry, disk: seq<Sector>, spc: nat, visited: seq<nat>, data: seq<byte>, s: nat, ahead: seq<nat>, bytes: int)
    requires s < |disk| && visited != [] && visited + [s] + ahead == ClusterSectors(e, disk, spc)
    requires OnDisk(visited, disk) && Taken(visited, data, e, disk, spc)
    requires 0 <= bytes <= SECTOR_SIZE && (ahead != [] ==> bytes == SECTOR_SIZE)
    ensures OnDisk(visited + [s], disk) && data + disk[s][..bytes] <= AllData(e, disk, spc)
    ensures ahead != [] ==> Taken(visited + [s], data + disk[s][..bytes], e, disk, spc)
  {
    hide FirstOffset, FirstEnd, ClusterSectors, Contents, Slice;
    var all, k := ClusterSectors(e, disk, spc), |visited| - 1;
    assert all[1..] == visited[1..] + [s] + ahead;
    assert all[1..][..k] == visited[1..] && all[1..][k] == s;
    ContentsPrefix(disk, all[1..], k);
    assert (visited + [s])[1..] == visited[1..] + [s];
    ContentsNext(disk, visited[1..], s);
    var front := Slice(SectorAt(disk, e.sect), FirstOffset(e, disk, spc), FirstEnd(e, disk, spc));
    Prefixes(front, Contents(disk, visited[1..]), disk[s], bytes, Contents(disk, all[1..]));
  }

  lemma ContentsNext(disk: seq<Sector>, list: seq<nat>, s: nat)
    ensures Contents(disk, list + [s]) == Contents(disk, list) + SectorAt(disk, s)
  {
    assert (list + [s])[..|list|] == list;
  }

  lemma Prefixes(front: seq<byte>, a: seq<byte>, b: seq<byte>, n: nat, all: seq<byte>)
    requires n <= |b| && a + b <= all
    ensures front + a + b[..n] <= front + all
    ensures n == |b| ==> front + a + b[..n] == front + (a + b)
  {
  }

  // The walk of stac_read_cluster. An accepted cluster, none of whose fragments starts at sector 0, is collected from its sectors, in
  // their order, if and only if they are on disk and the entry is less than a sector too long.
  method WalkCluster(cw: Cwalk, disk: seq<Sector>, bits: seq<nat>, e: Entry, next: seq<Entry>, spc: nat, stac4: bool)
    returns (val: int, visited: seq<nat>, data: seq<byte>, ok: bool)
    requires spc >= 1
    modifies cw
    ensures var n := DataBytes(e, disk, spc, EndShared(e, disk, bits, next, spc, stac4));
            && (val <= 0 ==> val == (if e.sect == 0 then 0 else if Accepted(e, disk, bits, next, spc, stac4, 2) then Min(n, spc * SECTOR_SIZE) else -1))
            && (val > 0 ==>
                 && e.sect != 0 && Accepted(e, disk, bits, next, spc, stac4, 2) && val == Min(n, spc * SECTOR_SIZE)
                 && cw.compressed == Packed(e, disk, spc)
                 && (ListReal(e, disk, spc) ==> (ok <==> n < (spc + 1) * SECTOR_SIZE && OnDisk(ClusterSectors(e, disk, spc), disk)))
                 && (ListReal(e, disk, spc) && ok ==>
                       visited == ClusterSectors(e, disk, spc) && data == Slice(AllData(e, disk, spc), 0, val) && |data| == val))
  {
    hide PieceSum, PiecesReal, DataBytes, EndShared, ListReal, SectorCount, Accepted, ClusterSectors, AllData, Packed, OnDisk;
    visited, data, ok := [], [], false;
    val := cw.Init(disk, bits, e, next, spc, stac4, 2);
    if val > 0 {
      var failed;
      visited, data, failed := cw.CollectBytes(disk, e, spc, EndShared(e, disk, bits, next, spc, stac4));
      ok := !failed && |data| == val;
    }
  }

  // n sectors from s on, and k pieces
  function Rest(s: nat, n: nat, f: seq<byte>, k: nat): (r: seq<nat>)
    requires |f| >= 4 * k
    ensures |r| == n + PieceSum(f, k)
  {
    RunFrom(s, n) + PieceSectors(f, k)
  }

  lemma RestEmpty(s: nat, n: nat, f: seq<byte>, k: nat)
    requires |f| >= 4 * k
    ensures Rest(s, n, f, k) == [] <==> n == 0 && k == 0
  {
    if k > 0 { assert PieceSum(f, k) >= 1; }
  }

  lemma RestNext(s: nat, n: nat, f: seq<byte>, k: nat)
    requires n >= 1 && |f| >= 4 * k
    ensures Rest(s, n, f, k) == [s] + Rest(s + 1, n - 1, f, k)
  {
    hide PieceSectors;
  }

  lemma RestPiece(s: nat, f: seq<byte>, k: nat)
    requires k >= 1 && |f| >= 4 * k
    ensures Rest(s, 0, f, k) == [PieceSect(f)] + Rest(PieceSect(f) + 1, PieceLen(f), f[4..], k - 1)
    ensures PiecesReal(f, k) ==> PieceSect(f) > 0 && PiecesReal(f[4..], k - 1)
  {
    hide PieceSect, PieceLen;
    assert RunFrom(s, 0) == [];
    assert RunFrom(PieceSect(f), PieceLen(f) + 1) == [PieceSect(f)] + RunFrom(PieceSect(f) + 1, PieceLen(f));
  }
}
