/**
 Reading whole clusters of a Stacker volume: `stac_read_cluster`.
 */
module StacIo {
  import opened Bits
  import opened StacWalk
  import opened ClusterSpec
  import StacCodec
  import ClusterIo

  const EIO: int := -5

  // What reading a cluster gives, from its entry, the sectors on disk, their states and the entry of
  // the next cluster. Not modelled is a cluster with a fragment at sector 0, and compressed data that are
  // shorter than the word that tells the format or that the decompressors do not model.
  function StacReadOf(e: Entry, disk: seq<Sector>, bits: seq<nat>, next: seq<Entry>, spc: nat, stac4: bool, buf: seq<byte>): Content
    requires spc >= 1 && |buf| == 512 * spc
  {
    var n := DataBytes(e, disk, spc, EndShared(e, disk, bits, next, spc, stac4));
    var val := Min(n, 512 * spc);
    if e.sect == 0 then Data(Zeros(512 * spc), 0)
    else if !Accepted(e, disk, bits, next, spc, stac4, 2) || val < 0 then Failed
    else if val == 0 then Data(Zeros(512 * spc), 0)
    else if !AllReal(e, disk, spc) then NotModelled
    else if n >= 512 * (spc + 1) || !OnDisk(ClusterSectors(e, disk, spc), disk) then Failed
    else Unpacked(Slice(AllData(e, disk, spc), 0, val), Packed(e, disk, spc), buf)
  }

  predicate AllReal(e: Entry, disk: seq<Sector>, spc: nat) {
    0 !in ClusterSectors(e, disk, spc)
  }

  // the cluster made of the data collected
  function Unpacked(raw: seq<byte>, packed: bool, buf: seq<byte>): Content
    requires |buf| > 0
  {
    if !packed then Data(ZeroSlack(Over(raw, buf), |raw|), |raw|)
    else if |raw| < 2 then NotModelled
    else
      match StacCodec.StacDecode(raw, buf)
      case NotModelled(_) => NotModelled
      case Ret(res, out) => if res <= 0 then Failed else Data(ZeroSlack(out, res), res)
  }

  // pieces none of which holds sector 0 do not begin there
  lemma {:induction false} NoZeroPiece(f: seq<byte>, n: nat)
    requires |f| >= 4 * n && 0 !in PieceSectors(f, n)
    ensures PiecesReal(f, n)
    decreases n
  {
    if n > 0 {
      var r := RunFrom(PieceSect(f), PieceLen(f) + 1);
      assert PieceSectors(f, n) == r + PieceSectors(f[4..], n - 1) && r[0] == PieceSect(f) && r[0] in r;
      NoZeroPiece(f[4..], n - 1);
    }
  }

  lemma RealList(e: Entry, disk: seq<Sector>, spc: nat)
    requires AllReal(e, disk, spc)
    ensures ListReal(e, disk, spc)
  {
    hide PieceSectors, PiecesReal;
    if Fragmented(e, spc) && PieceCount(e, disk, spc) <= 128 {
      var a, b := RunFrom(e.sect, e.len), PieceSectors(SectorAt(disk, e.sect)[4..], PieceCount(e, disk, spc) - 1);
      assert forall s :: s in b ==> s in a + b;
      NoZeroPiece(SectorAt(disk, e.sect)[4..], PieceCount(e, disk, spc) - 1);
    }
  }

  // stac_read_cluster: the length, or a negative error
  method StacReadCluster(disk: seq<Sector>, bits: seq<nat>, e: Entry, next: seq<Entry>, spc: nat, stac4: bool, clusterd: array<byte>, garbage: nat)
    returns (modelled: bool, res: int)
    requires spc >= 1 && clusterd.Length == 512 * spc && garbage < Pow2(32)
    modifies clusterd
    ensures match StacReadOf(e, disk, bits, next, spc, stac4, old(clusterd[..]))
            case Data(buf, n) => modelled && res == n && clusterd[..] == buf
            case Failed => modelled && res < 0
            case NotModelled => true
  {
    hide DataBytes, EndShared, Accepted, OnDisk, ClusterSectors, AllData, Packed, Unpacked, Pow2, ListReal, AllReal, Zeros, ZeroSlack, Over;
    var cw := new Cwalk();
    var val, visited, data, ok := WalkCluster(cw, disk, bits, e, next, spc, stac4);
    if AllReal(e, disk, spc) { RealList(e, disk, spc); }
    if val < 0 { return true, EIO; }
    if val == 0 {
      Zeroed(clusterd[..]);
      ClusterIo.Fill(clusterd, [], 0);
      return true, 0;
    }
    if !ok { return true, EIO; }
    modelled, res := Unpack(data, cw.compressed, clusterd, garbage);
  }

  lemma Zeroed(buf: seq<byte>)
    ensures ZeroSlack(Over([], buf), 0) == Zeros(|buf|)
  {
  }

  // decompresses the data if need be, and fills up the cluster with zeros
  method Unpack(raw: seq<byte>, packed: bool, clusterd: array<byte>, garbage: nat) returns (modelled: bool, res: int)
    requires clusterd.Length > 0 && garbage < Pow2(32)
    modifies clusterd
    ensures match Unpacked(raw, packed, old(clusterd[..]))
            case Data(buf, n) => modelled && res == n && clusterd[..] == buf
            case Failed => modelled && res < 0
            case NotModelled => true
  {
    hide StacCodec.StacDecode, Pow2, ZeroSlack, Over;
    if !packed {
      ClusterIo.Fill(clusterd, raw, |raw|);
      return true, |raw|;
    }
    if |raw| < 2 { return false, 0; }
    modelled, res := StacCodec.StacDecompress(raw, clusterd, garbage);
    if !modelled { return; }
    if res <= 0 { return true, EIO; }
    NothingOver(clusterd[..]);
    ClusterIo.Fill(clusterd, [], res);
  }

  lemma NothingOver(buf: seq<byte>)
    ensures Over([], buf) == buf
  {
  }

  // Data compressed for Stacker are read back from any cluster that begins with them.
  lemma CompressedRead(z: seq<byte>, data: seq<byte>, raw: seq<byte>, buf: seq<byte>)
    requires StacCodec.StacDecodes(z, data) && z <= raw && 0 < |data| <= |buf|
    ensures Unpacked(raw, true, buf) == Data(data + Zeros(|buf| - |data|), |data|)
  {
    hide StacCodec.StacDecode;
    assert StacCodec.Restores(raw, buf, data);
    var r := StacCodec.StacDecode(raw, buf);
    StacCodec.SameLength(raw, buf);
    assert r.buf[..|data|] == data;
  }
}
