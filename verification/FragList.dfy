/**
 Fragment lists of DriveSpace 3: the runs of sectors of a fragmented cluster, four bytes
 each, behind a head of four bytes that holds their number.
 */
module FragList {
  import opened Bits
  import opened SectorMap

  // entry k: a 24-bit sector number less one, and in the highest byte the count less one, times four
  function FragAt(sec: seq<byte>, k: nat): Run
    requires 4 * k + 4 <= |sec|
  {
    Run(sec[4 * k] as int + 0x100 * sec[4 * k + 1] as int + 0x1_0000 * sec[4 * k + 2] as int + 1, sec[4 * k + 3] as int / 4 + 1)
  }

  // ((sector - 1) >> 24) | ((count - 1) << 2), cut to a byte
  function CountByte(r: Run): byte
    requires r.sector >= 1 && r.count >= 1
  {
    Or((r.sector - 1) / 0x100_0000 % 0x100, (r.count - 1) * 4 % 0x100) % 0x100
  }

  function FragBytes(r: Run): (b: seq<byte>)
    requires r.sector >= 1 && r.count >= 1
    ensures |b| == 4
  {
    var s := r.sector - 1;
    [s % 0x100, s / 0x100 % 0x100, s / 0x1_0000 % 0x100, CountByte(r)]
  }

  predicate Proper(runs: seq<Run>) {
    forall i :: 0 <= i < |runs| ==> runs[i].sector >= 1 && runs[i].count >= 1
  }

  function EntryBytes(runs: seq<Run>): (b: seq<byte>)
    requires Proper(runs)
    ensures |b| == 4 * |runs|
  {
    if runs == [] then [] else EntryBytes(runs[..|runs| - 1]) + FragBytes(runs[|runs| - 1])
  }

  function ListBytes(runs: seq<Run>): (b: seq<byte>)
    requires Proper(runs) && |runs| < 256
    ensures |b| == 4 * |runs| + 4
  {
    [|runs| as byte, 0, 0, 0] + EntryBytes(runs)
  }

  // the runs listed in a sector
  function ListRuns(sec: seq<byte>): (runs: seq<Run>)
    requires |sec| >= 4 && 4 * sec[0] as int + 4 <= |sec|
    ensures |runs| == sec[0]
  {
    seq(sec[0], i requires 0 <= i < sec[0] => FragAt(sec, i + 1))
  }

  // what an entry can hold: sectors up to 2^24 and at most 64 of them
  predicate Encodable(r: Run) {
    1 <= r.sector <= 0x100_0000 && 1 <= r.count <= 64
  }

  lemma CountByteIs(r: Run)
    requires 1 <= r.sector <= 0x100_0000 && r.count >= 1
    ensures CountByte(r) == (r.count - 1) * 4 % 0x100
  {
    assert (r.sector - 1) / 0x100_0000 == 0;
  }

  // An entry is read back exactly if and only if the count fits in six bits.
  lemma FragRoundTrip(r: Run, sec: seq<byte>, k: nat)
    requires 1 <= r.sector <= 0x100_0000 && r.count >= 1
    requires 4 * k + 4 <= |sec| && sec[4 * k..4 * k + 4] == FragBytes(r)
    ensures FragAt(sec, k).sector == r.sector
    ensures FragAt(sec, k) == r <==> r.count <= 64
  {
    hide CountByte;
    var b := sec[4 * k..4 * k + 4];
    assert b[0] == sec[4 * k] && b[1] == sec[4 * k + 1] && b[2] == sec[4 * k + 2] && b[3] == sec[4 * k + 3];
    CountByteIs(r);
    Split24(r.sector - 1);
  }

  lemma Split24(s: nat)
    requires s < 0x100_0000
    ensures s % 0x100 + 0x100 * (s / 0x100 % 0x100) + 0x1_0000 * (s / 0x1_0000 % 0x100) == s
  {
    var t := s / 0x100;
    assert s / 0x1_0000 == t / 0x100;
  }

  lemma {:induction false} EntryAt(runs: seq<Run>, i: nat)
    requires Proper(runs) && i < |runs|
    ensures EntryBytes(runs)[4 * i..4 * i + 4] == FragBytes(runs[i])
  {
    hide FragBytes;
    var rest := runs[..|runs| - 1];
    if i < |rest| {
      EntryAt(rest, i);
      assert EntryBytes(runs)[4 * i..4 * i + 4] == EntryBytes(rest)[4 * i..4 * i + 4];
    }
  }

  // A list written at the start of a sector is read back.
  lemma ListRoundTrip(runs: seq<Run>, sec: seq<byte>)
    requires Proper(runs) && |runs| < 256 && (forall i :: 0 <= i < |runs| ==> Encodable(runs[i]))
    requires ListBytes(runs) <= sec
    ensures sec[0] == |runs| && sec[1] == 0 && sec[2] == 0 && sec[3] == 0
    ensures |sec| >= 4 * sec[0] as int + 4 && ListRuns(sec) == runs
  {
    hide FragBytes, FragAt, EntryBytes;
    var n := |runs|;
    var b := ListBytes(runs);
    assert sec[..|b|] == b && b[0] == n && b[1] == 0 && b[2] == 0 && b[3] == 0;
    forall i | 0 <= i < n ensures ListRuns(sec)[i] == runs[i] {
      EntryAt(runs, i);
      var k := i + 1;
      assert sec[4 * k..4 * k + 4] == sec[..|b|][4 * k..4 * k + 4] == EntryBytes(runs)[4 * i..4 * i + 4];
      assert Encodable(runs[i]);
      FragRoundTrip(runs[i], sec, k);
    }
  }

  lemma ListAdd(runs: seq<Run>, r: Run)
    requires Proper(runs) && r.sector >= 1 && r.count >= 1 && |runs| < 255
    ensures Proper(runs + [r])
    ensures ListBytes(runs + [r]) == [(|runs| + 1) as byte, 0, 0, 0] + ListBytes(runs)[4..] + FragBytes(r)
  {
    assert (runs + [r])[..|runs|] == runs;
  }
}
