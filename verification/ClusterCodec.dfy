/**
 `dbl_compress` and `dbl_decompress`: one cluster, with the method named in its first four bytes.
 */
module ClusterCodec {
  import opened Bits
  import opened LsbStream
  import DsFormat
  import DsCompress
  import DsDecompress
  import SqHeader
  import SqCompress
  import SqDecompress
  import SqLz
  import SqComplz
  import SqStream
  import SqEmit

  const SECTOR_SIZE := 512
  const UNCOMPRESSED: int := -2

  // CHL: the first four bytes, lowest first
  function MethodOf(z: seq<byte>): nat
    requires |z| >= 4
  {
    z[0] as int + 0x100 * z[1] as int + 0x1_0000 * z[2] as int + 0x100_0000 * z[3] as int
  }

  lemma MethodIs(z: seq<byte>)
    requires |z| >= 4
    ensures MethodOf(z) == Val(BytesBits(z), 0, 32)
  {
    hide BytesBits, Val, Shl;
    WordBits(z, 0);
    WordBits(z, 2);
    ValSplit(BytesBits(z), 0, 16, 16);
    ShlSteps(WordAt(z, 2));
  }

  datatype Expanded = Good(out: seq<byte>) | Bad(out: seq<byte>) | Unmodelled(out: seq<byte>)

  // what dbl_decompress makes of z in a buffer of the length of the cluster
  function Expand(z: seq<byte>, buf: seq<byte>): (r: Expanded)
    requires |z| >= 4 && |buf| > 0
    ensures |r.out| == |buf|
  {
    var m := MethodOf(z);
    if DsCompress.KnownMethod(m) then
      var (n, out) := DsFormat.Decode(z, buf, DsCompress.IsJm(m), false);
      if n <= 0 then Bad(out) else Good(out)
    else if m == SqCompress.SQ_0_0 then
      match SqHeader.Decode(z, buf)
      case Done(n, out) => if n == 0 then Bad(out) else Good(out)
      case Failed(out) => Bad(out)
      case Unmodelled(out) => Unmodelled(out)
    else Bad(buf)
  }

  // z stands for the data, whatever the buffer held before
  ghost predicate StandsFor(z: seq<byte>, data: seq<byte>) {
    |z| >= 4 && forall buf: seq<byte> :: |buf| == |data| > 0 ==> Expand(z, buf) == Good(data)
  }

  lemma DsStandsFor(z: seq<byte>, data: seq<byte>, m: nat)
    requires |z| >= 4 && DsCompress.KnownMethod(m) && Val(BytesBits(z), 0, 32) == m
    requires DsCompress.Decodes(z, data, DsCompress.IsJm(m))
    ensures StandsFor(z, data)
  {
    hide DsFormat.Decode, SqHeader.Decode, BytesBits, Val, MethodOf, DsCompress.KnownMethod, DsCompress.IsJm;
    MethodIs(z);
  }

  lemma SqStandsFor(p: seq<byte>, z: seq<byte>, data: seq<byte>)
    requires |z| >= 4 && SqCompress.DecodesAnyway(p, data) && p <= z
    ensures StandsFor(z, data)
  {
    hide DsFormat.Decode, SqHeader.Decode, BytesBits, Val, MethodOf;
    MethodIs(z);
    forall buf: seq<byte> | |buf| == |data| > 0 ensures Expand(z, buf) == Good(data) {
      assert SqCompress.Decodes(z, data);
      assert SqCompress.DecodesInto(z, buf, data);
      var r := SqHeader.Decode(z, buf);
      assert r.buf[..|data|] == r.buf;
    }
  }

  // what the compressor wrote, or meant to write
  datatype Code = Ds(toks: seq<DsFormat.Token>) | Sq(items: seq<SqLz.Inter>, plan: SqStream.Plan) | Nothing

  // The number of sectors is that of the SQ stream; -1 means that the stream does not leave a sector free,
  // does not fit beside its intermediate code, or that this code is too long.
  ghost predicate SqFitted(k: int, data: seq<byte>, items: seq<SqLz.Inter>, plan: SqStream.Plan) {
    if k == -1 then
      || SqComplz.TooLong(items, data, |data| - 0x20)
      || SqCompress.Overlaps(items, data, plan, |data|)
      || (SqCompress.Planned(items, data, plan) && SqSize(plan) + SECTOR_SIZE > |data|)
    else
      && SqCompress.Planned(items, data, plan)
      && SqCompress.RoomFor(SqCompress.FrontSize(plan), items, data, plan, |data|)
      && SqSize(plan) + SECTOR_SIZE <= |data| && k == (SqSize(plan) - 1) / SECTOR_SIZE + 1
  }

  // the answer k of the compressor for method m is the one the code calls for
  ghost predicate Accounted(k: int, m: int, zk: seq<byte>, data: seq<byte>, c: Code)
    requires |data| >= SECTOR_SIZE
  {
    if m >= 0 && DsCompress.KnownMethod(m) then c.Ds? && DsCompress.Fitted(k, zk, data, m, c.toks)
    else if m == SqCompress.SQ_0_0 then c.Sq? && SqFitted(k, data, c.items, c.plan)
    else k == -1
  }

  // the bytes of a stream with a word of zeros behind it
  function SqSize(plan: SqStream.Plan): nat
    requires SqStream.PlanOk(plan)
  {
    SqEmit.Words(|SqStream.StreamBits(plan)| + 16)
  }

  // dbl_compress: the sectors used, or -1 if there is no gain
  method DblCompress(clusterk: array<byte>, clusterd: seq<byte>, size: nat, m: int, cf: nat, addr: nat)
    returns (k: int, ghost c: Code)
    requires size > 0 && |clusterd| == size * SECTOR_SIZE <= clusterk.Length && cf < |DsCompress.MAX_TRY|
    modifies clusterk
    ensures k == -1 || 1 <= k <= size - 1
    ensures k >= 1 ==> StandsFor(clusterk[..k * SECTOR_SIZE], clusterd)
    ensures Accounted(k, m, clusterk[..], clusterd, c)
  {
    hide DsCompress.Fitted, SqFitted, StandsFor, DsCompress.KnownMethod;
    c := Nothing;
    NotBoth();
    if m >= 0 && DsCompress.KnownMethod(m) {
      ghost var toks;
      k, toks := DsBranch(clusterk, clusterd, size, m, cf);
      c := Ds(toks);
    } else if m == SqCompress.SQ_0_0 {
      ghost var items, plan;
      k, items, plan := SqBranch(clusterk, clusterd, size, cf, addr);
      c := Sq(items, plan);
    } else {
      k := -1;
    }
  }

  lemma NotBoth()
    ensures !DsCompress.KnownMethod(SqCompress.SQ_0_0)
  {
  }

  method DsBranch(clusterk: array<byte>, clusterd: seq<byte>, size: nat, m: nat, cf: nat) returns (k: int, ghost toks: seq<DsFormat.Token>)
    requires size > 0 && |clusterd| == size * SECTOR_SIZE <= clusterk.Length && cf < |DsCompress.MAX_TRY| && DsCompress.KnownMethod(m)
    modifies clusterk
    ensures k == -1 || 1 <= k <= size - 1
    ensures k >= 1 ==> StandsFor(clusterk[..k * SECTOR_SIZE], clusterd)
    ensures DsCompress.Fitted(k, clusterk[..], clusterd, m, toks)
  {
    hide DsCompress.Fitted, DsCompress.Decodes, StandsFor, BytesBits, Val, DsCompress.KnownMethod, DsCompress.IsJm, Pow2;
    k, toks := DsCompress.CompressCluster(clusterk, clusterd, size, m, cf);
    if k >= 1 { DsStandsFor(clusterk[..k * SECTOR_SIZE], clusterd, m); }
  }

  lemma SqAnswer(n: nat, data: seq<byte>, items: seq<SqLz.Inter>, plan: SqStream.Plan)
    requires |data| >= SECTOR_SIZE
    requires if 0 < n <= |data| then SqCompress.Succeeds(n, items, data, plan, |data|)
             else SqComplz.TooLong(items, data, |data| - 0x20) || SqCompress.Overlaps(items, data, plan, |data|)
    ensures SqFitted(if n == 0 || n + SECTOR_SIZE > |data| then -1 else (n - 1) / SECTOR_SIZE + 1, data, items, plan)
  {
    hide SqCompress.RoomFor, SqComplz.TooLong, SqStream.PlanOk, SqStream.StreamBits;
  }

  lemma WholeSectors(n: nat, size: nat)
    requires 0 < n && n + SECTOR_SIZE <= size * SECTOR_SIZE
    ensures var k := (n - 1) / SECTOR_SIZE + 1; 1 <= k <= size - 1 && n <= k * SECTOR_SIZE <= size * SECTOR_SIZE
  {
  }

  lemma EvenSize(size: nat)
    ensures RoundUp2(size * SECTOR_SIZE) == size * SECTOR_SIZE
  {
    RoundEven(256 * size);
  }

  lemma RoundEven(h: nat)
    ensures RoundUp2(2 * h) == 2 * h
  {
  }

  method SqBranch(clusterk: array<byte>, clusterd: seq<byte>, size: nat, cf: nat, addr: nat)
    returns (k: int, ghost items: seq<SqLz.Inter>, ghost plan: SqStream.Plan)
    requires size > 0 && |clusterd| == size * SECTOR_SIZE <= clusterk.Length && cf < |DsCompress.MAX_TRY|
    modifies clusterk
    ensures k == -1 || 1 <= k <= size - 1
    ensures k >= 1 ==> StandsFor(clusterk[..k * SECTOR_SIZE], clusterd)
    ensures SqFitted(k, clusterd, items, plan)
  {
    hide SqCompress.DecodesAnyway, StandsFor, BytesBits, Val, Pow2, SqCompress.Succeeds, SqCompress.Overlaps, SqComplz.TooLong, SqFitted, RoundUp2;
    var n;
    EvenSize(size);
    n, items, plan := SqCompress.SqComp(clusterd, clusterk, size * SECTOR_SIZE, cf, addr);
    SqAnswer(n, clusterd, items, plan);
    if n == 0 || n + SECTOR_SIZE > size * SECTOR_SIZE { return -1, items, plan; }
    k := (n - 1) / SECTOR_SIZE + 1;
    WholeSectors(n, size);
    assert clusterk[..n] <= clusterk[..k * SECTOR_SIZE];
    SqStandsFor(clusterk[..n], clusterk[..k * SECTOR_SIZE], clusterd);
  }

  // dbl_decompress: 0, or an error
  method DblDecompress(clusterd: array<byte>, z: seq<byte>, garbage: nat) returns (modelled: bool, res: int)
    requires |z| >= 4 && clusterd.Length > 0 && garbage < Pow2(32)
    modifies clusterd
    ensures modelled ==> Expand(z, old(clusterd[..])) == if res == 0 then Good(clusterd[..]) else Bad(clusterd[..])
    ensures !modelled ==> Expand(z, old(clusterd[..])) == Unmodelled(clusterd[..])
  {
    hide DsFormat.Decode, SqHeader.Decode, DsCompress.KnownMethod, Pow2;
    var m := MethodOf(z);
    if DsCompress.KnownMethod(m) {
      var r := DsDecompress.Decompress(z, garbage, clusterd, DsCompress.IsJm(m), false);
      return true, if r <= 0 then -2 else 0;
    }
    if m == SqCompress.SQ_0_0 {
      var r := SqDecompress.SqDec(z, clusterd, garbage);
      match r
      case Length(n) => return true, if n == 0 then -1 else 0;
      case Fault => return true, -1;
      case Outside => return false, 0;
    }
    return true, -1;
  }
}
