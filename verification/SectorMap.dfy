/**
 Sectors, runs of sectors and the sector bitmap (BITFAT) of a DoubleSpace or DriveSpace volume.

 A bitmap is a `seq<bool>` over sector numbers, true for used. Only sectors from `lo` up to
 the end of the bitmap are in the data area; all others count as used.
 */
module SectorMap {

  datatype Run = Run(sector: nat, count: nat)

  function RunList(sector: nat, count: nat): (s: seq<nat>)
    ensures |s| == count && forall i :: 0 <= i < count ==> s[i] == sector + i
  {
    seq(count, i => sector + i)
  }

  // the sectors of several runs in order
  function SectorsOf(runs: seq<Run>): seq<nat> {
    if runs == [] then []
    else
      var r := runs[|runs| - 1];
      SectorsOf(runs[..|runs| - 1]) + RunList(r.sector, r.count)
  }

  predicate NoDup(s: seq<nat>) {
    forall i, j :: 0 <= i < j < |s| ==> s[i] != s[j]
  }

  predicate Free(b: seq<bool>, lo: nat, s: int) {
    lo <= s < |b| && !b[s]
  }

  // n free sectors from s on
  predicate FreeRun(b: seq<bool>, lo: nat, s: int, n: nat) {
    forall i :: s <= i < s + n ==> Free(b, lo, i)
  }

  function FreeCount(b: seq<bool>, lo: nat): (n: nat)
    ensures n <= |b|
  {
    if |b| <= lo then 0 else FreeCount(b[..|b| - 1], lo) + if b[|b| - 1] then 0 else 1
  }

  // sets the bits of all sectors in the list to v
  function SetAll(b: seq<bool>, list: seq<nat>, v: bool): (r: seq<bool>)
    ensures |r| == |b|
  {
    if list == [] then b
    else
      var r := SetAll(b, list[..|list| - 1], v);
      var s := list[|list| - 1];
      if s < |b| then r[s := v] else r
  }

  lemma {:induction false} SetAllAt(b: seq<bool>, list: seq<nat>, v: bool, i: nat)
    requires i < |b|
    ensures SetAll(b, list, v)[i] == if i in list then v else b[i]
  {
    if list != [] {
      var rest, s := list[..|list| - 1], list[|list| - 1];
      assert list == rest + [s];
      SetAllAt(b, rest, v, i);
    }
  }

  // Setting bits that were clear and clearing them again leaves the bitmap as it was.
  lemma SetTwice(b: seq<bool>, list: seq<nat>, v: bool)
    requires forall i :: i in list && i < |b| ==> b[i] == v
    ensures SetAll(SetAll(b, list, !v), list, v) == b
  {
    var once := SetAll(b, list, !v);
    forall i | 0 <= i < |b| ensures SetAll(once, list, v)[i] == b[i] {
      SetAllAt(b, list, !v, i);
      SetAllAt(once, list, v, i);
    }
  }

  lemma SetNext(b: seq<bool>, list: seq<nat>, k: nat, v: bool)
    requires k < |list|
    ensures SetAll(b, list[..k + 1], v) == var r := SetAll(b, list[..k], v); if list[k] < |b| then r[list[k] := v] else r
  {
    assert list[..k + 1][..k] == list[..k];
  }

  // one bit changed
  lemma {:induction false} CountSet(b: seq<bool>, lo: nat, s: nat, v: bool)
    requires lo <= s < |b|
    ensures FreeCount(b[s := v], lo) == FreeCount(b, lo) + (if v then 0 else 1) - (if b[s] then 0 else 1)
    decreases |b|
  {
    var n := |b| - 1;
    if s < n {
      assert b[s := v][..n] == b[..n][s := v];
      CountSet(b[..n], lo, s, v);
    } else {
      assert b[s := v][..n] == b[..n];
    }
  }

  lemma {:induction false} CountPrefix(b: seq<bool>, lo: nat, k: nat)
    requires k <= |b|
    ensures FreeCount(b[..k], lo) <= FreeCount(b, lo)
    decreases |b|
  {
    if k < |b| {
      assert b[..|b| - 1][..k] == b[..k];
      CountPrefix(b[..|b| - 1], lo, k);
    } else {
      assert b[..k] == b;
    }
  }

  lemma CountNext(b: seq<bool>, lo: nat, k: nat)
    requires lo <= k < |b|
    ensures FreeCount(b[..k + 1], lo) == FreeCount(b[..k], lo) + if b[k] then 0 else 1
  {
    assert b[..k + 1][..k] == b[..k];
  }

  // A free run of n sectors needs n free sectors.
  lemma {:induction false} RunCounts(b: seq<bool>, lo: nat, s: nat, n: nat)
    requires FreeRun(b, lo, s, n)
    ensures n > 0 ==> lo <= s && s + n <= |b| && FreeCount(b[..s + n], lo) >= n && FreeCount(b, lo) >= n
    decreases n
  {
    if n > 0 {
      assert Free(b, lo, s + n - 1) && Free(b, lo, s);
      RunCounts(b, lo, s, n - 1);
      CountNext(b, lo, s + n - 1);
      CountPrefix(b, lo, s + n);
    }
  }

  lemma {:induction false} SectorsConcat(a: seq<Run>, b: seq<Run>)
    ensures SectorsOf(a + b) == SectorsOf(a) + SectorsOf(b)
    decreases |b|
  {
    if b == [] {
      assert a + b == a;
    } else {
      assert (a + b)[..|a + b| - 1] == a + b[..|b| - 1];
      SectorsConcat(a, b[..|b| - 1]);
    }
  }

  lemma SectorsOne(r: Run)
    ensures SectorsOf([r]) == RunList(r.sector, r.count)
  {
    assert [r][..0] == [];
  }

  lemma SectorsAdd(runs: seq<Run>, r: Run)
    ensures SectorsOf(runs + [r]) == SectorsOf(runs) + RunList(r.sector, r.count)
  {
    assert (runs + [r])[..|runs|] == runs;
  }

  function Total(runs: seq<Run>): nat {
    if runs == [] then 0 else Total(runs[..|runs| - 1]) + runs[|runs| - 1].count
  }

  lemma {:induction false} TotalSize(runs: seq<Run>)
    ensures |SectorsOf(runs)| == Total(runs)
  {
    if runs != [] { TotalSize(runs[..|runs| - 1]); }
  }

  // each run ends before the next begins
  ghost predicate Rising(runs: seq<Run>) {
    forall i, j :: 0 <= i < j < |runs| ==> runs[i].sector + runs[i].count <= runs[j].sector
  }

  ghost predicate AllFree(runs: seq<Run>, b: seq<bool>, lo: nat) {
    forall i :: 0 <= i < |runs| ==> runs[i].count >= 1 && FreeRun(b, lo, runs[i].sector, runs[i].count)
  }

  // where a sector of the runs comes from
  lemma {:induction false} SectorIn(runs: seq<Run>, s: nat) returns (i: nat)
    requires s in SectorsOf(runs)
    ensures i < |runs| && runs[i].sector <= s < runs[i].sector + runs[i].count
  {
    var r, rest := runs[|runs| - 1], runs[..|runs| - 1];
    if s in SectorsOf(rest) {
      i := SectorIn(rest, s);
    } else {
      i := |runs| - 1;
    }
  }

  lemma {:induction false} RisingNoDup(runs: seq<Run>)
    requires Rising(runs)
    ensures NoDup(SectorsOf(runs))
  {
    if runs != [] {
      var r, rest := runs[|runs| - 1], runs[..|runs| - 1];
      RisingNoDup(rest);
      var a, b := SectorsOf(rest), RunList(r.sector, r.count);
      forall i, j | 0 <= i < j < |a + b| ensures (a + b)[i] != (a + b)[j] {
        if i < |a| <= j {
          var k := SectorIn(rest, a[i]);
          assert runs[k].sector + runs[k].count <= r.sector;
        }
      }
    }
  }

  lemma FreeSectors(runs: seq<Run>, b: seq<bool>, lo: nat)
    requires AllFree(runs, b, lo)
    ensures forall s :: s in SectorsOf(runs) ==> Free(b, lo, s)
  {
    forall s | s in SectorsOf(runs) ensures Free(b, lo, s) {
      var i := SectorIn(runs, s);
      assert FreeRun(b, lo, runs[i].sector, runs[i].count);
    }
  }

  lemma {:induction false} CountRun(b: seq<bool>, lo: nat, s: nat, n: nat)
    requires lo <= s && s + n <= |b| && FreeRun(b, lo, s, n)
    ensures FreeCount(b[..s + n], lo) == FreeCount(b[..s], lo) + n
    decreases n
  {
    if n > 0 {
      assert Free(b, lo, s + n - 1);
      CountRun(b, lo, s, n - 1);
      CountNext(b, lo, s + n - 1);
    }
  }

  // runs found one after the other
  ghost predicate Collected(runs: seq<Run>, b: seq<bool>, lo: nat, upto: int) {
    && Rising(runs) && AllFree(runs, b, lo)
    && forall i :: 0 <= i < |runs| ==> lo <= runs[i].sector && runs[i].sector + runs[i].count <= upto && runs[i].sector + runs[i].count <= |b|
  }

  lemma CollectedAdd(runs: seq<Run>, b: seq<bool>, lo: nat, upto: int, r: Run, upto': int)
    requires Collected(runs, b, lo, upto) && upto <= r.sector && r.count >= 1 && FreeRun(b, lo, r.sector, r.count)
    requires r.sector + r.count <= upto'
    ensures Collected(runs + [r], b, lo, upto')
  {
    assert Free(b, lo, r.sector) && Free(b, lo, r.sector + r.count - 1);
  }

  lemma TotalAdd(runs: seq<Run>, r: Run)
    ensures Total(runs + [r]) == Total(runs) + r.count
  {
    assert (runs + [r])[..|runs|] == runs;
  }

  lemma {:induction false} TotalMany(runs: seq<Run>, b: seq<bool>, lo: nat)
    requires AllFree(runs, b, lo)
    ensures |runs| <= Total(runs) && forall i :: 0 <= i < |runs| ==> runs[i].count <= Total(runs) - |runs| + 1
  {
    if runs != [] { TotalMany(runs[..|runs| - 1], b, lo); }
  }

  lemma {:induction false} SetConcat(b: seq<bool>, x: seq<nat>, y: seq<nat>, v: bool)
    ensures SetAll(b, x + y, v) == SetAll(SetAll(b, x, v), y, v)
    decreases |y|
  {
    if y == [] {
      assert x + y == x;
    } else {
      assert (x + y)[..|x + y| - 1] == x + y[..|y| - 1];
      SetConcat(b, x, y[..|y| - 1], v);
    }
  }

  lemma SectorsPrefix(runs: seq<Run>, k: nat)
    requires k <= |runs|
    ensures SectorsOf(runs[..k]) <= SectorsOf(runs)
  {
    assert runs == runs[..k] + runs[k..];
    SectorsConcat(runs[..k], runs[k..]);
  }
}
