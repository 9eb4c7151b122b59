/**
 The FAT pass of dmsdosfsck: `check_fat` with `check_fat_loop`.
 */
module FatCheck {

  const FAT_EOF: int := -1

  predicate InRange(c: int, max: nat) {
    2 <= c <= max
  }

  // The chain from c leaves the range of clusters after at most n steps.
  ghost predicate Leaves(fat: seq<int>, max: nat, c: int, n: nat)
    requires |fat| == max + 1
    decreases n
  {
    !InRange(c, max) || (n > 0 && Leaves(fat, max, fat[c], n - 1))
  }

  ghost predicate Ends(fat: seq<int>, max: nat, c: int)
    requires |fat| == max + 1
  {
    exists n: nat :: Leaves(fat, max, c, n)
  }

  // fat' is fat with some chains cut
  ghost predicate CutFrom(fat: seq<int>, fat': seq<int>) {
    |fat'| == |fat| && forall c :: 0 <= c < |fat| ==> fat'[c] == fat[c] || fat'[c] == FAT_EOF
  }

  // a chain that ends still ends after cuts
  lemma {:induction false} CutLeaves(fat: seq<int>, fat': seq<int>, max: nat, c: int, n: nat)
    requires |fat| == max + 1 && CutFrom(fat, fat') && Leaves(fat, max, c, n)
    ensures Leaves(fat', max, c, n)
    decreases n
  {
    if InRange(c, max) && fat'[c] == fat[c] { CutLeaves(fat, fat', max, fat[c], n - 1); }
  }

  lemma CutEnds(fat: seq<int>, fat': seq<int>, max: nat, c: int)
    requires |fat| == max + 1 && CutFrom(fat, fat') && Ends(fat, max, c)
    ensures Ends(fat', max, c)
  {
    var n: nat :| Leaves(fat, max, c, n);
    CutLeaves(fat, fat', max, c, n);
  }

  // clusters visited one after the other
  ghost predicate Path(fat: seq<int>, max: nat, seen: seq<int>) {
    && |fat| == max + 1 && (forall i :: 0 <= i < |seen| ==> InRange(seen[i], max))
    && (forall i :: 0 <= i < |seen| - 1 ==> fat[seen[i]] == seen[i + 1])
    && (forall i, j :: 0 <= i < j < |seen| ==> seen[i] != seen[j])
  }

  lemma {:induction false} PathLeaves(fat: seq<int>, max: nat, seen: seq<int>, k: nat)
    requires Path(fat, max, seen) && k < |seen| && !InRange(fat[seen[|seen| - 1]], max)
    ensures Leaves(fat, max, seen[k], |seen| - k)
    decreases |seen| - k
  {
    if k < |seen| - 1 { PathLeaves(fat, max, seen, k + 1); } else { assert Leaves(fat, max, fat[seen[k]], 0); }
  }

  // a list without repetition is no longer than its range
  lemma {:induction false} PathShort(seen: seq<int>, max: nat)
    requires (forall i :: 0 <= i < |seen| ==> InRange(seen[i], max))
    requires (forall i, j :: 0 <= i < j < |seen| ==> seen[i] != seen[j])
    ensures |seen| <= if max >= 1 then max - 1 else 0
    decreases max
  {
    if max < 2 {
      assert |seen| > 0 ==> InRange(seen[0], max);
    } else if k :| 0 <= k < |seen| && seen[k] == max {
      var rest := seen[..k] + seen[k + 1..];
      forall i | 0 <= i < |rest| ensures InRange(rest[i], max - 1) {
        assert rest[i] == seen[if i < k then i else i + 1];
      }
      PathShort(rest, max - 1);
    } else {
      PathShort(seen, max - 1);
    }
  }

  // no cluster has two predecessors among the first n
  ghost predicate OnePredecessor(fat: seq<int>, max: nat, n: nat) {
    n <= |fat| && forall a, b :: 2 <= a < b < n && InRange(fat[a], max) ==> fat[a] != fat[b]
  }

  //////////////////////////////////////////////////////////////////////////////
  // What may be complained about, and what may be cut
  //////////////////////////////////////////////////////////////////////////////

  // a path ends at c and leads back to itself from there
  ghost predicate Loops(fat: seq<int>, max: nat, path: seq<int>, c: int) {
    Path(fat, max, path) && path != [] && path[|path| - 1] == c && fat[c] in path
  }

  ghost predicate ClosesLoop(fat: seq<int>, max: nat, c: int) {
    exists path: seq<int> :: Loops(fat, max, path, c)
  }

  // another cluster below n has the same successor
  predicate SharedBelow(fat: seq<int>, max: nat, c: nat, n: nat)
    requires c < |fat| && n <= |fat|
  {
    InRange(fat[c], max) && exists d :: 2 <= d < n && d != c && fat[d] == fat[c]
  }

  // There is something wrong with the entry of c: it is 1, it closes a loop or it shares its successor.
  ghost predicate Faulty(fat: seq<int>, max: nat, c: nat)
    requires c < |fat| == max + 1
  {
    fat[c] == 1 || ClosesLoop(fat, max, c) || SharedBelow(fat, max, c, max + 1)
  }

  // fat' is fat with some faulty entries made ends of chains
  ghost predicate Repaired(fat: seq<int>, fat': seq<int>, max: nat) {
    && |fat'| == |fat| == max + 1
    && forall c :: 0 <= c <= max && fat'[c] != fat[c] ==> fat'[c] == FAT_EOF && 2 <= c && Faulty(fat, max, c)
  }

  // Of two clusters below n with one successor both are cut, unless one of them closes a loop and
  // may have been cut on its own before.
  ghost predicate CrosslinksCut(fat: seq<int>, fat': seq<int>, max: nat, n: nat) {
    && |fat'| == |fat| == max + 1 && n <= max + 1
    && forall c, d :: 2 <= c < d < n && InRange(fat[c], max) && fat[d] == fat[c] && !ClosesLoop(fat, max, c) && !ClosesLoop(fat, max, d) ==>
         fat'[c] == FAT_EOF && fat'[d] == FAT_EOF
  }

  // the complaints about cluster c: an entry that is 1, and a successor that an earlier cluster has
  function ErrorsAt(fat: seq<int>, max: nat, c: nat): nat
    requires c < |fat|
  {
    (if fat[c] == 1 then 1 else 0) + if SharedBelow(fat, max, c, c) then 1 else 0
  }

  // the complaints about the clusters from 2 up to n
  function Errors(fat: seq<int>, max: nat, n: nat): nat
    requires n <= |fat|
  {
    if n <= 2 then 0 else Errors(fat, max, n - 1) + ErrorsAt(fat, max, n - 1)
  }

  // no entry is 1, every chain ends, and no cluster has two predecessors
  ghost predicate Healthy(fat: seq<int>, max: nat) {
    && |fat| == max + 1 && (forall c :: 2 <= c <= max ==> fat[c] != 1)
    && (forall c :: InRange(c, max) ==> Ends(fat, max, c)) && OnePredecessor(fat, max, max + 1)
  }

  lemma LoopNeverEnds(fat: seq<int>, max: nat, c: int)
    requires |fat| == max + 1 && ClosesLoop(fat, max, c)
    ensures exists d :: InRange(d, max) && !Ends(fat, max, d)
  {
    var path: seq<int> :| Loops(fat, max, path, c);
    Circle(fat, max, path);
    assert InRange(path[0], max);
  }

  // Nothing in a healthy FAT is complained about or cut ...
  lemma NothingFaulty(fat: seq<int>, max: nat, c: nat)
    requires Healthy(fat, max) && 2 <= c <= max
    ensures !Faulty(fat, max, c) && ErrorsAt(fat, max, c) == 0
  {
    hide Ends;
    if ClosesLoop(fat, max, c) { LoopNeverEnds(fat, max, c); }
  }

  lemma {:induction false} NoErrors(fat: seq<int>, max: nat, n: nat)
    requires Healthy(fat, max) && n <= max + 1
    ensures Errors(fat, max, n) == 0
  {
    if n > 2 {
      NoErrors(fat, max, n - 1);
      NothingFaulty(fat, max, n - 1);
    }
  }

  // ... so that it stays as it is.
  lemma HealthyKept(fat: seq<int>, fat': seq<int>, max: nat)
    requires Healthy(fat, max) && Repaired(fat, fat', max)
    ensures fat' == fat && Errors(fat, max, max + 1) == 0
  {
    hide Healthy, Faulty;
    NoErrors(fat, max, max + 1);
    forall c | 0 <= c <= max ensures fat'[c] == fat[c] {
      if fat'[c] != fat[c] { NothingFaulty(fat, max, c); }
    }
  }

  // Conversely, without a complaint the FAT is healthy but for loops.
  lemma {:induction false} NoComplaint(fat: seq<int>, max: nat, n: nat)
    requires n <= |fat| == max + 1 && Errors(fat, max, n) == 0
    ensures forall c :: 2 <= c < n ==> fat[c] != 1
    ensures OnePredecessor(fat, max, n)
    decreases n
  {
    if n > 2 {
      NoComplaint(fat, max, n - 1);
      assert ErrorsAt(fat, max, n - 1) == 0;
    }
  }

  lemma RepairedCuts(fat: seq<int>, fat': seq<int>, max: nat)
    requires Repaired(fat, fat', max)
    ensures CutFrom(fat, fat')
  {
    hide Faulty;
  }

  // a loop of a FAT in which chains have been cut was there before
  lemma LoopBefore(fat: seq<int>, fat': seq<int>, max: nat, path: seq<int>, c: int)
    requires Repaired(fat, fat', max) && Loops(fat', max, path, c)
    ensures ClosesLoop(fat, max, c)
  {
    hide Faulty;
    forall i | 0 <= i < |path| - 1 ensures fat[path[i]] == path[i + 1] { assert fat'[path[i]] == path[i + 1]; }
    assert Loops(fat, max, path, c);
  }

  lemma OneMoreRepair(fat: seq<int>, f: seq<int>, f': seq<int>, max: nat, c: nat)
    requires Repaired(fat, f, max) && 2 <= c <= max && Faulty(fat, max, c) && (f' == f || f' == f[c := FAT_EOF])
    ensures Repaired(fat, f', max)
  {
    hide Faulty;
  }

  // whether the user allows repairs: never, always, or asked each time
  datatype Mode = ReportOnly | Automatic | Interactive

  class FatChecker {
    const max: nat
    const mode: Mode
    const fat: array<int>
    // fat[].referrenced_from and the list of clusters seen
    const from: array<int>
    const seenlist: array<int>

    ghost predicate Valid() {
      && 2 <= max < 65536 && fat.Length == max + 1 && from.Length == 65536 && seenlist.Length == 65536
      && fat != from && fat != seenlist && from != seenlist
    }

    constructor (m: Mode, f: array<int>)
      requires 3 <= f.Length <= 65536
      ensures Valid() && mode == m && fat == f && fresh(from) && fresh(seenlist)
    {
      max, mode, fat := f.Length - 1, m, f;
      from, seenlist := new int[65536], new int[65536];
    }

    method Repair() returns (yes: bool)
      ensures mode == Automatic ==> yes
      ensures mode == ReportOnly ==> !yes
    {
      yes := *;
      if mode == Automatic { yes := true; }
      if mode == ReportOnly { yes := false; }
    }

    // is next among the first n clusters seen?
    method Seen(n: nat, next: int) returns (found: bool)
      requires Valid() && n <= 65536
      ensures found <==> next in seenlist[..n]
    {
      var i := 0;
      while i < n
        invariant i <= n && next !in seenlist[..i]
      {
        assert seenlist[..i + 1] == seenlist[..i] + [seenlist[i]];
        if seenlist[i] == next {
          assert seenlist[..n][i] == next;
          return true;
        }
        i := i + 1;
      }
      return false;
    }

    // check_fat_loop: true means an unresolved loop. The exit for a list grown too long is never taken.
    method CheckFatLoop(start: int) returns (looping: bool)
      requires Valid() && InRange(start, max)
      modifies fat, seenlist
      ensures CutFrom(old(fat[..]), fat[..]) && (mode == ReportOnly ==> fat[..] == old(fat[..]))
      ensures fat[..] == old(fat[..]) || exists path, c :: Loops(old(fat[..]), max, path, c) && fat[..] == old(fat[..])[c := FAT_EOF]
      ensures !looping ==> Ends(fat[..], max, start)
      ensures looping ==> mode != Automatic && !Ends(fat[..], max, start)
    {
      hide Leaves;
      ghost var before := fat[..];
      var begin, seen := start, 0;
      while InRange(begin, max)
        invariant seen <= max - 1 && fat[..] == before && Path(before, max, seenlist[..seen])
        invariant seen == 0 ==> begin == start
        invariant seen > 0 ==> seenlist[0] == start && before[seenlist[seen - 1]] == begin
        invariant begin !in seenlist[..seen]
        decreases max - 1 - seen
      {
        ghost var was := seenlist[..seen];
        seenlist[seen] := begin;
        assert seenlist[..seen + 1] == was + [begin];
        seen := seen + 1;
        PathShort(seenlist[..seen], max);
        assert seen <= 65535;
        var next := fat[begin];
        var found := Seen(seen, next);
        if found {
          var yes := Repair();
          ghost var path := seenlist[..seen];
          if !yes {
            Circle(before, max, path);
            return true;
          }
          fat[begin] := FAT_EOF;
          PathLeaves(fat[..], max, path, 0);
          assert Loops(before, max, path, begin) && fat[..] == before[begin := FAT_EOF];
          return false;
        }
        begin := next;
      }
      PathLeaves(before, max, seenlist[..seen], 0);
      return false;
    }

    // check_fat: the number of errors left, or an abort because of an unresolved loop. Only faulty
    // entries are cut, and there are no more errors than complaints.
    method CheckFat() returns (aborted: bool, errors: nat)
      requires Valid()
      modifies fat, from, seenlist
      ensures Repaired(old(fat[..]), fat[..], max) && (mode == ReportOnly ==> fat[..] == old(fat[..]))
      ensures mode == Automatic ==> !aborted && errors == 0
      ensures !aborted ==> forall c :: InRange(c, max) ==> Ends(fat[..], max, c)
      ensures !aborted && errors == 0 ==> Healthy(fat[..], max)
      ensures aborted ==> exists c :: InRange(c, max) && !Ends(old(fat[..]), max, c)
      ensures errors <= Errors(old(fat[..]), max, max + 1)
      ensures !aborted && mode == ReportOnly ==> errors == Errors(old(fat[..]), max, max + 1)
      ensures Healthy(old(fat[..]), max) ==> !aborted && errors == 0 && fat[..] == old(fat[..])
      ensures mode == Automatic ==> CrosslinksCut(old(fat[..]), fat[..], max, max + 1)
    {
      hide Ends, Checked, Clean, Traced, Repaired, Healthy, Errors, ErrorsAt, Swept, CrosslinksCut;
      errors := 0;
      ghost var before := fat[..];
      var k := 0;
      while k < 65536
        invariant k <= 65536 && fat[..] == before && forall j :: 0 <= j < k ==> from[j] == 0
      {
        from[k] := 0;
        k := k + 1;
      }
      var i := 2;
      AtFirst(before, from[..], max, mode);
      while i <= max
        invariant 2 <= i <= max + 1 && Traced(before, fat[..], from[..], max, i, mode)
        invariant mode == Automatic ==> errors == 0 && Swept(before, fat[..], from[..], max, i)
        invariant errors <= Errors(before, max, i) && (mode == ReportOnly ==> errors == Errors(before, max, i))
        invariant Checked(fat[..], from[..], max, i) && (errors == 0 ==> Clean(fat[..], from[..], max, i))
      {
        var stop, more := CheckOne(i, errors, before);
        ErrorsNext(before, max, i);
        if stop {
          TracedFacts(before, fat[..], from[..], max, i, mode);
          HealthyEnds(before, max);
          ErrorsRise(before, max, i, max + 1);
          return true, errors;
        }
        errors := more;
        i := i + 1;
      }
      aborted := false;
      AtLast(before, fat[..], from[..], max, errors, mode);
      if mode == Automatic { AllSwept(before, fat[..], from[..], max); }
    }

    // cluster i: its entry, the chain behind it, and whether its successor has another predecessor
    method CheckOne(i: nat, errors: nat, ghost before: seq<int>) returns (stop: bool, errors': nat)
      requires Valid() && InRange(i, max) && Checked(fat[..], from[..], max, i) && Traced(before, fat[..], from[..], max, i, mode)
      requires errors == 0 ==> Clean(fat[..], from[..], max, i)
      requires mode == Automatic ==> errors == 0 && Swept(before, fat[..], from[..], max, i)
      modifies fat, from, seenlist
      ensures mode == Automatic ==> !stop && errors' == 0 && Swept(before, fat[..], from[..], max, i + 1)
      ensures !stop ==> Checked(fat[..], from[..], max, i + 1) && Traced(before, fat[..], from[..], max, i + 1, mode) && errors' >= errors
      ensures !stop && errors' == 0 ==> Clean(fat[..], from[..], max, i + 1)
      ensures !stop ==> errors' <= errors + ErrorsAt(before, max, i)
      ensures !stop && mode == ReportOnly ==> errors' == errors + ErrorsAt(before, max, i)
      ensures stop ==> Traced(before, fat[..], from[..], max, i, mode) && exists c :: InRange(c, max) && !Ends(before, max, c)
    {
      hide Ends, Checked, Clean, Traced, ErrorsAt, Loops, Swept;
      errors' := errors;
      ghost var f0, from0 := fat[..], from[..];
      var val := fat[i];
      TracedFacts(before, f0, from0, max, i, mode);
      if val != 0 {
        if val == 1 {
          var yes := Repair();
          if !yes { errors' := errors' + 1; } else { fat[i] := FAT_EOF; }
        }
        ghost var f1 := fat[..];
        TracedCut(before, f0, f1, from0, max, i, mode);
        if mode == Automatic { SweptCut(before, f0, f1, from0, max, i); }
        stop := CheckFatLoop(i);
        TracedLoop(before, f1, fat[..], from0, max, i, mode);
        if mode == Automatic { SweptLoop(before, f1, fat[..], from0, max, i); }
        if stop {
          StillLoops(before, fat[..], from0, max, i, mode);
          return;
        }
        CutTwice(f0, f1, fat[..]);
      } else {
        ZeroEnds(fat[..], max, i);
      }
      Walked(f0, fat[..], from[..], max, i);
      if errors' == 0 { CleanCut(f0, fat[..], from[..], max, i, val); }
      ghost var f2 := fat[..];
      stop := false;
      CrossedIff(before, f0, from0, max, i, mode);
      if InRange(val, max) {
        NotedRange(f0, from[..], max, i, val);
        if from[val] != 0 {
          var yes := Repair();
          if !yes {
            errors' := errors' + 1;
          } else {
            fat[i] := FAT_EOF;
            fat[from[val]] := FAT_EOF;
            from[val] := 0;
          }
        }
        from[val] := i;
        Noted(f2, fat[..], from0, from[..], max, i, val);
      }
      TracedNext(before, f0, f2, fat[..], from0, from[..], max, i, mode);
      if mode == Automatic { SweptNext(before, f0, f2, fat[..], from0, from[..], max, i); }
      if errors' == 0 { CleanNext(f2, fat[..], from0, from[..], max, i, val); }
    }
  }

  // How what has been found about the clusters before n goes back to the FAT at the beginning.
  ghost predicate Traced(before: seq<int>, fat: seq<int>, from: seq<int>, max: nat, n: nat, mode: Mode) {
    && Repaired(before, fat, max) && 2 <= n <= max + 1 && |from| == 65536 && max < 65536
    && (mode == ReportOnly ==> fat == before)
    && (forall v :: InRange(v, max) && from[v] != 0 ==> 2 <= from[v] < n && before[from[v]] == v)
    && (mode == ReportOnly ==> forall c :: 2 <= c < n && InRange(before[c], max) ==> from[before[c]] != 0)
  }

  // Automatic repair so far: each cluster before n is noted at its successor or cut, and the entries
  // from n on are cut only where they close loops.
  ghost predicate Swept(before: seq<int>, fat: seq<int>, from: seq<int>, max: nat, n: nat) {
    && |before| == |fat| == max + 1 && |from| == 65536 && max < 65536 && 2 <= n <= max + 1 && CrosslinksCut(before, fat, max, n)
    && (forall c :: 2 <= c < n && InRange(before[c], max) && !ClosesLoop(before, max, c) ==>
          from[before[c]] != 0 && (from[before[c]] == c || fat[c] == FAT_EOF))
    && (forall c :: n <= c <= max && InRange(before[c], max) && fat[c] != before[c] ==> ClosesLoop(before, max, c))
  }

  lemma SweptCut(before: seq<int>, f: seq<int>, f': seq<int>, from: seq<int>, max: nat, i: nat)
    requires Swept(before, f, from, max, i) && InRange(i, max) && CutFrom(before, f)
    requires f' == f || (f[i] == 1 && f' == f[i := FAT_EOF])
    ensures Swept(before, f', from, max, i)
  {
    hide ClosesLoop;
  }

  lemma SweptLoop(before: seq<int>, f: seq<int>, f': seq<int>, from: seq<int>, max: nat, i: nat)
    requires Swept(before, f, from, max, i) && Repaired(before, f, max)
    requires f' == f || exists path, c :: Loops(f, max, path, c) && f' == f[c := FAT_EOF]
    ensures Swept(before, f', from, max, i)
  {
    hide ClosesLoop, Repaired;
    if f' != f {
      var path, c :| Loops(f, max, path, c) && f' == f[c := FAT_EOF];
      LoopBefore(before, f, max, path, c);
    }
  }

  lemma SweptNext(before: seq<int>, f0: seq<int>, f: seq<int>, f': seq<int>, from: seq<int>, from': seq<int>, max: nat, i: nat)
    requires Swept(before, f0, from, max, i) && Swept(before, f, from, max, i) && InRange(i, max) && CutFrom(before, f0)
    requires forall v :: InRange(v, max) && from[v] != 0 ==> 2 <= from[v] < i
    requires from' == if InRange(f0[i], max) then from[f0[i] := i] else from
    requires if InRange(f0[i], max) && from[f0[i]] != 0 then f' == f[i := FAT_EOF][from[f0[i]] := FAT_EOF] else f' == f
    ensures Swept(before, f', from', max, i + 1)
  {
    hide ClosesLoop;
  }

  lemma AllSwept(before: seq<int>, fat: seq<int>, from: seq<int>, max: nat)
    requires Swept(before, fat, from, max, max + 1)
    ensures CrosslinksCut(before, fat, max, max + 1)
  {
  }

  lemma TracedFacts(before: seq<int>, fat: seq<int>, from: seq<int>, max: nat, n: nat, mode: Mode)
    requires Traced(before, fat, from, max, n, mode)
    ensures Repaired(before, fat, max) && CutFrom(before, fat) && |before| == |fat| == max + 1 && |from| == 65536
    ensures forall v :: InRange(v, max) && from[v] != 0 ==> 2 <= from[v] < n
    ensures mode == ReportOnly ==> fat == before
  {
    hide Faulty;
  }

  lemma AtFirst(before: seq<int>, from: seq<int>, max: nat, mode: Mode)
    requires 2 <= max < 65536 && |before| == max + 1 && |from| == 65536 && forall j :: 0 <= j < 65536 ==> from[j] == 0
    ensures Traced(before, before, from, max, 2, mode) && Checked(before, from, max, 2) && Clean(before, from, max, 2)
    ensures Errors(before, max, 2) == 0 && Swept(before, before, from, max, 2)
  {
  }

  lemma ErrorsNext(fat: seq<int>, max: nat, i: nat)
    requires 2 <= i < |fat|
    ensures Errors(fat, max, i + 1) == Errors(fat, max, i) + ErrorsAt(fat, max, i)
  {
  }

  lemma {:induction false} ErrorsRise(fat: seq<int>, max: nat, i: nat, n: nat)
    requires i <= n <= |fat|
    ensures Errors(fat, max, i) <= Errors(fat, max, n)
    decreases n
  {
    if i < n { ErrorsRise(fat, max, i, n - 1); }
  }

  lemma HealthyEnds(fat: seq<int>, max: nat)
    ensures Healthy(fat, max) ==> forall c :: InRange(c, max) ==> Ends(fat, max, c)
  {
    hide Ends;
  }

  // an entry that is 1 may be corrected
  lemma TracedCut(before: seq<int>, f: seq<int>, f': seq<int>, from: seq<int>, max: nat, i: nat, mode: Mode)
    requires Traced(before, f, from, max, i, mode) && InRange(i, max)
    requires f' == f || (f[i] == 1 && f' == f[i := FAT_EOF] && mode != ReportOnly)
    ensures Traced(before, f', from, max, i, mode)
  {
    hide Faulty;
    if f' != f {
      assert Faulty(before, max, i) by { assert before[i] == 1; FaultyOne(before, max, i); }
    }
  }

  lemma FaultyOne(fat: seq<int>, max: nat, c: nat)
    requires c < |fat| == max + 1 && fat[c] == 1
    ensures Faulty(fat, max, c)
  {
  }

  // and an entry that closes a loop
  lemma TracedLoop(before: seq<int>, f: seq<int>, f': seq<int>, from: seq<int>, max: nat, i: nat, mode: Mode)
    requires Traced(before, f, from, max, i, mode) && (mode == ReportOnly ==> f' == f)
    requires f' == f || exists path, c :: Loops(f, max, path, c) && f' == f[c := FAT_EOF]
    ensures Traced(before, f', from, max, i, mode)
  {
    hide Repaired;
    TracedFacts(before, f, from, max, i, mode);
    if f' != f {
      var path, c :| Loops(f, max, path, c) && f' == f[c := FAT_EOF];
      LoopBefore(before, f, max, path, c);
      LoopFaulty(before, f, max, path, c);
      OneMoreRepair(before, f, f', max, c);
    }
  }

  lemma LoopFaulty(fat: seq<int>, f: seq<int>, max: nat, path: seq<int>, c: int)
    requires |fat| == |f| && Loops(f, max, path, c) && ClosesLoop(fat, max, c)
    ensures InRange(c, max) && Faulty(fat, max, c)
  {
    hide ClosesLoop;
  }

  lemma StillLoops(before: seq<int>, f: seq<int>, from: seq<int>, max: nat, i: nat, mode: Mode)
    requires Traced(before, f, from, max, i, mode) && InRange(i, max) && !Ends(f, max, i)
    ensures exists c :: InRange(c, max) && !Ends(before, max, c)
  {
    hide Ends, Faulty;
    if Ends(before, max, i) { CutEnds(before, f, max, i); }
    assert InRange(i as int, max);
  }

  // what the notes about predecessors say of cluster i
  lemma CrossedIff(before: seq<int>, f: seq<int>, from: seq<int>, max: nat, i: nat, mode: Mode)
    requires Traced(before, f, from, max, i, mode) && InRange(i, max)
    ensures f[i] != FAT_EOF ==> f[i] == before[i]
    ensures InRange(f[i], max) && from[f[i]] != 0 ==> SharedBelow(before, max, i, i)
    ensures mode == ReportOnly ==> (SharedBelow(before, max, i, i) <==> InRange(f[i], max) && from[f[i]] != 0)
    ensures ErrorsAt(before, max, i) == (if before[i] == 1 then 1 else 0) + if SharedBelow(before, max, i, i) then 1 else 0
  {
    hide Faulty;
    if InRange(f[i], max) && from[f[i]] != 0 { assert before[from[f[i]]] == before[i]; }
  }

  // a successor noted, and a crosslink perhaps cut
  lemma TracedNext(before: seq<int>, f0: seq<int>, f: seq<int>, f': seq<int>, from: seq<int>, from': seq<int>, max: nat, i: nat, mode: Mode)
    requires Traced(before, f0, from, max, i, mode) && Traced(before, f, from, max, i, mode) && InRange(i, max)
    requires from' == if InRange(f0[i], max) then from[f0[i] := i] else from
    requires f' == f || (mode != ReportOnly && InRange(f0[i], max) && from[f0[i]] != 0 && f' == f[i := FAT_EOF][from[f0[i]] := FAT_EOF])
    ensures Traced(before, f', from', max, i + 1, mode)
  {
    hide Faulty;
    var v := f0[i];
    if f' != f {
      var j := from[v];
      assert before[i] == v == before[j] && j < i;
      FaultyPair(before, max, i, j);
      FaultyPair(before, max, j, i);
    }
  }

  lemma FaultyPair(fat: seq<int>, max: nat, c: nat, d: nat)
    requires |fat| == max + 1 && 2 <= d <= max && c <= max && c != d && InRange(fat[c], max) && fat[d] == fat[c]
    ensures Faulty(fat, max, c)
  {
  }

  // what the whole pass has found
  lemma AtLast(before: seq<int>, fat: seq<int>, from: seq<int>, max: nat, errors: nat, mode: Mode)
    requires Traced(before, fat, from, max, max + 1, mode) && Checked(fat, from, max, max + 1)
    requires errors == 0 ==> Clean(fat, from, max, max + 1)
    requires errors <= Errors(before, max, max + 1)
    ensures Repaired(before, fat, max) && (mode == ReportOnly ==> fat == before)
    ensures forall c :: InRange(c, max) ==> Ends(fat, max, c)
    ensures errors == 0 ==> Healthy(fat, max)
    ensures Healthy(before, max) ==> errors == 0 && fat == before
  {
    hide Ends, Faulty, Errors;
    if errors == 0 { ReferencedOnce(fat, from, max); }
    if Healthy(before, max) { HealthyKept(before, fat, max); }
  }

  // The chains of all clusters before n end, and what is noted about predecessors is in range.
  ghost predicate Checked(fat: seq<int>, from: seq<int>, max: nat, n: nat) {
    && |fat| == max + 1 && |from| == 65536 && max < 65536
    && (forall c :: InRange(c, max) && c < n ==> Ends(fat, max, c))
    && (forall v :: InRange(v, max) ==> 0 <= from[v] < n && (from[v] == 0 || InRange(from[v], max)))
  }

  // ... and moreover no entry before n is 1, and each leads to a cluster that knows it
  ghost predicate Clean(fat: seq<int>, from: seq<int>, max: nat, n: nat) {
    Referenced(fat, from, max, n) && forall c :: 2 <= c < n ==> fat[c] != 1
  }

  lemma CutTwice(a: seq<int>, b: seq<int>, c: seq<int>)
    requires CutFrom(a, b) && CutFrom(b, c)
    ensures CutFrom(a, c)
  {
  }

  lemma ZeroEnds(fat: seq<int>, max: nat, c: int)
    requires |fat| == max + 1 && InRange(c, max) && !InRange(fat[c], max)
    ensures Ends(fat, max, c)
  {
    assert Leaves(fat, max, fat[c], 0);
    assert Leaves(fat, max, c, 1);
  }

  lemma Walked(f0: seq<int>, f: seq<int>, from: seq<int>, max: nat, i: nat)
    requires Checked(f0, from, max, i) && CutFrom(f0, f) && InRange(i, max) && Ends(f, max, i)
    ensures Checked(f, from, max, i + 1)
  {
    hide Ends;
    forall c | InRange(c, max) && c < i ensures Ends(f, max, c) { CutEnds(f0, f, max, c); }
  }

  lemma NotedRange(f0: seq<int>, from: seq<int>, max: nat, i: nat, v: int)
    requires Checked(f0, from, max, i) && InRange(v, max)
    ensures 0 <= from[v] < i && (from[v] == 0 || InRange(from[v], max))
  {
    hide Ends;
  }

  lemma Noted(f: seq<int>, f': seq<int>, from: seq<int>, from': seq<int>, max: nat, i: nat, v: int)
    requires Checked(f, from, max, i + 1) && CutFrom(f, f') && InRange(i, max) && InRange(v, max) && from' == from[v := i]
    ensures Checked(f', from', max, i + 1)
  {
    hide Ends;
    forall c | InRange(c, max) && c < i + 1 ensures Ends(f', max, c) { CutEnds(f, f', max, c); }
  }

  lemma CleanCut(f0: seq<int>, f: seq<int>, from: seq<int>, max: nat, i: nat, val: int)
    requires Clean(f0, from, max, i) && CutFrom(f0, f) && |f0| == max + 1 && InRange(i, max)
    ensures Clean(f, from, max, i)
  {
  }

  // cluster i is done: its entry is cut, leads out of range, or is noted at its successor, which nobody else leads to
  lemma CleanNext(f: seq<int>, f': seq<int>, from: seq<int>, from': seq<int>, max: nat, i: nat, val: int)
    requires Clean(f, from, max, i) && CutFrom(f, f') && |f| == max + 1 && InRange(i, max) && |from| > max
    requires f'[i] == val != 1 || f'[i] == FAT_EOF
    requires from' == if InRange(val, max) then from[val := i] else from
    requires InRange(val, max) ==> from[val] == 0 || (InRange(from[val], max) && f'[from[val]] == FAT_EOF)
    ensures Clean(f', from', max, i + 1)
  {
  }

  // a path that comes back to itself never ends
  lemma Circle(fat: seq<int>, max: nat, seen: seq<int>)
    requires Path(fat, max, seen) && seen != [] && fat[seen[|seen| - 1]] in seen
    ensures !Ends(fat, max, seen[0])
  {
    var k :| 0 <= k < |seen| && seen[k] == fat[seen[|seen| - 1]];
    forall n: nat ensures !Leaves(fat, max, seen[0], n) { Around(fat, max, seen, k, 0, n); }
  }

  lemma {:induction false} Around(fat: seq<int>, max: nat, seen: seq<int>, k: nat, j: nat, n: nat)
    requires Path(fat, max, seen) && k < |seen| && j < |seen| && seen[k] == fat[seen[|seen| - 1]]
    ensures !Leaves(fat, max, seen[j], n)
    decreases n
  {
    if n > 0 { Around(fat, max, seen, k, if j < |seen| - 1 then j + 1 else k, n - 1); }
  }

  // the entries before n are noted at the clusters they lead to
  ghost predicate Referenced(fat: seq<int>, from: seq<int>, max: nat, n: nat) {
    n <= |fat| && |from| > max && forall c :: 2 <= c < n && InRange(fat[c], max) ==> from[fat[c]] == c
  }

  lemma ReferencedOnce(fat: seq<int>, from: seq<int>, max: nat)
    requires |fat| == max + 1 && Referenced(fat, from, max, max + 1)
    ensures OnePredecessor(fat, max, max + 1)
  {
  }
}
