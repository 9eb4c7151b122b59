/**
 The code lengths of a Stacker 4 stream, on the writing side: runs, and the helper code for them.
 */
module Sd4Lengths {
  import opened Lz
  import opened Canonical
  import opened Sd4Codes
  import opened Sd4Format
  import opened Sd4Header
  import opened HuffmanHeap
  import HuffmanBuild
  import HuffmanCode

  function RunBytes4(r: Run4): (b: seq<nat>)
    requires Shaped4(r)
    ensures 1 <= |b| <= 2 && b[0] == RunSym(r) && (|b| == 2 <==> !r.L? && r.n >= 4) && (|b| == 2 ==> b[1] == r.n - 4)
  {
    [RunSym(r)] + if !r.L? && r.n >= 4 then [r.n - 4] else []
  }

  function ListBytes4(items: seq<Run4>): seq<nat> {
    if items == [] then []
    else ListBytes4(items[..|items| - 1]) + if Shaped4(items[|items| - 1]) then RunBytes4(items[|items| - 1]) else []
  }

  ghost predicate AllShaped4(items: seq<Run4>) {
    forall i :: 0 <= i < |items| ==> Shaped4(items[i])
  }

  ghost predicate SymsCounted4(items: seq<Run4>, cn: seq<nat>) {
    |cn| == HELPERS && forall i :: 0 <= i < |items| ==> Shaped4(items[i]) && cn[RunSym(items[i])] > 0
  }

  // What the counts say about the lengths coded so far: which values occur, and that some symbol
  // stands for the zeros. Only values between lo and hi are counted.
  ghost predicate CountsFit(lens: seq<nat>, cn: seq<nat>, lo: nat, hi: nat) {
    && |cn| == HELPERS && 1 <= lo <= 8 && hi <= 15
    && (forall i :: 0 <= i < |lens| && lens[i] >= 1 ==> lens[i] <= 15 && cn[lens[i]] > 0 && lo <= lens[i] <= hi)
    && (forall i :: 0 <= i < |lens| && lens[i] == 0 ==> cn[0] > 0 || cn[16] > 0 || cn[17] > 0 || cn[18] > 0)
    && (forall v :: 1 <= v < 16 && cn[v] > 0 ==> lo <= v <= hi)
  }

  // three and more equal lengths and nothing else make a repetition
  ghost predicate AllEqual(lens: seq<nat>) {
    forall i :: 0 <= i < |lens| ==> lens[i] == lens[0]
  }

  ghost predicate RepeatCounted(lens: seq<nat>, cn: seq<nat>) {
    |cn| == HELPERS && (AllEqual(lens) && |lens| >= 3 && lens[0] >= 1 ==> cn[19] > 0 || cn[20] > 0 || cn[21] > 0)
  }

  ghost predicate Packs(items: seq<Run4>, lens: seq<nat>, pi: nat, bytes: seq<nat>, cn: seq<nat>) {
    && pi <= |lens| && AllShaped4(items) && Expand4(items) == Some(lens[..pi])
    && bytes == ListBytes4(items) && |bytes| <= pi && SymsCounted4(items, cn)
  }

  function RunSpan(r: Run4): nat {
    if r.L? then 1 else r.n
  }

  lemma PacksAdd(items: seq<Run4>, lens: seq<nat>, pi: nat, bytes: seq<nat>, cn: seq<nat>, r: Run4, v: nat)
    requires Packs(items, lens, pi, bytes, cn) && Shaped4(r) && pi + RunSpan(r) <= |lens|
    requires lens[pi..pi + RunSpan(r)] == Copies(v, RunSpan(r))
    requires match r case L(x) => x == v case Z(_) => v == 0 case R(_) => pi > 0 && lens[pi - 1] == v
    ensures |cn| == HELPERS
    ensures Packs(items + [r], lens, pi + RunSpan(r), bytes + RunBytes4(r), cn[RunSym(r) := cn[RunSym(r)] + 1])
  {
    hide RunSym, RunBytes4;
    assert (items + [r])[..|items|] == items;
    assert lens[..pi + RunSpan(r)] == lens[..pi] + lens[pi..pi + RunSpan(r)];
    if r.L? { assert Copies(v, 1) == [v]; }
    RunBytesSize(r);
  }

  lemma RunBytesSize(r: Run4)
    requires Shaped4(r)
    ensures |RunBytes4(r)| <= RunSpan(r)
  {
  }

  class Packer4 {
    const lens: array<nat>
    const buf: array<nat>
    const cn: array<nat>
    var pi: nat
    var po: nat
    var minBl: nat
    var maxBl: nat
    ghost var items: seq<Run4>

    ghost predicate Valid()
      reads this, lens, buf, cn
    {
      && lens.Length >= SYMS4 && buf.Length >= SYMS4 && cn.Length == HELPERS
      && lens != buf && lens != cn && buf != cn && pi <= SYMS4 && po <= pi && Bounded(lens[..SYMS4], BITS4)
      && Packs(items, lens[..SYMS4], pi, buf[..po], cn[..])
    }

    // what holds between runs
    ghost predicate Between()
      reads this, lens, buf, cn
    {
      && Valid() && CountsFit(lens[..pi], cn[..], minBl, maxBl) && RepeatCounted(lens[..pi], cn[..])
      && (0 < pi < SYMS4 ==> lens[pi] != lens[pi - 1])
    }

    constructor (ls: array<nat>, b: array<nat>, c: array<nat>)
      requires ls.Length >= SYMS4 && b.Length >= SYMS4 && c.Length == HELPERS && Bounded(ls[..SYMS4], BITS4)
      requires ls != b && ls != c && b != c && forall i :: 0 <= i < HELPERS ==> c[i] == 0
      ensures Between() && lens == ls && buf == b && cn == c && pi == 0
    {
      lens, buf, cn := ls, b, c;
      pi, po, minBl, maxBl := 0, 0, 8, 0;
      items := [];
    }

    // how many lengths from pi on equal v
    method RunOf(v: nat) returns (rep: nat)
      requires pi < SYMS4 <= lens.Length && lens[pi] == v
      ensures rep >= 1 && pi + rep <= SYMS4 && lens[pi..pi + rep] == Copies(v, rep)
      ensures pi + rep < SYMS4 ==> lens[pi + rep] != v
    {
      rep := 1;
      while pi + rep < SYMS4 && lens[pi + rep] == v
        invariant 1 <= rep && pi + rep <= SYMS4 && lens[pi..pi + rep] == Copies(v, rep)
      {
        assert lens[pi..pi + rep + 1] == lens[pi..pi + rep] + [v];
        rep := rep + 1;
      }
    }

    // adds a run
    method PutRun(r: Run4, v: nat)
      requires Valid() && Shaped4(r) && pi + RunSpan(r) <= SYMS4 && lens[pi..pi + RunSpan(r)] == Copies(v, RunSpan(r))
      requires match r case L(x) => x == v case Z(_) => v == 0 case R(_) => pi > 0 && lens[pi - 1] == v
      modifies this`pi, this`po, this`items, buf, cn
      ensures Valid() && pi == old(pi) + RunSpan(r)
      ensures cn[..] == old(cn[..])[RunSym(r) := old(cn[..])[RunSym(r)] + 1]
    {
      hide Packs, RunBytes4;
      assert lens[..SYMS4][pi..pi + RunSpan(r)] == lens[pi..pi + RunSpan(r)];
      PacksAdd(items, lens[..SYMS4], pi, buf[..po], cn[..], r, v);
      RunBytesSize(r);
      ghost var was := buf[..po];
      items := items + [r];
      var sym := RunSym(r);
      cn[sym] := cn[sym] + 1;
      buf[po] := sym;
      po := po + 1;
      if !r.L? && r.n >= 4 {
        buf[po] := r.n - 4;
        po := po + 1;
      }
      BytesAre4(r);
      assert buf[..po] == was + RunBytes4(r);
      pi := pi + RunSpan(r);
    }

    // rep zeros
    method PackZeros(rep: nat)
      requires Valid() && rep >= 1 && pi + rep <= SYMS4 && lens[pi..pi + rep] == Copies(0, rep)
      modifies this`pi, this`po, this`items, buf, cn
      ensures Valid() && pi == old(pi) + rep && Grown(old(cn[..]), cn[..], 0, rep)
    {
      hide Packs;
      RunSlices(lens[..], pi, rep, 0);
      if rep == 1 { PutRun(L(0), 0); } else { PutRun(Z(rep), 0); }
    }

    // rep times v
    method PackValue(v: nat, rep: nat)
      requires Valid() && rep >= 1 && pi + rep <= SYMS4 && lens[pi..pi + rep] == Copies(v, rep) && 1 <= v <= 15
      modifies this`pi, this`po, this`items, buf, cn
      ensures Valid() && pi == old(pi) + rep && Grown(old(cn[..]), cn[..], v, rep)
    {
      hide Packs;
      RunSlices(lens[..], pi, rep, v);
      PutRun(L(v), v);
      if rep == 2 { PutRun(L(v), v); }
      if rep > 2 { PutRun(R(rep - 1), v); }
    }

    // rep times v, with the range of the values
    method PackSame(v: nat, rep: nat)
      requires Valid() && rep >= 1 && pi + rep <= SYMS4 && lens[pi..pi + rep] == Copies(v, rep) && v <= 15
      modifies this`pi, this`po, this`minBl, this`maxBl, this`items, buf, cn
      ensures Valid() && pi == old(pi) + rep && Grown(old(cn[..]), cn[..], v, rep)
      ensures minBl == (if v == 0 || v >= old(minBl) then old(minBl) else v)
      ensures maxBl == (if v == 0 || v <= old(maxBl) then old(maxBl) else v)
    {
      hide Packs, Grown, Bounded, Copies;
      if v == 0 {
        PackZeros(rep);
      } else {
        PackValue(v, rep);
        if v < minBl { minBl := v; }
        if v > maxBl { maxBl := v; }
      }
    }

    // one maximal run of equal lengths
    method PackRun()
      requires Between() && pi < SYMS4
      modifies this`pi, this`po, this`minBl, this`maxBl, this`items, buf, cn
      ensures Between() && pi > old(pi)
    {
      hide Packs, CountsFit, RepeatCounted, Grown, Bounded, Copies;
      ghost var from, c0, lo, hi := pi, cn[..], minBl, maxBl;
      var v := lens[pi];
      AtMost15(lens[..SYMS4], pi);
      CountBounds(lens[..pi], c0, lo, hi);
      var rep := RunOf(v);
      PackSame(v, rep);
      RunMore(lens[..], from, rep, v, c0, cn[..], lo, hi, minBl, maxBl);
    }

    method Pack()
      requires Between() && pi == 0
      modifies this`pi, this`po, this`minBl, this`maxBl, this`items, buf, cn
      ensures Between() && pi == SYMS4
    {
      hide Packs, CountsFit, RepeatCounted;
      while pi < SYMS4
        invariant Between()
        decreases SYMS4 - pi
      {
        PackRun();
      }
    }
  }

  lemma BytesAre4(r: Run4)
    requires Shaped4(r)
    ensures RunBytes4(r) == [RunSym(r)] + if !r.L? && r.n >= 4 then [r.n - 4] else []
  {
  }

  lemma RunSlices(lens: seq<nat>, pi: nat, rep: nat, v: nat)
    requires rep >= 1 && pi + rep <= |lens| && lens[pi..pi + rep] == Copies(v, rep)
    ensures lens[pi..pi + 1] == Copies(v, 1) && lens[pi] == v && lens[pi + rep - 1] == v
    ensures rep >= 2 ==> lens[pi + 1..pi + 2] == Copies(v, 1) && lens[pi + 1..pi + 1 + (rep - 1)] == Copies(v, rep - 1)
  {
    var run := lens[pi..pi + rep];
    assert run[0] == lens[pi] && run[rep - 1] == lens[pi + rep - 1];
    if rep >= 2 {
      assert run[1] == lens[pi + 1];
      assert lens[pi + 1..pi + rep] == run[1..] == Copies(v, rep)[1..] == Copies(v, rep - 1);
    }
  }

  // how the counts grow by a run of rep times v
  ghost predicate Grown(c0: seq<nat>, cn: seq<nat>, v: nat, rep: nat) {
    && |c0| == |cn| == HELPERS && v <= 15 && (forall i :: 0 <= i < HELPERS ==> c0[i] <= cn[i])
    && (forall i :: 1 <= i < 16 && i != v ==> cn[i] == c0[i])
    && (if v >= 1 then cn[v] > 0 else cn[0] > 0 || cn[16] > 0 || cn[17] > 0 || cn[18] > 0)
    && (rep >= 3 && v >= 1 ==> cn[19] > 0 || cn[20] > 0 || cn[21] > 0)
  }

  lemma AtMost15(lens: seq<nat>, i: nat)
    requires Bounded(lens, BITS4) && i < |lens|
    ensures lens[i] <= 15
  {
  }

  lemma CountBounds(lens: seq<nat>, cn: seq<nat>, lo: nat, hi: nat)
    requires CountsFit(lens, cn, lo, hi)
    ensures 1 <= lo <= 8 && hi <= 15
  {
  }

  lemma FitMore(front: seq<nat>, c0: seq<nat>, cn: seq<nat>, lo: nat, hi: nat, lo': nat, hi': nat, v: nat, rep: nat)
    requires CountsFit(front, c0, lo, hi) && Grown(c0, cn, v, rep) && 1 <= lo' <= lo && hi <= hi' <= 15
    requires v >= 1 ==> lo' <= v <= hi'
    ensures CountsFit(front + Copies(v, rep), cn, lo', hi')
  {
    var whole := front + Copies(v, rep);
    forall i | 0 <= i < |whole| ensures whole[i] == if i < |front| then front[i] else v { }
  }

  lemma RepeatMore(front: seq<nat>, c0: seq<nat>, cn: seq<nat>, v: nat, rep: nat)
    requires Grown(c0, cn, v, rep) && rep >= 1 && (front != [] ==> front[|front| - 1] != v)
    ensures RepeatCounted(front + Copies(v, rep), cn)
  {
    var whole := front + Copies(v, rep);
    if front != [] {
      assert whole[|front| - 1] != whole[|front|];
    }
  }

  // a maximal run more
  lemma RunMore(lens: seq<nat>, from: nat, rep: nat, v: nat, c0: seq<nat>, cn: seq<nat>, lo: nat, hi: nat, lo': nat, hi': nat)
    requires rep >= 1 && from + rep <= |lens| && lens[from..from + rep] == Copies(v, rep) && (from > 0 ==> lens[from - 1] != v)
    requires CountsFit(lens[..from], c0, lo, hi) && Grown(c0, cn, v, rep) && 1 <= lo' <= lo && hi <= hi' <= 15
    requires v >= 1 ==> lo' <= v <= hi'
    ensures CountsFit(lens[..from + rep], cn, lo', hi') && RepeatCounted(lens[..from + rep], cn) && lens[from + rep - 1] == v
  {
    hide CountsFit, Grown, RepeatCounted, Copies;
    RunSlices(lens, from, rep, v);
    assert lens[..from + rep] == lens[..from] + lens[from..from + rep];
    FitMore(lens[..from], c0, cn, lo, hi, lo', hi', v, rep);
    RepeatMore(lens[..from], c0, cn, v, rep);
  }

  // With all lengths coded at least two helper symbols are counted.
  lemma TwoHelpers(lens: seq<nat>, cn: seq<nat>, lo: nat, hi: nat, k: nat)
    requires |lens| >= 3 && CountsFit(lens, cn, lo, hi) && RepeatCounted(lens, cn) && k < |lens| && lens[k] >= 1
    ensures HuffmanBuild.TwoCounted(cn)
  {
    var v := lens[k];
    if z :| 0 <= z < |lens| && lens[z] == 0 {
      if cn[0] > 0 { assert cn[0] > 0 && cn[v] > 0; } else {
        var u := if cn[16] > 0 then 16 else if cn[17] > 0 then 17 else 18;
        assert cn[v] > 0 && cn[u] > 0;
      }
    } else if AllEqual(lens) {
      var u := if cn[19] > 0 then 19 else if cn[20] > 0 then 20 else 21;
      assert cn[v] > 0 && cn[u] > 0;
    } else {
      var j :| 0 <= j < |lens| && lens[j] != lens[0];
      var a, b := if lens[j] < lens[0] then lens[j] else lens[0], if lens[j] < lens[0] then lens[0] else lens[j];
      assert cn[a] > 0 && cn[b] > 0;
    }
  }

  //////////////////////////////////////////////////////////////////////////////
  // The helper code
  //////////////////////////////////////////////////////////////////////////////

  // every run has a code
  lemma RunsHaveCodes(items: seq<Run4>, cn: seq<nat>, h: seq<nat>)
    requires SymsCounted4(items, cn) && |h| == HELPERS && forall i :: 0 <= i < HELPERS && cn[i] > 0 ==> h[i] >= 1
    ensures AllRuns(items, h)
  {
    hide RunSym;
  }

  // packs the lengths and builds the helper code in bl_cn
  method PackLengths4(lens: array<nat>, t: array<ChTab>)
    returns (blBuf: array<nat>, blDat: nat, blCn: array<nat>, blBlcn: array<nat>, minBl: nat, maxBl: nat, ghost items: seq<Run4>)
    requires lens.Length >= SYMS4 && Bounded(lens[..SYMS4], BITS4) && lens[END4] >= 1 && t.Length == 0x152
    modifies t
    ensures fresh(blBuf) && fresh(blCn) && fresh(blBlcn) && blCn != blBlcn && blBuf != blBlcn && blBuf != blCn
    ensures blCn.Length == HELPERS && blDat <= blBuf.Length && blBuf[..blDat] == ListBytes4(items)
    ensures Complete(blCn[..], BITS4) && Stored4(blCn[..], minBl, maxBl)
    ensures AllShaped4(items) && AllRuns(items, blCn[..]) && Expand4(items) == Some(lens[..SYMS4])
    ensures blBlcn.Length == 16 && blBlcn[0] == 0 && forall l :: 1 <= l <= BITS4 ==> blBlcn[l] == Count(blCn[..], l)
  {
    hide Complete, RunSym, CountsFit, RepeatCounted, Expand4, HuffmanBuild.TwoCounted, SymsCounted4, AllRuns;
    blBuf, blCn, blBlcn := new nat[0x151], new nat[HELPERS](_ => 0), new nat[16];
    var p := new Packer4(lens, blBuf, blCn);
    p.Pack();
    blDat, items, minBl, maxBl := p.po, p.items, p.minBl, p.maxBl;
    ghost var cn, ls := blCn[..], lens[..SYMS4];
    assert ls[..SYMS4] == ls;
    TwoHelpers(ls, cn, minBl, maxBl, END4);
    assert blCn[..HELPERS] == cn;
    ghost var _ := HuffmanCode.Sd4Huffman(blCn, blBlcn, HELPERS, t);
    assert blCn[..HELPERS] == blCn[..];
    RunsHaveCodes(items, cn, blCn[..]);
    HelperStored(ls, cn, blCn[..], minBl, maxBl, END4);
  }

  // the lengths of the helper code that are not stored are zero
  lemma HelperStored(lens: seq<nat>, cn: seq<nat>, h: seq<nat>, lo: nat, hi: nat, k: nat)
    requires CountsFit(lens, cn, lo, hi) && |h| == HELPERS && k < |lens| && lens[k] >= 1
    requires forall i :: 0 <= i < HELPERS ==> h[i] <= 15 && (h[i] >= 1 ==> cn[i] > 0)
    ensures Stored4(h, lo, hi)
  {
  }
}
