/**
 The code lengths of an SQ stream: run-length coding and the helper code, on the writing side.
 */
module SqLengths {
  import opened Canonical
  import opened SqCodes
  import opened SqHeader
  import opened HuffmanHeap
  import opened HuffmanBuild
  import opened HuffmanCost
  import HuffmanCode

  //////////////////////////////////////////////////////////////////////////////
  // Run-length coding
  //////////////////////////////////////////////////////////////////////////////

  predicate RleShaped(r: Rle) {
    match r
    case Len(v) => v <= 15
    case Again(n) => 3 <= n <= 6
    case Zeros(n) => 3 <= n <= 138
  }

  function RleBytes(r: Rle): (b: seq<nat>)
    requires RleShaped(r)
    ensures 1 <= |b| <= 2 && b[0] == RleSym(r) <= 18
  {
    match r
    case Len(v) => [v]
    case Again(n) => [16, n - 3]
    case Zeros(n) => if n <= 10 then [17, n - 3] else [18, n - 11]
  }

  ghost predicate AllShaped(items: seq<Rle>) {
    forall i :: 0 <= i < |items| ==> RleShaped(items[i])
  }

  function ListBytes(items: seq<Rle>): seq<nat> {
    if items == [] then []
    else ListBytes(items[..|items| - 1]) + if RleShaped(items[|items| - 1]) then RleBytes(items[|items| - 1]) else []
  }

  ghost predicate SymsCounted(items: seq<Rle>, cn: seq<nat>) {
    forall i :: 0 <= i < |items| ==> RleSym(items[i]) < |cn| && cn[RleSym(items[i])] > 0
  }

  ghost predicate ValuesCounted(lens: seq<nat>, cn: seq<nat>) {
    forall i :: 0 <= i < |lens| && lens[i] >= 1 ==> lens[i] < |cn| && cn[lens[i]] > 0
  }

  // the first pi lengths are coded, code being the last one noted
  ghost predicate Coded(items: seq<Rle>, lens: seq<nat>, pi: nat, code: nat, bytes: seq<nat>, cn: seq<nat>) {
    && pi <= |lens| && AllShaped(items) && Expand(items) == RleState(lens[..pi], code)
    && bytes == ListBytes(items) && |bytes| <= pi && |cn| >= 19
    && SymsCounted(items, cn) && ValuesCounted(lens[..pi], cn) && (code >= 1 ==> code < |cn| && cn[code] > 0)
  }

  function RleSpan(r: Rle): nat {
    match r
    case Len(_) => 1
    case Again(n) => n
    case Zeros(n) => n
  }

  // one more item
  lemma CodedAdd(items: seq<Rle>, lens: seq<nat>, pi: nat, code: nat, bytes: seq<nat>, cn: seq<nat>, r: Rle, code': nat)
    requires Coded(items, lens, pi, code, bytes, cn) && RleShaped(r) && pi + RleSpan(r) <= |lens|
    requires lens[pi..pi + RleSpan(r)] == Copies(code', RleSpan(r))
    requires match r case Len(v) => v == code' case Again(_) => code == code' >= 1 case Zeros(_) => code' == 0
    ensures Coded(items + [r], lens, pi + RleSpan(r), code', bytes + RleBytes(r), cn[RleSym(r) := cn[RleSym(r)] + 1])
  {
    hide ListBytes, RleBytes, RleSym;
    SymIs(r);
    var cn' := cn[RleSym(r) := cn[RleSym(r)] + 1];
    assert (items + [r])[..|items|] == items;
    StepCoded(lens, pi, code, r, code');
    ListAdd(items, r);
    ValuesMore(lens, pi, RleSpan(r), code', cn, cn');
  }

  lemma SymIs(r: Rle)
    requires RleShaped(r)
    ensures RleSym(r) <= 18 && (r.Len? ==> RleSym(r) == r.v) && |RleBytes(r)| <= RleSpan(r)
  {
  }

  lemma ListAdd(items: seq<Rle>, r: Rle)
    requires RleShaped(r)
    ensures ListBytes(items + [r]) == ListBytes(items) + RleBytes(r)
  {
    assert (items + [r])[..|items|] == items;
  }

  lemma StepCoded(lens: seq<nat>, pi: nat, code: nat, r: Rle, code': nat)
    requires pi + RleSpan(r) <= |lens|
    requires lens[pi..pi + RleSpan(r)] == Copies(code', RleSpan(r))
    requires match r case Len(v) => v == code' case Again(_) => code == code' case Zeros(_) => code' == 0
    ensures RleStep(r, RleState(lens[..pi], code)) == RleState(lens[..pi + RleSpan(r)], code')
  {
    var n := RleSpan(r);
    assert lens[pi..pi + n] == Copies(code', n);
    assert lens[..pi + n] == lens[..pi] + lens[pi..pi + n];
    if r.Len? { assert Copies(code', 1) == [code']; }
  }

  lemma ValuesMore(lens: seq<nat>, pi: nat, n: nat, code: nat, cn: seq<nat>, cn': seq<nat>)
    requires pi + n <= |lens| && ValuesCounted(lens[..pi], cn) && |cn'| == |cn|
    requires forall i :: 0 <= i < |cn| ==> cn[i] <= cn'[i]
    requires code >= 1 ==> code < |cn'| && cn'[code] > 0
    requires lens[pi..pi + n] == Copies(code, n)
    ensures ValuesCounted(lens[..pi + n], cn')
  {
    var s := lens[..pi + n];
    forall i | 0 <= i < |s| && s[i] >= 1 ensures s[i] < |cn'| && cn'[s[i]] > 0 {
      if i < pi {
        assert lens[..pi][i] == s[i];
      } else {
        assert lens[pi..pi + n][i - pi] == s[i];
      }
    }
  }

  class Packer {
    const lens: array<nat>
    const n: nat
    const buf: array<nat>
    const cn: array<nat>
    var pi: nat
    var po: nat
    var code: nat
    ghost var items: seq<Rle>

    ghost predicate Valid()
      reads this, lens, buf, cn
    {
      && n <= lens.Length && n <= buf.Length && cn.Length == 0x20
      && lens != buf && lens != cn && buf != cn && pi <= n && po <= pi
      && Bounded(lens[..n], 15) && Coded(items, lens[..n], pi, code, buf[..po], cn[..])
    }

    constructor (lens0: array<nat>, n0: nat, buf0: array<nat>, cn0: array<nat>)
      requires n0 <= lens0.Length && n0 <= buf0.Length && cn0.Length == 0x20 && Bounded(lens0[..n0], 15)
      requires lens0 != buf0 && lens0 != cn0 && buf0 != cn0
      ensures Valid() && lens == lens0 && n == n0 && buf == buf0 && cn == cn0 && pi == 0
    {
      lens, n, buf, cn := lens0, n0, buf0, cn0;
      pi, po, code := 0, 0, 0;
      items := [];
    }

    // how many lengths from pi on equal v, at most limit
    method RunOf(v: nat, limit: nat) returns (rep: nat)
      requires pi < n <= lens.Length && lens[pi] == v && limit >= 1
      ensures 1 <= rep <= limit && pi + rep <= n
      ensures lens[pi..pi + rep] == Copies(v, rep)
    {
      rep := 1;
      while pi + rep < n && rep < limit && lens[pi + rep] == v
        invariant 1 <= rep <= limit && pi + rep <= n
        invariant lens[pi..pi + rep] == Copies(v, rep)
      {
        assert lens[pi..pi + rep + 1] == lens[pi..pi + rep] + [v];
        rep := rep + 1;
      }
    }

    // adds the item r, which leaves code' as the last length
    method PutItem(r: Rle, code': nat)
      requires Valid() && RleShaped(r) && pi + RleSpan(r) <= n
      requires lens[pi..pi + RleSpan(r)] == Copies(code', RleSpan(r))
      requires match r case Len(v) => v == code' case Again(_) => code == code' >= 1 case Zeros(_) => code' == 0
      modifies this`pi, this`po, this`code, this`items, buf, cn
      ensures Valid() && pi == old(pi) + RleSpan(r) && code == code'
    {
      hide Coded, RleBytes;
      CodedAdd(items, lens[..n], pi, code, buf[..po], cn[..], r, code');
      assert lens[pi..pi + RleSpan(r)] == lens[..n][pi..pi + RleSpan(r)];
      SymIs(r);
      ghost var was := buf[..po];
      items := items + [r];
      var sym := RleSym(r);
      cn[sym] := cn[sym] + 1;
      buf[po] := sym;
      po := po + 1;
      if sym >= 16 {
        buf[po] := if r.Again? then r.n - 3 else if r.n <= 10 then r.n - 3 else r.n - 11;
        po := po + 1;
      }
      BytesAre(r);
      assert buf[..po] == was + RleBytes(r);
      pi, code := pi + RleSpan(r), code';
    }

    // one or two equal lengths
    method PutFew(v: nat, rep: nat)
      requires Valid() && 1 <= rep <= 2 && pi + rep <= n && v <= 15
      requires lens[pi..pi + rep] == Copies(v, rep)
      modifies this`pi, this`po, this`code, this`items, buf, cn
      ensures Valid() && pi == old(pi) + rep
    {
      hide Coded, RleBytes;
      ghost var run := lens[pi..pi + rep];
      assert run[0] == v && run[rep - 1] == v && lens[pi + rep - 1] == run[rep - 1];
      assert lens[pi..pi + 1] == Copies(v, 1);
      PutItem(Len(v), v);
      if rep == 2 {
        assert lens[pi..pi + 1] == Copies(v, 1);
        PutItem(Len(v), v);
      }
    }

    method Pack()
      requires Valid() && pi == 0
      modifies this`pi, this`po, this`code, this`items, buf, cn
      ensures Valid() && pi == n
    {
      hide Coded, RleBytes;
      while pi < n
        invariant Valid()
        decreases n - pi
      {
        assert lens[..n][pi] <= 15;
        if lens[pi] == 0 {
          var rep := RunOf(0, 138);
          if rep <= 2 { PutFew(0, rep); } else { PutItem(Zeros(rep), 0); }
        } else if lens[pi] == code {
          var rep := RunOf(code, 6);
          if rep <= 2 { PutFew(code, rep); } else { PutItem(Again(rep), code); }
        } else {
          PutItem(Len(lens[pi]), lens[pi]);
        }
      }
    }
  }

  lemma BytesAre(r: Rle)
    requires RleShaped(r)
    ensures RleBytes(r)
            == if RleSym(r) < 16 then [RleSym(r)]
               else [RleSym(r), if r.Again? then r.n - 3 else if r.n <= 10 then r.n - 3 else r.n - 11]
    ensures RleSym(r) >= 16 <==> !r.Len?
    ensures RleSym(r) >= 16 ==> RleSpan(r) >= 3
  {
  }

  //////////////////////////////////////////////////////////////////////////////
  // The helper code
  //////////////////////////////////////////////////////////////////////////////

  method OverSeven(a: array<nat>, n: nat) returns (over: bool)
    requires n <= a.Length
    ensures over <==> !HuffmanCode.AtMost(a[..n], 7)
  {
    over := false;
    var i := 0;
    while i < n
      invariant i <= n && (over <==> !HuffmanCode.AtMost(a[..i], 7))
    {
      assert a[..i + 1] == a[..i] + [a[i]];
      if a[i] > 7 { over := true; }
      i := i + 1;
    }
  }

  // The helper code: the counts are halved until no length is above 7.
  method HelperCode(codeCn: array<nat>, codeBlen: array<nat>, codeBlcn: array<nat>, t: array<ChTab>)
    requires codeCn.Length == 0x20 && codeBlen.Length == 0x20 && codeBlcn.Length == MAX_BITS + 1 && t.Length == 0x140
    requires codeCn != codeBlen && codeCn != codeBlcn && codeBlen != codeBlcn
    modifies codeCn, codeBlen, codeBlcn, t
    ensures Complete(codeBlen[..19], MAX_BITS) && Bounded(codeBlen[..19], 7)
    ensures forall i :: 0 <= i < 19 && old(codeCn[i]) > 0 ==> codeBlen[i] >= 1
    ensures codeBlcn[0] == 0 && forall l :: 1 <= l < codeBlcn.Length ==> codeBlcn[l] == Count(codeBlen[..19], l)
  {
    hide Complete, Sum, Halved;
    while true
      invariant forall i :: 0 <= i < 19 && old(codeCn[i]) > 0 ==> codeCn[i] > 0
      decreases Sum(codeCn[..19])
    {
      ghost var before := codeCn[..19];
      HuffmanCode.SqHuffman(codeCn, codeBlen, 0, codeBlcn, 19, t);
      assert codeBlen[0..0 + 19] == codeBlen[..19];
      SumLess(codeCn[..19], before);
      var over := OverSeven(codeBlen, 19);
      if !over { break; }
      HalvedSum(codeCn[..19]);
      HalvedPositive(codeCn[..19]);
      HalveCounts(codeCn, 19);
      assert forall i :: 0 <= i < 19 ==> codeCn[..19][i] == codeCn[i];
    }
    CompleteWider(codeBlen[..19]);
  }

  lemma {:induction false} SumLess(a: seq<nat>, b: seq<nat>)
    requires |a| == |b| && forall i :: 0 <= i < |a| ==> a[i] <= b[i]
    ensures Sum(a) <= Sum(b)
  {
    if a != [] { SumLess(a[..|a| - 1], b[..|b| - 1]); }
  }

  lemma HalvedPositive(a: seq<nat>)
    ensures |Halved(a)| == |a| && forall i :: 0 <= i < |a| && a[i] > 0 ==> Halved(a)[i] > 0
  {
  }
}
