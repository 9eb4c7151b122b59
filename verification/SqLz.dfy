/**
 The first pass of the SQ compressor: `sq_complz` finds repetitions and leaves an
 intermediate code of literal runs and repetitions.
 */
module SqLz {
  import opened Bits
  import opened LzTokens
  import opened SqFormat

  const TK_END := 0
  const TK_CHRS := 0xF0
  const RUN_MAX := 0x8000
  const HASH_TAB_ENT := 1024
  const HASH_HIST_ENT := 4096
  const MAX_OFFS := 32768
  const MAX_OFFS_BLN8 := 1024
  const MIN_REP := 3
  const MAX_REP := 258

  //////////////////////////////////////////////////////////////////////////////
  // The intermediate code
  //////////////////////////////////////////////////////////////////////////////

  datatype Inter = Run(n: nat) | Copy(offs: nat, len: nat)

  predicate InterOk(it: Inter) {
    match it
    case Run(n) => n <= RUN_MAX
    case Copy(offs, len) => 1 <= offs <= MAX_OFFS && MIN_REP <= len <= MAX_REP
  }

  function Word(v: nat): (b: seq<byte>)
    requires v < 65536
    ensures |b| == 2
  {
    [v % 256, v / 256]
  }

  lemma OffExtra(offs: nat)
    requires 1 <= offs <= MAX_OFFS
    ensures OffBln(OffCode(offs)) <= 8 ==> offs - OffBas(OffCode(offs)) < 256
    ensures offs - OffBas(OffCode(offs)) < 65536
  {
    Pow2Mono(OffBln(OffCode(offs)), if OffBln(OffCode(offs)) <= 8 then 8 else 16);
    Pow2Values();
  }

  lemma RepExtra(len: nat)
    requires MIN_REP <= len <= MAX_REP
    ensures len - RepBas(RepCode(len)) < 256
  {
    Pow2Mono(RepBln(RepCode(len)), 5);
    Pow2Values();
  }

  function RunBytes(n: nat): (b: seq<byte>)
    requires n <= RUN_MAX
    ensures 1 <= |b| <= 3
  {
    if n < 15 then [TK_CHRS + n] else [TK_CHRS + 15] + Word(n)
  }

  function LenBytes(len: nat): (b: seq<byte>)
    requires MIN_REP <= len <= MAX_REP
    ensures 1 <= |b| <= 2
  {
    RepExtra(len);
    [RepCode(len) + 1] + if RepBln(RepCode(len)) > 0 then [len - RepBas(RepCode(len))] else []
  }

  function OffBytes(offs: nat): (b: seq<byte>)
    requires 1 <= offs <= MAX_OFFS
    ensures 1 <= |b| <= 3
  {
    OffExtra(offs);
    var o := OffCode(offs);
    [o] + if OffBln(o) == 0 then [] else if OffBln(o) <= 8 then [offs - OffBas(o)] else Word(offs - OffBas(o))
  }

  function ItemBytes(it: Inter): (b: seq<byte>)
    ensures InterOk(it) ==> 1 <= |b|
  {
    if !InterOk(it) then []
    else
      match it
      case Run(n) => RunBytes(n)
      case Copy(offs, len) => LenBytes(len) + OffBytes(offs)
  }

  function InterBytes(items: seq<Inter>): seq<byte> {
    if items == [] then [] else InterBytes(items[..|items| - 1]) + ItemBytes(items[|items| - 1])
  }

  function Span(it: Inter): nat {
    match it
    case Run(n) => n
    case Copy(_, len) => len
  }

  // how many bytes of data the items stand for
  function Covered(items: seq<Inter>): nat {
    if items == [] then 0 else Covered(items[..|items| - 1]) + Span(items[|items| - 1])
  }

  function Lits(s: seq<byte>): (toks: seq<LzTok>)
    ensures |toks| == |s| && forall i :: 0 <= i < |s| ==> toks[i] == Lit(s[i])
  {
    seq(|s|, i requires 0 <= i < |s| => Lit(s[i]))
  }

  // data[from..to], or nothing if that runs out of the data
  function Cut(data: seq<byte>, from: nat, to: nat): seq<byte> {
    if from <= to <= |data| then data[from..to] else []
  }

  function ItemToks(it: Inter, data: seq<byte>, pos: nat): seq<LzTok> {
    match it
    case Run(n) => Lits(Cut(data, pos, pos + n))
    case Copy(offs, len) => [Rep(offs, len)]
  }

  // the tokens the items stand for
  function InterToks(items: seq<Inter>, data: seq<byte>): seq<LzTok> {
    if items == [] then []
    else
      var front := items[..|items| - 1];
      InterToks(front, data) + ItemToks(items[|items| - 1], data, Covered(front))
  }

  lemma AddItem(items: seq<Inter>, it: Inter, data: seq<byte>)
    ensures InterToks(items + [it], data) == InterToks(items, data) + ItemToks(it, data, Covered(items))
    ensures InterBytes(items + [it]) == InterBytes(items) + ItemBytes(it)
    ensures Covered(items + [it]) == Covered(items) + Span(it)
  {
    hide ItemToks, ItemBytes, Span;
    assert (items + [it])[..|items|] == items;
  }

  //////////////////////////////////////////////////////////////////////////////
  // Counting
  //////////////////////////////////////////////////////////////////////////////

  // every symbol the token needs has been counted
  predicate TokCounted(t: LzTok, ch: seq<nat>, off: seq<nat>)
    requires |ch| == 0x120 && |off| == 0x20
  {
    match t
    case Lit(b) => ch[b] > 0
    case Rep(offs, len) =>
      && 1 <= offs <= MAX_OFFS && MIN_REP <= len <= MAX_REP
      && ch[0x101 + RepCode(len)] > 0 && off[OffCode(offs)] > 0
  }

  ghost predicate AllCounted(toks: seq<LzTok>, ch: seq<nat>, off: seq<nat>) {
    |ch| == 0x120 && |off| == 0x20 && forall i :: 0 <= i < |toks| ==> TokCounted(toks[i], ch, off)
  }

  ghost predicate NoLess(a: seq<nat>, b: seq<nat>) {
    |a| == |b| && forall i :: 0 <= i < |a| ==> a[i] <= b[i]
  }

  lemma CountMore(toks: seq<LzTok>, t: LzTok, ch: seq<nat>, off: seq<nat>, ch': seq<nat>, off': seq<nat>)
    requires AllCounted(toks, ch, off) && NoLess(ch, ch') && NoLess(off, off') && TokCounted(t, ch', off')
    ensures AllCounted(toks + [t], ch', off')
  {
    hide RepCode, OffCode;
    forall i | 0 <= i < |toks| + 1 ensures TokCounted((toks + [t])[i], ch', off') {
      if i < |toks| { assert TokCounted(toks[i], ch, off); }
    }
  }

  //////////////////////////////////////////////////////////////////////////////
  // find_token
  //////////////////////////////////////////////////////////////////////////////

  ghost predicate Ascending(tab: seq<nat>, n: nat) {
    n <= |tab| && forall i, j :: 0 <= i < j < n ==> tab[i] < tab[j]
  }

  // binary search for the last value not above `token`
  method FindToken(token: nat, tabVal: seq<nat>, tabLen: nat) returns (beg: nat)
    requires tabLen >= 2 && Ascending(tabVal, tabLen) && tabVal[0] <= token
    ensures beg < tabLen && tabVal[beg] <= token
    ensures beg + 1 < tabLen ==> token < tabVal[beg + 1]
  {
    beg := 0;
    var len: nat := tabLen;
    while true
      invariant len >= 1 && beg + len <= tabLen && tabVal[beg] <= token
      invariant beg + len < tabLen ==> token < tabVal[beg + len]
      invariant len == 1 ==> tabLen == 1
      decreases len
    {
      var half := len / 2;
      if tabVal[beg + half] > token {
        len := half;
      } else {
        beg := beg + half;
        len := len - half;
      }
      if len <= 1 { break; }
    }
  }

  lemma {:induction false} RepAscends(i: nat, j: nat)
    requires i < j < 29
    ensures RepBas(i) < RepBas(j)
    decreases j
  {
    RepSteps(j - 1);
    if i < j - 1 { RepAscends(i, j - 1); }
  }

  lemma {:induction false} OffAscends(i: nat, j: nat)
    requires i < j < 30
    ensures OffBas(i) < OffBas(j)
    decreases j
  {
    OffSteps(j - 1);
    if i < j - 1 { OffAscends(i, j - 1); }
  }

  // the token for a repeat count
  method RepToken(len: nat) returns (t: nat)
    requires MIN_REP <= len <= MAX_REP
    ensures t == RepCode(len)
  {
    hide *;
    RepTable();
    t := FindToken(len, REP_BAS, 29);
    RepUnique(len, t);
  }

  lemma RepTable()
    ensures MIN_REP == 3 && MAX_REP == 258 && Ascending(REP_BAS, 29) && |REP_BAS| == 29 && REP_BAS[0] == 3
    ensures forall t :: 0 <= t < 29 ==> REP_BAS[t] == RepBas(t)
  {
    forall i, j | 0 <= i < j < 29 ensures REP_BAS[i] < REP_BAS[j] { RepAscends(i, j); }
  }

  lemma RepUnique(len: nat, t: nat)
    requires MIN_REP <= len <= MAX_REP && t < 29 && RepBas(t) <= len && (t + 1 < 29 ==> len < RepBas(t + 1))
    ensures t == RepCode(len)
  {
    hide RepBas, RepBln;
    RepCodeIs(len);
    var r := RepCode(len);
    if r < t { if r + 1 < t { RepAscends(r + 1, t); } }
    if t < r { if t + 1 < r { RepAscends(t + 1, r); } }
  }

  lemma RepCodeIs(len: nat)
    requires MIN_REP <= len <= MAX_REP
    ensures RepBas(RepCode(len)) <= len && (RepCode(len) + 1 < 29 ==> len < RepBas(RepCode(len) + 1))
  {
    hide RepBas, RepBln;
    RepFromIs(len, 28);
  }

  lemma {:induction false} RepFromIs(len: nat, t: nat)
    requires t < 29 && 3 <= len && (t == 28 ==> len <= 258) && (t < 28 ==> len < RepBas(t + 1))
    ensures RepBas(RepFrom(len, t)) <= len && (RepFrom(len, t) + 1 < 29 ==> len < RepBas(RepFrom(len, t) + 1))
    decreases t
  {
    hide RepBas, RepBln;
    TableEnds();
    if RepBas(t) > len { RepFromIs(len, t - 1); }
  }

  // the token for a history offset
  method OffToken(offs: nat) returns (t: nat)
    requires 1 <= offs <= MAX_OFFS
    ensures t == OffCode(offs)
  {
    hide *;
    OffTable();
    t := FindToken(offs, OFF_BAS, 30);
    OffUnique(offs, t);
  }

  lemma OffTable()
    ensures Ascending(OFF_BAS, 30) && |OFF_BAS| == 30 && OFF_BAS[0] == 1
    ensures forall t :: 0 <= t < 30 ==> OFF_BAS[t] == OffBas(t)
  {
    forall i, j | 0 <= i < j < 30 ensures OFF_BAS[i] < OFF_BAS[j] { OffAscends(i, j); }
  }

  lemma OffUnique(offs: nat, t: nat)
    requires 1 <= offs <= MAX_OFFS && t < 30 && OffBas(t) <= offs && (t + 1 < 30 ==> offs < OffBas(t + 1))
    ensures t == OffCode(offs)
  {
    hide OffBas, OffBln;
    OffFromIs(offs, 29);
    var r := OffCode(offs);
    if r < t { if r + 1 < t { OffAscends(r + 1, t); } }
    if t < r { if t + 1 < r { OffAscends(t + 1, r); } }
  }

  lemma {:induction false} OffFromIs(offs: nat, t: nat)
    requires t < 30 && 1 <= offs && (t == 29 ==> offs <= 32768) && (t < 29 ==> offs < OffBas(t + 1))
    ensures OffBas(OffFrom(offs, t)) <= offs && (OffFrom(offs, t) + 1 < 30 ==> offs < OffBas(OffFrom(offs, t) + 1))
    decreases t
  {
    hide OffBas, OffBln;
    TableEnds();
    if OffBas(t) > offs { OffFromIs(offs, t - 1); }
  }
}
