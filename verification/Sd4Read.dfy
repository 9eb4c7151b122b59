/**
 The Huffman reader of Stacker 4: a table over the next `bn` bits, a second table for longer
 codes, and the arrays `cd_ch` and `cd_ln` that lead to it.
 */
module Sd4Read {
  import opened Bits
  import opened Canonical
  import opened Sd4Stream
  import opened SqCodes
  import opened Sd4Codes

  const MAX_LONG := 0x200

  // the lengths stored at the start of ca, up to the sentinel
  ghost predicate List4(ca: seq<nat>, lens: seq<nat>) {
    && |lens| < |ca| && ca[..|lens|] == lens
    && ca[|lens|] > BITS4 && Bounded(lens, BITS4)
  }

  class Huf4 {
    const cdLn: array<nat>
    const cdCh: array<nat>
    const chln1: array<Chln>
    const chln: array<Chln>
    var bn: nat

    constructor ()
      ensures fresh(cdLn) && fresh(cdCh) && fresh(chln1) && fresh(chln) && Shape()
    {
      cdLn, cdCh := new nat[16], new nat[16];
      chln1, chln := new Chln[MAX_LONG], new Chln[0x400];
    }

    ghost predicate Shape() {
      && cdLn.Length == cdCh.Length == 16 && cdLn != cdCh
      && chln1.Length == MAX_LONG && chln.Length == 0x400 && chln1 != chln
    }

    ghost function Parts(): set<object> {
      {this, cdLn, cdCh, chln1, chln}
    }

    // the tables decode the code of lens, with m characters
    ghost predicate Decodes(lens: seq<nat>, m: nat)
      reads Parts()
    {
      Shape() && Tables4(chln[..], chln1[..], cdLn[..], cdCh[..], lens, m, bn)
    }

    static method Clear(a: array<nat>)
      modifies a
      ensures forall k :: 0 <= k < a.Length ==> a[k] == 0
    {
      var i := 0;
      while i < a.Length
        invariant i <= a.Length && forall k :: 0 <= k < i ==> a[k] == 0
      {
        a[i] := 0;
        i := i + 1;
      }
    }

    method CountLens(ca: array<nat>, ghost lens: seq<nat>)
      requires Shape() && List4(ca[..], lens) && ca != cdLn
      modifies cdLn
      ensures forall l :: 0 <= l <= BITS4 ==> cdLn[l] == Count(lens, l)
    {
      hide Count;
      Clear(cdLn);
      NoCounts(lens);
      var i := 0;
      while ca[i] < 16
        invariant i <= |lens| && ca[..] == old(ca[..])
        invariant forall l :: 0 <= l <= BITS4 ==> cdLn[l] == Count(lens[..i], l)
        decreases |lens| - i
      {
        Item4(ca[..], lens, i);
        CountNextAll(lens, i);
        cdLn[ca[i]] := cdLn[ca[i]] + 1;
        i := i + 1;
      }
      Item4(ca[..], lens, i);
      assert lens[..i] == lens;
    }

    // first codes and table bases of every length
    method Bases(ghost lens: seq<nat>) returns (us: nat)
      requires Shape() && forall l :: 0 <= l <= BITS4 ==> cdLn[l] == Count(lens, l)
      modifies cdLn, cdCh
      ensures us == 2 * Space(lens, BITS4)
      ensures forall l :: 1 <= l <= BITS4 ==> cdCh[l] == First(lens, l) && cdLn[l] == Start(lens, l)
    {
      hide Count, First, Start, Space;
      NextBase4(lens, 0);
      Clear(cdCh);
      cdLn[0] := 0;
      us := 0;
      var ut := 0;
      var i := 1;
      while i < 16
        invariant 1 <= i <= 16 && us == First(lens, i) && ut == Start(lens, i)
        invariant forall l :: 1 <= l < i ==> cdCh[l] == First(lens, l) && cdLn[l] == Start(lens, l)
        invariant forall l :: i <= l <= BITS4 ==> cdLn[l] == Count(lens, l)
      {
        NextBase4(lens, i);
        var u := cdLn[i];
        cdLn[i] := ut;
        cdCh[i] := us;
        ut := ut + u;
        us := (us + u) * 2;
        i := i + 1;
      }
      NextBase4(lens, BITS4);
    }

    // a run of equal entries, from cod << sh on
    method FillRun(cod: nat, sh: nat, e: Chln, ghost ln: nat)
      requires Shape() && cod < Pow2(ln) && bn == ln + sh <= 10
      modifies chln
      ensures forall x :: 0 <= x < 0x400 ==>
                chln[x] == if Shl(cod, sh) <= x < Shl(cod, sh) + Pow2(sh) then e else old(chln[x])
    {
      hide Pow2, Shl;
      RunFits(cod, ln, sh);
      var from, n := Shl(cod, sh), Pow2(sh);
      var k := 0;
      while k < n
        invariant k <= n
        invariant forall x :: 0 <= x < 0x400 ==> chln[x] == if from <= x < from + k then e else old(chln[x])
      {
        chln[from + k] := e;
        k := k + 1;
      }
    }

    // the tables after the first i symbols
    ghost predicate Filled(lens: seq<nat>, m: nat, i: nat)
      reads Parts()
    {
      && Shape() && Complete(lens, BITS4) && i <= |lens| <= MAX_LONG && bn <= 10
      && Short4(chln[..], lens, m, bn, i) && Long4(chln[..], chln1[..], lens, m, bn, i)
      && (forall l :: 1 <= l <= BITS4 ==> cdCh[l] == First(lens, l) + Count(lens[..i], l))
      && (forall l :: 1 <= l <= BITS4 ==> cdLn[l] == Start(lens, l) + if l > bn then Count(lens[..i], l) else 0)
    }

    // enters symbol i, whose length is ln
    method FillSym(ghost lens: seq<nat>, m: nat, i: nat, ln: nat)
      requires Filled(lens, m, i) && i < |lens| && lens[i] == ln >= 1
      modifies cdLn, cdCh, chln, chln1
      ensures Filled(lens, m, i + 1)
    {
      hide Count, First, Space, Start, Complete, Entry4, Short4, Long4, Leads4, Shr, Shl, Pow2, MarkAt4, LongAt, CodeOf;
      CountNextAll(lens, i);
      CodeNow4(lens, i, bn);
      var e := if i < m then Chln(ln, i) else Chln(ln + 0x40, i - m + 1);
      EntryIs4(lens, m, i);
      var cod := cdCh[ln];
      cdCh[ln] := cdCh[ln] + 1;
      ghost var was, was1 := chln[..], chln1[..];
      if ln <= bn {
        RunsAre(lens, bn, i);
        SmallTable(bn);
        FillRun(cod, bn - ln, e, ln);
        ShortAdd4(was, chln[..], chln1[..], lens, m, bn, i);
      } else {
        SmallTable(bn);
        chln[Shr(cod, ln - bn)] := LONG4;
        chln1[cdLn[ln]] := e;
        cdLn[ln] := cdLn[ln] + 1;
        LongAdd4(was, chln[..], was1, chln1[..], lens, m, bn, i);
      }
    }

    // sd4b_rdhufi
    method RdHufi(m: nat, bn0: nat, ca: array<nat>, ghost lens: seq<nat>) returns (st: Check4)
      requires Shape() && List4(ca[..], lens) && |lens| <= MAX_LONG && ca != cdLn && ca != cdCh
      modifies Parts()
      ensures st == TabCheck4(lens) && (st == Good4 ==> Decodes(lens, m))
    {
      hide Count, First, Space, Start, Complete, Short4, Long4, Pow2, List4, Tables4;
      bn := if bn0 > 10 then 10 else bn0;
      CountLens(ca, lens);
      var us := Bases(lens);
      SpaceTest4(lens, us);
      if us % 65536 != 0 { return Bad4; }
      if us != 0x10000 { return Undefined4; }
      CompleteNow(ca[..], lens, us);
      NoCounts(lens);
      SmallTable(bn);
      NothingFilled4(chln[..], chln1[..], lens, m, bn);
      Room4(ca[..], lens, 0);
      var i := 0;
      while ca[i] < 16
        invariant i <= |lens| && Filled(lens, m, i) && ca[..] == old(ca[..])
        invariant List4(ca[..], lens) && i < ca.Length
        decreases |lens| - i
      {
        Item4(ca[..], lens, i);
        if ca[i] != 0 {
          FillSym(lens, m, i, ca[i]);
        } else {
          SkipZero4(chln[..], chln1[..], lens, m, bn, i);
          CountNextAll(lens, i);
        }
        i := i + 1;
        Room4(ca[..], lens, i);
      }
      Item4(ca[..], lens, i);
      assert lens[..|lens|] == lens;
      TablesFull4(chln[..], chln1[..], cdLn[..], cdCh[..], lens, m, bn);
      st := Good4;
    }

    // the search for a code longer than bn, and its place in the second table
    method FindLong(ch: nat, ghost lens: seq<nat>, ghost m: nat, ghost s: seq<bool>, ghost pos: nat) returns (k: nat)
      requires Decodes(lens, m) && ch == ValM(s, pos, 16)
      requires lens[DecodeSym(lens, BITS4, s, pos)] > bn
      ensures k < chln1.Length && chln1[k] == Entry4(lens, m, DecodeSym(lens, BITS4, s, pos))
    {
      hide ValM, Shr, Space, CodeLen, Entry4, Tables4, Complete, DecodeSym, LongAt;
      TablesComplete4(chln[..], chln1[..], cdLn[..], cdCh[..], lens, m, bn);
      ghost var sym := DecodeSym(lens, BITS4, s, pos);
      TablesUsed4(chln[..], chln1[..], cdLn[..], cdCh[..], lens, m, bn, s, pos);
      var i: nat := bn + 1;
      ValMPrefix(s, pos, 16, i);
      while cdCh[i] <= Shr(ch, 16 - i) && i < 15
        invariant bn < i <= lens[sym] <= 15 && Shr(ch, 16 - i) == ValM(s, pos, i)
        decreases 15 - i
      {
        i := i + 1;
        ValMPrefix(s, pos, 16, i);
      }
      k := Shr(ch, 16 - i) - cdCh[i] + cdLn[i];
    }

    // the next symbol, as sd4b_rdh reads it: a character, or a token counted from 1
    method RdSym(r: Reader4, ghost lens: seq<nat>, ghost m: nat) returns (token: bool, ch: nat)
      requires r.Valid() && Decodes(lens, m) && r !in Parts()
      modifies r
      ensures r.Valid() && Complete(lens, BITS4)
      ensures var i := DecodeSym(lens, BITS4, r.S(), old(r.pos));
              && r.pos == old(r.pos) + lens[i]
              && (token <==> i >= m) && ch == if i < m then i else i - m + 1
    {
      hide r.Valid, ValM, Tables4, DecodeSym, Complete, CodeLen, Shr, Pow2;
      ghost var s, pos := r.S(), r.pos;
      TablesComplete4(chln[..], chln1[..], cdLn[..], cdCh[..], lens, m, bn);
      TablesUsed4(chln[..], chln1[..], cdLn[..], cdCh[..], lens, m, bn, s, pos);
      r.Prepare();
      Room16(r);
      var e := chln[r.Peek(bn)];
      // the length of a token has 0x40 added, which drives the bit count below zero
      if r.pb - e.ln >= 0 {
        r.Skip(e.ln);
        return false, e.ch;
      }
      if e.ch != 0 {
        r.Skip(e.ln - 0x40);
        return true, e.ch;
      }
      var k := FindLong(r.Peek(16), lens, m, s, pos);
      e := chln1[k];
      if r.pb - e.ln < 0 {
        r.Skip(e.ln - 0x40);
        return true, e.ch;
      }
      r.Skip(e.ln);
      return false, e.ch;
    }
  }

  lemma Room16(r: Reader4)
    requires r.Valid()
    ensures r.pb <= 32
  {
  }

  lemma Item4(ca: seq<nat>, lens: seq<nat>, i: nat)
    requires List4(ca, lens) && i <= |lens|
    ensures i < |lens| ==> ca[i] == lens[i] <= BITS4
    ensures i == |lens| <==> ca[i] >= 16
  {
    if i < |lens| { assert ca[..|lens|][i] == lens[i]; }
  }

  lemma Room4(ca: seq<nat>, lens: seq<nat>, i: nat)
    requires List4(ca, lens) && i <= |lens|
    ensures i < |ca|
  {
  }

  lemma NextBase4(lens: seq<nat>, i: nat)
    ensures i >= 1 ==> First(lens, i + 1) == 2 * (First(lens, i) + Count(lens, i)) && Start(lens, i + 1) == Start(lens, i) + Count(lens, i)
    ensures i == 0 ==> First(lens, 1) == 0 && Start(lens, 1) == 0
    ensures i >= 1 ==> First(lens, i + 1) == 2 * Space(lens, i)
  {
  }

  lemma RunFits(cod: nat, ln: nat, sh: nat)
    requires cod < Pow2(ln) && ln + sh <= 10
    ensures Shl(cod, sh) + Pow2(sh) <= 0x400
  {
    ShlBound(cod, ln, sh);
    Pow2Mono(ln + sh, 10);
    Pow2Values();
  }

  lemma SmallTable(bn: nat)
    requires bn <= 10
    ensures Pow2(bn) <= 0x400
  {
    Pow2Mono(bn, 10);
    Pow2Values();
  }

  lemma RunsAre(lens: seq<nat>, bn: nat, i: nat)
    requires i < |lens| && 1 <= lens[i] <= bn
    ensures forall x: nat :: Leads4(lens, i, x, bn) <==>
              Shl(CodeOf(lens, i), bn - lens[i]) <= x < Shl(CodeOf(lens, i), bn - lens[i]) + Pow2(bn - lens[i])
  {
    hide Leads4, CodeOf, Shl, Pow2;
    forall x: nat
      ensures Leads4(lens, i, x, bn) <==>
              Shl(CodeOf(lens, i), bn - lens[i]) <= x < Shl(CodeOf(lens, i), bn - lens[i]) + Pow2(bn - lens[i])
    {
      RunOf(lens, bn, i, x);
    }
  }

  // the code of symbol i, seen from the running counters
  lemma CodeNow4(lens: seq<nat>, i: nat, bn: nat)
    requires Complete(lens, BITS4) && i < |lens| && lens[i] >= 1
    ensures 1 <= lens[i] <= BITS4 && CodeOf(lens, i) == First(lens, lens[i]) + Count(lens[..i], lens[i]) < Pow2(lens[i])
    ensures LongAt(lens, i) == Start(lens, lens[i]) + Count(lens[..i], lens[i]) < |lens|
    ensures lens[i] > bn ==> MarkAt4(lens, bn, i) == Shr(CodeOf(lens, i), lens[i] - bn) < Pow2(bn)
  {
    hide First, Count, Start, Shr, Pow2;
    CodeFits(lens, BITS4, i);
    LongBound(lens, i);
    ShortLen(lens, i);
    if lens[i] > bn { MarkFits(lens, bn, i); }
  }

  lemma EntryIs4(lens: seq<nat>, m: nat, i: nat)
    requires i < |lens|
    ensures Entry4(lens, m, i) == if i < m then Chln(lens[i], i) else Chln(lens[i] + 0x40, i - m + 1)
  {
  }

  lemma NothingFilled4(chln: seq<Chln>, chln1: seq<Chln>, lens: seq<nat>, m: nat, bn: nat)
    requires Pow2(bn) <= |chln|
    ensures Short4(chln, lens, m, bn, 0) && Long4(chln, chln1, lens, m, bn, 0)
  {
  }

  lemma SpaceTest4(lens: seq<nat>, us: nat)
    requires us == 2 * Space(lens, BITS4)
    ensures us % 65536 != 0 ==> TabCheck4(lens) == Bad4
    ensures us % 65536 == 0 && us != 0x10000 ==> TabCheck4(lens) == Undefined4
  {
    Pow2Values();
  }

  lemma CompleteNow(ca: seq<nat>, lens: seq<nat>, us: nat)
    requires List4(ca, lens) && us == 2 * Space(lens, BITS4) == 0x10000
    ensures TabCheck4(lens) == Good4 && Complete(lens, BITS4)
  {
    Pow2Values();
  }

  lemma TablesFull4(chln: seq<Chln>, chln1: seq<Chln>, cdLn: seq<nat>, cdCh: seq<nat>, lens: seq<nat>, m: nat, bn: nat)
    requires Complete(lens, BITS4) && bn <= 10 && |cdLn| == |cdCh| == 16
    requires Short4(chln, lens, m, bn, |lens|) && Long4(chln, chln1, lens, m, bn, |lens|)
    requires forall l :: 1 <= l <= BITS4 ==> cdCh[l] == First(lens, l) + Count(lens, l)
    requires forall l :: 1 <= l <= BITS4 ==> cdLn[l] == Start(lens, l) + if l > bn then Count(lens, l) else 0
    ensures Tables4(chln, chln1, cdLn, cdCh, lens, m, bn)
  {
    hide Short4, Long4, Count, Start, Complete;
    forall l | 1 <= l <= BITS4 ensures cdCh[l] == Space(lens, l) { SpaceIs(lens, l); }
  }

  lemma SpaceIs(lens: seq<nat>, l: nat)
    requires l >= 1
    ensures Space(lens, l) == First(lens, l) + Count(lens, l)
  {
  }

  lemma TablesComplete4(chln: seq<Chln>, chln1: seq<Chln>, cdLn: seq<nat>, cdCh: seq<nat>, lens: seq<nat>, m: nat, bn: nat)
    requires Tables4(chln, chln1, cdLn, cdCh, lens, m, bn)
    ensures Complete(lens, BITS4) && bn <= 10 && |cdLn| == |cdCh| == 16 && BITS4 == 15
    ensures forall i :: 0 <= i < |lens| ==> lens[i] <= 15
  {
  }

  // the code at pos leads the bits there, or is marked under them
  lemma AtPos(lens: seq<nat>, s: seq<bool>, pos: nat, bn: nat)
    requires Complete(lens, BITS4)
    ensures var i := DecodeSym(lens, BITS4, s, pos);
            && (lens[i] <= bn ==> Leads4(lens, i, ValM(s, pos, bn), bn))
            && (lens[i] > bn ==> MarkAt4(lens, bn, i) == ValM(s, pos, bn))
  {
    hide CodeOf, Shr, ValM;
    var i := DecodeSym(lens, BITS4, s, pos);
    if lens[i] <= bn {
      ValMPrefix(s, pos, bn, lens[i]);
    } else {
      ValMPrefix(s, pos, lens[i], bn);
    }
  }

  // what the tables say about the code at pos
  lemma TablesUsed4(chln: seq<Chln>, chln1: seq<Chln>, cdLn: seq<nat>, cdCh: seq<nat>, lens: seq<nat>, m: nat, bn: nat,
                    s: seq<bool>, pos: nat)
    requires Tables4(chln, chln1, cdLn, cdCh, lens, m, bn)
    ensures Complete(lens, BITS4)
    ensures var i := DecodeSym(lens, BITS4, s, pos);
            && i < |lens| && 1 <= lens[i] <= 15 && |chln| >= Pow2(bn) > ValM(s, pos, bn)
            && chln[ValM(s, pos, bn)] == (if lens[i] <= bn then Entry4(lens, m, i) else LONG4)
            && (lens[i] > bn ==>
                  && LongAt(lens, i) < |chln1| && chln1[LongAt(lens, i)] == Entry4(lens, m, i)
                  && (forall l :: bn < l < lens[i] ==> cdCh[l] <= ValM(s, pos, l))
                  && cdCh[lens[i]] > ValM(s, pos, lens[i])
                  && ValM(s, pos, lens[i]) - cdCh[lens[i]] + cdLn[lens[i]] == LongAt(lens, i))
  {
    hide Count, Entry4, ValM, Pow2, Leads4, MarkAt4;
    var i := DecodeSym(lens, BITS4, s, pos);
    CodeLenFound(lens, BITS4, s, pos, 1);
    AtPos(lens, s, pos, bn);
    if lens[i] > bn { SpaceIs(lens, lens[i]); }
  }
}
