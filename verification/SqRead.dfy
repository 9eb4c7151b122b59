/**
 The Huffman reader of SQ: a table over the next `bn` bits, a second table for longer codes,
 and the arrays `cd_ch` and `cd_ln` that lead to it.
 */
module SqRead {
  import opened Bits
  import opened LsbStream
  import opened Canonical
  import opened Reverse
  import opened SqCodes

  const SENTINEL := 0xFF

  // Outcome of building the tables. The test of the original accepts any code whose space is a
  // multiple of half the full one; unless it is exactly full, table entries stay unwritten or
  // are written twice, and what is read then is not modelled.
  datatype TabState = TabBad | TabUndefined | TabGood

  function TabCheck(lens: seq<nat>): TabState {
    if 2 * Space(lens, MAX_BITS) % 65536 != 0 then TabBad
    else if !Complete(lens, MAX_BITS) then TabUndefined
    else TabGood
  }

  // the lengths stored at off, up to the sentinel
  ghost predicate ListAt(ca: seq<nat>, off: nat, lens: seq<nat>) {
    && off + |lens| < |ca| && ca[off..off + |lens|] == lens
    && ca[off + |lens|] > MAX_BITS && Bounded(lens, MAX_BITS)
  }

  class HufRd {
    const cdLn: array<nat>
    const cdCh: array<nat>
    const chln1: array<Chln>
    const chln: array<Chln>
    var bn: nat

    constructor (size: nat)
      ensures fresh(cdLn) && fresh(cdCh) && fresh(chln1) && fresh(chln)
      ensures Shape() && chln.Length == size
    {
      cdLn, cdCh := new nat[MAX_BITS + 1], new nat[MAX_BITS + 1];
      chln1, chln := new Chln[MAX_CODES], new Chln[size];
    }

    ghost predicate Shape() {
      && cdLn.Length == cdCh.Length == MAX_BITS + 1 && cdLn != cdCh
      && chln1.Length == MAX_CODES && chln1 != chln
    }

    ghost function Parts(): set<object> {
      {this, cdLn, cdCh, chln1, chln}
    }

    // the tables decode the code of lens, with m characters
    ghost predicate Decodes(lens: seq<nat>, m: nat)
      reads Parts()
    {
      Shape() && TablesOk(chln[..], chln1[..], cdLn[..], cdCh[..], lens, m, bn)
    }

    // fills an array with zeros
    static method Clear(a: array<nat>)
      modifies a
      ensures forall k :: 0 <= k < a.Length ==> a[k] == 0
    {
      var i := 0;
      while i < a.Length
        invariant i <= a.Length && forall k :: 0 <= k < i ==> a[k] == 0
      {
        a[i] := 0;
        i := i + 1;
      }
    }

    method CountLens(ca: array<nat>, off: nat, ghost lens: seq<nat>)
      requires Shape() && ListAt(ca[..], off, lens) && ca != cdLn
      modifies cdLn
      ensures forall l :: 0 <= l <= MAX_BITS ==> cdLn[l] == Count(lens, l)
    {
      hide Count;
      Clear(cdLn);
      NoCounts(lens);
      var i := 0;
      while ca[off + i] <= MAX_BITS
        invariant i <= |lens| && ca[..] == old(ca[..])
        invariant forall l :: 0 <= l <= MAX_BITS ==> cdLn[l] == Count(lens[..i], l)
        decreases |lens| - i
      {
        ListItem(ca[..], off, lens, i);
        CountNextAll(lens, i);
        cdLn[ca[off + i]] := cdLn[ca[off + i]] + 1;
        i := i + 1;
      }
      ListItem(ca[..], off, lens, i);
      assert lens[..i] == lens;
    }

    // first codes and table bases of every length; returns us
    method Bases(ghost lens: seq<nat>) returns (us: nat)
      requires Shape() && forall l :: 0 <= l <= MAX_BITS ==> cdLn[l] == Count(lens, l)
      modifies cdLn, cdCh
      ensures us == 2 * Space(lens, MAX_BITS)
      ensures forall l :: 1 <= l <= MAX_BITS ==> cdCh[l] == First(lens, l) && cdLn[l] == Start(lens, l)
    {
      hide Count, First, Start, Space;
      NextBase(lens, 0);
      Clear(cdCh);
      cdLn[0] := 0;
      us := 0;
      var ut := 0;
      var i := 1;
      while i <= MAX_BITS
        invariant 1 <= i <= MAX_BITS + 1 && us == First(lens, i) && ut == Start(lens, i)
        invariant forall l :: 1 <= l < i ==> cdCh[l] == First(lens, l) && cdLn[l] == Start(lens, l)
        invariant forall l :: i <= l <= MAX_BITS ==> cdLn[l] == Count(lens, l)
      {
        NextBase(lens, i);
        var u := cdLn[i];
        cdLn[i] := ut;
        cdCh[i] := us;
        ut := ut + u;
        us := (us + u) * 2;
        i := i + 1;
      }
      NextBase(lens, MAX_BITS);
    }

    // one entry at every place the code cod of ln bits leads to
    method FillShort(cod: nat, ln: nat, e: Chln)
      requires Shape() && ln <= bn && Pow2(bn) <= chln.Length && cod < Pow2(ln)
      modifies chln
      ensures forall x :: 0 <= x < Pow2(bn) ==> chln[x] == if Low(x, ln) == cod then e else old(chln[x])
    {
      hide Pow2, Low;
      var c: nat, k: nat := cod, 0;
      ghost var n := bn - ln;
      FillStart(cod, ln, bn);
      while k < Pow2(bn - ln)
        invariant k <= Pow2(n) && c == cod + Shl(k, ln)
        invariant forall x :: 0 <= x < Pow2(bn) ==> chln[x] == if Low(x, ln) == cod && x < c then e else old(chln[x])
        decreases Pow2(n) - k
      {
        FillNext(cod, ln, bn, k);
        forall x | 0 <= x < Pow2(bn) && Low(x, ln) == cod && x < c + Pow2(ln) ensures x <= c {
          FillGap(cod, ln, k, x);
        }
        chln[c] := e;
        c := c + Pow2(ln);
        k := k + 1;
      }
      FillEnd(cod, ln, bn);
    }
  
    // the tables after the first i symbols
    ghost predicate Filled(lens: seq<nat>, m: nat, i: nat)
      reads Parts()
    {
      && Shape() && Complete(lens, MAX_BITS) && i <= |lens| <= MAX_CODES
      && ShortOk(chln[..], lens, m, bn, i) && LongOk(chln[..], chln1[..], lens, m, bn, i)
      && (forall l :: 1 <= l <= MAX_BITS ==> cdCh[l] == First(lens, l) + Count(lens[..i], l))
      && (forall l :: 1 <= l <= MAX_BITS ==> cdLn[l] == Start(lens, l) + if l > bn then Count(lens[..i], l) else 0)
    }

    // enters symbol i, whose length is ln
    method FillSym(ghost lens: seq<nat>, m: nat, i: nat, ln: nat)
      requires Filled(lens, m, i) && i < |lens| && lens[i] == ln >= 1
      modifies cdLn, cdCh, chln, chln1
      ensures Filled(lens, m, i + 1)
    {
      hide Count, First, Space, Start, Complete, Entry, RevCode, ShortOk, LongOk, Leads, SwapBits16, Shr, Low, Pow2, MarkAt, LongAt;
      CountNextAll(lens, i);
      CodeNow(lens, i, bn);
      var e := if i < m then Chln(ln, i) else Chln(ln as int - 0x40, i - m + 1);
      EntryIs(lens, m, i);
      var cod := Shr(SwapBits16(cdCh[ln]), 16 - ln);
      cdCh[ln] := cdCh[ln] + 1;
      ghost var was, was1 := chln[..], chln1[..];
      ShortSize(was, lens, m, bn, i);
      if ln <= bn {
        FillShort(cod, ln, e);
        LeadsIs(lens, i);
        ShortAdd(was, chln[..], chln1[..], lens, m, bn, i);
      } else {
        chln[Low(cod, bn)] := LONG_CODE;
        chln1[cdLn[ln]] := e;
        cdLn[ln] := cdLn[ln] + 1;
        LongAdd(was, chln[..], was1, chln1[..], lens, m, bn, i);
      }
    }

    // sq_rdhufi
    method Rdhufi(m: nat, bn0: nat, ca: array<nat>, off: nat, ghost lens: seq<nat>) returns (st: TabState)
      requires Shape() && ListAt(ca[..], off, lens) && |lens| <= MAX_CODES
      requires ca != cdLn && ca != cdCh
      requires Pow2(if bn0 > MAX_SPDA_BITS then MAX_SPDA_BITS else bn0) <= chln.Length
      modifies Parts()
      ensures st == TabCheck(lens) && (st == TabGood ==> Decodes(lens, m))
      ensures bn == if bn0 > MAX_SPDA_BITS then MAX_SPDA_BITS else bn0
    {
      hide Count, First, Space, Start, Complete, ShortOk, LongOk, Pow2, ListAt, TablesOk;
      bn := if bn0 > MAX_SPDA_BITS then MAX_SPDA_BITS else bn0;
      CountLens(ca, off, lens);
      var us := Bases(lens);
      SpaceTest(ca[..], off, lens, us);
      if us % 65536 != 0 { return TabBad; }
      if us != 0x20000 { return TabUndefined; }
      NoCounts(lens);
      NothingFilled(chln[..], chln1[..], lens, m, bn);
      ListRoom(ca[..], off, lens, 0);
      var i := 0;
      while ca[off + i] <= MAX_BITS
        invariant i <= |lens| && Filled(lens, m, i) && ca[..] == old(ca[..])
        invariant bn == if bn0 > MAX_SPDA_BITS then MAX_SPDA_BITS else bn0
        invariant ListAt(ca[..], off, lens) && off + i < ca.Length
        decreases |lens| - i
      {
        ListItem(ca[..], off, lens, i);
        if ca[off + i] != 0 {
          FillSym(lens, m, i, ca[off + i]);
        } else {
          SkipZero(chln[..], chln1[..], lens, m, bn, i);
          CountNextAll(lens, i);
        }
        i := i + 1;
        ListItem(ca[..], off, lens, i);
        ListRoom(ca[..], off, lens, i);
      }
      ListItem(ca[..], off, lens, i);
      FilledAll(lens);
      TablesFull(chln[..], chln1[..], cdLn[..], cdCh[..], lens, m, bn);
      st := TabGood;
    }
  
    // the search for a code longer than bn, and its place in the second table
    method FindLong(ch: nat, ghost lens: seq<nat>, ghost m: nat, ghost s: seq<bool>, ghost pos: nat) returns (k: nat)
      requires Decodes(lens, m) && ch == ValM(s, pos, 16)
      requires lens[DecodeSym(lens, MAX_BITS, s, pos)] > bn
      ensures k < chln1.Length && chln1[k] == Entry(lens, m, DecodeSym(lens, MAX_BITS, s, pos))
    {
      hide ValM, Shr, Space, CodeLen, Entry, TablesOk, Complete, DecodeSym, LongAt;
      TablesComplete(chln[..], chln1[..], cdLn[..], cdCh[..], lens, m, bn);
      ghost var sym := DecodeSym(lens, MAX_BITS, s, pos);
      TablesUsed(chln[..], chln1[..], cdLn[..], cdCh[..], lens, m, bn, s, pos);
      var i: nat := bn + 1;
      ValMPrefix(s, pos, 16, i);
      while cdCh[i] <= Shr(ch, 16 - i) && i < MAX_BITS
        invariant bn < i <= lens[sym] <= MAX_BITS && Shr(ch, 16 - i) == ValM(s, pos, i)
        decreases MAX_BITS - i
      {
        i := i + 1;
        ValMPrefix(s, pos, 16, i);
      }
      k := Shr(ch, 16 - i) + cdLn[i] - cdCh[i];
    }

    // sq_rdh1: the next symbol, 0x100 and up for tokens
    method Rdh1(r: Reader, ghost lens: seq<nat>, ghost m: nat) returns (u: nat)
      requires r.Valid() && Decodes(lens, m) && r !in Parts()
      modifies r
      ensures r.Valid() && r.pos == old(r.pos) + lens[DecodeSym(lens, MAX_BITS, r.Stream(), old(r.pos))]
      ensures var i := DecodeSym(lens, MAX_BITS, r.Stream(), old(r.pos));
              u == if i < m then i else i - m + 0x100
    {
      hide r.Valid, Val, ValM, Shr, Low, Leads, CodeLen, TablesOk, DecodeSym, Complete;
      ghost var s, pos := r.Stream(), r.pos;
      TablesComplete(chln[..], chln1[..], cdLn[..], cdCh[..], lens, m, bn);
      ghost var sym := DecodeSym(lens, MAX_BITS, s, pos);
      var e := Lookup(r, lens, m);
      // the length of a token is stored less 0x40, which drives the bit count below zero
      if r.pb + e.ln >= 0 {
        r.Skip(e.ln);
        return e.ch;
      }
      if e.ch != 0 {
        r.Skip(e.ln + 0x40);
        return e.ch + 0x100 - 1;
      }
      e := LookupLong(r, lens, m);
      if r.pb + e.ln >= 0 {
        r.Skip(e.ln);
        return e.ch;
      }
      r.Skip(e.ln + 0x40);
      u := e.ch + 0x100 - 1;
    }

    // the entry of the first table for the bits ahead
    method Lookup(r: Reader, ghost lens: seq<nat>, ghost m: nat) returns (e: Chln)
      requires r.Valid() && Decodes(lens, m) && r !in Parts()
      modifies r
      ensures r.Valid() && r.pos == old(r.pos) && r.pb <= 16
      ensures var i := DecodeSym(lens, MAX_BITS, r.Stream(), r.pos);
              e == if lens[i] <= bn then Entry(lens, m, i) else LONG_CODE
    {
      hide r.Valid, Val, ValM, Shr, Low, CodeLen;
      ghost var s := r.Stream();
      var u := r.Prepare();
      ValSub(s, r.pos, 0, bn, 32 - r.pb);
      TablesUsed(chln[..], chln1[..], cdLn[..], cdCh[..], lens, m, bn, s, r.pos);
      ShrNone(u);
      e := chln[Low(u, bn)];
    }

    // the entry of the second table
    method LookupLong(r: Reader, ghost lens: seq<nat>, ghost m: nat) returns (e: Chln)
      requires r.Valid() && Decodes(lens, m) && r !in Parts() && r.pb <= 16
      requires lens[DecodeSym(lens, MAX_BITS, r.Stream(), r.pos)] > bn
      modifies r
      ensures r.Valid() && r.pos == old(r.pos) && r.pb <= 16
      ensures e == Entry(lens, m, DecodeSym(lens, MAX_BITS, r.Stream(), r.pos))
    {
      hide r.Valid, Val, ValM, Shr, Low, CodeLen, Entry, Rev, SwapBits16, Pow2, BytesBits, TablesOk;
      ghost var s := r.Stream();
      var u := r.Prepare();
      ValSub(s, r.pos, 0, 16, 32 - r.pb);
      ShrNone(u);
      Pow2Values();
      ShrWord(u);
      SwapIsRev(u % 65536);
      RevVal(s, r.pos, 16);
      var k := FindLong(SwapBits16(u % 65536), lens, m, s, r.pos);
      e := chln1[k];
    }
  }

  lemma NextBase(lens: seq<nat>, i: nat)
    ensures i >= 1 ==> First(lens, i + 1) == 2 * (First(lens, i) + Count(lens, i)) && Start(lens, i + 1) == Start(lens, i) + Count(lens, i)
    ensures i == 0 ==> First(lens, 1) == 0 && Start(lens, 1) == 0
    ensures i >= 1 ==> First(lens, i + 1) == 2 * Space(lens, i)
  {
  }

  // what the tables say about the code at pos
  lemma TablesUsed(chln: seq<Chln>, chln1: seq<Chln>, cdLn: seq<nat>, cdCh: seq<nat>, lens: seq<nat>, m: nat, bn: nat,
                   s: seq<bool>, pos: nat)
    requires TablesOk(chln, chln1, cdLn, cdCh, lens, m, bn)
    ensures var i := DecodeSym(lens, MAX_BITS, s, pos);
            && i < |lens| && 1 <= lens[i] <= MAX_BITS && |chln| >= Pow2(bn) > Val(s, pos, bn)
            && chln[Val(s, pos, bn)] == (if lens[i] <= bn then Entry(lens, m, i) else LONG_CODE)
            && (lens[i] > bn ==>
                  && LongAt(lens, i) < |chln1| && chln1[LongAt(lens, i)] == Entry(lens, m, i)
                  && (forall l :: bn < l < lens[i] ==> cdCh[l] <= ValM(s, pos, l))
                  && cdCh[lens[i]] > ValM(s, pos, lens[i])
                  && ValM(s, pos, lens[i]) + cdLn[lens[i]] - cdCh[lens[i]] == LongAt(lens, i))
  {
    hide Count, Leads, Entry, RevCode, Low, Val, ValM, Pow2;
    var i := DecodeSym(lens, MAX_BITS, s, pos);
    CodeLenFound(lens, MAX_BITS, s, pos, 1);
    if lens[i] <= bn {
      LeadsAt(lens, s, pos, bn);
    } else {
      MarkedAt(lens, s, pos, bn);
      SpaceOf(lens, lens[i]);
    }
  }

  lemma TablesComplete(chln: seq<Chln>, chln1: seq<Chln>, cdLn: seq<nat>, cdCh: seq<nat>, lens: seq<nat>, m: nat, bn: nat)
    requires TablesOk(chln, chln1, cdLn, cdCh, lens, m, bn)
    ensures Complete(lens, MAX_BITS) && bn <= MAX_SPDA_BITS && |cdLn| == |cdCh| == MAX_BITS + 1
    ensures forall i :: 0 <= i < |lens| ==> lens[i] <= MAX_BITS
  {
  }

  lemma SpaceOf(lens: seq<nat>, l: nat)
    requires l >= 1
    ensures Space(lens, l) == First(lens, l) + Count(lens, l)
  {
  }

  lemma ListRoom(ca: seq<nat>, off: nat, lens: seq<nat>, i: nat)
    requires ListAt(ca, off, lens) && i <= |lens|
    ensures off + i < |ca|
  {
  }

  lemma SpaceTest(ca: seq<nat>, off: nat, lens: seq<nat>, us: nat)
    requires ListAt(ca, off, lens) && us == 2 * Space(lens, MAX_BITS)
    ensures TabCheck(lens) == if us % 65536 != 0 then TabBad else if us != 0x20000 then TabUndefined else TabGood
    ensures us == 0x20000 ==> Complete(lens, MAX_BITS)
  {
    Pow2Values();
  }

  // the code of symbol i, seen from the running counters
  lemma CodeNow(lens: seq<nat>, i: nat, bn: nat)
    requires Complete(lens, MAX_BITS) && i < |lens| && lens[i] >= 1
    ensures 1 <= lens[i] <= MAX_BITS
    ensures Shr(SwapBits16(First(lens, lens[i]) + Count(lens[..i], lens[i])), 16 - lens[i]) == RevCode(lens, i) < Pow2(lens[i])
    ensures LongAt(lens, i) == Start(lens, lens[i]) + Count(lens[..i], lens[i]) < |lens|
    ensures MarkAt(lens, bn, i) == Low(RevCode(lens, i), bn)
  {
    hide First, Count, SwapBits16, Shr, Start, Low;
    ReversedCode(lens, i);
    RevBound(CodeOf(lens, i), lens[i]);
    LongBound(lens, i);
  }

  lemma EntryIs(lens: seq<nat>, m: nat, i: nat)
    requires i < |lens|
    ensures Entry(lens, m, i) == if i < m then Chln(lens[i], i) else Chln(lens[i] as int - 0x40, i - m + 1)
  {
  }

  lemma LeadsIs(lens: seq<nat>, i: nat)
    requires i < |lens| && lens[i] >= 1
    ensures forall x: nat :: Leads(lens, i, x) <==> Low(x, lens[i]) == RevCode(lens, i)
  {
    hide Low, RevCode;
  }

  lemma ShortSize(chln: seq<Chln>, lens: seq<nat>, m: nat, bn: nat, i: nat)
    requires ShortOk(chln, lens, m, bn, i)
    ensures |chln| >= Pow2(bn)
  {
  }

  lemma NothingFilled(chln: seq<Chln>, chln1: seq<Chln>, lens: seq<nat>, m: nat, bn: nat)
    requires Pow2(bn) <= |chln|
    ensures ShortOk(chln, lens, m, bn, 0) && LongOk(chln, chln1, lens, m, bn, 0)
  {
  }

  lemma FilledAll(lens: seq<nat>)
    ensures lens[..|lens|] == lens
  {
  }

  lemma TablesFull(chln: seq<Chln>, chln1: seq<Chln>, cdLn: seq<nat>, cdCh: seq<nat>, lens: seq<nat>, m: nat, bn: nat)
    requires Complete(lens, MAX_BITS) && bn <= MAX_SPDA_BITS && |cdLn| == |cdCh| == MAX_BITS + 1
    requires ShortOk(chln, lens, m, bn, |lens|) && LongOk(chln, chln1, lens, m, bn, |lens|)
    requires forall l :: 1 <= l <= MAX_BITS ==> cdCh[l] == First(lens, l) + Count(lens, l)
    requires forall l :: 1 <= l <= MAX_BITS ==> cdLn[l] == Start(lens, l) + if l > bn then Count(lens, l) else 0
    ensures TablesOk(chln, chln1, cdLn, cdCh, lens, m, bn)
  {
    hide ShortOk, LongOk, Count, Start;
  }

  lemma ListItem(ca: seq<nat>, off: nat, lens: seq<nat>, i: nat)
    requires ListAt(ca, off, lens) && i <= |lens|
    ensures i < |lens| ==> ca[off + i] == lens[i] <= MAX_BITS
    ensures i == |lens| <==> ca[off + i] > MAX_BITS
  {
    if i < |lens| { assert ca[off..off + |lens|][i] == lens[i]; }
  }

  lemma FillStart(cod: nat, ln: nat, bn: nat)
    requires cod < Pow2(ln)
    ensures cod == cod + Shl(0, ln)
    ensures forall x: nat :: x < cod ==> Low(x, ln) != cod
  {
    ZeroShl(ln);
    forall x: nat | x < cod ensures Low(x, ln) != cod { ShrSmall(x, ln); }
  }

  lemma ShlNext(k: nat, ln: nat)
    ensures Shl(k + 1, ln) == Shl(k, ln) + Pow2(ln)
  {
    ShlAdd(k, 1, ln);
    PowShl(0, ln);
  }

  lemma FillNext(cod: nat, ln: nat, bn: nat, k: nat)
    requires cod < Pow2(ln) && ln <= bn && k < Pow2(bn - ln)
    ensures cod + Shl(k, ln) < Pow2(bn) && Low(cod + Shl(k, ln), ln) == cod
    ensures Shl(k + 1, ln) == Shl(k, ln) + Pow2(ln)
  {
    hide Pow2, Shl, Low, Shr;
    ShlBound(k, bn - ln, ln);
    ShrSum(cod, k, ln);
    ShrSmall(cod, ln);
    ShlNext(k, ln);
  }

  // no place is skipped
  lemma FillGap(cod: nat, ln: nat, k: nat, x: nat)
    requires cod < Pow2(ln) && Low(x, ln) == cod && x < cod + Shl(k, ln) + Pow2(ln)
    ensures x <= cod + Shl(k, ln)
  {
    hide Pow2, Shl, Low, Shr;
    ShrLow(x, ln);
    ShlMono(k, Shr(x, ln), ln);
    ShlMono(Shr(x, ln), k, ln);
  }

  lemma FillEnd(cod: nat, ln: nat, bn: nat)
    requires ln <= bn
    ensures Shl(Pow2(bn - ln), ln) == Pow2(bn)
  {
    PowShl(bn - ln, ln);
  }
}
