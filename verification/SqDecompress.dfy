/**
 `sq_dec`, the SQ decompressor: for every input it computes `SqHeader.Decode`.
 */
module SqDecompress {
  import opened Bits
  import opened LsbStream
  import opened Lz
  import opened Canonical
  import opened SqCodes
  import opened SqRead
  import opened SqFormat
  import opened SqHeader

  // returned by Rdh when the output buffer is full
  const OUT_OVER := 0x100

  const CODE_AREA := 0x200

  //////////////////////////////////////////////////////////////////////////////
  // The code lengths
  //////////////////////////////////////////////////////////////////////////////

  // where a helper symbol stands in the storage order
  function PlaceOf(j: nat): (i: nat)
    requires j < 19
    ensures i < 19
  {
    if j == 0 then 3 else if j == 16 then 0 else if j == 17 then 1 else if j == 18 then 2
    else if j >= 8 then 4 + 2 * (j - 8) else 5 + 2 * (7 - j)
  }

  lemma PlaceInverse(i: nat)
    requires i < 19
    ensures PlaceOf(CodeIndex(i)) == i
  {
    if i < 7 {
      PlaceLow(i);
    } else if i < 13 {
      PlaceMid(i);
    } else {
      PlaceHigh(i);
    }
  }

  lemma PlaceLow(i: nat)
    requires i < 7
    ensures PlaceOf(CodeIndex(i)) == i
  {
    if i == 0 { assert CODE_INDEX[0] == 0x10; }
    if i == 1 { assert CODE_INDEX[1] == 0x11; }
    if i == 2 { assert CODE_INDEX[2] == 0x12; }
    if i == 3 { assert CODE_INDEX[3] == 0; }
    if i == 4 { assert CODE_INDEX[4] == 8; }
    if i == 5 { assert CODE_INDEX[5] == 7; }
    if i == 6 { assert CODE_INDEX[6] == 9; }
  }

  lemma PlaceMid(i: nat)
    requires 7 <= i < 13
    ensures PlaceOf(CodeIndex(i)) == i
  {
    if i == 7 { assert CODE_INDEX[7] == 6; }
    if i == 8 { assert CODE_INDEX[8] == 10; }
    if i == 9 { assert CODE_INDEX[9] == 5; }
    if i == 10 { assert CODE_INDEX[10] == 11; }
    if i == 11 { assert CODE_INDEX[11] == 4; }
    if i == 12 { assert CODE_INDEX[12] == 12; }
  }

  lemma PlaceHigh(i: nat)
    requires 13 <= i < 19
    ensures PlaceOf(CodeIndex(i)) == i
  {
    if i == 13 { assert CODE_INDEX[13] == 3; }
    if i == 14 { assert CODE_INDEX[14] == 13; }
    if i == 15 { assert CODE_INDEX[15] == 2; }
    if i == 16 { assert CODE_INDEX[16] == 14; }
    if i == 17 { assert CODE_INDEX[17] == 1; }
    if i == 18 { assert CODE_INDEX[18] == 15; }
  }

  function HelperValue(s: seq<bool>, pos: nat, count3: nat, j: nat): nat {
    if j < count3 then Val(s, pos + 3 * j, 3) else 0
  }

  lemma {:induction false} HelperAt(s: seq<bool>, pos: nat, count3: nat, k: nat, j: nat)
    requires count3 <= 19 && j < k <= 19
    ensures HelperLens(s, pos, count3, k)[CodeIndex(j)] == HelperValue(s, pos, count3, j)
    decreases k
  {
    hide CodeIndex, Val;
    PlaceInverse(k - 1);
    PlaceInverse(j);
    if j < k - 1 { HelperAt(s, pos, count3, k - 1, j); }
  }

  // all places filled in
  lemma HelperFilled(s: seq<bool>, pos: nat, count3: nat, a: seq<nat>)
    requires count3 <= 19 && |a| == 19
    requires forall j :: 0 <= j < 19 ==> a[CodeIndex(j)] == HelperValue(s, pos, count3, j)
    ensures a == HelperLens(s, pos, count3, 19)
  {
    hide CodeIndex, HelperLens, HelperValue;
    forall c | 0 <= c < 19 ensures a[c] == HelperLens(s, pos, count3, 19)[c] {
      var j := IndexOnto(c);
      HelperAt(s, pos, count3, 19, j);
    }
  }

  method ReadHelperLens(r: Reader, cb: array<nat>, count3: nat) returns (bnMax: nat)
    requires r.Valid() && cb.Length >= CODE_AREA && count3 <= 19
    modifies r, cb
    ensures r.Valid() && r.pos == old(r.pos) + 3 * count3
    ensures ListAt(cb[..], 0, HelperLens(r.Stream(), old(r.pos), count3, 19))
    ensures bnMax <= 7 && Bounded(HelperLens(r.Stream(), old(r.pos), count3, 19), bnMax)
  {
    hide r.Valid, CodeIndex, HelperLens, Val;
    ghost var s, pos := r.Stream(), r.pos;
    Pow2Values();
    bnMax := 0;
    var i := 0;
    while i < count3
      invariant i <= count3 && r.Valid() && r.pos == pos + 3 * i && bnMax <= 7
      invariant forall j :: 0 <= j < i ==> cb[CodeIndex(j)] == HelperValue(s, pos, count3, j) <= bnMax
    {
      var u := r.RdN(3);
      assert u == HelperValue(s, pos, count3, i);
      PlaceInverse(i);
      forall j | 0 <= j < i ensures CodeIndex(j) != CodeIndex(i) { PlaceInverse(j); }
      cb[CodeIndex(i)] := u;
      if u > bnMax { bnMax := u; }
      i := i + 1;
    }
    while i < 19
      invariant count3 <= i <= 19 && r.Valid() && r.pos == pos + 3 * count3
      invariant forall j :: 0 <= j < i ==> cb[CodeIndex(j)] == HelperValue(s, pos, count3, j) <= bnMax
    {
      PlaceInverse(i);
      forall j | 0 <= j < i ensures CodeIndex(j) != CodeIndex(i) { PlaceInverse(j); }
      cb[CodeIndex(i)] := 0;
      i := i + 1;
    }
    cb[19] := SENTINEL;
    HelperFilled(s, pos, count3, cb[..19]);
    HelperBound(s, pos, count3, bnMax);
    assert cb[..][0..0 + 19] == cb[..19];
  }

  lemma HelperBound(s: seq<bool>, pos: nat, count3: nat, b: nat)
    requires count3 <= 19 && forall j :: 0 <= j < 19 ==> HelperValue(s, pos, count3, j) <= b
    ensures Bounded(HelperLens(s, pos, count3, 19), b)
  {
    hide CodeIndex, HelperLens, HelperValue;
    forall c | 0 <= c < 19 ensures HelperLens(s, pos, count3, 19)[c] <= b {
      var j := IndexOnto(c);
      HelperAt(s, pos, count3, 19, j);
    }
  }

  // stores n times v from place i on
  method FillRun(cb: array<nat>, i: nat, v: nat, n: nat)
    requires i + n <= cb.Length
    modifies cb
    ensures cb[..i + n] == old(cb[..i]) + Copies(v, n)
  {
    var k := 0;
    while k < n
      invariant k <= n && cb[..i] == old(cb[..i])
      invariant forall j :: i <= j < i + k ==> cb[j] == v
    {
      cb[i + k] := v;
      k := k + 1;
    }
  }

  // a helper symbol; its codes all fit the first table
  method ReadHelperSym(r: Reader, huf: HufRd, ghost h: seq<nat>) returns (u: nat)
    requires r.Valid() && huf.Decodes(h, 19) && |h| == 19 && Bounded(h, huf.bn) && r !in huf.Parts()
    modifies r
    ensures r.Valid() && Complete(h, MAX_BITS) && u == DecodeSym(h, MAX_BITS, r.Stream(), old(r.pos)) && u < 19
    ensures r.pos == old(r.pos) + h[u]
  {
    hide r.Valid, Val, Complete, DecodeSym, TablesOk;
    TablesComplete(huf.chln[..], huf.chln1[..], huf.cdLn[..], huf.cdCh[..], h, 19, huf.bn);
    var e := huf.Lookup(r, h, 19);
    r.Skip(e.ln);
    u := e.ch;
  }

  // the symbol of an item and how many lengths it stands for
  method ReadCount(r: Reader, huf: HufRd, ghost h: seq<nat>) returns (u: nat, n: nat)
    requires r.Valid() && huf.Decodes(h, 19) && |h| == 19 && Bounded(h, huf.bn) && r !in huf.Parts()
    modifies r
    ensures r.Valid() && Complete(h, MAX_BITS) && n <= 138
    ensures ReadItem(h, r.Stream(), old(r.pos)) == (ItemOf(u, n), r.pos)
  {
    hide r.Valid, huf.Decodes, Val, Complete, DecodeSym, Bounded, Pow2, ReadItem, ItemOf, RoundUp2;
    ExtraSmall();
    ghost var s, pos := r.Stream(), r.pos;
    u := ReadHelperSym(r, huf, h);
    ItemIs(h, s, pos);
    ExtraSizes(u);
    n := 1;
    if u >= 16 {
      n := r.RdN(ExtraBits(u));
      n := n + if u == 18 then 11 else 3;
    }
  }

  // extra bits of the helper symbols from 16 on
  function ExtraBits(u: nat): nat {
    if u == 16 then 2 else if u == 17 then 3 else 7
  }

  function ItemOf(u: nat, n: nat): Rle {
    if u == 16 then Again(n) else if u == 17 || u == 18 then Zeros(n) else Len(u)
  }

  // one item of the coded lengths; u1 is the last length noted
  method ReadRun(r: Reader, huf: HufRd, cb: array<nat>, i: nat, u1: nat, ghost h: seq<nat>) returns (i': nat, u1': nat)
    requires r.Valid() && huf.Decodes(h, 19) && |h| == 19 && Bounded(h, huf.bn) && r !in huf.Parts() && cb !in huf.Parts()
    requires i < 0x13C && CODE_AREA <= cb.Length
    modifies r, cb
    ensures r.Valid() && Complete(h, MAX_BITS)
    ensures var (item, pos1) := ReadItem(h, r.Stream(), old(r.pos));
            r.pos == pos1 && i < i' <= CODE_AREA && RleState(cb[..i'], u1') == RleStep(item, RleState(old(cb[..i]), u1))
  {
    hide r.Valid, huf.Decodes, Complete, Bounded, ReadItem, RleStep;
    var u, n := ReadCount(r, huf, h);
    StepIs(ItemOf(u, n), RleState(cb[..i], u1));
    if u == 16 {
      FillRun(cb, i, u1, n);
      i', u1' := i + n, u1;
    } else if u == 17 || u == 18 {
      FillRun(cb, i, 0, n);
      i', u1' := i + n, 0;
    } else {
      FillRun(cb, i, u, 1);
      i', u1' := i + 1, u;
    }
  }

  lemma ItemNamed(u: nat, n: nat)
    ensures ItemOf(u, n) == if u == 16 then Again(n) else if u == 17 || u == 18 then Zeros(n) else Len(u)
  {
  }

  lemma ExtraSizes(u: nat)
    ensures ExtraBits(u) == if u == 16 then 2 else if u == 17 then 3 else 7
  {
  }

  lemma ExtraSmall()
    ensures Pow2(2) == 4 && Pow2(3) == 8 && Pow2(7) == 128
  {
    Pow2Values();
  }

  lemma ItemRead(h: seq<nat>, s: seq<bool>, pos: nat)
    requires Complete(h, MAX_BITS) && |h| == 19
    ensures var u := DecodeSym(h, MAX_BITS, s, pos);
            && u < 19
            && ReadItem(h, s, pos)
               == if u == 16 then (Again(Val(s, pos + h[u], 2) + 3), pos + h[u] + 2)
                  else if u == 17 then (Zeros(Val(s, pos + h[u], 3) + 3), pos + h[u] + 3)
                  else if u == 18 then (Zeros(Val(s, pos + h[u], 7) + 11), pos + h[u] + 7)
                  else (Len(u), pos + h[u])
  {
    hide Complete, DecodeSym, Val, Pow2, Bounded, Space;
  }

  lemma SixteenBits()
    ensures MAX_BITS == 16
  {
  }

  lemma ItemIs(h: seq<nat>, s: seq<bool>, pos: nat)
    requires Complete(h, MAX_BITS) && |h| == 19
    ensures var u := DecodeSym(h, MAX_BITS, s, pos);
            var pos1 := pos + h[u];
            ReadItem(h, s, pos)
            == if u >= 16 then
                 (ItemOf(u, Val(s, pos1, ExtraBits(u)) + if u == 18 then 11 else 3), pos1 + ExtraBits(u))
               else (ItemOf(u, 1), pos1)
  {
    hide *;
    SixteenBits();
    var u := DecodeSym(h, MAX_BITS, s, pos);
    ItemRead(h, s, pos);
    ItemNamed(u, 1);
    if u >= 16 { ItemNamed(u, Val(s, pos + h[u], ExtraBits(u)) + if u == 18 then 11 else 3); }
    ExtraSizes(u);
  }

  lemma StepIs(item: Rle, st: RleState)
    ensures RleStep(item, st)
            == match item
               case Len(v) => RleState(st.acc + Copies(v, 1), v)
               case Again(n) => RleState(st.acc + Copies(st.last, n), st.last)
               case Zeros(n) => RleState(st.acc + Copies(0, n), 0)
  {
    if item.Len? { assert Copies(item.v, 1) == [item.v]; }
  }

  // the coded lengths, at least `total` of them
  method ReadLengths(r: Reader, huf: HufRd, cb: array<nat>, total: nat, ghost h: seq<nat>) returns (bnMax: nat)
    requires r.Valid() && huf.Decodes(h, 19) && |h| == 19 && Bounded(h, huf.bn) && r !in huf.Parts() && cb !in huf.Parts()
    requires total <= 0x13C && CODE_AREA <= cb.Length
    modifies r, cb
    ensures r.Valid() && Complete(h, MAX_BITS)
    ensures var (acc, pos1) := ReadLens(h, r.Stream(), old(r.pos), total, RleState([], 0));
            r.pos == pos1 && |acc| <= CODE_AREA && cb[..|acc|] == acc
  {
    hide r.Valid, ReadItem, RleStep, Complete, TablesOk, Bounded;
    TablesComplete(huf.chln[..], huf.chln1[..], huf.cdLn[..], huf.cdCh[..], h, 19, huf.bn);
    ghost var s, pos := r.Stream(), r.pos;
    bnMax := 0;
    var i: nat, u1: nat := 0, 0;
    EmptyBounded();
    while i < total
      invariant r.Valid() && i <= CODE_AREA && Bounded(cb[..i], 15) && u1 <= 15
      invariant ReadLens(h, s, pos, total, RleState([], 0)) == ReadLens(h, s, r.pos, total, RleState(cb[..i], u1))
      decreases total - i
    {
      RunBounded(h, s, r.pos, RleState(cb[..i], u1));
      i, u1 := ReadRun(r, huf, cb, i, u1, h);
      if u1 > bnMax { bnMax := u1; }
    }
  }

  lemma EmptyBounded()
    ensures Bounded([], 15)
  {
  }

  lemma RunBounded(h: seq<nat>, s: seq<bool>, pos: nat, st: RleState)
    requires Complete(h, MAX_BITS) && |h| <= 19 && Bounded(st.acc, 15) && st.last <= 15
    ensures var st' := RleStep(ReadItem(h, s, pos).0, st); Bounded(st'.acc, 15) && st'.last <= 15
  {
    hide ReadItem, Complete;
  }

  //////////////////////////////////////////////////////////////////////////////
  // The data
  //////////////////////////////////////////////////////////////////////////////

  // What remains of decoding a block after Rdh has returned u.
  ghost predicate Ahead(c: Codes, s: seq<bool>, whole: State, u: nat, pos: nat, buf: seq<byte>, p: nat)
    requires CodesOk(c)
  {
    if u == OUT_OVER then
      p == |buf| && whole == DecodeBlock(c, s, pos, buf, p)
    else if u == 0 then
      p <= |buf| && whole == At(pos, buf, p)
    else
      && u < 0x1E && p < |buf|
      && var st := DecodeRep(c, s, pos, u - 1, buf, p); whole == DecodeBlock(c, s, st.pos, st.buf, st.p)
  }

  // sq_rdh: characters up to the next token (its number is returned) or the end of the buffer
  method Rdh(r: Reader, huf: HufRd, pout: array<byte>, p: nat, ghost c: Codes) returns (u: nat, p': nat)
    requires r.Valid() && CodesOk(c) && huf.Decodes(c.ch, 0x100) && r !in huf.Parts() && pout !in huf.Parts()
    requires p <= pout.Length
    modifies r, pout
    ensures r.Valid() && p <= p' <= pout.Length
    ensures Ahead(c, r.Stream(), DecodeBlock(c, r.Stream(), old(r.pos), old(pout[..]), p), u, r.pos, pout[..], p')
  {
    hide r.Valid, huf.Decodes, DecodeBlock, CodesOk, Ahead;
    ghost var s := r.Stream();
    p' := p;
    while true
      invariant r.Valid() && p <= p' <= pout.Length
      invariant DecodeBlock(c, s, old(r.pos), old(pout[..]), p) == DecodeBlock(c, s, r.pos, pout[..], p')
      decreases pout.Length - p'
    {
      ghost var was, at := pout[..], r.pos;
      if p' >= pout.Length {
        AheadIs(c, s, at, was, p', OUT_OVER);
        return OUT_OVER, p';
      }
      u := RdSym(r, huf, c, was, p');
      if u >= 0x100 { return u - 0x100, p'; }
      pout[p'] := u;
      assert pout[..] == was[p' := pout[p']];
      p' := p' + 1;
    }
  }

  // one symbol, as rdh reads it
  method RdSym(r: Reader, huf: HufRd, ghost c: Codes, ghost buf: seq<byte>, ghost p: nat) returns (u: nat)
    requires r.Valid() && CodesOk(c) && huf.Decodes(c.ch, 0x100) && r !in huf.Parts() && p < |buf|
    modifies r
    ensures r.Valid() && u < 0x11E
    ensures u < 0x100 ==> DecodeBlock(c, r.Stream(), old(r.pos), buf, p) == DecodeBlock(c, r.Stream(), r.pos, buf[p := u], p + 1)
    ensures u >= 0x100 ==> Ahead(c, r.Stream(), DecodeBlock(c, r.Stream(), old(r.pos), buf, p), u - 0x100, r.pos, buf, p)
  {
    hide r.Valid, huf.Decodes, DecodeBlock, DecodeRep, DecodeSym, CodesOk, Complete;
    CodesSize(c);
    ghost var s, at := r.Stream(), r.pos;
    BlockStep(c, s, at, buf, p);
    if DecodeSym(c.ch, MAX_BITS, s, at) == END_SYM { BlockEnd(c, s, at, buf, p); }
    u := huf.Rdh1(r, c.ch, 0x100);
  }

  lemma AheadIs(c: Codes, s: seq<bool>, pos: nat, buf: seq<byte>, p: nat, u: nat)
    requires CodesOk(c) && p == |buf| && u == OUT_OVER
    ensures Ahead(c, s, DecodeBlock(c, s, pos, buf, p), u, pos, buf, p)
  {
    hide DecodeBlock;
  }

  lemma CodesSize(c: Codes)
    requires CodesOk(c)
    ensures Complete(c.ch, MAX_BITS) && Complete(c.off, MAX_BITS) && 0x101 <= |c.ch| <= 0x11E && |c.off| <= 0x1E
    ensures END_SYM == 0x100 && MAX_BITS == 16
  {
  }

  // the fields of a repetition: count, offset, and where they end
  function RepFields(c: Codes, s: seq<bool>, pos: nat, u: nat): (f: (nat, nat, nat))
    requires CodesOk(c) && u < 29
  {
    var pos1 := pos + RepBln(u);
    var o := DecodeSym(c.off, MAX_BITS, s, pos1);
    var pos2 := pos1 + c.off[o];
    (RepBas(u) + Val(s, pos, RepBln(u)), OffBas(o) + Val(s, pos2, OffBln(o)), pos2 + OffBln(o))
  }

  lemma RepIs(c: Codes, s: seq<bool>, pos: nat, u: nat, buf: seq<byte>, p: nat)
    requires CodesOk(c) && u < 29 && p < |buf|
    ensures var (len, offs, end) := RepFields(c, s, pos, u);
            var n := Min(len, |buf| - p);
            DecodeRep(c, s, pos, u, buf, p) == At(end, CopyBack(buf, p, Min(offs, p), n), p + n) && len > 0
  {
    hide Complete, DecodeSym, Val, CopyBack, RepBas, RepBln, OffBas, OffBln;
  }

  method RdRepFields(r: Reader, huf2: HufRd, u: nat, ghost c: Codes) returns (replen: nat, repoffs: nat)
    requires r.Valid() && CodesOk(c) && huf2.Decodes(c.off, 0x100) && r !in huf2.Parts() && u < 29
    modifies r
    ensures r.Valid() && RepFields(c, r.Stream(), old(r.pos), u) == (replen, repoffs, r.pos)
  {
    hide r.Valid, huf2.Decodes, DecodeSym, Complete, Val, RepBas, RepBln, OffBas, OffBln;
    CodesSize(c);
    replen := r.RdN(RepBln(u));
    replen := replen + RepBas(u);
    var o := huf2.Rdh1(r, c.off, 0x100);
    repoffs := r.RdN(OffBln(o));
    repoffs := repoffs + OffBas(o);
  }

  // a repetition with token number u; offset and count are cut to the buffer
  method CopyRep(r: Reader, huf2: HufRd, pout: array<byte>, p: nat, u: nat, ghost c: Codes) returns (p': nat)
    requires r.Valid() && CodesOk(c) && huf2.Decodes(c.off, 0x100) && r !in huf2.Parts() && pout !in huf2.Parts()
    requires p < pout.Length && u < 29
    modifies r, pout
    ensures r.Valid() && p < p' <= pout.Length
    ensures DecodeRep(c, r.Stream(), old(r.pos), u, old(pout[..]), p) == At(r.pos, pout[..], p')
  {
    hide r.Valid, huf2.Decodes, CodesOk, RepFields, CopyBack, DecodeRep;
    RepIs(c, r.Stream(), r.pos, u, pout[..], p);
    // the bases are positive, so the test for offset 0 of the original never succeeds
    var replen, repoffs := RdRepFields(r, huf2, u, c);
    if repoffs > p { repoffs := p; }
    if p + replen > pout.Length { replen := pout.Length - p; }
    MovSb(pout, p, repoffs, replen);
    p' := p + replen;
  }

  // the data of one block
  method DecBlock(r: Reader, huf1: HufRd, huf2: HufRd, pout: array<byte>, p: nat, ghost c: Codes) returns (ok: bool, p': nat)
    requires r.Valid() && CodesOk(c) && huf1.Decodes(c.ch, 0x100) && huf2.Decodes(c.off, 0x100)
    requires r !in huf1.Parts() && pout !in huf1.Parts() && r !in huf2.Parts() && pout !in huf2.Parts()
    requires p <= pout.Length
    modifies r, pout
    ensures r.Valid()
    ensures DecodeBlock(c, r.Stream(), old(r.pos), old(pout[..]), p) == if ok then At(r.pos, pout[..], p') else Error(pout[..])
  {
    hide r.Valid, huf1.Decodes, huf2.Decodes, DecodeBlock, DecodeRep, DecodeSym, CodesOk, Complete;
    CodesSize(c);
    ghost var s := r.Stream();
    var u;
    u, p' := Rdh(r, huf1, pout, p, c);
    while u != 0 && u != OUT_OVER
      invariant r.Valid() && p' <= pout.Length
      invariant Ahead(c, s, DecodeBlock(c, s, old(r.pos), old(pout[..]), p), u, r.pos, pout[..], p')
      decreases pout.Length - p'
    {
      p' := CopyRep(r, huf2, pout, p', u - 1, c);
      u, p' := Rdh(r, huf1, pout, p', c);
    }
    if u == OUT_OVER {
      BlockFull(c, s, r.pos, pout[..], p');
      u := huf1.Rdh1(r, c.ch, 0x100);
      return u == 0x100, p';
    }
    ok := true;
  }

  // with the buffer full only the end token may follow
  lemma BlockFull(c: Codes, s: seq<bool>, pos: nat, buf: seq<byte>, p: nat)
    requires CodesOk(c) && p == |buf|
    ensures var sym := DecodeSym(c.ch, MAX_BITS, s, pos);
            DecodeBlock(c, s, pos, buf, p) == if sym == END_SYM then At(pos + c.ch[sym], buf, p) else Error(buf)
  {
    hide Complete, DecodeSym;
  }

  //////////////////////////////////////////////////////////////////////////////
  // Blocks
  //////////////////////////////////////////////////////////////////////////////

  class Tables {
    const huf1: HufRd
    const huf2: HufRd
    const cb: array<nat>

    constructor ()
      ensures Shape() && fresh(Parts())
    {
      huf1 := new HufRd(0x400);
      huf2 := new HufRd(0x100);
      cb := new nat[CODE_AREA];
    }

    ghost function Parts(): set<object> {
      huf1.Parts() + huf2.Parts() + {cb}
    }

    ghost predicate Shape() {
      && huf1.Shape() && huf2.Shape() && huf1.Parts() !! huf2.Parts()
      && cb !in huf1.Parts() && cb !in huf2.Parts() && cb.Length == CODE_AREA
      && huf1.chln.Length == 0x400 && huf2.chln.Length == 0x100
    }

    ghost predicate Decodes(c: Codes)
      reads Parts()
    {
      huf1.Decodes(c.ch, 0x100) && huf2.Decodes(c.off, 0x100)
    }

    // the helper code of submethod 2
    method ReadHelper(r: Reader, count3: nat) returns (st: TabState, ghost h: seq<nat>)
      requires r.Valid() && Shape() && r !in Parts() && count3 <= 19
      modifies r, Parts()
      ensures r.Valid() && r.pos == old(r.pos) + 3 * count3
      ensures h == HelperLens(r.Stream(), old(r.pos), count3, 19) && st == TabCheck(h)
      ensures st == TabGood ==> huf1.Decodes(h, 19) && Bounded(h, huf1.bn)
    {
      hide r.Valid, HelperLens, TabCheck, ListAt, Pow2;
      var bnMax := ReadHelperLens(r, cb, count3);
      h := HelperLens(r.Stream(), old(r.pos), count3, 19);
      Pow2Values();
      Pow2Mono(bnMax, 10);
      st := huf1.Rdhufi(19, bnMax, cb, 0, h);
    }

    // the two codes proper, once the lengths are in cb
    method BuildTables(bnMax: nat, count1: nat, count2: nat, ghost acc: seq<nat>) returns (st: TabState)
      requires Shape() && 0x101 <= count1 <= 0x11E && count2 <= 0x1E
      requires count1 + count2 <= |acc| <= CODE_AREA && cb[..|acc|] == acc && Bounded(acc, 15)
      modifies Parts()
      ensures var off, ch := acc[count1..count1 + count2], acc[..count1];
              && st == (if TabCheck(off) != TabGood then TabCheck(off) else TabCheck(ch))
              && (st == TabGood ==> Decodes(Codes(ch, off)) && CodesOk(Codes(ch, off)))
    {
      hide TabCheck, ListAt, Complete, TablesOk, Pow2;
      Pow2Values();
      Pow2Mono(if bnMax > MAX_SPDA_BITS then MAX_SPDA_BITS else bnMax, 10);
      ghost var off, ch := acc[count1..count1 + count2], acc[..count1];
      cb[count1 + count2] := SENTINEL;
      ListIs(cb[..], count1, off, acc);
      st := huf2.Rdhufi(0x100, 8, cb, count1, off);
      if st != TabGood { return; }
      cb[count1] := SENTINEL;
      ListIs(cb[..], 0, ch, acc);
      st := huf1.Rdhufi(0x100, bnMax, cb, 0, ch);
      if st == TabGood { BothComplete(ch, off); }
    }

    // the three codes
    method ReadCodeTables(r: Reader, count1: nat, count2: nat, count3: nat) returns (st: TabState, ghost c: Codes)
      requires r.Valid() && Shape() && r !in Parts()
      requires 0x101 <= count1 <= 0x11E && 1 <= count2 <= 0x1E && count3 <= 19
      modifies r, Parts()
      ensures r.Valid()
      ensures match ReadCodes(r.Stream(), old(r.pos), count1, count2, count3)
              case BadHeader => st == TabBad
              case UnmodelledHeader => st == TabUndefined
              case Header(c', pos) => st == TabGood && c == c' && r.pos == pos && Decodes(c)
    {
      hide r.Valid, Val, TabCheck, HelperLens, ReadLens, Complete, Bounded, Decodes, HufRd.Decodes, HufRd.Shape, Pow2, BytesBits, RoundUp2, ReadItem;
      ghost var s, pos := r.Stream(), r.pos;
      ghost var h;
      st, h := ReadHelper(r, count3);
      c := Codes([], []);
      if st != TabGood { return; }
      var bnMax := ReadLengths(r, huf1, cb, count1 + count2, h);
      EmptyBounded();
      ghost var acc := ReadLens(h, s, pos + 3 * count3, count1 + count2, RleState([], 0)).0;
      st := BuildTables(bnMax, count1, count2, acc);
      c := Codes(acc[..count1], acc[count1..count1 + count2]);
    }

    // The header of a block of submethod 2.
    method ReadTables(r: Reader) returns (st: TabState, ghost c: Codes)
      requires r.Valid() && Shape() && r !in Parts()
      modifies r, Parts()
      ensures r.Valid()
      ensures match ReadHeader(r.Stream(), old(r.pos))
              case BadHeader => st == TabBad
              case UnmodelledHeader => st == TabUndefined
              case Header(c', pos) => st == TabGood && c == c' && r.pos == pos && Decodes(c)
    {
      hide r.Valid, Val, ReadCodes, Decodes, HufRd.Shape, Pow2, BytesBits, CodesOk;
      Pow2Values();
      var count1 := r.RdN(5);
      count1 := count1 + 0x101;
      if count1 > 0x11E { return TabBad, Codes([], []); }
      var count2 := r.RdN(5);
      count2 := count2 + 1;
      if count2 > 0x1E { return TabBad, Codes([], []); }
      var count3 := r.RdN(4);
      count3 := count3 + 4;
      st, c := ReadCodeTables(r, count1, count2, count3);
    }
  }

  lemma ListIs(ca: seq<nat>, off: nat, lens: seq<nat>, acc: seq<nat>)
    requires Bounded(acc, 15) && off + |lens| <= |acc| && off + |lens| < |ca| && lens == acc[off..off + |lens|]
    requires ca[..off + |lens|] == acc[..off + |lens|] && ca[off + |lens|] == SENTINEL
    ensures ListAt(ca, off, lens)
  {
    assert ca[off..off + |lens|] == ca[..off + |lens|][off..];
    assert acc[off..off + |lens|] == acc[..off + |lens|][off..];
  }

  lemma BothComplete(ch: seq<nat>, off: seq<nat>)
    requires TabCheck(ch) == TabGood && TabCheck(off) == TabGood && 0x101 <= |ch| <= 0x11E && |off| <= 0x1E
    ensures CodesOk(Codes(ch, off))
  {
    hide Complete;
  }

  // The result of sq_dec, apart from the buffer.
  datatype Result = Length(n: nat) | Fault | Outside

  function With(r: Result, buf: seq<byte>): Outcome {
    match r
    case Length(n) => Done(n, buf)
    case Fault => Failed(buf)
    case Outside => Unmodelled(buf)
  }

  // sq_dec: what is decompressed is `Decode`, whatever the input.
  method SqDec(data: seq<byte>, pout: array<byte>, garbage: nat) returns (res: Result)
    requires garbage < Pow2(32)
    modifies pout
    ensures With(res, pout[..]) == Decode(data, old(pout[..]))
  {
    hide Val, DecodeFrom, Pow2;
    var r := new Reader(data, garbage);
    var u := r.RdN(8);
    if u != 0x53 { return Fault; }
    u := r.RdN(8);
    if u != 0x51 { return Fault; }
    u := r.RdN(16);
    var t := new Tables();
    res := Blocks(r, t, pout);
  }

  method Blocks(r: Reader, t: Tables, pout: array<byte>) returns (res: Result)
    requires r.Valid() && t.Shape() && r !in t.Parts() && pout !in t.Parts()
    modifies r, t.Parts(), pout
    ensures With(res, pout[..]) == DecodeFrom(r.Stream(), old(r.pos), old(pout[..]), 0)
  {
    hide r.Valid, Val, DecodeFrom, t.Shape, t.Decodes, HufRd.Decodes, HufRd.Shape, ReadHeader, DecodeBlock, CodesOk, Pow2, BytesBits,
      Complete, RoundUp2;
    Pow2Values();
    ghost var s := r.Stream();
    var p: nat := 0;
    while true
      invariant r.Valid() && t.Shape() && p <= pout.Length
      invariant DecodeFrom(s, r.pos, pout[..], p) == DecodeFrom(s, old(r.pos), old(pout[..]), 0)
      decreases if r.pos < |s| then |s| - r.pos else 0
    {
      ghost var pos, buf := r.pos, pout[..];
      var finalFlag := r.RdN(1);
      var submethod := r.RdN(2);
      FromStep(s, pos, buf, p);
      if submethod == 3 { return Fault; }
      if submethod != 2 { return Outside; }
      var st, c := t.ReadTables(r);
      if st == TabBad { return Fault; }
      if st == TabUndefined { return Outside; }
      DecodesBoth(t, c);
      ghost var at := r.pos;
      DecodeBlockMoves(c, s, at, buf, p);
      var ok, p2 := DecBlock(r, t.huf1, t.huf2, pout, p, c);
      if !ok { return Fault; }
      p := p2;
      if finalFlag != 0 || p >= pout.Length { return Length(p); }
    }
  }

  lemma DecodesBoth(t: Tables, c: Codes)
    requires t.Decodes(c)
    ensures t.huf1.Decodes(c.ch, 0x100) && t.huf2.Decodes(c.off, 0x100)
  {
  }

  // a block of the codes c at pos, and the blocks after it
  function BlockOutcome(c: Codes, s: seq<bool>, pos: nat, final: nat, buf: seq<byte>, p: nat): Outcome
    requires CodesOk(c) && p <= |buf|
  {
    match DecodeBlock(c, s, pos, buf, p)
    case Error(b) => Failed(b)
    case At(pos2, b, p2) => if final == 0 && p2 < |b| then DecodeFrom(s, pos2, b, p2) else Done(p2, b)
  }

  // one block of the decoder
  lemma FromStep(s: seq<bool>, pos: nat, buf: seq<byte>, p: nat)
    requires p <= |buf|
    ensures var f, m, hd, r := Val(s, pos, 1), Val(s, pos + 1, 2), ReadHeader(s, pos + 3), DecodeFrom(s, pos, buf, p);
            && (m == 3 ==> r == Failed(buf))
            && (m != 3 && m != 2 ==> r == Unmodelled(buf))
            && (m == 2 ==> pos < |s|)
            && (m == 2 && hd.BadHeader? ==> r == Failed(buf))
            && (m == 2 && hd.UnmodelledHeader? ==> r == Unmodelled(buf))
            && (m == 2 && hd.Header? ==> CodesOk(hd.codes) && hd.pos >= pos + 3)
            && (m == 2 && hd.Header? ==> r == BlockOutcome(hd.codes, s, hd.pos, f, buf, p))
  {
    hide Val, ReadHeader, DecodeBlock, Complete;
    if pos >= |s| { ValPastEnd(s, pos + 1, 2); }
  }
}
