/**
 The first pass of the Stacker 4 compressor, `sd4_complz`: repetitions are looked for along hash
 chains, and an intermediate code of runs and repetitions is left in the output buffer.
 */
module Sd4Lz {
  import opened Bits
  import opened Lz
  import opened LzTokens
  import opened SqLz
  import opened SqComplz
  import opened Sd4Format

  const TK_END4 := 0x4F

  //////////////////////////////////////////////////////////////////////////////
  // The classes of offsets
  //////////////////////////////////////////////////////////////////////////////

  lemma RepsLow(g: nat)
    requires g < 7
    ensures RepsM(g) + Pow2(RepsB(g)) == RepsM(g + 1)
  {
    Pow2Values();
    hide Pow2;
    if g == 0 { assert REPS_M[0] == 1 && REPS_M[1] == 2 && REPS_B[0] == 0; PowZero(); }
    if g == 1 { assert REPS_M[1] == 2 && REPS_M[2] == 3 && REPS_B[1] == 0; PowZero(); }
    if g == 2 { assert REPS_M[2] == 3 && REPS_M[3] == 4 && REPS_B[2] == 0; PowZero(); }
    if g == 3 { assert REPS_M[3] == 4 && REPS_M[4] == 6 && REPS_B[3] == 1; }
    if g == 4 { assert REPS_M[4] == 6 && REPS_M[5] == 8 && REPS_B[4] == 1; }
    if g == 5 { assert REPS_M[5] == 8 && REPS_M[6] == 12 && REPS_B[5] == 2; }
    if g == 6 { assert REPS_M[6] == 12 && REPS_M[7] == 16 && REPS_B[6] == 2; }
  }

  lemma PowZero()
    ensures Pow2(0) == 1
  {
  }

  lemma RepsMid(g: nat)
    requires 7 <= g < 14
    ensures RepsM(g) + Pow2(RepsB(g)) == RepsM(g + 1)
  {
    Pow2Values();
    hide Pow2;
    if g == 7 { assert REPS_M[7] == 16 && REPS_M[8] == 24 && REPS_B[7] == 3; }
    if g == 8 { assert REPS_M[8] == 24 && REPS_M[9] == 32 && REPS_B[8] == 3; }
    if g == 9 { assert REPS_M[9] == 32 && REPS_M[10] == 48 && REPS_B[9] == 4; }
    if g == 10 { assert REPS_M[10] == 48 && REPS_M[11] == 64 && REPS_B[10] == 4; }
    if g == 11 { assert REPS_M[11] == 64 && REPS_M[12] == 96 && REPS_B[11] == 5; }
    if g == 12 { assert REPS_M[12] == 96 && REPS_M[13] == 128 && REPS_B[12] == 5; }
    if g == 13 { assert REPS_M[13] == 128 && REPS_M[14] == 192 && REPS_B[13] == 6; }
  }

  lemma RepsHigh(g: nat)
    requires 14 <= g < 20
    ensures RepsM(g) + Pow2(RepsB(g)) == RepsM(g + 1)
  {
    Pow2Values();
    hide Pow2;
    if g == 14 { assert REPS_M[14] == 192 && REPS_M[15] == 256 && REPS_B[14] == 6; }
    if g == 15 { assert REPS_M[15] == 256 && REPS_M[16] == 384 && REPS_B[15] == 7; }
    if g == 16 { assert REPS_M[16] == 384 && REPS_M[17] == 512 && REPS_B[16] == 7; }
    if g == 17 { assert REPS_M[17] == 512 && REPS_M[18] == 768 && REPS_B[17] == 8; }
    if g == 18 { assert REPS_M[18] == 768 && REPS_M[19] == 1024 && REPS_B[18] == 8; }
    if g == 19 { assert REPS_M[19] == 1024 && REPS_M[20] == 1536 && REPS_B[19] == 9; }
  }

  // each class begins where the one before ends
  lemma {:induction false} RepsAscend(g: nat, h: nat)
    requires g < h < 21
    ensures RepsM(g) + Pow2(RepsB(g)) <= RepsM(h)
    decreases h
  {
    hide Pow2, RepsM, RepsB;
    if g < h - 1 { RepsAscend(g, h - 1); }
    if h <= 7 { RepsLow(h - 1); } else if h <= 14 { RepsMid(h - 1); } else { RepsHigh(h - 1); }
  }

  lemma GroupUnique(offs: nat, g: nat)
    requires 1 <= offs < 0x800 && g < 21 && RepsM(g) <= offs < RepsM(g) + Pow2(RepsB(g))
    ensures g == GroupOf(offs)
  {
    hide Pow2, RepsM, RepsB, GroupOf;
    var r := GroupOf(offs);
    if r < g { RepsAscend(r, g); }
    if g < r { RepsAscend(g, r); }
  }

  // the two classes of every power of two
  lemma TwoClasses(k: nat)
    requires k <= 8
    ensures RepsM(3 + 2 * k) == 4 * Pow2(k) && RepsM(4 + 2 * k) == 6 * Pow2(k)
    ensures RepsB(3 + 2 * k) == k + 1 == RepsB(4 + 2 * k) && Pow2(k + 1) == 2 * Pow2(k)
  {
    Pow2Values();
    if k < 3 { LowClasses(k); } else if k < 6 { MidClasses(k); } else { HighClasses(k); }
  }

  lemma LowClasses(k: nat)
    requires k < 3
    ensures RepsM(3 + 2 * k) == 4 * Pow2(k) && RepsM(4 + 2 * k) == 6 * Pow2(k)
    ensures RepsB(3 + 2 * k) == k + 1 == RepsB(4 + 2 * k)
  {
    Pow2Values();
    PowZero();
    hide Pow2;
    if k == 0 { assert REPS_M[3] == 4 && REPS_M[4] == 6 && REPS_B[3] == 1 == REPS_B[4]; }
    if k == 1 { assert REPS_M[5] == 8 && REPS_M[6] == 12 && REPS_B[5] == 2 == REPS_B[6]; }
    if k == 2 { assert REPS_M[7] == 16 && REPS_M[8] == 24 && REPS_B[7] == 3 == REPS_B[8]; }
  }

  lemma MidClasses(k: nat)
    requires 3 <= k < 6
    ensures RepsM(3 + 2 * k) == 4 * Pow2(k) && RepsM(4 + 2 * k) == 6 * Pow2(k)
    ensures RepsB(3 + 2 * k) == k + 1 == RepsB(4 + 2 * k)
  {
    Pow2Values();
    hide Pow2;
    if k == 3 { assert REPS_M[9] == 32 && REPS_M[10] == 48 && REPS_B[9] == 4 == REPS_B[10]; }
    if k == 4 { assert REPS_M[11] == 64 && REPS_M[12] == 96 && REPS_B[11] == 5 == REPS_B[12]; }
    if k == 5 { assert REPS_M[13] == 128 && REPS_M[14] == 192 && REPS_B[13] == 6 == REPS_B[14]; }
  }

  lemma HighClasses(k: nat)
    requires 6 <= k <= 8
    ensures RepsM(3 + 2 * k) == 4 * Pow2(k) && RepsM(4 + 2 * k) == 6 * Pow2(k)
    ensures RepsB(3 + 2 * k) == k + 1 == RepsB(4 + 2 * k)
  {
    Pow2Values();
    hide Pow2;
    if k == 6 { assert REPS_M[15] == 256 && REPS_M[16] == 384 && REPS_B[15] == 7 == REPS_B[16]; }
    if k == 7 { assert REPS_M[17] == 512 && REPS_M[18] == 768 && REPS_B[17] == 8 == REPS_B[18]; }
    if k == 8 { assert REPS_M[19] == 1024 && REPS_M[20] == 1536 && REPS_B[19] == 9 == REPS_B[20]; }
  }

  // the class of an offset, found by doubling, and the offset inside it
  method ShortToken(offs: nat, len: nat) returns (token: nat, cn: nat)
    requires 1 <= offs < 0x800 && 3 <= len < 6
    ensures token == 3 * GroupOf(offs) + len - 3 && cn == offs - RepsM(GroupOf(offs))
  {
    hide Pow2, RepsM, RepsB, GroupOf;
    cn := offs - 1;
    token := len - 3;
    if cn < 3 {
      FirstClasses(offs);
      token := token + cn + cn * 2;
      cn := 0;
    } else {
      token := len - 3 + 9;
      cn := cn - 3;
      var half := 4;
      ghost var k: nat := 0;
      PowZero();
      while cn >= half
        invariant offs == cn + half && token == len - 3 + 9 + 6 * k && half == 4 * Pow2(k) && k <= 8
        decreases cn
      {
        token := token + 6;
        cn := cn - half;
        half := half * 2;
        TwoClasses(k);
        PowerSmall(k);
        k := k + 1;
      }
      TwoClasses(k);
      half := half / 2;
      if cn >= half {
        token := token + 3;
        cn := cn - half;
        GroupUnique(offs, 4 + 2 * k);
      } else {
        GroupUnique(offs, 3 + 2 * k);
      }
    }
  }

  lemma PowerSmall(k: nat)
    requires k <= 8
    ensures k == 8 ==> Pow2(k) == 256
  {
    Pow2Values();
  }

  lemma FirstClasses(offs: nat)
    requires 1 <= offs <= 3
    ensures GroupOf(offs) == offs - 1 && RepsM(offs - 1) == offs
  {
    hide GroupOf;
    PowZero();
    assert REPS_M[0] == 1 && REPS_M[1] == 2 && REPS_M[2] == 3 && REPS_B[0] == 0 && REPS_B[1] == 0 && REPS_B[2] == 0;
    GroupUnique(offs, offs - 1);
  }

  //////////////////////////////////////////////////////////////////////////////
  // The intermediate code
  //////////////////////////////////////////////////////////////////////////////

  predicate InterOk4(it: Inter) {
    match it
    case Run(n) => n <= RUN_MAX
    case Copy(offs, len) => Fits4(Rep(offs, len))
  }

  // the offset as it is kept, and for long repetitions the count
  function CopyTail(offs: nat, len: nat): (b: seq<byte>)
    requires Fits4(Rep(offs, len))
    ensures |b| <= 4
  {
    if len < 6 then if GroupOf(offs) < 3 then [] else Word(offs - RepsM(GroupOf(offs)))
    else Word(offs - 1) + if len < 21 then [] else Word(len)
  }

  function ItemBytes4(it: Inter): (b: seq<byte>)
    ensures InterOk4(it) ==> 1 <= |b| <= 5
  {
    if !InterOk4(it) then []
    else
      match it
      case Run(n) => RunBytes(n)
      case Copy(offs, len) => [TokenOf(offs, len)] + CopyTail(offs, len)
  }

  function InterBytes4(items: seq<Inter>): seq<byte> {
    if items == [] then [] else InterBytes4(items[..|items| - 1]) + ItemBytes4(items[|items| - 1])
  }

  ghost predicate AllInter4(items: seq<Inter>) {
    forall i :: 0 <= i < |items| ==> InterOk4(items[i])
  }

  lemma AddItem4(items: seq<Inter>, it: Inter, data: seq<byte>)
    ensures InterToks(items + [it], data) == InterToks(items, data) + ItemToks(it, data, Covered(items))
    ensures InterBytes4(items + [it]) == InterBytes4(items) + ItemBytes4(it)
    ensures Covered(items + [it]) == Covered(items) + Span(it)
  {
    hide ItemToks, ItemBytes4, Span;
    assert (items + [it])[..|items|] == items;
  }

  // every symbol has been counted
  predicate Counted4(t: LzTok, ch: seq<nat>)
    requires |ch| == 0x151
  {
    Fits4(t) && ch[SymOf(t)] > 0
  }

  ghost predicate AllCounted4(toks: seq<LzTok>, ch: seq<nat>) {
    |ch| == 0x151 && forall i :: 0 <= i < |toks| ==> Counted4(toks[i], ch)
  }

  lemma CountMore4(toks: seq<LzTok>, t: LzTok, ch: seq<nat>, ch': seq<nat>)
    requires AllCounted4(toks, ch) && NoLess(ch, ch') && |ch'| == 0x151 && Counted4(t, ch')
    ensures AllCounted4(toks + [t], ch')
  {
    hide SymOf;
    forall i | 0 <= i < |toks| + 1 ensures Counted4((toks + [t])[i], ch') {
      if i < |toks| { assert Counted4(toks[i], ch); }
    }
  }

  // the first pi bytes of data are done, the last cn of them not yet put into a run
  ghost predicate Stands4(items: seq<Inter>, toks: seq<LzTok>, data: seq<byte>, pi: nat, cn: nat, bytes: seq<byte>, ch: seq<nat>) {
    && AllInter4(items) && InterBytes4(items) == bytes && cn <= pi <= |data| && Covered(items) + cn == pi
    && toks == InterToks(items, data) + Lits(data[pi - cn..pi])
    && Produce(toks) == Some(data[..pi]) && AllCounted4(toks, ch)
  }

  // The code so far stands for a front part of the data and takes more than room bytes.
  ghost predicate TooLong4(items: seq<Inter>, data: seq<byte>, room: int) {
    && AllInter4(items) && Covered(items) <= |data| && Produce(InterToks(items, data)) == Some(data[..Covered(items)])
    && |InterBytes4(items)| > room
  }

  lemma RunsFull4(items: seq<Inter>, toks: seq<LzTok>, data: seq<byte>, pi: nat, bytes: seq<byte>, ch: seq<nat>)
    requires Stands4(items, toks, data, pi, 0, bytes, ch)
    ensures forall room: int :: |bytes| > room ==> TooLong4(items, data, room)
  {
    hide InterBytes4, Covered, InterToks, Produce, AllCounted4;
    assert data[pi..pi] == [] && Lits([]) == [] && InterToks(items, data) + [] == InterToks(items, data);
  }

  lemma Stands4Lit(items: seq<Inter>, toks: seq<LzTok>, data: seq<byte>, pi: nat, cn: nat, bytes: seq<byte>, ch: seq<nat>, ch': seq<nat>)
    requires Stands4(items, toks, data, pi, cn, bytes, ch) && pi < |data| && |ch| == 0x151
    requires ch' == ch[data[pi] := ch[data[pi]] + 1]
    ensures Stands4(items, toks + [Lit(data[pi])], data, pi + 1, cn + 1, bytes, ch')
  {
    hide AllInter4, InterBytes4, Covered, InterToks, Produce, AllCounted4;
    ProduceLit(toks, data, pi);
    CountMore4(toks, Lit(data[pi]), ch, ch');
    LitsGrow(data, pi - cn, pi);
    assert toks + [Lit(data[pi])] == InterToks(items, data) + (Lits(data[pi - cn..pi]) + [Lit(data[pi])]);
  }

  lemma Stands4Run(items: seq<Inter>, toks: seq<LzTok>, data: seq<byte>, pi: nat, cn: nat, bytes: seq<byte>, ch: seq<nat>, v: nat)
    requires Stands4(items, toks, data, pi, cn, bytes, ch) && v <= cn && v <= RUN_MAX
    ensures Stands4(items + [Run(v)], toks, data, pi, cn - v, bytes + RunBytes(v), ch)
  {
    hide InterBytes4, Covered, InterToks, Produce, AllCounted4, RunBytes, AllInter4, ItemToks, ItemBytes4, Span, Lits;
    AddItem4(items, Run(v), data);
    RunTokens(v, data, pi - cn);
    RunItem4(items, v);
    var m := pi - cn + v;
    LitsSplit(data, pi - cn, m, pi);
    InOrder(InterToks(items, data), Lits(data[pi - cn..m]), Lits(data[m..pi]));
  }

  lemma RunItem4(items: seq<Inter>, v: nat)
    requires AllInter4(items) && v <= RUN_MAX
    ensures AllInter4(items + [Run(v)]) && ItemBytes4(Run(v)) == RunBytes(v)
  {
    hide RunBytes;
  }

  lemma Stands4Copy(items: seq<Inter>, toks: seq<LzTok>, data: seq<byte>, pi: nat, src: nat, len: nat, bytes: seq<byte>, ch: seq<nat>, ch': seq<nat>)
    requires Stands4(items, toks, data, pi, 0, bytes, ch)
    requires Match(data, src, pi, len) && Fits4(Rep(pi - src, len))
    requires Bumped(ch, ch', 0x151, 0x100 + TokenOf(pi - src, len))
    ensures Stands4(items + [Copy(pi - src, len)], toks + [Rep(pi - src, len)], data, pi + len, 0,
                    bytes + ItemBytes4(Copy(pi - src, len)), ch')
  {
    hide InterBytes4, Covered, InterToks, Produce, AllCounted4, ItemBytes4, TokenOf, Match, Bumped, NoLess, Pow2, RepsM, RepsB;
    AddItem4(items, Copy(pi - src, len), data);
    MatchInside(data, src, pi, len);
    ProduceRep(toks, data, src, pi, len);
    BumpedMore(ch, ch', 0x151, 0x100 + TokenOf(pi - src, len));
    CountMore4(toks, Rep(pi - src, len), ch, ch');
    assert data[pi..pi] == [] && data[pi + len..pi + len] == [] && Lits([]) == [];
  }

  //////////////////////////////////////////////////////////////////////////////
  // The search
  //////////////////////////////////////////////////////////////////////////////

  // a repetition that can be encoded
  ghost predicate Usable4(data: seq<byte>, src: nat, pi: nat, len: nat) {
    src < pi && Match(data, src, pi, len) && pi - src < 0xAA0 && len >= 3 && (len >= 6 || pi - src < 0x800)
  }

  class Encoder4 {
    const data: seq<byte>
    const out: array<byte>
    const lout: nat
    const chCn: array<nat>
    const hashTab: array<nat>
    const hashHist: array<nat>
    // where the data stand in memory, as the history is indexed by addresses
    const base: nat
    const tryCount: nat
    const hashSkiped: nat
    var pi: nat
    var po: nat
    var cn: nat
    ghost var items: seq<Inter>
    ghost var toks: seq<LzTok>

    ghost predicate Shape() {
      && 0x20 <= lout <= out.Length && 0 < |data| < 0x1_0000 && tryCount > 0
      && chCn.Length == 0x151 && hashTab.Length == 0x400 && hashHist.Length == 0x800
      && hashTab != hashHist && chCn !in {hashTab, hashHist}
    }

    ghost predicate Valid()
      reads this, out, chCn
    {
      Shape() && po <= lout && pi <= |data| && Stands4(items, toks, data, pi, cn, out[..po], chCn[..])
    }

    constructor (pin: seq<byte>, pout: array<byte>, l: nat, flg: nat, ch: array<nat>, addr: nat)
      requires 0x20 <= l <= pout.Length && 0 < |pin| < 0x1_0000 && ch.Length == 0x151
      ensures Valid() && pi == 0 && po == 0 && cn == 0
      ensures data == pin && out == pout && lout == l && chCn == ch && fresh(hashTab) && fresh(hashHist)
    {
      data, out, lout, chCn, base := pin, pout, l, ch, addr;
      tryCount := Shl(2, Low(Shr(flg, 2), 3));
      hashSkiped := Low(Shr(flg, 5) + 1, 4);
      hashTab := new nat[0x400](_ => |pin| - 1);
      hashHist := new nat[0x800](_ => |pin| - 1);
      pi, po, cn := 0, 0, 0;
      items, toks := [], [];
      new;
      ShlMono(0, 2, Low(Shr(flg, 2), 3));
      assert Lits([]) == [];
    }

    // sd4_newhash; the hash function is the one of the SQ compressor
    method NewHash(p: nat) returns (cur: nat)
      requires Shape() && p + 2 < |data|
      modifies hashTab, hashHist
      ensures cur == old(hashTab[Hash(data, p)])
    {
      hide Hash;
      var h := Hash(data, p);
      cur := hashTab[h];
      hashTab[h] := p;
      hashHist[(base + p) % 0x800] := cur;
    }

    method Try(p: nat, cur: nat, len0: nat) returns (n: nat)
      requires Shape() && cur < p && p + 2 < |data| && len0 >= 2 && p + len0 < |data|
      ensures n == 0 || (2 <= n && Match(data, cur, p, n))
    {
      if data[cur] == data[p] && data[cur + 1] == data[p + 1]
         && data[cur + len0 - 1] == data[p + len0 - 1] && data[cur + len0] == data[p + len0] {
        n := FirstDiff(data, cur + 2, p + 2, |data| - 2 - p);
        MatchFront(data, cur, p, n);
        n := n + 2;
      } else {
        n := 0;
      }
    }

    // Follows the chain of earlier positions with the hash of p; any contents of the tables are sound.
    method Search(p: nat, first: nat) returns (maxMatch: nat, maxHash: nat)
      requires Shape() && first < p && p + 2 < |data|
      ensures maxMatch >= 3 ==> Usable4(data, maxHash, p, maxMatch)
    {
      hide Match;
      var cur: nat, tryCn: nat := first, tryCount;
      maxMatch, maxHash := 2, 0;
      while true
        invariant cur < p && tryCn > 0 && maxMatch >= 2 && p + maxMatch < |data|
        invariant maxMatch >= 3 ==> Usable4(data, maxHash, p, maxMatch)
        decreases tryCn
      {
        if p - cur >= 0xAA0 { break; }
        var n := Try(p, cur, maxMatch);
        if n > maxMatch && (n >= 6 || p - cur < 0x800) {
          maxHash, maxMatch := cur, n;
          if p + n > |data| - 1 { break; }
        }
        tryCn := tryCn - 1;
        if tryCn == 0 || hashHist[(base + cur) % 0x800] >= cur { break; }
        cur := hashHist[(base + cur) % 0x800];
      }
    }

    //////////////////////////////////////////////////////////////////////////////
    // Putting out
    //////////////////////////////////////////////////////////////////////////////

    method Literal()
      requires Valid() && pi < |data|
      modifies this`pi, this`cn, this`toks, chCn
      ensures Valid() && pi == old(pi) + 1 && cn == old(cn) + 1
    {
      hide Stands4;
      Stands4Lit(items, toks, data, pi, cn, out[..po], chCn[..], chCn[..][data[pi] := chCn[data[pi]] + 1]);
      toks := toks + [Lit(data[pi])];
      chCn[data[pi]] := chCn[data[pi]] + 1;
      pi := pi + 1;
      cn := cn + 1;
    }

    method Put(b: byte)
      requires po < lout <= out.Length
      modifies this`po, out
      ensures po == old(po) + 1 && out[..po] == old(out[..po]) + [b]
    {
      out[po] := b;
      po := po + 1;
    }

    method PutWord(v: nat)
      requires po + 2 <= lout <= out.Length && v < 0x1_0000
      modifies this`po, out
      ensures po == old(po) + 2 && out[..po] == old(out[..po]) + Word(v)
    {
      Put(v % 256);
      Put(v / 256);
    }

    // TKWR_CHRS
    method PutRun(v: nat)
      requires Valid() && v <= cn && v <= RUN_MAX && po + 3 <= lout
      modifies this`po, this`cn, this`items, out
      ensures Valid() && cn == old(cn) - v && po <= old(po) + 3
    {
      hide Stands4;
      Stands4Run(items, toks, data, pi, cn, out[..po], chCn[..], v);
      ghost var was := out[..po];
      if v < 15 {
        Put(TK_CHRS + v);
      } else {
        Put(TK_CHRS + 15);
        PutWord(v);
      }
      assert out[..po] == was + RunBytes(v);
      items := items + [Run(v)];
      cn := cn - v;
    }

    // The code written is too long for the buffer; nothing is pending.
    ghost predicate Full()
      reads this
    {
      cn == 0 && po > lout - 0x20
    }

    // one more pending character; false when the output runs full
    method Single() returns (ok: bool)
      requires Valid() && pi < |data| && cn < RUN_MAX && po <= lout - 0x20
      modifies this`pi, this`po, this`cn, this`items, this`toks, out, chCn
      ensures Valid() && pi == old(pi) + 1 && cn < RUN_MAX && (if ok then po <= lout - 0x20 else Full())
    {
      hide Stands4;
      Literal();
      ok := true;
      if cn >= RUN_MAX {
        PutRun(RUN_MAX);
        ok := po <= lout - 0x20;
      }
    }

    method PutShort(len: nat, offs: nat) returns (token: nat)
      requires Shape() && Fits4(Rep(offs, len)) && len < 6 && po + 5 <= lout
      modifies this`po, out
      ensures token == TokenOf(offs, len)
      ensures po <= old(po) + 5 && po <= lout && out[..po] == old(out[..po]) + [token as byte] + CopyTail(offs, len)
    {
      hide GroupOf, RepsM, RepsB, Pow2, Word;
      var r;
      token, r := ShortToken(offs, len);
      Put(token);
      if GroupOf(offs) >= 3 { PutWord(r); }
    }

    method PutLong(len: nat, offs: nat) returns (token: nat)
      requires Shape() && Fits4(Rep(offs, len)) && len >= 6 && po + 5 <= lout
      modifies this`po, out
      ensures token == TokenOf(offs, len)
      ensures po <= old(po) + 5 && po <= lout && out[..po] == old(out[..po]) + [token as byte] + CopyTail(offs, len)
    {
      hide GroupOf, RepsM, RepsB, Pow2, Word;
      ghost var was := out[..po];
      token := if len < 21 then len - 6 + 0x3F else 0x4E;
      Put(token);
      PutWord(offs - 1);
      if len >= 21 {
        PutWord(len);
        assert was + [token as byte] + Word(offs - 1) + Word(len) == was + [token as byte] + (Word(offs - 1) + Word(len));
      } else {
        assert Word(offs - 1) + [] == Word(offs - 1);
      }
    }

    // the bytes of a repetition
    method PutCopy(len: nat, offs: nat)
      requires Shape() && Fits4(Rep(offs, len)) && po + 5 <= lout
      modifies this`po, out, chCn
      ensures po <= old(po) + 5 && po <= lout && out[..po] == old(out[..po]) + ItemBytes4(Copy(offs, len))
      ensures Bumped(old(chCn[..]), chCn[..], 0x151, 0x100 + TokenOf(offs, len))
    {
      hide TokenOf, CopyTail, GroupOf, RepsM, RepsB, Pow2, Word;
      ghost var was := out[..po];
      var token;
      if len < 6 { token := PutShort(len, offs); } else { token := PutLong(len, offs); }
      assert out[..po] == was + ([TokenOf(offs, len)] + CopyTail(offs, len));
      chCn[token + 0x100] := chCn[token + 0x100] + 1;
    }

    method Copying(maxHash: nat, maxMatch: nat)
      requires Valid() && cn == 0 && Usable4(data, maxHash, pi, maxMatch) && po + 5 <= lout
      modifies this`pi, this`po, this`items, this`toks, out, chCn
      ensures Valid() && pi == old(pi) + maxMatch && po <= old(po) + 5
    {
      hide Stands4, Match, ItemBytes4, TokenOf, RepsM, RepsB, Pow2, Bumped;
      MatchInside(data, maxHash, pi, maxMatch);
      ghost var bytes, ch := out[..po], chCn[..];
      var offs := pi - maxHash;
      PutCopy(maxMatch, offs);
      Stands4Copy(items, toks, data, pi, maxHash, maxMatch, bytes, ch, chCn[..]);
      items, toks := items + [Copy(offs, maxMatch)], toks + [Rep(offs, maxMatch)];
      pi := pi + maxMatch;
    }

    // the last bytes of a repetition are hashed too
    method HashSkipped(maxMatch: nat)
      requires Shape() && 1 <= maxMatch <= pi <= |data|
      modifies hashTab, hashHist
    {
      if hashSkiped > 0 && pi + 2 < |data| {
        var left: nat := maxMatch - 1;
        if left > hashSkiped { left := hashSkiped; }
        while left > 0
          invariant left <= pi
        {
          var _ := NewHash(pi - left);
          left := left - 1;
        }
      }
    }

    // one turn of the main loop; false when the output runs full
    method Step() returns (ok: bool)
      requires Valid() && pi + 2 < |data| && cn < RUN_MAX && po <= lout - 0x20
      modifies this`pi, this`po, this`cn, this`items, this`toks, out, chCn, hashTab, hashHist
      ensures Valid() && (if ok then pi > old(pi) && cn < RUN_MAX && po <= lout - 0x20 else Full())
    {
      hide Stands4, Match;
      var cur := NewHash(pi);
      var maxMatch, maxHash := 0, 0;
      if cur < pi { maxMatch, maxHash := Search(pi, cur); }
      if maxMatch < 3 {
        ok := Single();
        return;
      }
      MatchInside(data, maxHash, pi, maxMatch);
      if cn > 0 { PutRun(cn); }
      Copying(maxHash, maxMatch);
      HashSkipped(maxMatch);
      ok := po <= lout - 0x20;
    }

    // the last bytes, pending characters and the end mark
    method Finish()
      requires Valid() && pi + 2 >= |data| && cn < RUN_MAX && po <= lout - 0x20
      modifies this`pi, this`po, this`cn, this`items, this`toks, out, chCn
      ensures Shape() && 0 < po <= lout && Lz4Done(items, data, out[..po], chCn[..])
    {
      hide Stands4, Lz4Done, RunBytes;
      while pi != |data|
        invariant Valid() && pi <= |data| && cn + (|data| - pi) < RUN_MAX + 2 && po <= lout - 0x20
        decreases |data| - pi
      {
        Literal();
      }
      if cn > 0 {
        if cn >= RUN_MAX { PutRun(RUN_MAX); }
        PutRun(cn);
      }
      Stands4All(items, toks, data, out[..po], chCn[..], chCn[..][END4 := chCn[END4] + 1]);
      chCn[TK_END4 + 0x100] := chCn[TK_END4 + 0x100] + 1;
      Put(TK_END4);
    }
  }

  // The intermediate code is complete.
  ghost predicate Lz4Done(items: seq<Inter>, data: seq<byte>, bytes: seq<byte>, ch: seq<nat>) {
    && AllInter4(items) && bytes == InterBytes4(items) + [TK_END4] && Covered(items) == |data|
    && Produce(InterToks(items, data)) == Some(data) && AllCounted4(InterToks(items, data), ch)
    && |ch| == 0x151 && ch[END4] > 0
  }

  lemma Stands4All(items: seq<Inter>, toks: seq<LzTok>, data: seq<byte>, bytes: seq<byte>, ch: seq<nat>, ch': seq<nat>)
    requires Stands4(items, toks, data, |data|, 0, bytes, ch)
    requires |ch| == 0x151 && ch' == ch[END4 := ch[END4] + 1]
    ensures Lz4Done(items, data, bytes + [TK_END4], ch')
  {
    hide AllInter4, InterBytes4, Covered, InterToks, Produce, Counted4;
    var n := |data|;
    assert data[n..n] == [] && Lits([]) == [] && data[..n] == data;
    assert toks == InterToks(items, data);
    forall i | 0 <= i < |toks| ensures Counted4(toks[i], ch') { CountUp4(toks[i], ch, ch'); }
  }

  lemma CountUp4(t: LzTok, ch: seq<nat>, ch': seq<nat>)
    requires |ch| == 0x151 && NoLess(ch, ch') && Counted4(t, ch)
    ensures Counted4(t, ch')
  {
    hide SymOf;
  }

  // sd4_complz: the length of the intermediate code left in pout, or 0
  method Complz4(pin: seq<byte>, pout: array<byte>, lout: nat, flg: nat, chCn: array<nat>, addr: nat)
    returns (n: nat, ghost items: seq<Inter>)
    requires |pin| < 0x1_0000 && lout <= pout.Length && chCn.Length == 0x151
    modifies pout, chCn
    ensures n <= lout
    ensures if n > 0 then 0x20 <= lout && |pin| > 0 && Lz4Done(items, pin, pout[..n], chCn[..])
            else |pin| == 0 || lout < 0x20 || TooLong4(items, pin, lout - 0x20)
  {
    hide Stands4, Lz4Done, TooLong4;
    items := [];
    if |pin| == 0 { return 0, items; }
    if lout < 0x20 { return 0, items; }
    var e := new Encoder4(pin, pout, lout, flg, chCn, addr);
    while e.pi + 2 < |pin|
      invariant e.Valid() && e.cn < RUN_MAX && e.po <= lout - 0x20
      decreases |pin| - e.pi
    {
      var ok := e.Step();
      if !ok {
        RunsFull4(e.items, e.toks, pin, e.pi, pout[..e.po], chCn[..]);
        return 0, e.items;
      }
    }
    e.Finish();
    n, items := e.po, e.items;
  }
}
