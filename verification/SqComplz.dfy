/**
 `sq_complz`: the search for repetitions. Whatever the hash tables hold, the tokens found
 produce the data; the tables only decide how good the compression is.
 */
module SqComplz {
  import opened Bits
  import opened Lz
  import opened LzTokens
  import opened SqFormat
  import opened SqLz

  //////////////////////////////////////////////////////////////////////////////
  // What the intermediate code written so far stands for
  //////////////////////////////////////////////////////////////////////////////

  ghost predicate AllInter(items: seq<Inter>) {
    forall i :: 0 <= i < |items| ==> InterOk(items[i])
  }

  // Only a run that ends the code may be empty.
  ghost predicate Solid(items: seq<Inter>, end: bool) {
    forall i :: 0 <= i < |items| && items[i] == Run(0) ==> end && i == |items| - 1
  }

  // the first pi bytes of data are done, the last cn of them not yet put into a run
  ghost predicate Stands(items: seq<Inter>, toks: seq<LzTok>, data: seq<byte>, pi: nat, cn: nat,
                         bytes: seq<byte>, ch: seq<nat>, off: seq<nat>) {
    && AllInter(items) && InterBytes(items) == bytes && cn <= pi <= |data| && Covered(items) + cn == pi
    && toks == InterToks(items, data) + Lits(data[pi - cn..pi])
    && Produce(toks) == Some(data[..pi]) && AllCounted(toks, ch, off)
    && Solid(items, pi == |data| && cn == 0)
  }

  // The code so far stands for a front part of the data and takes more than room bytes.
  ghost predicate TooLong(items: seq<Inter>, data: seq<byte>, room: int) {
    && AllInter(items) && Covered(items) <= |data| && Produce(InterToks(items, data)) == Some(data[..Covered(items)])
    && |InterBytes(items)| > room
  }

  lemma RunsFull(items: seq<Inter>, toks: seq<LzTok>, data: seq<byte>, pi: nat, bytes: seq<byte>, ch: seq<nat>, off: seq<nat>)
    requires Stands(items, toks, data, pi, 0, bytes, ch, off)
    ensures forall room: int :: |bytes| > room ==> TooLong(items, data, room)
  {
    hide InterBytes, Covered, InterToks, Produce, AllCounted;
    assert data[pi..pi] == [] && Lits([]) == [] && InterToks(items, data) + [] == InterToks(items, data);
  }

  lemma StandsLit(items: seq<Inter>, toks: seq<LzTok>, data: seq<byte>, pi: nat, cn: nat,
                  bytes: seq<byte>, ch: seq<nat>, off: seq<nat>, ch': seq<nat>)
    requires Stands(items, toks, data, pi, cn, bytes, ch, off) && pi < |data| && data[pi] < |ch|
    requires ch' == ch[data[pi] := ch[data[pi]] + 1]
    ensures Stands(items, toks + [Lit(data[pi])], data, pi + 1, cn + 1, bytes, ch', off)
  {
    hide AllInter, InterBytes, Covered, InterToks, Produce, AllCounted;
    CountedSizes(toks, ch, off);
    ProduceLit(toks, data, pi);
    CountMore(toks, Lit(data[pi]), ch, off, ch', off);
    LitsGrow(data, pi - cn, pi);
    assert toks + [Lit(data[pi])] == InterToks(items, data) + (Lits(data[pi - cn..pi]) + [Lit(data[pi])]);
  }

  lemma CountedSizes(toks: seq<LzTok>, ch: seq<nat>, off: seq<nat>)
    requires AllCounted(toks, ch, off)
    ensures |ch| == 0x120 && |off| == 0x20
  {
  }

  lemma LitsGrow(data: seq<byte>, a: nat, b: nat)
    requires a <= b < |data|
    ensures Lits(data[a..b + 1]) == Lits(data[a..b]) + [Lit(data[b])]
  {
  }

  lemma LitsSplit(data: seq<byte>, a: nat, m: nat, b: nat)
    requires a <= m <= b <= |data|
    ensures Lits(data[a..b]) == Lits(data[a..m]) + Lits(data[m..b])
  {
  }

  lemma SolidRun(items: seq<Inter>, v: nat, end: bool)
    requires AllInter(items) && Solid(items, end) && v <= RUN_MAX && (end ==> Solid(items, false))
    ensures AllInter(items + [Run(v)]) && Solid(items + [Run(v)], true)
    ensures v > 0 ==> forall e :: Solid(items + [Run(v)], e)
  {
  }

  lemma StandsRun(items: seq<Inter>, toks: seq<LzTok>, data: seq<byte>, pi: nat, cn: nat,
                  bytes: seq<byte>, ch: seq<nat>, off: seq<nat>, v: nat)
    requires Stands(items, toks, data, pi, cn, bytes, ch, off) && v <= cn && v <= RUN_MAX
    requires v == 0 ==> pi == |data| && cn == 0 && Solid(items, false)
    ensures Stands(items + [Run(v)], toks, data, pi, cn - v, bytes + RunBytes(v), ch, off)
    ensures v > 0 ==> Solid(items + [Run(v)], false)
  {
    hide InterBytes, Covered, InterToks, Produce, AllCounted, RunBytes, AllInter, Solid, ItemToks, ItemBytes, Span, Lits;
    AddItem(items, Run(v), data);
    RunTokens(v, data, pi - cn);
    SolidRun(items, v, pi == |data| && cn == 0);
    var m := pi - cn + v;
    LitsSplit(data, pi - cn, m, pi);
    InOrder(InterToks(items, data), Lits(data[pi - cn..m]), Lits(data[m..pi]));
  }

  lemma InOrder(a: seq<LzTok>, b: seq<LzTok>, c: seq<LzTok>)
    ensures a + (b + c) == a + b + c
  {
  }

  // a run of pending characters
  lemma RunTokens(v: nat, data: seq<byte>, pos: nat)
    requires pos + v <= |data| && v <= RUN_MAX
    ensures ItemToks(Run(v), data, pos) == Lits(data[pos..pos + v]) && Span(Run(v)) == v && ItemBytes(Run(v)) == RunBytes(v)
  {
    hide RunBytes;
  }

  // one of the n counts has gone up
  ghost predicate Bumped(a: seq<nat>, b: seq<nat>, n: nat, i: nat) {
    |a| == n && i < n && b == a[i := a[i] + 1]
  }

  lemma BumpedMore(a: seq<nat>, b: seq<nat>, n: nat, i: nat)
    requires Bumped(a, b, n, i)
    ensures |a| == n == |b| && NoLess(a, b) && b[i] > 0
  {
  }

  lemma RepCounted(offs: nat, len: nat, ch: seq<nat>, off: seq<nat>)
    requires |ch| == 0x120 && |off| == 0x20 && 1 <= offs <= MAX_OFFS && MIN_REP <= len <= MAX_REP
    requires ch[0x101 + RepCode(len)] > 0 && off[OffCode(offs)] > 0
    ensures TokCounted(Rep(offs, len), ch, off)
  {
    hide RepCode, OffCode;
  }

  lemma StandsCopy(items: seq<Inter>, toks: seq<LzTok>, data: seq<byte>, pi: nat, src: nat, len: nat,
                   bytes: seq<byte>, ch: seq<nat>, off: seq<nat>, ch': seq<nat>, off': seq<nat>)
    requires Stands(items, toks, data, pi, 0, bytes, ch, off)
    requires Match(data, src, pi, len) && pi - src <= MAX_OFFS && MIN_REP <= len <= MAX_REP
    requires Bumped(ch, ch', 0x120, 0x101 + RepCode(len)) && Bumped(off, off', 0x20, OffCode(pi - src))
    ensures Stands(items + [Copy(pi - src, len)], toks + [Rep(pi - src, len)], data, pi + len, 0,
                   bytes + ItemBytes(Copy(pi - src, len)), ch', off')
  {
    hide InterBytes, Covered, InterToks, Produce, AllCounted, ItemBytes, RepCode, OffCode, RepBas, RepBln, OffBas, OffBln, Pow2,
      Bumped, NoLess, TokCounted, Match;
    AddItem(items, Copy(pi - src, len), data);
    MatchInside(data, src, pi, len);
    ProduceRep(toks, data, src, pi, len);
    BumpedMore(ch, ch', 0x120, 0x101 + RepCode(len));
    BumpedMore(off, off', 0x20, OffCode(pi - src));
    RepCounted(pi - src, len, ch', off');
    CountMore(toks, Rep(pi - src, len), ch, off, ch', off');
    assert data[pi..pi] == [] && data[pi + len..pi + len] == [] && Lits([]) == [];
  }

  //////////////////////////////////////////////////////////////////////////////
  // Hashing and searching
  //////////////////////////////////////////////////////////////////////////////

  // ((p[0] << 2) ^ (p[1] << 4) ^ p[2]) & (HASH_TAB_ENT - 1)
  function Hash(data: seq<byte>, pos: nat): (h: nat)
    requires pos + 2 < |data|
    ensures h < HASH_TAB_ENT
  {
    Pow2Values();
    Low(Xor(Xor(Shl(data[pos], 2), Shl(data[pos + 1], 4)), data[pos + 2]), 10)
  }

  // a repetition that can be encoded
  ghost predicate Usable(data: seq<byte>, src: nat, pi: nat, len: nat) {
    Match(data, src, pi, len) && pi - src <= MAX_OFFS && MIN_REP <= len <= MAX_REP
  }

  class Encoder {
    const data: seq<byte>
    const out: array<byte>
    const lout: nat
    const chCn: array<nat>
    const offsCn: array<nat>
    const hashTab: array<nat>
    const hashHist: array<nat>
    // where the data stand in memory, as the history is indexed by addresses
    const base: nat
    const tryCount: nat
    const delayCount: nat
    const hashSkiped: nat
    var pi: nat
    var po: nat
    var cn: nat
    ghost var items: seq<Inter>
    ghost var toks: seq<LzTok>

    ghost predicate Shape() {
      && 0x20 <= lout <= out.Length && |data| > 0 && tryCount > 0 && delayCount <= 2
      && chCn.Length == 0x120 && offsCn.Length == 0x20 && chCn != offsCn
      && hashTab.Length == HASH_TAB_ENT && hashHist.Length == HASH_HIST_ENT && hashTab != hashHist
      && {hashTab, hashHist} !! {chCn, offsCn}
    }

    ghost predicate Valid()
      reads this, out, chCn, offsCn
    {
      Shape() && po <= lout && pi <= |data| && Stands(items, toks, data, pi, cn, out[..po], chCn[..], offsCn[..])
    }

    constructor (pin: seq<byte>, pout: array<byte>, l: nat, flg: nat, chCn0: array<nat>, offsCn0: array<nat>, addr: nat)
      requires 0x20 <= l <= pout.Length && |pin| > 0
      requires chCn0.Length == 0x120 && offsCn0.Length == 0x20 && chCn0 != offsCn0
      ensures Valid() && pi == 0 && po == 0 && cn == 0
      ensures data == pin && out == pout && lout == l && chCn == chCn0 && offsCn == offsCn0
      ensures fresh(hashTab) && fresh(hashHist)
    {
      data, out, lout, chCn, offsCn, base := pin, pout, l, chCn0, offsCn0, addr;
      var maximal := Shr(flg, 14) % 2 == 1;
      tryCount := Shl(2, Low(Shr(flg, 2), 3)) * if maximal then 4 else 1;
      hashSkiped := Low(Shr(flg, 5) + 1, 4) * if maximal then 4 else 1;
      delayCount := if maximal then 2 else 0;
      // no occurrence of any hash yet
      hashTab := new nat[HASH_TAB_ENT](_ => |pin| - 1);
      hashHist := new nat[HASH_HIST_ENT](_ => |pin| - 1);
      pi, po, cn := 0, 0, 0;
      items, toks := [], [];
      new;
      ShlMono(0, 2, Low(Shr(flg, 2), 3));
      assert Lits([]) == [];
    }

    // sq_newhash
    method NewHash(p: nat) returns (cur: nat)
      requires Shape() && p + 2 < |data|
      modifies hashTab, hashHist
      ensures cur == old(hashTab[Hash(data, p)])
      ensures hashTab[..] == old(hashTab[..])[Hash(data, p) := p]
      ensures hashHist[..] == old(hashHist[..])[(base + p) % HASH_HIST_ENT := cur]
    {
      hide Hash;
      var h := Hash(data, p);
      cur := hashTab[h];
      hashTab[h] := p;
      hashHist[(base + p) % HASH_HIST_ENT] := cur;
    }

    // the longest match for a candidate, if the few bytes looked at first agree
    method Try(p: nat, cur: nat, len0: nat) returns (n: nat)
      requires Shape() && cur < p && p + 2 < |data| && len0 >= 2 && p + len0 < |data|
      ensures n == 0 || (2 <= n <= MAX_REP && Match(data, cur, p, n))
    {
      if data[cur + len0] == data[p + len0] && data[cur + len0 - 1] == data[p + len0 - 1]
         && data[cur] == data[p] && data[cur + 1] == data[p + 1] {
        var limit := |data| - 2 - p;
        if limit > MAX_REP - 2 { limit := MAX_REP - 2; }
        n := FirstDiff(data, cur + 2, p + 2, limit);
        MatchFront(data, cur, p, n);
        n := n + 2;
      } else {
        n := 0;
      }
    }

    // Follows the chain of earlier positions with the hash of p. For delayed matching the match
    // already known, seen from p, is left out, and only one longer by more than the delay counts.
    method Search(p: nat, first: nat, delayed: bool, delayCn: nat, len0: nat, hash0: nat, best0: nat)
      returns (maxMatch: nat, maxHash: nat, best: nat)
      requires Shape() && first < p && p + 2 < |data| && len0 >= 2 && p + len0 < |data|
      ensures (maxMatch == len0 && maxHash == hash0 && best == best0)
           || (maxMatch > len0 && Usable(data, maxHash, p, maxMatch) && best == delayCn)
    {
      hide Match;
      var cur: nat, tryCn: nat := first, tryCount;
      maxMatch, maxHash, best := len0, hash0, best0;
      while true
        invariant cur < p && tryCn > 0 && maxMatch >= 2 && p + maxMatch < |data|
        invariant (maxMatch == len0 && maxHash == hash0 && best == best0)
               || (maxMatch > len0 && Usable(data, maxHash, p, maxMatch) && best == delayCn)
        decreases tryCn
      {
        if p - cur > MAX_OFFS { break; }
        var n := 0;
        if !delayed || cur + best != maxHash + delayCn { n := Try(p, cur, maxMatch); }
        if n > maxMatch + delayCn && (n > 3 || p - cur <= MAX_OFFS_BLN8) {
          maxHash, maxMatch, best := cur, n, delayCn;
          if n == MAX_REP || p + n > |data| - 1 { break; }
        }
        tryCn := tryCn - 1;
        if tryCn == 0 || hashHist[(base + cur) % HASH_HIST_ENT] >= cur { break; }
        cur := hashHist[(base + cur) % HASH_HIST_ENT];
      }
    }

    // looks for better matches on the next characters
    method Delay(p: nat, len0: nat, hash0: nat) returns (maxMatch: nat, maxHash: nat, delayCn: nat, best: nat)
      requires Shape() && Usable(data, hash0, p, len0) && delayCount <= 2
      modifies hashTab, hashHist
      ensures Usable(data, maxHash, p + best, maxMatch) && best <= delayCn <= 2
    {
      hide Match;
      MatchInside(data, hash0, p, len0);
      maxMatch, maxHash, delayCn, best := len0, hash0, 0, 0;
      while delayCn < delayCount && p + delayCn + maxMatch < |data| - 2 && maxMatch < 0x100
        invariant Usable(data, maxHash, p + best, maxMatch) && best <= delayCn <= delayCount
        decreases delayCount - delayCn
      {
        delayCn := delayCn + 1;
        var cur := NewHash(p + delayCn);
        if cur < p + delayCn {
          maxMatch, maxHash, best := Search(p + delayCn, cur, true, delayCn, maxMatch, maxHash, best);
        }
      }
    }

    //////////////////////////////////////////////////////////////////////////////
    // Putting out
    //////////////////////////////////////////////////////////////////////////////

    // counts the character at pi and leaves it pending
    method Literal()
      requires Valid() && pi < |data|
      modifies this`pi, this`cn, this`toks, chCn
      ensures Valid() && pi == old(pi) + 1 && cn == old(cn) + 1
    {
      hide Stands;
      StandsLit(items, toks, data, pi, cn, out[..po], chCn[..], offsCn[..], chCn[..][data[pi] := chCn[data[pi]] + 1]);
      toks := toks + [Lit(data[pi])];
      chCn[data[pi]] := chCn[data[pi]] + 1;
      pi := pi + 1;
      cn := cn + 1;
    }

    method Put(b: byte)
      requires po < lout <= out.Length
      modifies this`po, out
      ensures po == old(po) + 1 && out[..po] == old(out[..po]) + [b]
    {
      out[po] := b;
      po := po + 1;
    }

    // TKWR_CHRS
    method PutRun(v: nat)
      requires Valid() && v <= cn && v <= RUN_MAX && po + 3 <= lout
      requires v == 0 ==> pi == |data| && cn == 0 && Solid(items, false)
      modifies this`po, this`cn, this`items, out
      ensures Valid() && cn == old(cn) - v && po <= old(po) + 3 && (v > 0 ==> Solid(items, false))
    {
      hide Stands;
      StandsRun(items, toks, data, pi, cn, out[..po], chCn[..], offsCn[..], v);
      ghost var was := out[..po];
      if v < 15 {
        Put(TK_CHRS + v);
      } else {
        Put(TK_CHRS + 15);
        Put(v % 256);
        Put(v / 256);
      }
      assert out[..po] == was + RunBytes(v);
      items := items + [Run(v)];
      cn := cn - v;
    }

    // The code written is too long for the buffer; nothing is pending.
    ghost predicate Full()
      reads this
    {
      cn == 0 && po > lout - 0x20
    }

    // one more pending character; false when the output runs full
    method Single() returns (ok: bool)
      requires Valid() && pi < |data| && cn < RUN_MAX && po <= lout - 0x20
      modifies this`pi, this`po, this`cn, this`items, this`toks, out, chCn
      ensures Valid() && pi == old(pi) + 1 && cn < RUN_MAX && po <= old(po) + 3
      ensures if ok then po <= lout - 0x20 else Full()
    {
      Literal();
      ok := true;
      if cn >= RUN_MAX {
        PutRun(RUN_MAX);
        ok := po <= lout - 0x20;
      }
    }

    method PutLen(len: nat)
      requires Shape() && MIN_REP <= len <= MAX_REP && po + 2 <= lout
      modifies this`po, out, chCn
      ensures po <= old(po) + 2 && po <= lout && out[..po] == old(out[..po]) + LenBytes(len)
      ensures Bumped(old(chCn[..]), chCn[..], 0x120, 0x101 + RepCode(len))
    {
      hide RepBas, RepBln, RepCode;
      RepExtra(len);
      ghost var was := out[..po];
      var token := RepToken(len);
      chCn[token + 0x101] := chCn[token + 0x101] + 1;
      Put(token + 1);
      if RepBln(token) > 0 { Put(len - RepBas(token)); }
      assert out[..po] == was + LenBytes(len);
    }

    method PutOffs(offs: nat)
      requires Shape() && 1 <= offs <= MAX_OFFS && po + 3 <= lout
      modifies this`po, out, offsCn
      ensures po <= old(po) + 3 && po <= lout && out[..po] == old(out[..po]) + OffBytes(offs)
      ensures Bumped(old(offsCn[..]), offsCn[..], 0x20, OffCode(offs))
    {
      hide OffBas, OffBln, OffCode;
      OffExtra(offs);
      ghost var was := out[..po];
      var token := OffToken(offs);
      offsCn[token] := offsCn[token] + 1;
      Put(token);
      if OffBln(token) > 0 {
        if OffBln(token) <= 8 {
          Put(offs - OffBas(token));
        } else {
          Put((offs - OffBas(token)) % 256);
          Put((offs - OffBas(token)) / 256);
        }
      }
      assert out[..po] == was + OffBytes(offs);
    }

    // the bytes of a repetition
    method PutCopy(len: nat, offs: nat)
      requires Shape() && 1 <= offs <= MAX_OFFS && MIN_REP <= len <= MAX_REP && po + 5 <= lout
      modifies this`po, out, chCn, offsCn
      ensures po <= old(po) + 5 && po <= lout && out[..po] == old(out[..po]) + ItemBytes(Copy(offs, len))
      ensures Bumped(old(chCn[..]), chCn[..], 0x120, 0x101 + RepCode(len))
      ensures Bumped(old(offsCn[..]), offsCn[..], 0x20, OffCode(offs))
    {
      hide RepCode, OffCode, LenBytes, OffBytes, Bumped;
      ghost var was := out[..po];
      PutLen(len);
      PutOffs(offs);
      assert out[..po] == was + (LenBytes(len) + OffBytes(offs));
    }

    method Copying(maxHash: nat, maxMatch: nat)
      requires Valid() && cn == 0 && Usable(data, maxHash, pi, maxMatch) && po + 5 <= lout
      modifies this`pi, this`po, this`items, this`toks, out, chCn, offsCn
      ensures Valid() && pi == old(pi) + maxMatch && po <= old(po) + 5
    {
      hide Stands, Match, ItemBytes, RepCode, OffCode, RepBas, RepBln, OffBas, OffBln, Pow2, Bumped;
      MatchInside(data, maxHash, pi, maxMatch);
      ghost var bytes, ch, off := out[..po], chCn[..], offsCn[..];
      var offs := pi - maxHash;
      PutCopy(maxMatch, offs);
      StandsCopy(items, toks, data, pi, maxHash, maxMatch, bytes, ch, off, chCn[..], offsCn[..]);
      items, toks := items + [Copy(offs, maxMatch)], toks + [Rep(offs, maxMatch)];
      pi := pi + maxMatch;
    }

    // the last bytes of a repetition are hashed too
    method HashSkipped(maxMatch: nat, delayCn: nat)
      requires Shape() && delayCn < maxMatch <= pi <= |data|
      modifies hashTab, hashHist
    {
      if hashSkiped > 0 && pi + 2 < |data| {
        var left: nat := maxMatch - delayCn - 1;
        if left > hashSkiped { left := hashSkiped; }
        while left > 0
          invariant left <= pi
        {
          var _ := NewHash(pi - left);
          left := left - 1;
        }
      }
    }

    //////////////////////////////////////////////////////////////////////////////
    // The loop
    //////////////////////////////////////////////////////////////////////////////

    method Repetition() returns (found: bool, maxMatch: nat, maxHash: nat)
      requires Shape() && pi + 2 < |data|
      modifies hashTab, hashHist
      ensures found ==> Usable(data, maxHash, pi, maxMatch)
    {
      hide Match;
      var cur := NewHash(pi);
      if cur >= pi { return false, 0, 0; }
      var best;
      maxMatch, maxHash, best := Search(pi, cur, false, 0, MIN_REP - 1, 0, 0);
      found := maxMatch >= MIN_REP;
    }

    // characters before a delayed repetition
    method Singles(n: nat) returns (ok: bool)
      requires Valid() && pi + n <= |data| && cn < RUN_MAX && po <= lout - 0x20
      modifies this`pi, this`po, this`cn, this`items, this`toks, out, chCn
      ensures Valid() && pi >= old(pi) && (if ok then pi == old(pi) + n && cn < RUN_MAX && po <= lout - 0x20 else Full())
    {
      hide Stands;
      ok := true;
      var left: nat := n;
      while left > 0
        invariant Valid() && pi + left == old(pi) + n && left <= n && cn < RUN_MAX && po <= lout - 0x20
      {
        left := left - 1;
        ok := Single();
        if !ok { return; }
      }
    }

    // one turn of the main loop; false when the output runs full
    method Step() returns (ok: bool)
      requires Valid() && pi + 2 < |data| && cn < RUN_MAX && po <= lout - 0x20
      modifies this`pi, this`po, this`cn, this`items, this`toks, out, chCn, offsCn, hashTab, hashHist
      ensures Valid() && (if ok then pi > old(pi) && cn < RUN_MAX && po <= lout - 0x20 else Full())
    {
      hide Stands, Match;
      var found, maxMatch, maxHash := Repetition();
      if !found {
        ok := Single();
        return;
      }
      var delayCn, best := 0, 0;
      if delayCount > 0 { maxMatch, maxHash, delayCn, best := Delay(pi, maxMatch, maxHash); }
      MatchInside(data, maxHash, pi + best, maxMatch);
      ok := Singles(best);
      if !ok { return; }
      if cn > 0 { PutRun(cn); }
      Copying(maxHash, maxMatch);
      HashSkipped(maxMatch, delayCn - best);
      ok := po <= lout - 0x20;
    }

    // the last bytes, pending characters and the end mark
    method Finish()
      requires Valid() && pi + 2 >= |data| && cn < RUN_MAX && po <= lout - 0x20
      modifies this`pi, this`po, this`cn, this`items, this`toks, out, chCn
      ensures Shape() && 0 < po <= lout && LzDone(items, data, out[..po], chCn[..], offsCn[..])
    {
      hide Stands, LzDone, RunBytes;
      while pi != |data|
        invariant Valid() && pi <= |data| && cn + (|data| - pi) < RUN_MAX + 2 && po <= lout - 0x20
        decreases |data| - pi
      {
        Literal();
      }
      if cn > 0 {
        if cn >= RUN_MAX { PutRun(RUN_MAX); }
        PutRun(cn);
      }
      StandsAll(items, toks, data, out[..po], chCn[..], offsCn[..], chCn[..][0x100 := chCn[0x100] + 1]);
      chCn[TK_END + 0x100] := chCn[TK_END + 0x100] + 1;
      Put(TK_END);
    }
  }

  // The intermediate code is complete.
  ghost predicate LzDone(items: seq<Inter>, data: seq<byte>, bytes: seq<byte>, ch: seq<nat>, off: seq<nat>) {
    && AllInter(items) && bytes == InterBytes(items) + [TK_END] && Covered(items) == |data|
    && Solid(items, true) && Produce(InterToks(items, data)) == Some(data) && AllCounted(InterToks(items, data), ch, off)
    && |ch| == 0x120 && ch[0x100] > 0
  }

  lemma StandsAll(items: seq<Inter>, toks: seq<LzTok>, data: seq<byte>, bytes: seq<byte>, ch: seq<nat>, off: seq<nat>, ch': seq<nat>)
    requires Stands(items, toks, data, |data|, 0, bytes, ch, off)
    requires |ch| == 0x120 && ch' == ch[0x100 := ch[0x100] + 1]
    ensures LzDone(items, data, bytes + [TK_END], ch', off)
  {
    hide AllInter, InterBytes, Covered, InterToks, Produce, TokCounted;
    var n := |data|;
    assert data[n..n] == [] && Lits([]) == [] && data[..n] == data;
    assert toks == InterToks(items, data);
    forall i | 0 <= i < |toks| ensures TokCounted(toks[i], ch', off) { CountUp(toks[i], ch, off, ch'); }
  }

  lemma CountUp(t: LzTok, ch: seq<nat>, off: seq<nat>, ch': seq<nat>)
    requires |ch| == 0x120 && |off| == 0x20 && NoLess(ch, ch') && TokCounted(t, ch, off)
    ensures TokCounted(t, ch', off)
  {
    hide RepCode, OffCode;
  }

  // sq_complz: the length of the intermediate code left in pout, or 0
  method Complz(pin: seq<byte>, pout: array<byte>, lout: nat, flg: nat, chCn: array<nat>, offsCn: array<nat>, addr: nat)
    returns (n: nat, ghost items: seq<Inter>)
    requires lout <= pout.Length && chCn.Length == 0x120 && offsCn.Length == 0x20 && chCn != offsCn
    modifies pout, chCn, offsCn
    ensures n <= lout
    ensures if n > 0 then 0x20 <= lout && |pin| > 0 && LzDone(items, pin, pout[..n], chCn[..], offsCn[..])
            else |pin| == 0 || lout < 0x20 || TooLong(items, pin, lout - 0x20)
  {
    hide Stands, LzDone, TooLong;
    items := [];
    if |pin| == 0 { return 0, items; }
    if lout < 0x20 { return 0, items; }
    var e := new Encoder(pin, pout, lout, flg, chCn, offsCn, addr);
    while e.pi + 2 < |pin|
      invariant e.Valid() && e.cn < RUN_MAX && e.po <= lout - 0x20
      decreases |pin| - e.pi
    {
      var ok := e.Step();
      if !ok {
        RunsFull(e.items, e.toks, pin, e.pi, pout[..e.po], chCn[..], offsCn[..]);
        return 0, e.items;
      }
    }
    e.Finish();
    n, items := e.po, e.items;
  }
}
