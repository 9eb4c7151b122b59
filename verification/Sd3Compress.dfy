/**
 `sd3_comp`. The match search looks at the first byte and trusts the hash for the second, so
 here the hash chains are more than hints: what a chain leads to within 0x800 bytes must have
 the hash it is filed under.
 */
module Sd3Compress {
  import opened Bits
  import opened Lz
  import opened LzTokens
  import opened LsbStream
  import opened MsbStream
  import opened Sd3Format
  import Canonical

  //////////////////////////////////////////////////////////////////////////////
  // The bit writer
  //////////////////////////////////////////////////////////////////////////////

  // Words are stored high byte first. What has been stored stands for the output buffer.
  class Sd3Writer {
    var buf: nat
    var pb: nat
    var out: seq<byte>
    ghost var held: nat
    ghost var bits: seq<bool>

    ghost predicate Valid()
      reads this
    {
      && 16 <= pb <= 32 && Holds(buf, pb, held) && bits == BytesBitsM(out) + ToBitsM(held, 32 - pb)
      && (pb == 32 ==> out == []) && |out| % 2 == 0
    }

    lemma Size()
      requires Valid()
      ensures |out| == StoredBytes(|bits|)
    {
      hide Holds, BytesBitsM, ToBitsM;
    }

    constructor ()
      ensures Valid() && bits == [] && out == [] && pb == 32
    {
      buf, pb, out, held, bits := 0, 32, [], 0, [];
      new;
      NothingHeld();
    }

    // sd3b_wrn
    method WrN(cod: nat, n: nat)
      requires Valid() && n <= 16 && cod < Pow2(n)
      modifies this
      ensures Valid() && bits == old(bits) + ToBitsM(cod, n)
      ensures old(out) <= out
    {
      hide Holds, BytesBitsM, ToBitsM, Shl, Shr, Low, Pow2, Or;
      PushBelow(buf, pb, held, cod, n);
      ghost var was, m := held, 32 - pb;
      pb := pb - n;
      buf := Or(buf, Shl(cod, pb));
      held := Shl(held, n) + cod;
      bits := bits + ToBitsM(cod, n);
      assert BytesBitsM(out) + ToBitsM(was, m) + ToBitsM(cod, n) == BytesBitsM(out) + ToBitsM(held, 32 - pb);
      if pb < 16 { StoreWord(); }
    }

    method StoreWord()
      requires pb < 16 && Holds(buf, pb, held) && bits == BytesBitsM(out) + ToBitsM(held, 32 - pb) && |out| % 2 == 0
      modifies this`buf, this`pb, this`out, this`held
      ensures Valid() && old(out) <= out
    {
      hide Holds, BytesBitsM, ToBitsM, Shl, Shr, Low, Pow2;
      PopTop(buf, pb, held);
      var w := Shr(buf, 16);
      BytesBitsMWord(out, w);
      ghost var rest := Low(held, 16 - pb);
      assert BytesBitsM(out) + (ToBitsM(w, 16) + ToBitsM(rest, 16 - pb)) == BytesBitsM(out) + ToBitsM(w, 16) + ToBitsM(rest, 16 - pb);
      out := out + [w / 256, w % 256];
      buf := Shl(Low(buf, 16), 16);
      pb := pb + 16;
      held := rest;
    }

    // pb &= ~7
    method Align() returns (ghost k: nat)
      requires Valid()
      modifies this`pb, this`held, this`bits
      ensures Valid() && k < 8 && bits == old(bits) + ToBitsM(0, k) && pb % 8 == 0 && out == old(out)
    {
      hide Holds, BytesBitsM, ToBitsM, Shl, Shr, Low, Pow2, Or;
      k := pb % 8;
      ZeroFits(k);
      PushBelow(buf, pb, held, 0, k);
      NoneOr(buf, pb - k);
      ghost var was, m := held, 32 - pb;
      held := Shl(held, k) + 0;
      pb := pb - pb % 8;
      bits := bits + ToBitsM(0, k);
      assert BytesBitsM(out) + ToBitsM(was, m) + ToBitsM(0, k) == BytesBitsM(out) + ToBitsM(held, 32 - pb);
    }
  }

  lemma NothingHeld()
    ensures Holds(0, 32, 0) && ToBitsM(0, 0) == []
  {
    ShlZero(32);
  }

  lemma ZeroFits(k: nat)
    ensures 0 < Pow2(k)
  {
  }

  lemma NoneOr(buf: nat, q: nat)
    ensures Or(buf, Shl(0, q)) == buf
  {
    ShlZero(q);
  }

  //////////////////////////////////////////////////////////////////////////////
  // Hash chains
  //////////////////////////////////////////////////////////////////////////////

  const HASH_TAB_ENT := 0x400
  const HASH_HIST_ENT := 0x800

  // ((p[0] << 4) ^ p[1]) & 0x3FF
  function Hash(data: seq<byte>, p: nat): (h: nat)
    requires p + 1 < |data|
    ensures h < HASH_TAB_ENT
  {
    Pow2Values();
    Low(Xor(Shl(data[p], 4), data[p + 1]), 10)
  }

  lemma XorBit(a: nat, b: nat)
    ensures Xor(a, b) % 2 == (if a % 2 != b % 2 then 1 else 0) && Xor(a, b) / 2 == Xor(a / 2, b / 2)
  {
    if a == 0 {
      assert Xor(a, b) == b && Xor(a / 2, b / 2) == b / 2;
    } else if b == 0 {
      assert Xor(a, b) == a && Xor(a / 2, b / 2) == a / 2;
    }
  }

  lemma {:induction false} XorCancel(a: nat, b: nat, c: nat, k: nat)
    requires b < Pow2(k) && c < Pow2(k) && Low(Xor(a, b), k) == Low(Xor(a, c), k)
    ensures b == c
    decreases k
  {
    if k > 0 {
      XorBit(a, b);
      XorBit(a, c);
      XorCancel(a / 2, b / 2, c / 2, k - 1);
    }
  }

  // With the same hash and the same first byte the second bytes agree.
  lemma HashTells(data: seq<byte>, p: nat, q: nat)
    requires p + 1 < |data| && q + 1 < |data| && Hash(data, p) == Hash(data, q) && data[p] == data[q]
    ensures data[p + 1] == data[q + 1]
  {
    hide Xor, Low, Shl, Pow2;
    Pow2Values();
    XorCancel(Shl(data[p], 4), data[p + 1], data[q + 1], 10);
  }

  function Slot(base: nat, p: nat): (i: nat)
    ensures i < HASH_HIST_ENT
  {
    (base + p) % HASH_HIST_ENT
  }

  lemma SlotsDiffer(base: nat, p: nat, q: nat)
    requires q < p < q + 0x800
    ensures Slot(base, p) != Slot(base, q)
  {
    var d := p - q;
    assert (base + p) == (base + q) + d;
  }

  // q is the empty mark or an earlier position with hash h
  ghost predicate Linked(data: seq<byte>, hashed: set<nat>, q: nat, h: nat, p: nat) {
    q == |data| - 1 || (q in hashed && q < p && q + 1 < |data| && Hash(data, q) == h)
  }

  // All positions hashed are below `now`. The table leads to the last one with a hash, and the
  // history from each of the last 0x800 positions to an earlier one with the same hash.
  ghost predicate Chained(data: seq<byte>, tab: seq<nat>, hist: seq<nat>, base: nat, hashed: set<nat>, now: nat) {
    && |tab| == HASH_TAB_ENT && |hist| == HASH_HIST_ENT
    && (forall p :: p in hashed ==> p < now && p + 2 < |data|)
    && (forall h :: 0 <= h < |tab| ==> Linked(data, hashed, tab[h], h, now))
    && (forall p :: p in hashed && now <= p + 0x800 ==> Linked(data, hashed, hist[Slot(base, p)], Hash(data, p), p))
  }

  ghost function Plus(s: set<nat>, p: nat): (r: set<nat>)
    ensures forall q :: q in r <==> q in s || q == p
  {
    s + {p}
  }

  lemma ChainAdd(data: seq<byte>, tab: seq<nat>, hist: seq<nat>, base: nat, hashed: set<nat>, now: nat, p: nat)
    requires Chained(data, tab, hist, base, hashed, now) && now <= p && p + 2 < |data|
    ensures var h := Hash(data, p);
            Chained(data, tab[h := p], hist[Slot(base, p) := tab[h]], base, Plus(hashed, p), p + 1)
    ensures Linked(data, hashed, tab[Hash(data, p)], Hash(data, p), p)
  {
    hide Hash, Slot;
    var h := Hash(data, p);
    var hashed', tab', hist' := Plus(hashed, p), tab[h := p], hist[Slot(base, p) := tab[h]];
    assert Linked(data, hashed, tab[h], h, now);
    forall q | q in hashed' && p + 1 <= q + 0x800 ensures Linked(data, hashed', hist'[Slot(base, q)], Hash(data, q), q) {
      if q != p {
        SlotsDiffer(base, p, q);
        assert Linked(data, hashed, hist[Slot(base, q)], Hash(data, q), q);
      }
    }
    forall i | 0 <= i < |tab'| ensures Linked(data, hashed', tab'[i], i, p + 1) {
      assert Linked(data, hashed, tab[i], i, now);
    }
  }

  lemma ChainStart(data: seq<byte>, tab: seq<nat>, hist: seq<nat>, base: nat)
    requires |tab| == HASH_TAB_ENT && |hist| == HASH_HIST_ENT && |data| > 0
    requires forall h :: 0 <= h < |tab| ==> tab[h] == |data| - 1
    ensures Chained(data, tab, hist, base, {}, 0)
  {
  }

  // following the history from a position not too far back
  lemma ChainNext(data: seq<byte>, tab: seq<nat>, hist: seq<nat>, base: nat, hashed: set<nat>, now: nat, q: nat)
    requires Chained(data, tab, hist, base, hashed, now) && q in hashed && now <= q + 0x800
    ensures q + 2 < |data| && |hist| == HASH_HIST_ENT
    ensures Linked(data, hashed, hist[Slot(base, q)], Hash(data, q), q)
  {
  }

  //////////////////////////////////////////////////////////////////////////////
  // The search
  //////////////////////////////////////////////////////////////////////////////

  // a repetition that can be encoded
  ghost predicate Usable(data: seq<byte>, src: nat, pi: nat, len: nat) {
    Match(data, src, pi, len) && pi - src < 0x800 && len >= 2
  }

  class Sd3Hashes {
    const data: seq<byte>
    const base: nat
    const tab: array<nat>
    const hist: array<nat>
    ghost var hashed: set<nat>
    ghost var now: nat

    ghost predicate Valid()
      reads this, tab, hist
    {
      tab != hist && |data| > 0 && Chained(data, tab[..], hist[..], base, hashed, now)
    }

    constructor (pin: seq<byte>, addr: nat)
      requires |pin| > 0
      ensures Valid() && data == pin && now == 0 && fresh(tab) && fresh(hist)
    {
      data, base, hashed, now := pin, addr, {}, 0;
      tab := new nat[HASH_TAB_ENT](_ => |pin| - 1);
      hist := new nat[HASH_HIST_ENT](_ => |pin| - 1);
      new;
      ChainStart(data, tab[..], hist[..], base);
    }

    // sd3_newhash
    method NewHash(p: nat) returns (cur: nat)
      requires Valid() && now <= p && p + 2 < |data|
      modifies this`hashed, this`now, tab, hist
      ensures Valid() && now == p + 1 && (cur < p ==> InChain(p, cur))
    {
      hide Hash, Slot;
      ChainAdd(data, tab[..], hist[..], base, hashed, now, p);
      var h := Hash(data, p);
      cur := tab[h];
      tab[h] := p;
      hist[Slot(base, p)] := cur;
      hashed, now := Plus(hashed, p), p + 1;
    }

    // q is an earlier position filed under the hash of p
    ghost predicate InChain(p: nat, q: nat)
      reads this
    {
      q in hashed && q < p && p + 1 < |data| && q + 1 < |data| && Hash(data, q) == Hash(data, p)
    }

    // the match at a candidate whose first byte agrees
    method Try(p: nat, cur: nat) returns (n: nat)
      requires Valid() && InChain(p, cur) && p + 2 < |data|
      ensures n == 0 || (n >= 2 && Match(data, cur, p, n))
      ensures n == 0 <==> data[cur] != data[p]
    {
      hide Hash, Chained;
      n := 0;
      if data[cur] == data[p] {
        HashTells(data, cur, p);
        n := FirstDiff(data, cur + 2, p + 2, |data| - 2 - p);
        MatchFront(data, cur, p, n);
        n := n + 2;
      }
    }

    // Follows the chain from first on and keeps the longest match.
    method Search(p: nat, first: nat, tryCount: nat) returns (maxMatch: nat, maxHash: nat)
      requires Valid() && now == p + 1 && InChain(p, first) && p + 2 < |data| && tryCount > 0
      ensures maxMatch >= 2 ==> Usable(data, maxHash, p, maxMatch)
    {
      hide Match, Hash, Chained;
      var cur: nat, tryCn: nat := first, tryCount;
      maxMatch, maxHash := 0, 0;
      while true
        invariant InChain(p, cur) && tryCn > 0
        invariant maxMatch >= 2 ==> Usable(data, maxHash, p, maxMatch)
        decreases tryCn
      {
        if p - cur >= 0x800 { break; }
        var n := Try(p, cur);
        if n > maxMatch { maxHash, maxMatch := cur, n; }
        tryCn := tryCn - 1;
        ChainNext(data, tab[..], hist[..], base, hashed, now, cur);
        if tryCn == 0 || hist[Slot(base, cur)] >= cur { break; }
        cur := hist[Slot(base, cur)];
      }
    }
  }

  //////////////////////////////////////////////////////////////////////////////
  // The compressor
  //////////////////////////////////////////////////////////////////////////////

  // what has been written for the first pi bytes
  ghost predicate Written(w: Sd3Writer, toks: seq<LzTok>, data: seq<byte>, pi: nat)
    reads w
  {
    w.Valid() && pi <= |data| && w.bits == ToksBits(toks) && AllFit(toks) && Produce(toks) == Some(data[..pi])
  }

  lemma AddTok(toks: seq<LzTok>, t: LzTok)
    requires AllFit(toks) && TokFits(t)
    ensures AllFit(toks + [t]) && ToksBits(toks + [t]) == ToksBits(toks) + TokBits(t)
  {
    hide TokBits;
    assert (toks + [t])[..|toks|] == toks;
  }

  method WriteChar(w: Sd3Writer, data: seq<byte>, pi: nat, ghost toks: seq<LzTok>) returns (ghost toks': seq<LzTok>)
    requires Written(w, toks, data, pi) && pi < |data|
    modifies w
    ensures Written(w, toks', data, pi + 1) && toks' == toks + [Lit(data[pi])]
  {
    hide w.Valid, ToksBits, ToBitsM, AllFit, Produce, Pow2;
    ProduceLit(toks, data, pi);
    AddTok(toks, Lit(data[pi]));
    ByteFits(data[pi]);
    w.WrN(data[pi], 9);
    toks' := toks + [Lit(data[pi])];
  }

  method WriteFours(w: Sd3Writer, rep0: nat)
    requires w.Valid()
    modifies w
    ensures w.Valid() && w.bits == old(w.bits) + FourBits(rep0)
  {
    hide w.Valid, ToBitsM, Pow2;
    Pow2Values();
    var rep: nat := rep0;
    while rep >= 15
      invariant w.Valid() && rep <= rep0 && w.bits + FourBits(rep) == old(w.bits) + FourBits(rep0)
    {
      ghost var was := w.bits;
      w.WrN(15, 4);
      rep := rep - 15;
      assert was + (ToBitsM(15, 4) + FourBits(rep)) == w.bits + FourBits(rep);
    }
    w.WrN(rep, 4);
  }

  method WriteCount(w: Sd3Writer, rep0: nat)
    requires w.Valid()
    modifies w
    ensures w.Valid() && w.bits == old(w.bits) + CountBits(rep0)
  {
    hide w.Valid, ToBitsM, FourBits, Pow2;
    Pow2Values();
    ghost var was := w.bits;
    var rep: nat := rep0;
    if rep < 3 {
      w.WrN(rep, 2);
    } else {
      rep := rep - 3;
      w.WrN(3, 2);
      if rep < 3 {
        w.WrN(rep, 2);
        assert was + ToBitsM(3, 2) + ToBitsM(rep, 2) == was + (ToBitsM(3, 2) + ToBitsM(rep, 2));
      } else {
        rep := rep - 3;
        w.WrN(3, 2);
        WriteFours(w, rep);
        assert was + ToBitsM(3, 2) + ToBitsM(3, 2) + FourBits(rep) == was + (ToBitsM(3, 2) + (ToBitsM(3, 2) + FourBits(rep)));
      }
    }
  }

  method WriteOffs(w: Sd3Writer, offs: nat)
    requires w.Valid() && offs < 0x800
    modifies w
    ensures w.Valid() && w.bits == old(w.bits) + OffsBits(offs)
  {
    hide w.Valid, ToBitsM, Pow2;
    Pow2Values();
    if offs < 0x80 {
      w.WrN(0x180 + offs, 9);
    } else {
      ghost var was := w.bits;
      w.WrN(0x100 + offs / 16, 9);
      w.WrN(offs % 16, 4);
      assert was + ToBitsM(0x100 + offs / 16, 9) + ToBitsM(offs % 16, 4) == was + (ToBitsM(0x100 + offs / 16, 9) + ToBitsM(offs % 16, 4));
    }
  }

  method WriteRep(w: Sd3Writer, data: seq<byte>, src: nat, pi: nat, len: nat, ghost toks: seq<LzTok>) returns (ghost toks': seq<LzTok>)
    requires Written(w, toks, data, pi) && Usable(data, src, pi, len)
    modifies w
    ensures Written(w, toks', data, pi + len) && toks' == toks + [Rep(pi - src, len)]
  {
    hide w.Valid, ToksBits, OffsBits, CountBits, AllFit, Produce, Match, Pow2;
    MatchInside(data, src, pi, len);
    var offs := pi - src;
    ghost var t := Rep(offs, len);
    ProduceRep(toks, data, src, pi, len);
    AddTok(toks, t);
    ghost var was := w.bits;
    WriteOffs(w, offs);
    WriteCount(w, len - 2);
    assert was + OffsBits(offs) + CountBits(len - 2) == was + (OffsBits(offs) + CountBits(len - 2));
    toks' := toks + [t];
  }

  lemma {:induction false} XorBound(a: nat, b: nat, k: nat)
    requires a < Pow2(k) && b < Pow2(k)
    ensures Xor(a, b) < Pow2(k)
    decreases k
  {
    if k > 0 {
      XorBit(a, b);
      XorBound(a / 2, b / 2, k - 1);
    }
  }

  lemma {:induction false} SumFits(data: seq<byte>)
    ensures XorSum(data) < Pow2(8) == 256
  {
    hide Xor, Pow2;
    Pow2Values();
    if data != [] {
      SumFits(data[..|data| - 1]);
      XorBound(XorSum(data[..|data| - 1]), data[|data| - 1], 8);
    }
  }

  // sd3_xorsum
  method Sum(data: seq<byte>) returns (sum: nat)
    ensures sum == XorSum(data)
  {
    hide Xor;
    sum := 0xFF;
    var i := 0;
    while i < |data|
      invariant i <= |data| && sum == XorSum(data[..i])
    {
      assert data[..i + 1][..i] == data[..i];
      sum := Xor(sum, data[i]);
      i := i + 1;
    }
    assert data[..i] == data;
  }

  // z, whatever follows it, is decoded to the data
  ghost predicate DecodesAnyway(z: seq<byte>, data: seq<byte>) {
    forall y: seq<byte> :: z <= y ==> Decodes(y, data)
  }

  // z is decoded to the data, into any buffer they fit in
  ghost predicate Decodes(z: seq<byte>, data: seq<byte>) {
    forall buf: seq<byte> :: |buf| >= |data| ==> DecodesInto(z, buf, data)
  }

  ghost predicate DecodesInto(z: seq<byte>, buf: seq<byte>, data: seq<byte>) {
    var r := Decode(z, buf);
    r.Ret? && r.n == |data| && r.buf[..|data|] == data
  }

  lemma StreamGood(z: seq<byte>, toks: seq<LzTok>, data: seq<byte>)
    requires AllFit(toks) && Starts(BytesBitsM(z), 0, ToksBits(toks) + ToBitsM(END_TOKEN, 9))
    requires Produce(toks) == Some(data)
    requires |z| > |ToksBits(toks)| / 8 + 2 && z[(|ToksBits(toks)| + 16) / 8] == XorSum(data)
    ensures Decodes(z, data)
  {
    hide AllFit, Starts, BytesBitsM, ToksBits, ToBitsM, XorSum, Decode, Produce;
    forall buf: seq<byte> | |buf| >= |data| ensures DecodesInto(z, buf, data) {
      var b := StreamDecodes(z, toks, buf);
    }
  }

  lemma StreamGoodAnyway(z: seq<byte>, toks: seq<LzTok>, data: seq<byte>)
    requires AllFit(toks) && Starts(BytesBitsM(z), 0, ToksBits(toks) + ToBitsM(END_TOKEN, 9))
    requires Produce(toks) == Some(data)
    requires |z| > |ToksBits(toks)| / 8 + 2 && z[(|ToksBits(toks)| + 16) / 8] == XorSum(data)
    ensures DecodesAnyway(z, data)
  {
    hide AllFit, Starts, BytesBitsM, ToksBits, ToBitsM, XorSum, Produce, Decodes;
    forall y: seq<byte> | z <= y ensures Decodes(y, data) {
      StartsLonger(z, y, ToksBits(toks) + ToBitsM(END_TOKEN, 9));
      StreamGood(y, toks, data);
    }
  }

  lemma StartsLonger(z: seq<byte>, y: seq<byte>, b: seq<bool>)
    requires z <= y && Starts(BytesBitsM(z), 0, b)
    ensures Starts(BytesBitsM(y), 0, b)
  {
    hide BytesBitsM;
    assert y == z + y[|z|..];
    BytesBitsMConcat(z, y[|z|..]);
    assert BytesBitsM(y)[0..0 + |b|] == BytesBitsM(z)[0..0 + |b|];
  }

  // the sum stands behind the aligned end token, and there is one more byte than the loop asks for
  lemma Layout(out: seq<byte>, body: seq<bool>, k: nat, sum: nat, rest: seq<bool>)
    requires k < 8 && (|body| + k) % 8 == 0 && |body| >= 9 && sum < 256 && |rest| <= 16
    requires body + ToBitsM(0, k) + ToBitsM(sum, 8) + ToBitsM(0, 15) == BytesBitsM(out) + rest
    ensures Starts(BytesBitsM(out), 0, body) && |out| > (|body| - 9) / 8 + 2 && out[(|body| + 7) / 8] == sum
  {
    hide BytesBitsM, ToBitsM, Pow2, ValM, Starts;
    var s, q := BytesBitsM(out), (|body| + k) / 8;
    var head := body + ToBitsM(0, k) + ToBitsM(sum, 8);
    Front(head, ToBitsM(0, 15), s, rest);
    StartsConcat(s, 0, body + ToBitsM(0, k), ToBitsM(sum, 8));
    StartsConcat(s, 0, body, ToBitsM(0, k));
    Pow2Values();
    Canonical.ValMRead(s, 8 * q, sum, 8);
    ByteValM(out, q);
  }

  // whole bytes hold all bits but the last fifteen at most
  lemma Front(head: seq<bool>, tail: seq<bool>, s: seq<bool>, rest: seq<bool>)
    requires head + tail == s + rest && |tail| == 15 && |rest| <= 16 && |head| % 8 == 0 && |s| % 8 == 0
    ensures Starts(s, 0, head)
  {
    assert |s| >= |head|;
    assert (head + tail)[..|head|] == head && (s + rest)[..|head|] == s[..|head|];
    assert s[0..0 + |head|] == s[..|head|];
  }

  // the end token, the sum and zeros to flush the buffer
  method Finish(w: Sd3Writer, data: seq<byte>, ghost toks: seq<LzTok>)
    requires Written(w, toks, data, |data|) && |data| > 0
    modifies w
    ensures DecodesAnyway(w.out, data) && Opening(w.out, toks) && w.out != []
    ensures |w.out| == StreamSize(toks)
  {
    hide w.Valid, ToksBits, AllFit, Produce, Pow2, BytesBitsM, ToBitsM, XorSum, Starts, DecodesAnyway, Opening, Holds;
    ghost var body := w.bits + ToBitsM(0x180, 9);
    EndFits();
    Pow2Values();
    w.WrN(0x180, 9);
    ghost var k := w.Align();
    Aligned(w);
    var sum := Sum(data);
    SumFits(data);
    w.WrN(sum, 8);
    ZeroFits(15);
    w.WrN(0, 15);
    w.Size();
    Kept(w);
    Layout(w.out, body, k, sum, ToBitsM(w.held, 32 - w.pb));
    assert data[..|data|] == data;
    StreamGoodAnyway(w.out, toks, data);
    OpeningIs(w.out, toks, ToBitsM(0x180, 9));
  }

  // the bytes of the tokens with the end token, filled up to a whole byte, the sum and the flush
  function StreamSize(toks: seq<LzTok>): nat {
    StoredBytes((|ToksBits(toks)| + 16) / 8 * 8 + 23)
  }

  // the words of the tokens are inside the part of the buffer in use
  predicate Room(toks: seq<LzTok>, lout: nat)
    requires lout >= 0x20
  {
    StoredBytes(|ToksBits(toks)|) <= RoundUp2(lout - 0x10)
  }

  // Before each of the tokens, except for the last two characters, there was room; the stream is complete.
  ghost predicate Succeeds(z: seq<byte>, toks: seq<LzTok>, data: seq<byte>, lout: nat)
    requires lout >= 0x20
  {
    && AllFit(toks) && Produce(toks) == Some(data) && |z| == StreamSize(toks)
    && forall i :: 0 <= i <= |toks| && Before(toks[..i], |data| - 2) ==> Room(toks[..i], lout)
  }

  ghost predicate Before(toks: seq<LzTok>, n: int) {
    Produce(toks).Some? && |Produce(toks).value| < n
  }

  // The tokens for a front part of the data, with at least three bytes to come, take too much room.
  ghost predicate RunsOut(toks: seq<LzTok>, data: seq<byte>, lout: nat)
    requires lout >= 0x20
  {
    AllFit(toks) && Before(toks, |data| - 2) && Produce(toks).value <= data && !Room(toks, lout)
  }

  // further tokens mean more data
  lemma Later(a: seq<LzTok>, toks: seq<LzTok>, data: seq<byte>, n: int, lout: nat)
    requires lout >= 0x20 && a <= toks && Produce(toks).Some? && Produce(a).Some? && |Produce(a).value| >= n
    requires forall i :: 0 <= i < |a| ==> Room(a[..i], lout)
    ensures forall i :: 0 <= i <= |toks| && Before(toks[..i], n) ==> Room(toks[..i], lout)
  {
    hide Produce, Room;
    forall i | 0 <= i <= |toks| && Before(toks[..i], n) ensures Room(toks[..i], lout) {
      if i < |a| {
        assert toks[..i] == a[..i];
      } else {
        assert toks[..i][..|a|] == a;
        More(toks[..i], |a|);
      }
    }
  }

  lemma {:induction false} More(toks: seq<LzTok>, i: nat)
    requires i <= |toks| && Produce(toks).Some?
    ensures Produce(toks[..i]).Some? && |Produce(toks[..i]).value| <= |Produce(toks).value|
    decreases |toks|
  {
    hide Produce;
    if i < |toks| {
      ProducePrefix(toks, i);
    } else {
      assert toks[..i] == toks;
    }
  }

  lemma Aligned(w: Sd3Writer)
    requires w.Valid() && w.pb % 8 == 0
    ensures |w.bits| % 8 == 0
  {
    hide Holds, BytesBitsM, ToBitsM;
    assert |w.bits| == 8 * |w.out| + (32 - w.pb);
    EightMore(|w.out|, 32 - w.pb);
  }

  lemma EightMore(n: nat, m: nat)
    requires m % 8 == 0
    ensures (8 * n + m) % 8 == 0
  {
  }

  lemma Kept(w: Sd3Writer)
    requires w.Valid()
    ensures w.bits == BytesBitsM(w.out) + ToBitsM(w.held, 32 - w.pb) && 16 <= w.pb <= 32
  {
  }

  // the stream starts with the tokens and the end token
  ghost predicate Opening(z: seq<byte>, toks: seq<LzTok>) {
    Starts(BytesBitsM(z), 0, ToksBits(toks) + ToBitsM(END_TOKEN, 9)) && AllFit(toks) && Produce(toks).Some? && toks != []
  }

  lemma OpeningIs(z: seq<byte>, toks: seq<LzTok>, end: seq<bool>)
    requires end == ToBitsM(0x180, 9) && Starts(BytesBitsM(z), 0, ToksBits(toks) + end)
    requires AllFit(toks) && Produce(toks).Some? && Produce(toks).value != []
    ensures Opening(z, toks)
  {
    hide Starts, BytesBitsM, ToksBits, ToBitsM;
  }

  // the last bytes of a match are hashed too
  method HashSkipped(h: Sd3Hashes, pi: nat, maxMatch: nat, hashSkiped: nat)
    requires h.Valid() && h.now <= pi - maxMatch + 1 && 2 <= maxMatch <= pi <= |h.data|
    modifies h`hashed, h`now, h.tab, h.hist
    ensures h.Valid() && h.now <= pi
  {
    hide Chained;
    if hashSkiped > 0 && pi + 2 < |h.data| {
      var left: nat := maxMatch - 1;
      if left > hashSkiped { left := hashSkiped; }
      while left > 0
        invariant h.Valid() && left <= pi && h.now <= pi - left
      {
        var _ := h.NewHash(pi - left);
        left := left - 1;
      }
    }
  }

  // one turn of the loop
  method Step(w: Sd3Writer, h: Sd3Hashes, data: seq<byte>, pi: nat, tryCount: nat, hashSkiped: nat, ghost toks: seq<LzTok>)
    returns (next: nat, ghost toks': seq<LzTok>)
    requires Written(w, toks, data, pi) && h.Valid() && h.data == data && h.now <= pi && pi + 2 < |data| && tryCount > 0
    modifies w, h`hashed, h`now, h.tab, h.hist
    ensures Written(w, toks', data, next) && h.Valid() && h.now <= next && pi < next
    ensures |toks'| == |toks| + 1 && toks <= toks'
  {
    hide Written, Chained, Match, Hash;
    var cur := h.NewHash(pi);
    if cur < pi {
      var maxMatch, maxHash := h.Search(pi, cur, tryCount);
      if maxMatch >= 2 {
        MatchInside(data, maxHash, pi, maxMatch);
        toks' := WriteRep(w, data, maxHash, pi, maxMatch, toks);
        next := pi + maxMatch;
        HashSkipped(h, next, maxMatch, hashSkiped);
        return;
      }
    }
    toks' := WriteChar(w, data, pi, toks);
    next := pi + 1;
  }

  // sd3_comp: the bytes written, or none
  method Sd3Comp(data: seq<byte>, lout: nat, flg: nat, addr: nat) returns (z: seq<byte>, ghost toks: seq<LzTok>)
    ensures z != [] ==> DecodesAnyway(z, data)
    ensures z != [] ==> Opening(z, toks)
    ensures z == [] ==> |data| == 0 || lout < 0x20 || RunsOut(toks, data, lout)
    ensures z != [] ==> |data| > 0 && lout >= 0x20 && Succeeds(z, toks, data, lout)
  {
    hide Written, DecodesAnyway, Opening, Room, ToksBits, AllFit, Produce, Before;
    toks := [];
    if |data| == 0 { return [], toks; }
    if lout < 0x20 { return [], toks; }
    var tryCount := Shl(2, Low(Shr(flg, 2), 3));
    var hashSkiped := Low(Shr(flg, 5) + 1, 4);
    ShlMono(0, 2, Low(Shr(flg, 2), 3));
    var pe := RoundUp2(lout - 0x10);
    var w := new Sd3Writer();
    var h := new Sd3Hashes(data, addr);
    var pi: nat := 0;
    NothingWritten(w, data);
    while pi + 2 < |data|
      invariant Written(w, toks, data, pi) && h.Valid() && h.data == data && h.now <= pi
      invariant fresh(w) && fresh(h) && fresh(h.tab) && fresh(h.hist)
      invariant forall i :: 0 <= i < |toks| ==> Room(toks[..i], lout)
      decreases |data| - pi
    {
      WrittenRoom(w, toks, data, pi, lout);
      if |w.out| > pe { return [], toks; }
      ghost var was := toks;
      pi, toks := Step(w, h, data, pi, tryCount, hashSkiped, toks);
      assert forall i :: 0 <= i < |was| ==> toks[..i] == was[..i];
      assert toks[..|was|] == was;
    }
    ghost var body := toks;
    WrittenAll(w, toks, data, pi);
    WrittenInside(w, toks, data, pi);
    while pi != |data|
      invariant Written(w, toks, data, pi) && pi <= |data| && fresh(w) && body <= toks
      decreases |data| - pi
    {
      toks := WriteChar(w, data, pi, toks);
      pi := pi + 1;
    }
    WrittenAll(w, toks, data, pi);
    assert data[..pi] == data;
    Later(body, toks, data, |data| - 2, lout);
    Finish(w, data, toks);
    z := w.out;
  }

  lemma NothingWritten(w: Sd3Writer, data: seq<byte>)
    requires w.Valid() && w.bits == []
    ensures Written(w, [], data, 0)
  {
  }

  lemma WrittenInside(w: Sd3Writer, toks: seq<LzTok>, data: seq<byte>, pi: nat)
    requires Written(w, toks, data, pi)
    ensures pi <= |data|
  {
  }

  lemma WrittenRoom(w: Sd3Writer, toks: seq<LzTok>, data: seq<byte>, pi: nat, lout: nat)
    requires Written(w, toks, data, pi) && lout >= 0x20 && pi + 2 < |data|
    ensures |w.out| > RoundUp2(lout - 0x10) <==> !Room(toks, lout)
    ensures !Room(toks, lout) ==> RunsOut(toks, data, lout)
  {
    hide ToksBits, w.Valid, AllFit, Produce;
    w.Size();
  }

  lemma WrittenAll(w: Sd3Writer, toks: seq<LzTok>, data: seq<byte>, pi: nat)
    requires Written(w, toks, data, pi)
    ensures AllFit(toks) && Produce(toks) == Some(data[..pi]) && pi <= |data|
  {
  }
}
