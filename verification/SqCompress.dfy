/**
 `sq_comp`, the SQ compressor, and its round trip with `sq_dec`.
 */
module SqCompress {
  import opened Bits
  import opened LsbStream
  import opened Lz
  import opened LzTokens
  import opened Canonical
  import opened SqCodes
  import opened SqFormat
  import opened SqHeader
  import opened SqStream
  import opened SqLz
  import opened SqComplz
  import opened SqLengths
  import opened SqEmit
  import opened HuffmanHeap
  import HuffmanCode
  import SqDecompress

  // the method code a stream starts with: 'S', 'Q' and version 0
  const SQ_0_0 := 0x5153

  // compression ratio to seek lengths
  const COMP_RAT_TAB: seq<nat> := [
    0x7F9, 0x7F9, 0x621, 0x625, 0x665, 0x669, 0x6E9, 0x6ED, 0x7D1, 0x7D9, 0x6E9, 0x47D9, 0x46E9]

  //////////////////////////////////////////////////////////////////////////////
  // The two codes
  //////////////////////////////////////////////////////////////////////////////

  // every symbol counted has a code
  ghost predicate Serves(lens: seq<nat>, cn: seq<nat>, n: nat) {
    forall i :: 0 <= i < n && i < |cn| && cn[i] > 0 ==> i < |lens| && lens[i] >= 1
  }

  ghost predicate CodesServe(c: Codes, ch: seq<nat>, off: seq<nat>) {
    && CodesOk(c) && |c.off| >= 1 && c.ch[END_SYM] >= 1 && Bounded(c.ch, 15) && Bounded(c.off, 15)
    && |ch| == 0x120 && |off| == 0x20 && Serves(c.ch, ch, 0x11E) && Serves(c.off, off, 0x1E)
  }

  lemma CountedCoded(toks: seq<LzTok>, c: Codes, ch: seq<nat>, off: seq<nat>)
    requires AllCounted(toks, ch, off) && CodesServe(c, ch, off)
    ensures AllCoded(toks, c)
  {
    hide RepCode, OffCode, Complete;
    forall i | 0 <= i < |toks| ensures TokCoded(toks[i], c) { assert TokCounted(toks[i], ch, off); }
  }

  // blcn is the histogram of the lengths
  ghost predicate Histogram(blcn: seq<nat>, lens: seq<nat>) {
    |blcn| == MAX_BITS + 1 && blcn[0] == 0 && forall l :: 1 <= l <= MAX_BITS ==> blcn[l] == Count(lens, l)
  }

  // the number of symbols up to the last one counted
  method LastCounted(cn: array<nat>, top: nat, least: nat) returns (n: nat)
    requires least <= top <= cn.Length && (least == 0 ==> exists i :: 0 <= i < top && cn[i] > 0)
    ensures least <= n <= top && forall i :: n <= i < top ==> cn[i] == 0
    ensures least == 0 ==> n >= 1 && cn[n - 1] > 0
  {
    n := top;
    while n > least && cn[n - 1] == 0
      invariant least <= n <= top && forall i :: n <= i < top ==> cn[i] == 0
    {
      n := n - 1;
    }
  }

  // sq_huffman for one of the codes; its lengths stand in chBlen from off on
  method OneCode(cn: array<nat>, chBlen: array<nat>, off: nat, n: nat, top: nat, chTab: array<ChTab>) returns (blcn: array<nat>)
    requires 2 <= n <= top <= cn.Length && n <= 0x11E && off + n <= chBlen.Length && chTab.Length == 0x140 && cn != chBlen
    requires forall i :: n <= i < top ==> cn[i] == 0
    modifies cn, chBlen, chTab
    ensures fresh(blcn) && Histogram(blcn[..], chBlen[off..off + n])
    ensures Complete(chBlen[off..off + n], MAX_BITS) && Bounded(chBlen[off..off + n], 15)
    ensures Serves(chBlen[off..off + n], old(cn[..]), top)
    ensures chBlen[..off] == old(chBlen[..off])
  {
    hide Complete;
    blcn := new nat[MAX_BITS + 1];
    HuffmanCode.SqHuffman(cn, chBlen, off, blcn, n, chTab);
    ShortLens(chBlen[off..off + n]);
    CompleteWider(chBlen[off..off + n]);
  }

  lemma ShortLens(lens: seq<nat>)
    requires Complete(lens, 15)
    ensures Bounded(lens, 15)
  {
  }

  method MainCodes(chCn: array<nat>, offsCn: array<nat>)
    returns (count1: nat, count2: nat, chBlen: array<nat>, chBlcn: array<nat>, offsBlcn: array<nat>, ghost c: Codes)
    requires chCn.Length == 0x120 && offsCn.Length == 0x20 && chCn != offsCn && chCn[0x100] > 0
    modifies chCn, offsCn
    ensures 0x101 <= count1 <= 0x11E && 2 <= count2 <= 0x1E && fresh(chBlen) && fresh(chBlcn) && fresh(offsBlcn)
    ensures chBlen.Length == 0x140 && chBlcn != offsBlcn && chBlen != chBlcn && chBlen != offsBlcn
    ensures c == Codes(chBlen[..count1], chBlen[count1..count1 + count2])
    ensures CodesServe(c, old(chCn[..]), old(offsCn[..]))
    ensures Histogram(chBlcn[..], c.ch) && Histogram(offsBlcn[..], c.off)
  {
    hide Complete, Histogram;
    chBlen := new nat[0x140];
    var chTab := new ChTab[0x140];
    count1 := LastCounted(chCn, 0x11E, 0);
    count2 := LastCounted(offsCn, 0x1E, 2);
    assert count1 > 0x100;
    chBlcn := OneCode(chCn, chBlen, 0, count1, 0x11E, chTab);
    ghost var ch := chBlen[0..0 + count1];
    assert ch == chBlen[..count1];
    offsBlcn := OneCode(offsCn, chBlen, count1, count2, 0x1E, chTab);
    c := Codes(chBlen[..count1], chBlen[count1..count1 + count2]);
  }

  //////////////////////////////////////////////////////////////////////////////
  // The tables of the stream
  //////////////////////////////////////////////////////////////////////////////

  // the packed lengths: bytes of the items that expand to lens
  ghost predicate Packed(items: seq<Rle>, bytes: seq<nat>, lens: seq<nat>, h: seq<nat>) {
    bytes == ListBytes(items) && AllShaped(items) && AllRle(items, h) && Expand(items).acc == lens
  }

  lemma SymsCoded(items: seq<Rle>, cn: seq<nat>, h: seq<nat>)
    requires AllShaped(items) && SymsCounted(items, cn) && |h| == 19
    requires forall i :: 0 <= i < 19 && i < |cn| && cn[i] > 0 ==> h[i] >= 1
    ensures AllRle(items, h)
  {
    forall i | 0 <= i < |items| ensures RleCoded(items[i], h) { SymIs(items[i]); }
  }

  method Count3(codeBlen: array<nat>, ghost v: nat) returns (count3: nat)
    requires codeBlen.Length >= 19 && 1 <= v <= 15 && codeBlen[v] >= 1
    ensures 4 <= count3 <= 19 && forall i :: count3 <= i < 19 ==> codeBlen[CodeIndex(i)] == 0
  {
    hide CodeIndex, SqDecompress.PlaceOf;
    count3 := 19;
    ghost var place := IndexOnto(v);
    PlaceIsHigh(v, place);
    while codeBlen[CodeIndex(count3 - 1)] == 0
      invariant place < count3 <= 19 && forall i :: count3 <= i < 19 ==> codeBlen[CodeIndex(i)] == 0
      decreases count3
    {
      count3 := count3 - 1;
    }
  }

  lemma PlaceIsHigh(v: nat, place: nat)
    requires 1 <= v <= 15 && place < 19 && CodeIndex(place) == v
    ensures place >= 4
  {
    assert CODE_INDEX[0] == 16 && CODE_INDEX[1] == 17 && CODE_INDEX[2] == 18 && CODE_INDEX[3] == 0;
  }

  // run-length codes the n lengths and builds the helper code
  method PackLengths(chBlen: array<nat>, n: nat)
    returns (codeBuf: array<nat>, bufLen: nat, codeBlen: array<nat>, codeBlcn: array<nat>, count3: nat, ghost items: seq<Rle>)
    requires 0x101 <= n <= chBlen.Length == 0x140 && Bounded(chBlen[..n], 15) && chBlen[0x100] >= 1
    ensures fresh(codeBuf) && fresh(codeBlen) && fresh(codeBlcn) && codeBlen != codeBlcn && codeBuf != codeBlcn
    ensures bufLen <= codeBuf.Length && codeBlen.Length == 0x20
    ensures HelperOk(codeBlen[..19], count3) && Packed(items, codeBuf[..bufLen], chBlen[..n], codeBlen[..19])
    ensures Histogram(codeBlcn[..], codeBlen[..19])
  {
    hide Coded, Complete;
    codeBuf, codeBlen := new nat[0x140], new nat[0x20];
    codeBlcn := new nat[MAX_BITS + 1];
    var codeCn, chTab := new nat[0x20](_ => 0), new ChTab[0x140];
    var p := new Packer(chBlen, n, codeBuf, codeCn);
    p.Pack();
    bufLen, items := p.po, p.items;
    ghost var cn, v := codeCn[..], chBlen[0x100];
    PackedAll(items, chBlen[..n], p.code, codeBuf[..bufLen], cn);
    assert chBlen[..n][0x100] == v;
    HelperCode(codeCn, codeBlen, codeBlcn, chTab);
    SymsCoded(items, cn, codeBlen[..19]);
    count3 := Count3(codeBlen, v);
  }

  lemma PackedAll(items: seq<Rle>, lens: seq<nat>, code: nat, bytes: seq<nat>, cn: seq<nat>)
    requires Coded(items, lens, |lens|, code, bytes, cn)
    ensures bytes == ListBytes(items) && AllShaped(items) && Expand(items).acc == lens && SymsCounted(items, cn) && |cn| >= 19
    ensures ValuesCounted(lens, cn)
  {
    assert lens[..|lens|] == lens;
  }

  //////////////////////////////////////////////////////////////////////////////
  // Writing
  //////////////////////////////////////////////////////////////////////////////

  // 'S', 'Q', the version, and the start of a final block of submethod 2
  method WriteStart(w: Writer)
    requires w.Valid() && w.bits == [] && w.pb == 0
    modifies w, w.out
    ensures w.Valid() && w.bits == StartBits() && w.pb < 16
    ensures old(w.pd) <= w.pd && forall i :: w.pd <= i < w.out.Length ==> w.out[i] == old(w.out[i])
  {
    hide w.Valid, ToBits, Pow2;
    Pow2Values();
    w.WrN(0x53, 8);
    w.WrN(0x51, 8);
    w.WrN(0, 16);
    w.WrN(1, 1);
    w.WrN(2, 2);
  }

  method WriteHead(w: Writer, count1: nat, count2: nat, count3: nat)
    requires w.Valid() && w.bits == [] && w.pb == 0
    requires 0x101 <= count1 <= 0x11E && 1 <= count2 <= 0x1E && 4 <= count3 <= 19
    modifies w, w.out
    ensures w.Valid() && w.bits == HeadBits(count1, count2, count3)
    ensures old(w.pd) <= w.pd && forall i :: w.pd <= i < w.out.Length ==> w.out[i] == old(w.out[i])
  {
    hide w.Valid, ToBits, Pow2, StartBits;
    Pow2Values();
    WriteStart(w);
    w.WrN(count1 - 0x101, 5);
    w.WrN(count2 - 1, 5);
    w.WrN(count3 - 4, 4);
    assert w.bits == StartBits() + CountBits(count1, count2, count3);
  }

  method WriteHelper(w: Writer, codeBlen: array<nat>, count3: nat)
    requires w.Valid() && codeBlen.Length >= 19 && Bounded(codeBlen[..19], 7) && count3 <= 19 && w.out as object != codeBlen
    modifies w, w.out
    ensures w.Valid() && w.bits == old(w.bits) + HelperBits(codeBlen[..19], count3)
    ensures old(w.pd) <= w.pd && forall i :: w.pd <= i < w.out.Length ==> w.out[i] == old(w.out[i])
  {
    hide w.Valid, ToBits, Pow2, CodeIndex;
    Pow2Values();
    ghost var was, h := w.bits, codeBlen[..19];
    var i := 0;
    while i < count3
      invariant i <= count3 && w.Valid() && w.bits == was + HelperBits(h, i) && codeBlen[..19] == h
      invariant old(w.pd) <= w.pd && forall i :: w.pd <= i < w.out.Length ==> w.out[i] == old(w.out[i])
    {
      assert h[CodeIndex(i)] == codeBlen[CodeIndex(i)];
      w.WrN(codeBlen[CodeIndex(i)], 3);
      i := i + 1;
    }
  }

  lemma {:induction false} ListPlace(items: seq<Rle>, k: nat)
    requires k < |items| && AllShaped(items)
    ensures ListBytes(items[..k + 1]) == ListBytes(items[..k]) + RleBytes(items[k]) <= ListBytes(items)
    decreases |items|
  {
    hide RleBytes;
    var rest := items[..|items| - 1];
    if k < |rest| {
      assert rest[..k] == items[..k] && rest[..k + 1] == items[..k + 1];
      ListPlace(rest, k);
    } else {
      assert items[..k + 1] == items;
    }
  }

  // the extra bits of an item, as they follow its symbol in the packed lengths
  lemma ExtraOf(r: Rle, h: seq<nat>)
    requires RleShaped(r) && RleCoded(r, h)
    ensures var b, e := RleBytes(r), RleExtra(r);
            && b[0] == RleSym(r) && RleBits(r, h) == SymBits(h, RleSym(r)) + e
            && (b[0] == 16 ==> |b| == 2 && e == ToBits(b[1], 2) && b[1] < Pow2(2))
            && (b[0] == 17 ==> |b| == 2 && e == ToBits(b[1], 3) && b[1] < Pow2(3))
            && (b[0] == 18 ==> |b| == 2 && e == ToBits(b[1], 7) && b[1] < Pow2(7))
            && (b[0] < 16 ==> |b| == 1 && e == [])
  {
    hide SymBits, ToBits;
    Pow2Values();
  }

  // writes the item at place pi of the packed lengths
  method WriteItem(w: Writer, codeHuf: array<HufWr>, codeBuf: array<nat>, pi: nat, ghost r: Rle, ghost h: seq<nat>) returns (next: nat)
    requires w.Valid() && Complete(h, MAX_BITS) && Coding(codeHuf[..], h, |h|) && |w.bits| > 32
    requires RleShaped(r) && RleCoded(r, h)
    requires pi + |RleBytes(r)| <= codeBuf.Length && codeBuf[pi..pi + |RleBytes(r)|] == RleBytes(r)
    requires w.out as object != codeHuf && w.out as object != codeBuf
    modifies w, w.out
    ensures w.Valid() && w.bits == old(w.bits) + RleBits(r, h) && next == pi + |RleBytes(r)|
    ensures old(w.pd) <= w.pd && forall i :: w.pd <= i < w.out.Length ==> w.out[i] == old(w.out[i])
  {
    hide w.Valid, ToBits, Pow2, SymBits, RleBits, RleExtra, RleBytes, RleCoded, Complete, Coding;
    ghost var was, b := w.bits, RleBytes(r);
    ExtraOf(r, h);
    SymHas(r, h);
    assert codeBuf[pi] == b[0] && (|b| == 2 ==> codeBuf[pi + 1] == b[1]);
    var code := codeBuf[pi];
    next := pi + 1;
    SqWrh(w, codeHuf, code, h);
    if code == 16 {
      w.WrN(codeBuf[next], 2);
      next := next + 1;
    } else if code == 17 {
      w.WrN(codeBuf[next], 3);
      next := next + 1;
    } else if code == 18 {
      w.WrN(codeBuf[next], 7);
      next := next + 1;
    }
    assert was + SymBits(h, RleSym(r)) + RleExtra(r) == was + RleBits(r, h);
  }

  lemma SymHas(r: Rle, h: seq<nat>)
    requires RleShaped(r) && RleCoded(r, h)
    ensures RleSym(r) < |h| && h[RleSym(r)] >= 1 && RleSym(r) <= 18
  {
  }

  method WriteItems(w: Writer, codeHuf: array<HufWr>, codeBuf: array<nat>, bufLen: nat, ghost items: seq<Rle>, ghost h: seq<nat>)
    requires w.Valid() && Complete(h, MAX_BITS) && Coding(codeHuf[..], h, |h|) && |w.bits| > 32
    requires AllShaped(items) && AllRle(items, h) && bufLen <= codeBuf.Length && codeBuf[..bufLen] == ListBytes(items)
    requires w.out as object != codeHuf && w.out as object != codeBuf
    modifies w, w.out
    ensures w.Valid() && w.bits == old(w.bits) + ItemsBits(items, h)
    ensures old(w.pd) <= w.pd && forall i :: w.pd <= i < w.out.Length ==> w.out[i] == old(w.out[i])
  {
    hide w.Valid, RleBits, RleBytes, RleCoded, Complete, Coding, ListBytes, ItemsBits;
    ghost var was, buf, k := w.bits, codeBuf[..], 0;
    var pi := 0;
    NoneListed(items, h);
    while pi < bufLen
      invariant k <= |items| && pi == |ListBytes(items[..k])| <= bufLen && codeBuf[..] == buf && codeHuf[..] == old(codeHuf[..])
      invariant w.Valid() && w.bits == was + ItemsBits(items[..k], h)
      invariant old(w.pd) <= w.pd && forall i :: w.pd <= i < w.out.Length ==> w.out[i] == old(w.out[i])
      decreases |items| - k
    {
      SomeLeft(items, k);
      ListPlace(items, k);
      ItemsNext(items, k, h);
      ListSlice(ListBytes(items[..k]), RleBytes(items[k]), buf[..bufLen]);
      SubSlice(buf, bufLen, pi, pi + |RleBytes(items[k])|);
      pi := WriteItem(w, codeHuf, codeBuf, pi, items[k], h);
      k := k + 1;
    }
    AllListed(items, k);
  }

  lemma SomeLeft(items: seq<Rle>, k: nat)
    requires k <= |items| && |ListBytes(items[..k])| < |ListBytes(items)|
    ensures k < |items|
  {
    assert items[..|items|] == items;
  }

  lemma NoneListed(items: seq<Rle>, h: seq<nat>)
    ensures ListBytes(items[..0]) == [] && ItemsBits(items[..0], h) == []
  {
  }

  lemma ListSlice(a: seq<nat>, b: seq<nat>, whole: seq<nat>)
    requires a + b <= whole
    ensures |a| + |b| <= |whole| && whole[|a|..|a| + |b|] == b
  {
    assert whole[..|a| + |b|] == a + b;
  }

  lemma SubSlice(s: seq<nat>, n: nat, a: nat, b: nat)
    requires a <= b <= n <= |s|
    ensures s[..n][a..b] == s[a..b]
  {
  }

  lemma ItemsNext(items: seq<Rle>, k: nat, h: seq<nat>)
    requires k < |items|
    ensures ItemsBits(items[..k + 1], h) == ItemsBits(items[..k], h) + RleBits(items[k], h)
  {
    hide RleBits;
    assert items[..k + 1][..k] == items[..k];
  }

  // every item has a byte, so nothing is left when all bytes are used
  lemma AllListed(items: seq<Rle>, k: nat)
    requires k <= |items| && AllShaped(items) && |ListBytes(items[..k])| >= |ListBytes(items)|
    ensures items[..k] == items
  {
    hide RleBytes;
    if k < |items| { ListPlace(items, k); }
  }

  //////////////////////////////////////////////////////////////////////////////
  // The compressor
  //////////////////////////////////////////////////////////////////////////////

  // moves the first n bytes to the end of the first lout
  method MoveToEnd(pout: array<byte>, n: nat, lout: nat)
    requires n <= lout <= pout.Length
    modifies pout
    ensures pout[lout - n..lout] == old(pout[..n])
  {
    ghost var was := pout[..n];
    var i: nat := n;
    while i > 0
      invariant i <= n && pout[..i] == was[..i]
      invariant forall j :: i <= j < n ==> pout[lout - n + j] == was[j]
    {
      i := i - 1;
      assert was[i] == pout[..i + 1][i];
      pout[lout - n + i] := pout[i];
    }
  }

  // The tables of the stream are written.
  method WriteTables(w: Writer, count1: nat, count2: nat, count3: nat, codeBlen: array<nat>, codeBlcn: array<nat>,
                     codeBuf: array<nat>, bufLen: nat, ghost pl: Plan) returns (bad: bool)
    requires w.Valid() && w.bits == [] && w.pb == 0
    requires 0x101 <= count1 <= 0x11E && 1 <= count2 <= 0x1E && codeBlen.Length == 0x20 && bufLen <= codeBuf.Length
    requires HelperOk(pl.h, count3) && pl.h == codeBlen[..19] && pl.count3 == count3
    requires AllShaped(pl.items) && AllRle(pl.items, pl.h) && codeBuf[..bufLen] == ListBytes(pl.items)
    requires Histogram(codeBlcn[..], pl.h)
    requires codeBlen != codeBlcn && codeBuf != codeBlcn
    requires w.out as object !in {codeBlen, codeBlcn, codeBuf}
    modifies w, w.out, codeBlcn
    ensures !bad && w.Valid()
    ensures w.bits == HeadBits(count1, count2, count3) + (HelperBits(pl.h, count3) + ItemsBits(pl.items, pl.h))
    ensures old(w.pd) <= w.pd && forall i :: w.pd <= i < w.out.Length ==> w.out[i] == old(w.out[i])
  {
    hide w.Valid, HeadBits, HelperBits, ItemsBits, Complete, AllShaped, AllRle, ListBytes, Coding;
    HelperParts(pl.h, count3);
    WriteHead(w, count1, count2, count3);
    WriteHelper(w, codeBlen, count3);
    var codeHuf := new HufWr[0x120];
    assert codeBlen[0..0 + 19] == pl.h;
    bad := SqWrhufi(codeHuf, codeBlen, 0, codeBlcn, 19);
    WriteItems(w, codeHuf, codeBuf, bufLen, pl.items, pl.h);
    assert HeadBits(count1, count2, count3) + HelperBits(pl.h, count3) + ItemsBits(pl.items, pl.h)
        == HeadBits(count1, count2, count3) + (HelperBits(pl.h, count3) + ItemsBits(pl.items, pl.h));
  }

  lemma HelperParts(h: seq<nat>, count3: nat)
    requires HelperOk(h, count3)
    ensures |h| == 19 && Complete(h, MAX_BITS) && Bounded(h, 7) && Bounded(h, MAX_BITS) && 4 <= count3 <= 19
  {
  }

  // where the last whole word ends
  function DataEnd(front: nat, pl: Plan): nat
    requires END_SYM < |pl.c.ch|
  {
    Words(front + |ToksBits(pl.toks, pl.c)| + pl.c.ch[END_SYM] + 16)
  }

  // The buffer is long enough for stream and intermediate code together.
  ghost predicate RoomFor(front: nat, items: seq<Inter>, data: seq<byte>, pl: Plan, lout: nat)
    requires END_SYM < |pl.c.ch|
  {
    AllClear(front, items, data, pl.c, lout) && DataEnd(front, pl) <= lout
  }

  lemma GaveUp(front: nat, items: seq<Inter>, data: seq<byte>, pl: Plan, lout: nat, k: nat)
    requires k <= |items| && pl.toks == InterToks(items, data) && END_SYM < |pl.c.ch|
    requires if k < |items| then !Clear(front, items, data, pl.c, lout, k) || Over(front, items, data, pl.c, lout, k)
             else Over(front, items, data, pl.c, lout, k)
    ensures !RoomFor(front, items, data, pl, lout)
  {
    hide InterBytes, InterToks, ToksBits, SymBits;
    if k == |items| { assert items[..k] == items; }
  }

  // All data are written, so at most an empty run has been left out, and then the stream is too long.
  lemma Reached(front: nat, items: seq<Inter>, data: seq<byte>, pl: Plan, lout: nat, k: nat)
    requires k <= |items| && pl.toks == InterToks(items, data) == InterToks(items[..k], data) && END_SYM < |pl.c.ch|
    requires AllInter(items) && Solid(items, true) && Covered(items[..k]) == Covered(items)
    requires forall i :: 0 <= i < k ==> Clear(front, items, data, pl.c, lout, i)
    requires k < |items| ==> Over(front, items, data, pl.c, lout, k)
    ensures k < |items| ==> DataEnd(front, pl) > lout
    ensures DataEnd(front, pl) <= lout ==> RoomFor(front, items, data, pl, lout)
  {
    hide InterBytes, InterToks, ToksBits, SymBits, AllInter, Solid, Covered, Clear;
    if k < |items| { LittleLeft(items, k); }
  }

  // the end symbol and a word of zeros
  method WriteEnd(w: Writer, chHuf: array<HufWr>, offsHuf: array<HufWr>, ghost c: Codes)
    requires w.Valid() && TablesFit(chHuf, offsHuf, c) && |w.bits| > 32 && w.out as object != chHuf
    modifies w, w.out
    ensures w.Valid() && END_SYM < |c.ch| && c.ch[END_SYM] >= 1
    ensures w.bits == old(w.bits) + SymBits(c.ch, END_SYM) + ToBits(0, 16)
    ensures w.pd == Words(|old(w.bits)| + c.ch[END_SYM] + 16) || (w.pd > w.pe && Words(|old(w.bits)| + c.ch[END_SYM] + 16) > w.pe)
  {
    hide w.Valid, TablesFit, SymBits, ToBits, Complete, Coding;
    FitParts(chHuf, offsHuf, c);
    SqWrh(w, chHuf, TK_END + 0x100, c.ch);
    Pow2Values();
    w.WrN(0, 16);
    w.Size();
  }

  // The data of all tokens, the end symbol, and zeros to flush the buffer; 0 if the pass has to give up.
  method WriteData(w: Writer, pin: seq<byte>, lout: nat, lz: nat, chHuf: array<HufWr>, offsHuf: array<HufWr>,
                   ghost pl: Plan, ghost items: seq<Inter>) returns (n: nat)
    requires w.Valid() && TablesFit(chHuf, offsHuf, pl.c) && lz + |InterBytes(items)| + 1 == lout <= w.out.Length
    requires w.pe == RoundUp2(lout) && |w.bits| > 32 && Solid(items, true)
    requires AllInter(items) && Covered(items) == |pin| && pl.toks == InterToks(items, pin) && AllCoded(pl.toks, pl.c)
    requires w.out as object != chHuf && w.out as object != offsHuf
    requires var code := InterBytes(items) + [TK_END];
             forall i :: w.pd <= i < lout && lz <= i ==> w.out[i] == code[i - lz]
    modifies w, w.out
    ensures n > 0 ==> w.Valid() && n == w.pd
                      && w.bits == old(w.bits) + (ToksBits(pl.toks, pl.c) + SymBits(pl.c.ch, END_SYM)) + ToBits(0, 16)
    ensures 0 < n <= lout <==> RoomFor(|old(w.bits)|, items, pin, pl, lout)
    ensures 0 < n <= lout ==> n == DataEnd(|old(w.bits)|, pl)
  {
    hide w.Valid, TablesFit, AllInter, InterToks, InterBytes, Covered, AllCoded, ToksBits, SymBits, ToBits, Complete, Coding,
      Clear, AllClear, Over, Solid;
    ghost var was := w.bits;
    FitParts(chHuf, offsHuf, pl.c);
    assert items[..|items|] == items;
    var e := new Emitter(w, pin, lout, chHuf, offsHuf, lz, pl.c, items);
    var ok := e.Emit();
    if !ok {
      GaveUp(|was|, items, pin, pl, lout, e.k);
      return 0;
    }
    WriteEnd(w, chHuf, offsHuf, pl.c);
    if e.pi != |pin| {
      GaveUp(|was|, items, pin, pl, lout, e.k);
      return 0;
    }
    NothingLeft(items, e.k, pin);
    n := w.pd;
    Reached(|was|, items, pin, pl, lout, e.k);
    assert was + ToksBits(pl.toks, pl.c) + SymBits(pl.c.ch, END_SYM)
        == was + (ToksBits(pl.toks, pl.c) + SymBits(pl.c.ch, END_SYM));
  }

  // The stream, and whatever may follow it, decodes to the data.
  ghost predicate DecodesAnyway(z: seq<byte>, data: seq<byte>) {
    forall y: seq<byte> :: z <= y ==> Decodes(y, data) && Val(BytesBits(y), 0, 32) == SQ_0_0
  }

  // The stream decodes to the data for every buffer large enough.
  ghost predicate Decodes(z: seq<byte>, data: seq<byte>) {
    forall buf: seq<byte> :: |buf| >= |data| ==> DecodesInto(z, buf, data)
  }

  ghost predicate DecodesInto(z: seq<byte>, buf: seq<byte>, data: seq<byte>) {
    var r := Decode(z, buf);
    r.Done? && r.n == |data| && r.buf[..|data|] == data
  }

  lemma PlanDecodes(z: seq<byte>, data: seq<byte>, pl: Plan)
    requires PlanOk(pl) && Starts(BytesBits(z), 0, StreamBits(pl)) && Produce(pl.toks) == Some(data)
    ensures Decodes(z, data)
  {
    hide *;
    forall buf: seq<byte> | |buf| >= |data| ensures DecodesInto(z, buf, data) {
      var b := StreamDecodes(z, pl, buf);
      InDone(z, buf, data, b);
    }
    DecodesAll(z, data);
  }

  lemma InDone(z: seq<byte>, buf: seq<byte>, data: seq<byte>, b: seq<byte>)
    requires Decode(z, buf) == Done(|data|, b) && |b| >= |data| && b[..|data|] == data
    ensures DecodesInto(z, buf, data)
  {
  }

  lemma DecodesAll(z: seq<byte>, data: seq<byte>)
    requires forall buf: seq<byte> :: |buf| >= |data| ==> DecodesInto(z, buf, data)
    ensures Decodes(z, data)
  {
    hide DecodesInto;
  }

  // the bits of the stream are all among the bytes stored
  lemma Flushed(out: seq<byte>, n: nat, body: seq<bool>, rest: seq<bool>)
    requires n <= |out| && body + ToBits(0, 16) == BytesBits(out[..n]) + rest && |rest| <= 16
    ensures Starts(BytesBits(out[..n]), 0, body)
  {
    hide BytesBits, ToBits;
    var s := BytesBits(out[..n]);
    assert (body + ToBits(0, 16))[..|body|] == body && (s + rest)[..|body|] == s[..|body|];
    assert s[0..0 + |body|] == s[..|body|];
  }

  // the plan of the stream for the codes and tables built
  lemma PlanReady(pl: Plan, ch: seq<nat>, off: seq<nat>)
    requires HelperOk(pl.h, pl.count3) && AllRle(pl.items, pl.h) && Expand(pl.items).acc == pl.c.ch + pl.c.off
    requires CodesServe(pl.c, ch, off) && AllCounted(pl.toks, ch, off)
    ensures PlanOk(pl) && AllCoded(pl.toks, pl.c)
  {
    hide Complete, AllRle, AllCounted, AllCoded, Serves;
    CountedCoded(pl.toks, pl.c, ch, off);
  }

  // encoding tables for the two codes; false if a code is not complete
  method EncodingTables(chBlen: array<nat>, count1: nat, count2: nat, chBlcn: array<nat>, offsBlcn: array<nat>, ghost c: Codes)
    returns (bad: bool, chHuf: array<HufWr>, offsHuf: array<HufWr>)
    requires count1 <= 0x11E && count2 <= 0x1E && count1 + count2 <= chBlen.Length
    requires c == Codes(chBlen[..count1], chBlen[count1..count1 + count2])
    requires CodesOk(c) && c.ch[END_SYM] >= 1
    requires Histogram(chBlcn[..], c.ch) && Histogram(offsBlcn[..], c.off)
    requires chBlcn != offsBlcn && chBlen != chBlcn && chBlen != offsBlcn
    modifies chBlcn, offsBlcn
    ensures !bad && fresh(chHuf) && fresh(offsHuf) && TablesFit(chHuf, offsHuf, c)
  {
    hide Complete, Coding;
    chHuf, offsHuf := new HufWr[0x120], new HufWr[0x20];
    WithinMax(c);
    assert chBlen[0..0 + count1] == c.ch;
    bad := SqWrhufi(chHuf, chBlen, 0, chBlcn, count1);
    if !bad { bad := SqWrhufi(offsHuf, chBlen, count1, offsBlcn, count2); }
  }

  lemma WithinMax(c: Codes)
    requires CodesOk(c)
    ensures Complete(c.ch, MAX_BITS) && Complete(c.off, MAX_BITS) && Bounded(c.ch, MAX_BITS) && Bounded(c.off, MAX_BITS)
  {
  }

  // the two codes with their lengths run-length coded
  method Tables(chCn: array<nat>, offsCn: array<nat>, ghost toks: seq<LzTok>)
    returns (count1: nat, count2: nat, count3: nat, chBlen: array<nat>, chBlcn: array<nat>, offsBlcn: array<nat>,
             codeBuf: array<nat>, bufLen: nat, codeBlen: array<nat>, codeBlcn: array<nat>, ghost pl: Plan)
    requires chCn.Length == 0x120 && offsCn.Length == 0x20 && chCn != offsCn && chCn[0x100] > 0
    requires AllCounted(toks, chCn[..], offsCn[..])
    modifies chCn, offsCn
    ensures fresh(chBlen) && fresh(chBlcn) && fresh(offsBlcn) && fresh(codeBuf) && fresh(codeBlen) && fresh(codeBlcn)
    ensures {chBlen} !! {chBlcn, offsBlcn, codeBlcn} && chBlcn != offsBlcn
    ensures codeBlcn !in {chBlcn, offsBlcn, codeBlen, codeBuf}
    ensures 0x101 <= count1 <= 0x11E && 2 <= count2 <= 0x1E && chBlen.Length == 0x140
    ensures codeBlen.Length == 0x20 && bufLen <= codeBuf.Length && codeBuf[..bufLen] == ListBytes(pl.items)
    ensures PlanOk(pl) && AllCoded(pl.toks, pl.c) && pl.toks == toks && pl.count3 == count3
    ensures pl.c == Codes(chBlen[..count1], chBlen[count1..count1 + count2])
    ensures pl.h == codeBlen[..19] && AllShaped(pl.items)
    ensures Histogram(chBlcn[..], pl.c.ch) && Histogram(offsBlcn[..], pl.c.off) && Histogram(codeBlcn[..], pl.h)
  {
    hide CodesServe, Complete, Histogram, Packed, AllShaped, AllRle, HelperOk, AllCoded, AllCounted;
    ghost var ch, off := chCn[..], offsCn[..];
    ghost var c;
    count1, count2, chBlen, chBlcn, offsBlcn, c := MainCodes(chCn, offsCn);
    ServeParts(c, ch, off);
    BoundedBoth(chBlen[..], count1, count2);
    ghost var lens, h1, h2 := chBlen[..], chBlcn[..], offsBlcn[..];
    ghost var items;
    codeBuf, bufLen, codeBlen, codeBlcn, count3, items := PackLengths(chBlen, count1 + count2);
    assert chBlen[..] == lens && chBlcn[..] == h1 && offsBlcn[..] == h2;
    pl := Plan(c, codeBlen[..19], count3, items, toks);
    PackedParts(items, codeBuf[..bufLen], chBlen[..count1 + count2], pl.h);
    assert chBlen[..count1 + count2] == c.ch + c.off;
    PlanReady(pl, ch, off);
  }

  // The plan writes the intermediate code of the data.
  ghost predicate Planned(items: seq<Inter>, data: seq<byte>, pl: Plan) {
    && AllInter(items) && Covered(items) == |data| && Solid(items, true)
    && PlanOk(pl) && pl.toks == InterToks(items, data) && Produce(pl.toks) == Some(data)
  }

  lemma PlannedIs(items: seq<Inter>, data: seq<byte>, pl: Plan)
    requires AllInter(items) && Covered(items) == |data| && Solid(items, true)
    requires PlanOk(pl) && pl.toks == InterToks(items, data) && Produce(pl.toks) == Some(data)
    ensures Planned(items, data, pl)
    ensures |HeadBits(|pl.c.ch|, |pl.c.off|, pl.count3) + (HelperBits(pl.h, pl.count3) + ItemsBits(pl.items, pl.h))| == FrontSize(pl)
  {
    hide Complete, AllRle, AllCoded, HelperBits, ItemsBits;
  }

  // the bits before the data
  function FrontSize(pl: Plan): nat
    requires PlanOk(pl)
  {
    49 + |TableBits(pl)|
  }

  // with the zeros behind it the stream takes its whole words
  lemma SizeOfStream(pl: Plan)
    requires PlanOk(pl)
    ensures DataEnd(FrontSize(pl), pl) == Words(|StreamBits(pl)| + 16)
  {
    hide Complete, AllRle, AllCoded, HelperBits, ItemsBits, ToksBits, SymBits;
  }

  // n bytes hold the stream, which never ran into the intermediate code
  ghost predicate Succeeds(n: nat, items: seq<Inter>, data: seq<byte>, pl: Plan, lout: nat) {
    Planned(items, data, pl) && RoomFor(FrontSize(pl), items, data, pl, lout) && n == Words(|StreamBits(pl)| + 16)
  }

  // the stream runs into the intermediate code, or beyond the end of the buffer
  ghost predicate Overlaps(items: seq<Inter>, data: seq<byte>, pl: Plan, lout: nat) {
    Planned(items, data, pl) && !RoomFor(FrontSize(pl), items, data, pl, lout)
  }

  lemma Verdict(n: nat, items: seq<Inter>, data: seq<byte>, pl: Plan, lout: nat)
    requires Planned(items, data, pl)
    requires if 0 < n <= lout then RoomFor(FrontSize(pl), items, data, pl, lout) && n == DataEnd(FrontSize(pl), pl)
             else !RoomFor(FrontSize(pl), items, data, pl, lout)
    ensures if 0 < n <= lout then Succeeds(n, items, data, pl, lout) else Overlaps(items, data, pl, lout)
  {
    hide Complete, AllRle, AllCoded, AllInter, Covered, Solid, InterToks, Produce, HelperOk, CodesOk, RoomFor;
    SizeOfStream(pl);
  }

  // the second half of sq_comp, with the intermediate code at lz
  method Encode(pin: seq<byte>, pout: array<byte>, lout: nat, lz: nat, chCn: array<nat>, offsCn: array<nat>, ghost items: seq<Inter>)
    returns (n: nat, ghost pl: Plan)
    requires lz <= lout && RoundUp2(lout) <= pout.Length && chCn.Length == 0x120 && offsCn.Length == 0x20 && chCn != offsCn
    requires pout as object != chCn && pout as object != offsCn
    requires LzDone(items, pin, pout[lz..lout], chCn[..], offsCn[..])
    modifies pout, chCn, offsCn
    ensures 0 < n <= lout ==> DecodesAnyway(pout[..n], pin)
    ensures if 0 < n <= lout then Succeeds(n, items, pin, pl, lout) else Overlaps(items, pin, pl, lout)
  {
    hide LzDone, PlanOk, DecodesAnyway, Histogram, AllShaped, AllRle, AllCoded, AllCounted, TablesFit, StreamBits,
      Writer.Valid, HeadBits, HelperBits, ItemsBits, ToksBits, SymBits, AllInter, Covered, InterToks, InterBytes, ToBits, ListBytes,
      Complete, Pow2, Produce, Solid, AllClear, RoomFor, Planned, Succeeds, Overlaps;
    ghost var code := pout[lz..lout];
    DoneParts(items, pin, code, chCn[..], offsCn[..]);
    var count1, count2, count3, chBlen, chBlcn, offsBlcn, codeBuf, bufLen, codeBlen, codeBlcn;
    count1, count2, count3, chBlen, chBlcn, offsBlcn, codeBuf, bufLen, codeBlen, codeBlcn, pl :=
      Tables(chCn, offsCn, InterToks(items, pin));
    PlanIs(pl);
    PlannedIs(items, pin, pl);
    n := 0;
    var w := new Writer(pout, lout);
    ghost var lens, h1, h2 := chBlen[..], chBlcn[..], offsBlcn[..];
    var bad := WriteTables(w, count1, count2, count3, codeBlen, codeBlcn, codeBuf, bufLen, pl);
    if bad { return; }
    assert chBlen[..] == lens && chBlcn[..] == h1 && offsBlcn[..] == h2;
    var chHuf, offsHuf;
    bad, chHuf, offsHuf := EncodingTables(chBlen, count1, count2, chBlcn, offsBlcn, pl.c);
    if bad { return; }
    forall i | w.pd <= i < lout && lz <= i ensures pout[i] == code[i - lz] { }
    n := WriteData(w, pin, lout, lz, chHuf, offsHuf, pl, items);
    Verdict(n, items, pin, pl, lout);
    if 0 < n <= lout { Finished(w, pout, n, pin, pl); }
  }

  // The stream is in the buffer and decodes to the data.
  lemma Finished(w: Writer, pout: array<byte>, n: nat, pin: seq<byte>, pl: Plan)
    requires w.Valid() && w.out == pout && n == w.pd <= w.pe && PlanOk(pl) && Produce(pl.toks) == Some(pin)
    requires w.bits == StreamBits(pl) + ToBits(0, 16)
    ensures n <= pout.Length && DecodesAnyway(pout[..n], pin)
  {
    hide *;
    w.Stored();
    Flushed(pout[..], n, StreamBits(pl), ToBits(w.buf, w.pb));
    assert pout[..][..n] == pout[..n];
    PrefixDecodes(pout[..n], pin, pl);
  }

  lemma PrefixDecodes(z: seq<byte>, data: seq<byte>, pl: Plan)
    requires PlanOk(pl) && Starts(BytesBits(z), 0, StreamBits(pl)) && Produce(pl.toks) == Some(data)
    ensures DecodesAnyway(z, data)
  {
    hide PlanOk, Starts, BytesBits, StreamBits, Produce, Decodes, Val;
    forall y: seq<byte> | z <= y ensures Decodes(y, data) && Val(BytesBits(y), 0, 32) == SQ_0_0 {
      StartsLonger(z, y, StreamBits(pl));
      PlanDecodes(y, data, pl);
      StreamStarts(BytesBits(y), pl);
    }
  }

  lemma StreamStarts(s: seq<bool>, pl: Plan)
    requires PlanOk(pl) && Starts(s, 0, StreamBits(pl))
    ensures Val(s, 0, 32) == SQ_0_0
  {
    hide *;
    var n := CountBits(|pl.c.ch|, |pl.c.off|, pl.count3) by { PlanParts(pl); }
    Regroup(pl);
    StartsConcat(s, 0, StartBits(), n + TableBits(pl) + DataBits(pl));
    HeadCode(s);
  }

  lemma HeadCode(s: seq<bool>)
    requires Starts(s, 0, StartBits())
    ensures Val(s, 0, 32) == SQ_0_0
  {
    hide Starts, Val, ToBits, Pow2, Shl;
    Pow2Values();
    var sq := ToBits(0x53, 8) + ToBits(0x51, 8);
    StartsConcat(s, 0, sq + ToBits(0, 16) + ToBits(1, 1), ToBits(2, 2));
    StartsConcat(s, 0, sq + ToBits(0, 16), ToBits(1, 1));
    StartsConcat(s, 0, sq, ToBits(0, 16));
    StartsConcat(s, 0, ToBits(0x53, 8), ToBits(0x51, 8));
    StartsVal(s, 0, 0x53, 8);
    StartsVal(s, 8, 0x51, 8);
    StartsVal(s, 16, 0, 16);
    ValSplit(s, 0, 16, 16);
    ValSplit(s, 0, 8, 8);
    ShlSteps(0x51);
    ShlSteps(0);
  }

  lemma StartsLonger(z: seq<byte>, y: seq<byte>, b: seq<bool>)
    requires z <= y && Starts(BytesBits(z), 0, b)
    ensures Starts(BytesBits(y), 0, b)
  {
    hide BytesBits;
    assert y == z + y[|z|..];
    BytesBitsConcat(z, y[|z|..]);
    assert BytesBits(y)[0..0 + |b|] == BytesBits(z)[0..0 + |b|];
  }

  lemma PlanIs(pl: Plan)
    requires PlanOk(pl)
    ensures CodesOk(pl.c) && pl.c.ch[END_SYM] >= 1 && HelperOk(pl.h, pl.count3) && AllRle(pl.items, pl.h) && AllCoded(pl.toks, pl.c)
    ensures StreamBits(pl) == HeadBits(|pl.c.ch|, |pl.c.off|, pl.count3) + (HelperBits(pl.h, pl.count3) + ItemsBits(pl.items, pl.h))
                              + (ToksBits(pl.toks, pl.c) + SymBits(pl.c.ch, END_SYM))
  {
    hide Complete, AllRle, AllCoded, HeadBits, HelperBits, ItemsBits, ToksBits, SymBits;
  }

  lemma DoneParts(items: seq<Inter>, data: seq<byte>, bytes: seq<byte>, ch: seq<nat>, off: seq<nat>)
    requires LzDone(items, data, bytes, ch, off)
    ensures AllInter(items) && bytes == InterBytes(items) + [TK_END] && Covered(items) == |data|
    ensures Produce(InterToks(items, data)) == Some(data) && AllCounted(InterToks(items, data), ch, off)
    ensures |ch| == 0x120 && ch[0x100] > 0 && Solid(items, true)
  {
  }

  lemma ServeParts(c: Codes, ch: seq<nat>, off: seq<nat>)
    requires CodesServe(c, ch, off)
    ensures CodesOk(c) && c.ch[END_SYM] >= 1 && Bounded(c.ch, 15) && Bounded(c.off, 15) && END_SYM == 0x100
  {
    hide Complete;
  }

  lemma BoundedBoth(lens: seq<nat>, a: nat, b: nat)
    requires a + b <= |lens| && Bounded(lens[..a], 15) && Bounded(lens[a..a + b], 15)
    ensures Bounded(lens[..a + b], 15)
  {
    assert lens[..a + b] == lens[..a] + lens[a..a + b];
  }

  lemma PackedParts(items: seq<Rle>, bytes: seq<nat>, lens: seq<nat>, h: seq<nat>)
    requires Packed(items, bytes, lens, h)
    ensures bytes == ListBytes(items) && AllShaped(items) && AllRle(items, h) && Expand(items).acc == lens
  {
  }

  const NO_PLAN := Plan(Codes([], []), [], 0, [], [])

  // sq_comp: the number of bytes written, 0 or more than lout if the data do not fit
  // with the intermediate code and the plan of the stream, as far as they were made
  method SqComp(pin: seq<byte>, pout: array<byte>, lout: nat, flg: nat, addr: nat)
    returns (n: nat, ghost items: seq<Inter>, ghost pl: Plan)
    requires RoundUp2(lout) <= pout.Length && flg % 16 < |COMP_RAT_TAB|
    modifies pout
    ensures 0 < n <= lout ==> DecodesAnyway(pout[..n], pin)
    ensures if 0 < n <= lout then Succeeds(n, items, pin, pl, lout)
            else |pin| == 0 || lout < 0x20 || TooLong(items, pin, lout - 0x20) || Overlaps(items, pin, pl, lout)
  {
    hide LzDone, CodesServe, DecodesAnyway, Complete, Histogram, InterBytes, TooLong, Succeeds, Overlaps, InterToks;
    pl := NO_PLAN;
    var chCn, offsCn := new nat[0x120](_ => 0), new nat[0x20](_ => 0);
    var lzLength: nat;
    lzLength, items := Complz(pin, pout, lout, COMP_RAT_TAB[flg % 16], chCn, offsCn, addr);
    if lzLength == 0 { return 0, items, pl; }
    MoveToEnd(pout, lzLength, lout);
    n, pl := Encode(pin, pout, lout, lout - lzLength, chCn, offsCn, items);
  }

  // compressing and decompressing again
  method RoundTrip(pin: seq<byte>, pout: array<byte>, lout: nat, flg: nat, addr: nat, back: array<byte>, garbage: nat)
    returns (n: nat, res: SqDecompress.Result)
    requires RoundUp2(lout) <= pout.Length && flg % 16 < |COMP_RAT_TAB| && garbage < Pow2(32) && pout != back
    requires back.Length >= |pin|
    modifies pout, back
    ensures 0 < n <= lout ==> res == SqDecompress.Length(|pin|) && back[..|pin|] == pin
  {
    hide Decode, DecodesAnyway, Succeeds, Overlaps, TooLong, Pow2;
    ghost var items, pl;
    n, items, pl := SqComp(pin, pout, lout, flg, addr);
    if n == 0 || n > lout { return n, SqDecompress.Fault; }
    DecodesEach(pout[..n], back[..], pin);
    res := SqDecompress.SqDec(pout[..n], back, garbage);
  }

  lemma DecodesEach(z: seq<byte>, buf: seq<byte>, data: seq<byte>)
    requires DecodesAnyway(z, data) && |buf| >= |data|
    ensures DecodesInto(z, buf, data)
  {
    assert Decodes(z, data);
  }
}
