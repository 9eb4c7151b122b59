/**
 The block header of SQ: the code lengths of the two codes, run-length coded with a helper
 code, and with it the whole decoder.
 */
module SqHeader {
  import opened Bits
  import opened Lz
  import opened LzTokens
  import opened Canonical
  import opened SqCodes
  import opened SqRead
  import opened SqFormat

  //////////////////////////////////////////////////////////////////////////////
  // Run-length coded code lengths
  //////////////////////////////////////////////////////////////////////////////

  // one length, 3 to 6 repeats of the last one, or 3 to 138 zeros
  datatype Rle = Len(v: nat) | Again(n: nat) | Zeros(n: nat)

  // the lengths produced and the last one noted
  datatype RleState = RleState(acc: seq<nat>, last: nat)

  function RleStep(r: Rle, st: RleState): RleState {
    match r
    case Len(v) => RleState(st.acc + [v], v)
    case Again(n) => RleState(st.acc + Copies(st.last, n), st.last)
    case Zeros(n) => RleState(st.acc + Copies(0, n), 0)
  }

  function Expand(items: seq<Rle>): RleState {
    if items == [] then RleState([], 0) else RleStep(items[|items| - 1], Expand(items[..|items| - 1]))
  }

  // the symbol of the helper code an item is written with
  function RleSym(r: Rle): nat {
    match r
    case Len(v) => v
    case Again(_) => 16
    case Zeros(n) => if n <= 10 then 17 else 18
  }

  predicate RleCoded(r: Rle, h: seq<nat>) {
    && RleSym(r) < |h| && h[RleSym(r)] >= 1
    && match r
       case Len(v) => v <= 15
       case Again(n) => 3 <= n <= 6
       case Zeros(n) => 3 <= n <= 138
  }

  function RleExtra(r: Rle): seq<bool>
    requires r.Again? || r.Zeros? ==> r.n >= 3
  {
    match r
    case Len(v) => []
    case Again(n) => ToBits(n - 3, 2)
    case Zeros(n) => if n <= 10 then ToBits(n - 3, 3) else ToBits(n - 11, 7)
  }

  function RleBits(r: Rle, h: seq<nat>): seq<bool> {
    if RleCoded(r, h) then SymBits(h, RleSym(r)) + RleExtra(r) else []
  }

  function ItemsBits(items: seq<Rle>, h: seq<nat>): seq<bool> {
    if items == [] then [] else ItemsBits(items[..|items| - 1], h) + RleBits(items[|items| - 1], h)
  }

  // one item read at pos, and where it ends
  function ReadItem(h: seq<nat>, s: seq<bool>, pos: nat): (r: (Rle, nat))
    requires Complete(h, MAX_BITS) && |h| <= 19
    ensures match r.0 case Len(v) => v <= 15 case Again(n) => n >= 3 case Zeros(n) => n >= 3
  {
    var u := DecodeSym(h, MAX_BITS, s, pos);
    var pos1 := pos + h[u];
    if u == 16 then (Again(Val(s, pos1, 2) + 3), pos1 + 2)
    else if u == 17 then (Zeros(Val(s, pos1, 3) + 3), pos1 + 3)
    else if u == 18 then (Zeros(Val(s, pos1, 7) + 11), pos1 + 7)
    else (Len(u), pos1)
  }

  // The lengths read from pos on until there are at least `total`.
  function ReadLens(h: seq<nat>, s: seq<bool>, pos: nat, total: nat, st: RleState): (r: (seq<nat>, nat))
    requires Complete(h, MAX_BITS) && |h| <= 19 && Bounded(st.acc, 15) && st.last <= 15
    ensures |r.0| >= total && Bounded(r.0, 15) && r.1 >= pos
    decreases total - |st.acc|
  {
    if |st.acc| >= total then (st.acc, pos)
    else
      var (item, pos1) := ReadItem(h, s, pos);
      ReadLens(h, s, pos1, total, RleStep(item, st))
  }

  lemma ReadExtra(s: seq<bool>, pos: nat, r: Rle, h: seq<nat>)
    requires RleCoded(r, h) && Starts(s, pos, RleExtra(r))
    ensures r.Again? ==> Val(s, pos, 2) == r.n - 3
    ensures r.Zeros? && r.n <= 10 ==> Val(s, pos, 3) == r.n - 3
    ensures r.Zeros? && r.n > 10 ==> Val(s, pos, 7) == r.n - 11
  {
    hide Starts, Val, ToBits;
    Pow2Values();
    match r
    case Len(v) =>
    case Again(n) => StartsVal(s, pos, n - 3, 2);
    case Zeros(n) => if n <= 10 { StartsVal(s, pos, n - 3, 3); } else { StartsVal(s, pos, n - 11, 7); }
  }

  lemma ReadOneItem(h: seq<nat>, s: seq<bool>, pos: nat, r: Rle)
    requires Complete(h, MAX_BITS) && |h| <= 19 && RleCoded(r, h) && Starts(s, pos, RleBits(r, h))
    ensures ReadItem(h, s, pos) == (r, pos + |RleBits(r, h)|)
  {
    hide SymBits, Complete, DecodeSym, Starts, Val, ToBits, RleExtra, CodeLen, CodeOf, ValM, Pow2;
    ReadSym(h, s, pos, RleSym(r), RleExtra(r));
    ReadExtra(s, pos + h[RleSym(r)], r, h);
    ExtraSize(r, h);
  }

  lemma ExtraSize(r: Rle, h: seq<nat>)
    requires RleCoded(r, h)
    ensures |RleExtra(r)| == if r.Len? then 0 else if r.Again? then 2 else if r.n <= 10 then 3 else 7
  {
  }

  ghost predicate AllRle(items: seq<Rle>, h: seq<nat>) {
    forall i :: 0 <= i < |items| ==> RleCoded(items[i], h)
  }

  lemma {:induction false} ItemsAt(s: seq<bool>, pos: nat, items: seq<Rle>, h: seq<nat>, i: nat)
    requires i < |items| && Starts(s, pos, ItemsBits(items, h))
    ensures Starts(s, pos + |ItemsBits(items[..i], h)|, RleBits(items[i], h))
    ensures ItemsBits(items[..i + 1], h) == ItemsBits(items[..i], h) + RleBits(items[i], h)
    ensures Expand(items[..i + 1]) == RleStep(items[i], Expand(items[..i]))
    decreases |items|
  {
    hide Starts, RleBits;
    var rest, last := items[..|items| - 1], items[|items| - 1];
    StartsConcat(s, pos, ItemsBits(rest, h), RleBits(last, h));
    assert items[..i + 1][..i] == items[..i];
    if i < |items| - 1 {
      assert rest[..i] == items[..i] && rest[..i + 1] == items[..i + 1];
      ItemsAt(s, pos, rest, h, i);
    } else {
      assert items[..i + 1] == items;
    }
  }

  lemma {:induction false} ExpandGrows(items: seq<Rle>, h: seq<nat>, i: nat)
    requires AllRle(items, h) && i <= |items|
    ensures |Expand(items[..i]).acc| + (|items| - i) <= |Expand(items).acc|
    ensures Expand(items[..i]).last <= 15 && Bounded(Expand(items[..i]).acc, 15)
    decreases |items|
  {
    if i < |items| {
      var rest := items[..|items| - 1];
      assert rest[..i] == items[..i];
      ExpandGrows(rest, h, i);
    } else {
      assert items[..i] == items;
      if items != [] {
        var rest := items[..|items| - 1];
        assert rest[..|rest|] == rest;
        ExpandGrows(rest, h, |rest|);
      }
    }
  }

  // Lengths written as items are read back.
  lemma {:induction false} ReadItems(h: seq<nat>, s: seq<bool>, base: nat, items: seq<Rle>, i: nat)
    requires Complete(h, MAX_BITS) && |h| <= 19 && AllRle(items, h) && i <= |items|
    requires Starts(s, base, ItemsBits(items, h))
    ensures Bounded(Expand(items[..i]).acc, 15) && Expand(items[..i]).last <= 15
    ensures ReadLens(h, s, base + |ItemsBits(items[..i], h)|, |Expand(items).acc|, Expand(items[..i]))
            == (Expand(items).acc, base + |ItemsBits(items, h)|)
    decreases |items| - i
  {
    hide Complete, Starts, RleBits, RleStep, Bounded, ReadItem;
    ExpandGrows(items, h, i);
    if i < |items| {
      ItemsAt(s, base, items, h, i);
      ReadOneItem(h, s, base + |ItemsBits(items[..i], h)|, items[i]);
      ReadItems(h, s, base, items, i + 1);
    } else {
      assert items[..i] == items;
    }
  }

  //////////////////////////////////////////////////////////////////////////////
  // The helper code
  //////////////////////////////////////////////////////////////////////////////

  function HelperBits(h: seq<nat>, k: nat): (b: seq<bool>)
    requires |h| == 19 && k <= 19
    ensures |b| == 3 * k
  {
    if k == 0 then [] else HelperBits(h, k - 1) + ToBits(h[CodeIndex(k - 1)], 3)
  }

  function CodeIndex(i: nat): (j: nat)
    requires i < 19
    ensures j < 19
  {
    assert forall k :: 0 <= k < 19 ==> CODE_INDEX[k] < 19;
    CODE_INDEX[i]
  }

  // The helper lengths: count3 of them are stored, the rest is zero.
  function HelperLens(s: seq<bool>, pos: nat, count3: nat, k: nat): (h: seq<nat>)
    requires count3 <= 19 && k <= 19
    ensures |h| == 19 && Bounded(h, 7)
  {
    if k == 0 then Copies(0, 19)
    else
      Pow2Values();
      HelperLens(s, pos, count3, k - 1)[CodeIndex(k - 1) := if k - 1 < count3 then Val(s, pos + 3 * (k - 1), 3) else 0]
  }

  lemma {:induction false} HelperBitsAt(s: seq<bool>, pos: nat, h: seq<nat>, n: nat, k: nat)
    requires |h| == 19 && k < n <= 19 && Starts(s, pos, HelperBits(h, n))
    ensures Starts(s, pos + 3 * k, ToBits(h[CodeIndex(k)], 3))
    decreases n
  {
    hide Starts, ToBits, CodeIndex;
    StartsConcat(s, pos, HelperBits(h, n - 1), ToBits(h[CodeIndex(n - 1)], 3));
    if k < n - 1 { HelperBitsAt(s, pos, h, n - 1, k); }
  }

  lemma {:induction false} ReadHelper(s: seq<bool>, pos: nat, h: seq<nat>, count3: nat, k: nat)
    requires |h| == 19 && Bounded(h, 7) && count3 <= 19 && k <= 19 && Starts(s, pos, HelperBits(h, count3))
    requires forall i :: count3 <= i < 19 ==> h[CodeIndex(i)] == 0
    ensures forall i :: 0 <= i < k ==> HelperLens(s, pos, count3, k)[CodeIndex(i)] == h[CodeIndex(i)]
    decreases k
  {
    hide Starts, ToBits, CodeIndex, Val;
    if k > 0 {
      ReadHelper(s, pos, h, count3, k - 1);
      if k - 1 < count3 {
        Pow2Values();
        HelperBitsAt(s, pos, h, count3, k - 1);
        StartsVal(s, pos + 3 * (k - 1), h[CodeIndex(k - 1)], 3);
      }
    }
  }

  // every place of the helper table occurs in the storage order
  lemma IndexOnto(j: nat) returns (i: nat)
    requires j < 19
    ensures i < 19 && CodeIndex(i) == j
  {
    var pos: seq<nat> := [3, 17, 15, 13, 11, 9, 7, 5, 4, 6, 8, 10, 12, 14, 16, 18, 0, 1, 2];
    assert forall k :: 0 <= k < 10 ==> pos[k] < 19 && CODE_INDEX[pos[k]] == k;
    assert forall k :: 10 <= k < 19 ==> pos[k] < 19 && CODE_INDEX[pos[k]] == k;
    i := pos[j];
  }

  lemma HelperRead(s: seq<bool>, pos: nat, h: seq<nat>, count3: nat)
    requires |h| == 19 && Bounded(h, 7) && count3 <= 19 && Starts(s, pos, HelperBits(h, count3))
    requires forall i :: count3 <= i < 19 ==> h[CodeIndex(i)] == 0
    ensures HelperLens(s, pos, count3, 19) == h
  {
    hide Starts, CodeIndex, HelperLens;
    ReadHelper(s, pos, h, count3, 19);
    forall j | 0 <= j < 19 ensures HelperLens(s, pos, count3, 19)[j] == h[j] {
      var i := IndexOnto(j);
    }
  }

  //////////////////////////////////////////////////////////////////////////////
  // The whole decoder
  //////////////////////////////////////////////////////////////////////////////

  // The result of sq_dec: the number of bytes, an error (0), or something outside the model.
  datatype Outcome = Done(n: nat, buf: seq<byte>) | Failed(buf: seq<byte>) | Unmodelled(buf: seq<byte>)

  // the codes announced at pos, and where the data start
  datatype Header = Header(codes: Codes, pos: nat) | BadHeader | UnmodelledHeader

  function ReadCodes(s: seq<bool>, pos: nat, count1: nat, count2: nat, count3: nat): (r: Header)
    requires 0x101 <= count1 <= 0x11E && count2 <= 0x1E && count3 <= 19
    ensures r.Header? ==> CodesOk(r.codes) && r.pos >= pos
  {
    var h := HelperLens(s, pos, count3, 19);
    match TabCheck(h)
    case TabBad => BadHeader
    case TabUndefined => UnmodelledHeader
    case TabGood =>
      var (acc, pos1) := ReadLens(h, s, pos + 3 * count3, count1 + count2, RleState([], 0));
      var off, ch := acc[count1..count1 + count2], acc[..count1];
      match TabCheck(off)
      case TabBad => BadHeader
      case TabUndefined => UnmodelledHeader
      case TabGood =>
        match TabCheck(ch)
        case TabBad => BadHeader
        case TabUndefined => UnmodelledHeader
        case TabGood => Header(Codes(ch, off), pos1)
  }

  // submethod 2
  function ReadHeader(s: seq<bool>, pos: nat): (r: Header)
    ensures r.Header? ==> CodesOk(r.codes) && r.pos >= pos
  {
    Pow2Values();
    var count1, count2, count3 := Val(s, pos, 5) + 0x101, Val(s, pos + 5, 5) + 1, Val(s, pos + 10, 4) + 4;
    if count1 > 0x11E || count2 > 0x1E then BadHeader else ReadCodes(s, pos + 14, count1, count2, count3)
  }

  // the blocks from pos on
  function DecodeFrom(s: seq<bool>, pos: nat, buf: seq<byte>, p: nat): (r: Outcome)
    requires p <= |buf|
    ensures |r.buf| == |buf| && (r.Done? ==> r.n <= |buf|)
    decreases if pos < |s| then |s| - pos else 0
  {
    var final, method_ := Val(s, pos, 1), Val(s, pos + 1, 2);
    if method_ == 3 then Failed(buf)
    else if method_ != 2 then Unmodelled(buf)
    else
      if pos >= |s| then
        ValPastEnd(s, pos + 1, 2);
        assert false;
        Failed(buf)
      else
        match ReadHeader(s, pos + 3)
        case BadHeader => Failed(buf)
        case UnmodelledHeader => Unmodelled(buf)
        case Header(c, pos1) =>
          match DecodeBlock(c, s, pos1, buf, p)
          case Error(b) => Failed(b)
          case At(pos2, b, p2) =>
            DecodeBlockMoves(c, s, pos1, buf, p);
            if final == 0 && p2 < |b| then DecodeFrom(s, pos2, b, p2) else Done(p2, b)
  }

  lemma {:induction false} DecodeBlockMoves(c: Codes, s: seq<bool>, pos: nat, buf: seq<byte>, p: nat)
    requires CodesOk(c) && p <= |buf|
    ensures DecodeBlock(c, s, pos, buf, p).At? ==> DecodeBlock(c, s, pos, buf, p).pos > pos
    decreases |buf| - p
  {
    hide *;
    TokSyms(Lit(0), c);
    var sym := DecodeSym(c.ch, MAX_BITS, s, pos);
    var pos1 := pos + c.ch[sym];
    SymLong(c.ch, s, pos);
    if sym == END_SYM {
      BlockEnd(c, s, pos, buf, p);
    } else if p == |buf| {
      BlockOver(c, s, pos, buf, p);
    } else {
      BlockStep(c, s, pos, buf, p);
      if sym < END_SYM {
        DecodeBlockMoves(c, s, pos1, buf[p := sym], p + 1);
      } else {
        RepMoves(c, s, pos1, sym - 0x101, buf, p);
        var st := DecodeRep(c, s, pos1, sym - 0x101, buf, p);
        DecodeBlockMoves(c, s, st.pos, st.buf, st.p);
      }
    }
  }

  lemma SymLong(lens: seq<nat>, s: seq<bool>, pos: nat)
    requires Complete(lens, MAX_BITS)
    ensures DecodeSym(lens, MAX_BITS, s, pos) < |lens| && lens[DecodeSym(lens, MAX_BITS, s, pos)] >= 1
  {
  }

  lemma BlockOver(c: Codes, s: seq<bool>, pos: nat, buf: seq<byte>, p: nat)
    requires CodesOk(c) && p == |buf| && DecodeSym(c.ch, MAX_BITS, s, pos) != END_SYM
    ensures DecodeBlock(c, s, pos, buf, p) == Error(buf)
  {
    hide Complete, DecodeSym;
  }

  lemma RepMoves(c: Codes, s: seq<bool>, pos: nat, u: nat, buf: seq<byte>, p: nat)
    requires CodesOk(c) && u < 29 && p < |buf|
    ensures DecodeRep(c, s, pos, u, buf, p).pos >= pos
  {
    hide Complete, DecodeSym, Val, CopyBack;
  }

  // sq_dec
  function Decode(data: seq<byte>, buf: seq<byte>): (r: Outcome)
    ensures |r.buf| == |buf| && (r.Done? ==> r.n <= |buf|)
  {
    var s := BytesBits(data);
    if Val(s, 0, 8) != 0x53 || Val(s, 8, 8) != 0x51 then Failed(buf) else DecodeFrom(s, 32, buf, 0)
  }
}
