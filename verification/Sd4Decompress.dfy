/**
 `sd4_decomp`, the Stacker 4 decompressor: for every input it computes `Sd4Header.Decode4`.
 */
module Sd4Decompress {
  import opened Bits
  import opened Lz
  import opened Canonical
  import opened MsbStream
  import opened Sd4Stream
  import opened Sd4Codes
  import opened Sd4Read
  import opened Sd4Format
  import opened Sd4Header

  const CODE_AREA4 := 0x180

  //////////////////////////////////////////////////////////////////////////////
  // The helper code
  //////////////////////////////////////////////////////////////////////////////

  // cells i to ie; returns the greatest value seen
  method FillCells(r: Reader4, ca: array<nat>, i0: nat, ie: nat, bmax0: nat) returns (bmax: nat)
    requires r.Valid() && ca.Length == CODE_AREA4 && ie < 32 && Bounded(ca[..32], 15)
    modifies r, ca
    ensures r.Valid() && (ca[..32], r.pos) == ReadCells(r.S(), old(r.pos), old(ca[..32]), i0, ie)
    ensures Bounded(ca[..32], 15)
  {
    hide r.Valid, ValM, Pow2;
    ghost var s := r.S();
    Pow2Values();
    var i := i0;
    bmax := bmax0;
    while i <= ie
      invariant r.Valid() && Bounded(ca[..32], 15)
      invariant ReadCells(s, old(r.pos), old(ca[..32]), i0, ie) == ReadCells(s, r.pos, ca[..32], i, ie)
      decreases ie + 1 - i
    {
      ghost var was := ca[..32];
      var u := r.RdN(4);
      ca[i] := u;
      assert ca[..32] == was[i := ca[i]];
      if u > bmax { bmax := u; }
      i := i + 1;
    }
  }

  // table 1: the lengths of the helper code
  method ReadTable1(r: Reader4, ca: array<nat>) returns (ok: bool, bmax1: nat, bmax2: nat)
    requires r.Valid() && ca.Length == CODE_AREA4 && ca[..32] == Copies(0, 32)
    modifies r, ca
    ensures r.Valid()
    ensures match ReadHelper4(r.S(), old(r.pos))
            case NoHelper4 => !ok
            case Helper4(h, pos) => ok && r.pos == pos && ca[..HELPERS] == h && Bounded(h, BITS4)
  {
    hide r.Valid, ValM, Pow2, ReadCells;
    Pow2Values();
    var i := r.RdN(3);
    i := i + 1;
    bmax2 := r.RdN(5);
    if i > bmax2 { return false, 0, bmax2; }
    var c := r.RdN(4);
    ca[0] := c;
    assert ca[..32] == Copies(0, 32)[0 := c];
    bmax1 := FillCells(r, ca, i, bmax2, c);
    if bmax2 != 0x15 { bmax1 := FillCells(r, ca, 0x10, 0x15, bmax1); }
    assert ca[..HELPERS] == ca[..32][..HELPERS];
    ok := true;
  }

  //////////////////////////////////////////////////////////////////////////////
  // The lengths of the main code
  //////////////////////////////////////////////////////////////////////////////

  // stores n times v from place i on
  method FillRun4(ca: array<nat>, i: nat, v: nat, n: nat)
    requires i + n <= ca.Length
    modifies ca
    ensures ca[..i + n] == old(ca[..i]) + Copies(v, n)
  {
    var k := 0;
    while k < n
      invariant k <= n && ca[..i] == old(ca[..i])
      invariant forall j :: i <= j < i + k ==> ca[j] == v
    {
      ca[i + k] := v;
      k := k + 1;
    }
  }

  method RdThrees(r: Reader4) returns (n: nat)
    requires r.Valid()
    modifies r
    ensures r.Valid() && ReadThrees(r.S(), old(r.pos)) == (n, r.pos)
  {
    hide r.Valid, ValM;
    ghost var s := r.S();
    n := 0;
    while true
      invariant r.Valid()
      invariant ReadThrees(s, old(r.pos)) == (n + ReadThrees(s, r.pos).0, ReadThrees(s, r.pos).1)
      decreases if r.pos < |s| then |s| - r.pos else 0
    {
      if r.pos >= |s| { ValMPastEnd(s, r.pos, 3); }
      var u := r.RdN(3);
      n := n + u;
      if u != 7 { break; }
    }
  }

  method RdSevens(r: Reader4) returns (n: nat)
    requires r.Valid()
    modifies r
    ensures r.Valid() && ReadSevens(r.S(), old(r.pos)) == (n, r.pos)
  {
    hide r.Valid, ValM;
    ghost var s := r.S();
    n := 0;
    while true
      invariant r.Valid()
      invariant ReadSevens(s, old(r.pos)) == (n + ReadSevens(s, r.pos).0, ReadSevens(s, r.pos).1)
      decreases if r.pos < |s| then |s| - r.pos else 0
    {
      if r.pos >= |s| { ValMPastEnd(s, r.pos, 7); }
      var u := r.RdN(7);
      n := n + u;
      if u != 0x7F { break; }
    }
  }

  // a symbol of the helper code with its fields: a run
  method RdRun(r: Reader4, huf: Huf4, ghost h: seq<nat>) returns (item: Run4)
    requires r.Valid() && huf.Decodes(h, 0x10) && |h| == HELPERS && r !in huf.Parts()
    modifies r
    ensures r.Valid() && Complete(h, BITS4) && ReadRun4(h, r.S(), old(r.pos)) == (item, r.pos)
  {
    hide r.Valid, huf.Decodes, ValM, DecodeSym, Complete, ReadThrees, ReadSevens;
    var token, u := huf.RdSym(r, h, 0x10);
    if !token { return L(u); }
    if u == 1 { return Z(2); }
    if u == 2 { return Z(3); }
    if u == 3 {
      var n := r.RdN(3);
      if n != 7 { return Z(4 + n); }
      var m := RdSevens(r);
      return Z(11 + m);
    }
    if u == 4 { return R(2); }
    if u == 5 { return R(3); }
    var n := RdThrees(r);
    item := R(4 + n);
  }

  // one run in place
  method PutRun4(ca: array<nat>, i: nat, item: Run4) returns (end: nat)
    requires i + (if item.L? then 1 else item.n) <= ca.Length && (item.R? ==> i > 0)
    modifies ca
    ensures end == i + (if item.L? then 1 else item.n) && ca[..end] == RunOut(item, old(ca[..i]))
  {
    match item {
      case L(v) =>
        FillRun4(ca, i, v, 1);
        end := i + 1;
      case Z(n) =>
        FillRun4(ca, i, 0, n);
        end := i + n;
      case R(n) =>
        FillRun4(ca, i, ca[i - 1], n);
        end := i + n;
    }
  }

  // table 2: the lengths of the main code
  method ReadTable2(r: Reader4, huf: Huf4, ca: array<nat>, ghost h: seq<nat>) returns (ok: bool)
    requires r.Valid() && huf.Decodes(h, 0x10) && |h| == HELPERS && r !in huf.Parts()
    requires ca !in huf.Parts() && ca.Length == CODE_AREA4
    modifies r, ca
    ensures r.Valid() && Complete(h, BITS4)
    ensures match ReadLens4(h, r.S(), old(r.pos), [])
            case Nowhere => !ok
            case Got(acc, pos) => ok && r.pos == pos && |acc| <= CODE_AREA4 && ca[..|acc|] == acc
  {
    hide r.Valid, huf.Decodes, Complete, ReadRun4, RunOut, Bounded;
    ghost var s := r.S();
    HufComplete(huf, h);
    var i := 0;
    NoneRead();
    while i < SYMS4
      invariant r.Valid() && huf.Decodes(h, 0x10) && i <= SYMS4 + 2 && Bounded(ca[..i], 15)
      invariant ReadLens4(h, s, old(r.pos), []) == ReadLens4(h, s, r.pos, ca[..i])
      decreases SYMS4 - i
    {
      ghost var acc := ca[..i];
      var item := RdRun(r, huf, h);
      item := CutRun(item, SYMS4 - i);
      if item.R? && i == 0 { return false; }
      i := PutRun4(ca, i, item);
      RunStep(item, acc);
    }
    ok := true;
  }

  lemma NoneRead()
    ensures Bounded([], 15)
  {
  }

  lemma HufComplete(huf: Huf4, h: seq<nat>)
    requires huf.Decodes(h, 0x10)
    ensures Complete(h, BITS4)
  {
  }

  lemma RunStep(r: Run4, acc: seq<nat>)
    requires Bounded(acc, 15) && (r.R? ==> acc != [])
    ensures (r.L? ==> r.v <= 15) ==> Bounded(RunOut(r, acc), 15)
  {
  }

  //////////////////////////////////////////////////////////////////////////////
  // The data
  //////////////////////////////////////////////////////////////////////////////

  // a long count
  method RdCount(r: Reader4) returns (n: nat)
    requires r.Valid()
    modifies r
    ensures r.Valid() && ReadCount4(r.S(), old(r.pos)) == (n, r.pos)
  {
    hide r.Valid, ValM, Pow2;
    n := 0x15;
    var u := r.RdN(4);
    n := n + u;
    if n == 0x15 + 0xF {
      u := r.RdN(8);
      n := n + u;
      if n == 0x15 + 0xF + 0xFF {
        u := r.RdN(12);
        n := n + u;
        if n == 0x15 + 0xF + 0xFF + 0xFFF {
          u := r.RdN(16);
          n := n + u;
        }
      }
    }
  }

  // the fields of token u: offset and count
  method RdFields(r: Reader4, u: nat) returns (m: nat, n: nat)
    requires r.Valid() && 1 <= u < 0x50
    modifies r
    ensures r.Valid() && ReadFields(r.S(), old(r.pos), u) == Fields(m, n, r.pos)
  {
    hide r.Valid, ValM, RepsM, RepsB, ProgLen, ProgAdd, ReadCount4, Pow2;
    Pow2Values();
    if u < 0x40 {
      var g := (u - 1) / 3;
      n := (u - 1) % 3 + 3;
      m := r.RdN(RepsB(g));
      m := m + RepsM(g);
    } else {
      var i := r.RdN(2);
      m := r.RdN(ProgLen(i));
      m := m + ProgAdd(i);
      n := u - 0x40 + 6;
      if n == 0x15 { n := RdCount(r); }
    }
  }

  // what remains of decoding when a token has been read
  ghost predicate Ahead4(lens: seq<nat>, s: seq<bool>, whole: State4, u: nat, pos: nat, buf: seq<byte>, p: nat)
    requires Complete(lens, BITS4) && |lens| == SYMS4
  {
    if u == 0x100 then
      p == |buf| && whole == DecodeData(lens, s, pos, buf, p)
    else if u == 0x50 then
      p <= |buf| && whole == At4(pos, buf, p)
    else
      && 1 <= u < 0x50 && p < |buf|
      && var f := ReadFields(s, pos, u);
         var n := Min4(f.n, |buf| - p);
         whole == DecodeData(lens, s, f.pos, CopyBack(buf, p, Min4(f.m, p), n), p + n)
  }

  // one symbol of the data
  method RdData(r: Reader4, huf: Huf4, ghost lens: seq<nat>, ghost buf: seq<byte>, ghost p: nat) returns (token: bool, ch: nat)
    requires r.Valid() && huf.Decodes(lens, 0x100) && |lens| == SYMS4 && r !in huf.Parts() && p < |buf|
    modifies r
    ensures r.Valid() && Complete(lens, BITS4)
    ensures !token ==> ch < 0x100 && DecodeData(lens, r.S(), old(r.pos), buf, p) == DecodeData(lens, r.S(), r.pos, buf[p := ch], p + 1)
    ensures token ==> 1 <= ch <= 0x50 && Ahead4(lens, r.S(), DecodeData(lens, r.S(), old(r.pos), buf, p), ch, r.pos, buf, p)
  {
    hide r.Valid, huf.Decodes, DecodeSym, Complete, DecodeData, ReadFields, CopyBack;
    ghost var s, pos := r.S(), r.pos;
    token, ch := huf.RdSym(r, lens, 0x100);
    DataStep(lens, s, pos, buf, p);
    if DecodeSym(lens, BITS4, s, pos) == END4 { DataEnd(lens, s, pos, buf, p); }
  }

  // characters up to the next token or the end of the buffer (0x100)
  method Rdh4(r: Reader4, huf: Huf4, pout: array<byte>, p: nat, ghost lens: seq<nat>) returns (u: nat, p': nat)
    requires r.Valid() && huf.Decodes(lens, 0x100) && |lens| == SYMS4 && r !in huf.Parts() && pout !in huf.Parts()
    requires p <= pout.Length && Complete(lens, BITS4)
    modifies r, pout
    ensures r.Valid() && p <= p' <= pout.Length
    ensures Ahead4(lens, r.S(), DecodeData(lens, r.S(), old(r.pos), old(pout[..]), p), u, r.pos, pout[..], p')
  {
    hide r.Valid, huf.Decodes, DecodeData, Complete, Ahead4;
    ghost var s := r.S();
    p' := p;
    while true
      invariant r.Valid() && huf.Decodes(lens, 0x100) && p <= p' <= pout.Length
      invariant DecodeData(lens, s, old(r.pos), old(pout[..]), p) == DecodeData(lens, s, r.pos, pout[..], p')
      decreases pout.Length - p'
    {
      ghost var was := pout[..];
      if p' >= pout.Length {
        FullAhead(lens, s, r.pos, was, p');
        return 0x100, p';
      }
      var token, ch := RdData(r, huf, lens, was, p');
      if token { return ch, p'; }
      pout[p'] := ch;
      assert pout[..] == was[p' := pout[p']];
      p' := p' + 1;
    }
  }

  lemma FullAhead(lens: seq<nat>, s: seq<bool>, pos: nat, buf: seq<byte>, p: nat)
    requires Complete(lens, BITS4) && |lens| == SYMS4 && p == |buf|
    ensures Ahead4(lens, s, DecodeData(lens, s, pos, buf, p), 0x100, pos, buf, p)
  {
    hide DecodeData, Complete;
  }

  // a repetition; offset and count are cut to the buffer
  method CopyRep4(r: Reader4, pout: array<byte>, p: nat, u: nat) returns (p': nat)
    requires r.Valid() && p < pout.Length && 1 <= u < 0x50
    modifies r, pout
    ensures r.Valid() && p < p' <= pout.Length
    ensures var f := ReadFields(r.S(), old(r.pos), u);
            var n := Min4(f.n, pout.Length - p);
            r.pos == f.pos && pout[..] == CopyBack(old(pout[..]), p, Min4(f.m, p), n) && p' == p + n
  {
    hide r.Valid, ReadFields, CopyBack;
    var m, n := RdFields(r, u);
    if m > p { m := p; }
    if p + n > pout.Length { n := pout.Length - p; }
    MovSb(pout, p, m, n);
    p' := p + n;
  }

  // The code of the last symbol is the last one of its length.
  lemma LastCode(lens: seq<nat>, s: seq<bool>, pos: nat)
    requires Complete(lens, BITS4) && |lens| == SYMS4
    ensures DecodeSym(lens, BITS4, s, pos) == END4 <==> lens[END4] > 0 && ValM(s, pos, lens[END4]) == Space(lens, lens[END4]) - 1
    ensures lens[END4] > 0 ==> Space(lens, lens[END4]) >= 1
  {
    hide ValM, Complete;
    var l := lens[END4];
    if l > 0 {
      assert lens == lens[..END4] + [l] && lens[..END4 + 1] == lens;
      CountNext(lens, END4, l);
      assert CodeOf(lens, END4) == Space(lens, l) - 1;
      if ValM(s, pos, l) == Space(lens, l) - 1 { DecodeSymUnique(lens, BITS4, s, pos, END4); }
    }
  }

  lemma DataFull(lens: seq<nat>, s: seq<bool>, pos: nat, buf: seq<byte>, p: nat)
    requires Complete(lens, BITS4) && |lens| == SYMS4 && p == |buf|
    ensures DecodeData(lens, s, pos, buf, p)
            == if DecodeSym(lens, BITS4, s, pos) == END4 then At4(pos + lens[END4], buf, p) else Error4(buf)
  {
    hide Complete, DecodeSym;
  }

  // The data. When the buffer is full, the next bits are compared with the code of the end symbol.
  method DecData(r: Reader4, huf: Huf4, pout: array<byte>, len150: nat, ghost lens: seq<nat>) returns (ok: bool, p: nat)
    requires r.Valid() && huf.Decodes(lens, 0x100) && |lens| == SYMS4 && r !in huf.Parts() && pout !in huf.Parts()
    requires Complete(lens, BITS4) && len150 == lens[END4]
    modifies r, pout
    ensures r.Valid()
    ensures match DecodeData(lens, r.S(), old(r.pos), old(pout[..]), 0)
            case Error4(b) => !ok && b == pout[..]
            case At4(_, b, q) => ok && b == pout[..] && q == p
  {
    hide r.Valid, huf.Decodes, DecodeData, ReadFields, CopyBack, Complete, DecodeSym, ValM, Space;
    ghost var s := r.S();
    var u;
    u, p := Rdh4(r, huf, pout, 0, lens);
    while u < 0x50
      invariant r.Valid() && huf.Decodes(lens, 0x100) && p <= pout.Length
      invariant Ahead4(lens, s, DecodeData(lens, s, old(r.pos), old(pout[..]), 0), u, r.pos, pout[..], p)
      decreases pout.Length - p
    {
      p := CopyRep4(r, pout, p, u);
      u, p := Rdh4(r, huf, pout, p, lens);
    }
    if u == 0x100 {
      DataFull(lens, s, r.pos, pout[..], p);
      LastCode(lens, s, r.pos);
      if len150 > 0 {
        ShortLen(lens, END4);
        var last := LastOf(huf, lens, len150);
        var i := r.RdN(len150);
        if i == last { u := 0x50; }
      }
    }
    ok := u == 0x50;
  }

  // cd_ch: the last code of a length
  method LastOf(huf: Huf4, ghost lens: seq<nat>, l: nat) returns (c: int)
    requires huf.Decodes(lens, 0x100) && 1 <= l <= 15
    ensures c == Space(lens, l) - 1
  {
    c := huf.cdCh[l] as int - 1;
  }

  // The result of sd4_decomp, apart from the buffer.
  datatype Result4 = Length4(n: nat) | Fault4 | Outside4

  function With4(r: Result4, buf: seq<byte>): Outcome4 {
    match r
    case Length4(n) => Done4(n, buf)
    case Fault4 => Failed4(buf)
    case Outside4 => NotModelled4(buf)
  }

  // the two tables
  method ReadTables4(r: Reader4, huf: Huf4) returns (st: Check4, len150: nat, ghost lens: seq<nat>)
    requires r.Valid() && r.pos == 16 && huf.Shape() && r !in huf.Parts()
    modifies r, huf.Parts()
    ensures r.Valid()
    ensures match ReadHead4(r.S())
            case BadHead4 => st == Bad4
            case UnmodelledHead4 => st == Undefined4
            case Head4(ls, pos) => st == Good4 && ls == lens && r.pos == pos && huf.Decodes(lens, 0x100) && len150 == lens[END4]
  {
    hide r.Valid, huf.Decodes, TabCheck4, ReadHelper4, ReadLens4, Complete, List4;
    lens, len150 := [], 0;
    var ca := new nat[CODE_AREA4](_ => 0);
    assert ca[..32] == Copies(0, 32);
    var ok, bmax1, bmax2 := ReadTable1(r, ca);
    if !ok { return Bad4, len150, lens; }
    ghost var h := ca[..HELPERS];
    ca[HELPERS] := SENTINEL4;
    ListNow(ca[..], h);
    st := huf.RdHufi(0x10, if 7 < bmax1 then 7 else bmax1, ca, h);
    if st != Good4 { return; }
    ok := ReadTable2(r, huf, ca, h);
    if !ok { return Undefined4, len150, lens; }
    ghost var acc := ReadLens4(h, r.S(), ReadHelper4(r.S(), 16).pos, []).lens;
    lens := acc[..SYMS4];
    ca[SYMS4] := SENTINEL4;
    assert ca[..SYMS4] == lens;
    len150 := ca[END4];
    assert len150 == lens[END4];
    LensBounded(acc);
    ListNow(ca[..], lens);
    st := huf.RdHufi(0x100, bmax2, ca, lens);
  }

  lemma LensBounded(acc: seq<nat>)
    requires Bounded(acc, 15) && |acc| >= SYMS4
    ensures Bounded(acc[..SYMS4], BITS4)
  {
  }

  lemma ListNow(ca: seq<nat>, lens: seq<nat>)
    requires |lens| < |ca| && ca[..|lens|] == lens && ca[|lens|] == SENTINEL4 && Bounded(lens, BITS4)
    ensures List4(ca, lens)
  {
  }

  // sd4_decomp: what is decompressed is `Decode4`, whatever the input
  method Sd4Decomp(data: seq<byte>, pout: array<byte>, garbage: nat) returns (res: Result4)
    requires garbage < Pow2(32)
    modifies pout
    ensures With4(res, pout[..]) == Decode4(data, old(pout[..]))
  {
    hide ValM, Pow2, Stream, ReadHead4, DecodeData, Huf4.Decodes;
    var r := new Reader4(data, garbage);
    var u := r.RdN(16);
    if u != MAGIC4 { return Fault4; }
    var huf := new Huf4();
    var st, len150;
    ghost var lens;
    st, len150, lens := ReadTables4(r, huf);
    if st == Bad4 { return Fault4; }
    if st == Undefined4 { return Outside4; }
    var ok, p := DecData(r, huf, pout, len150, lens);
    res := if ok then Length4(p) else Fault4;
  }
}
