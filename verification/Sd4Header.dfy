/**
 The head of a Stacker 4 stream: the helper code with its own lengths, the lengths of the main
 code as runs, and with them the whole decoder.
 */
module Sd4Header {
  import opened Bits
  import opened Lz
  import opened LzTokens
  import opened Canonical
  import opened MsbStream
  import opened Sd4Stream
  import opened Sd4Codes
  import opened Sd4Format

  const HELPERS := 22
  const MAGIC4 := 0x81

  //////////////////////////////////////////////////////////////////////////////
  // Runs of code lengths
  //////////////////////////////////////////////////////////////////////////////

  // one length, n zeros, or n times the last one
  datatype Run4 = L(v: nat) | Z(n: nat) | R(n: nat)

  predicate Shaped4(r: Run4) {
    if r.L? then r.v <= 15 else r.n >= 2
  }

  function RunSym(r: Run4): (i: nat)
    requires Shaped4(r)
    ensures i < HELPERS
  {
    match r
    case L(v) => v
    case Z(n) => if n == 2 then 16 else if n == 3 then 17 else 18
    case R(n) => if n == 2 then 19 else if n == 3 then 20 else 21
  }

  // what a run adds to the lengths before it
  function RunOut(r: Run4, acc: seq<nat>): (a: seq<nat>)
    requires r.R? ==> acc != []
    ensures |a| == |acc| + if r.L? then 1 else r.n
  {
    match r
    case L(v) => acc + [v]
    case Z(n) => acc + Copies(0, n)
    case R(n) => acc + Copies(acc[|acc| - 1], n)
  }

  // the lengths the runs stand for; a repetition must not come first
  function Expand4(items: seq<Run4>): Option<seq<nat>> {
    if items == [] then Some([])
    else
      var r := items[|items| - 1];
      match Expand4(items[..|items| - 1])
      case None => None
      case Some(acc) => if Shaped4(r) && (r.R? ==> acc != []) then Some(RunOut(r, acc)) else None
  }

  function Threes(j: nat): seq<bool> {
    if j < 7 then ToBitsM(j, 3) else ToBitsM(7, 3) + Threes(j - 7)
  }

  function Sevens(j: nat): seq<bool> {
    if j < 0x7F then ToBitsM(j, 7) else ToBitsM(0x7F, 7) + Sevens(j - 0x7F)
  }

  function RunExtra(r: Run4): seq<bool> {
    if r.L? || r.n < 4 then []
    else if r.R? then Threes(r.n - 4)
    else if r.n < 11 then ToBitsM(r.n - 4, 3) else ToBitsM(7, 3) + Sevens(r.n - 11)
  }

  predicate RunCoded(r: Run4, h: seq<nat>) {
    Shaped4(r) && |h| == HELPERS && h[RunSym(r)] >= 1
  }

  function RunBits4(r: Run4, h: seq<nat>): seq<bool> {
    if RunCoded(r, h) then SymBits(h, RunSym(r)) + RunExtra(r) else []
  }

  function RunsBits(items: seq<Run4>, h: seq<nat>): seq<bool> {
    if items == [] then [] else RunsBits(items[..|items| - 1], h) + RunBits4(items[|items| - 1], h)
  }

  ghost predicate AllRuns(items: seq<Run4>, h: seq<nat>) {
    forall i :: 0 <= i < |items| ==> RunCoded(items[i], h)
  }

  //////////////////////////////////////////////////////////////////////////////
  // Reading runs
  //////////////////////////////////////////////////////////////////////////////

  // fields of three bits until one is not full
  function ReadThrees(s: seq<bool>, pos: nat): (r: (nat, nat))
    ensures r.1 > pos
    decreases if pos < |s| then |s| - pos else 0
  {
    var v := ValM(s, pos, 3);
    if v != 7 || pos >= |s| then (v, pos + 3) else var (w, q) := ReadThrees(s, pos + 3); (7 + w, q)
  }

  function ReadSevens(s: seq<bool>, pos: nat): (r: (nat, nat))
    ensures r.1 > pos
    decreases if pos < |s| then |s| - pos else 0
  {
    var v := ValM(s, pos, 7);
    if v != 0x7F || pos >= |s| then (v, pos + 7) else var (w, q) := ReadSevens(s, pos + 7); (0x7F + w, q)
  }

  // a run read at pos, and where it ends
  function ReadRun4(h: seq<nat>, s: seq<bool>, pos: nat): (r: (Run4, nat))
    requires Complete(h, BITS4) && |h| == HELPERS
    ensures Shaped4(r.0)
  {
    var u := DecodeSym(h, BITS4, s, pos);
    var pos1 := pos + h[u];
    if u < 16 then (L(u), pos1)
    else if u == 16 then (Z(2), pos1)
    else if u == 17 then (Z(3), pos1)
    else if u == 18 then
      var a := ValM(s, pos1, 3);
      if a != 7 then (Z(4 + a), pos1 + 3) else var (w, q) := ReadSevens(s, pos1 + 3); (Z(11 + w), q)
    else if u == 19 then (R(2), pos1)
    else if u == 20 then (R(3), pos1)
    else var (w, q) := ReadThrees(s, pos1); (R(4 + w), q)
  }

  // the long forms are cut to the room that is left
  function CutRun(r: Run4, room: nat): (c: Run4)
    requires room >= 1
  {
    if r.L? || r.n < 4 || r.n <= room then r
    else if r.Z? then Z(room) else R(room)
  }

  // the lengths read, or an attempt to repeat a length before there is one
  datatype Lens4 = Got(lens: seq<nat>, pos: nat) | Nowhere

  function ReadLens4(h: seq<nat>, s: seq<bool>, pos: nat, acc: seq<nat>): (r: Lens4)
    requires Complete(h, BITS4) && |h| == HELPERS && Bounded(acc, 15)
    ensures r.Got? ==> |r.lens| >= SYMS4 && Bounded(r.lens, 15)
    decreases SYMS4 - |acc|
  {
    if |acc| >= SYMS4 then Got(acc, pos)
    else
      var (item, pos1) := ReadRun4(h, s, pos);
      var r := CutRun(item, SYMS4 - |acc|);
      if r.R? && acc == [] then Nowhere else ReadLens4(h, s, pos1, RunOut(r, acc))
  }

  //////////////////////////////////////////////////////////////////////////////
  // Runs are read back
  //////////////////////////////////////////////////////////////////////////////

  lemma {:induction false} ThreesRead(s: seq<bool>, pos: nat, j: nat)
    requires Starts(s, pos, Threes(j))
    ensures ReadThrees(s, pos) == (j, pos + |Threes(j)|)
    decreases j
  {
    hide ToBitsM, ValM, Starts, Pow2;
    Pow2Values();
    if j < 7 {
      assert ToBitsM(j, 3) == ToBitsM(j, 3) + [];
      StartsFieldM(s, pos, j, 3, []);
    } else {
      StartsFieldM(s, pos, 7, 3, Threes(j - 7));
      StartsInside(s, pos, Threes(j));
      ThreesRead(s, pos + 3, j - 7);
    }
  }

  lemma {:induction false} SevensRead(s: seq<bool>, pos: nat, j: nat)
    requires Starts(s, pos, Sevens(j))
    ensures ReadSevens(s, pos) == (j, pos + |Sevens(j)|)
    decreases j
  {
    hide ToBitsM, ValM, Starts, Pow2;
    Pow2Values();
    if j < 0x7F {
      assert ToBitsM(j, 7) == ToBitsM(j, 7) + [];
      StartsFieldM(s, pos, j, 7, []);
    } else {
      StartsFieldM(s, pos, 0x7F, 7, Sevens(j - 0x7F));
      StartsInside(s, pos, Sevens(j));
      SevensRead(s, pos + 7, j - 0x7F);
    }
  }

  lemma StartsInside(s: seq<bool>, pos: nat, b: seq<bool>)
    requires Starts(s, pos, b)
    ensures |b| > 0 ==> pos < |s|
  {
  }

  lemma RunRead(h: seq<nat>, s: seq<bool>, pos: nat, r: Run4)
    requires Complete(h, BITS4) && RunCoded(r, h) && Starts(s, pos, RunBits4(r, h))
    ensures ReadRun4(h, s, pos) == (r, pos + |RunBits4(r, h)|)
  {
    hide SymBits, Complete, DecodeSym, Starts, ValM, ToBitsM, Threes, Sevens, ReadThrees, ReadSevens, Pow2;
    ReadSym4(h, s, pos, RunSym(r), RunExtra(r));
    var pos1 := pos + h[RunSym(r)];
    Pow2Values();
    if !r.L? && r.n >= 4 {
      if r.R? {
        ThreesRead(s, pos1, r.n - 4);
      } else if r.n < 11 {
        assert RunExtra(r) == ToBitsM(r.n - 4, 3) + [];
        StartsFieldM(s, pos1, r.n - 4, 3, []);
      } else {
        StartsFieldM(s, pos1, 7, 3, Sevens(r.n - 11));
        SevensRead(s, pos1 + 3, r.n - 11);
      }
    }
  }

  // one more run on both sides
  lemma {:induction false} RunsAt(s: seq<bool>, pos: nat, items: seq<Run4>, h: seq<nat>, i: nat)
    requires i < |items| && Starts(s, pos, RunsBits(items, h)) && Expand4(items).Some?
    ensures Starts(s, pos + |RunsBits(items[..i], h)|, RunBits4(items[i], h))
    ensures RunsBits(items[..i + 1], h) == RunsBits(items[..i], h) + RunBits4(items[i], h)
    ensures var a, b := Expand4(items[..i]), Expand4(items[..i + 1]);
            && a.Some? && (items[i].R? ==> a.value != []) && b == Some(RunOut(items[i], a.value)) && Shaped4(items[i])
            && |b.value| <= |Expand4(items).value|
    decreases |items|
  {
    hide Starts, RunBits4;
    var rest, last := items[..|items| - 1], items[|items| - 1];
    StartsConcat(s, pos, RunsBits(rest, h), RunBits4(last, h));
    assert items[..i + 1][..i] == items[..i];
    if i < |items| - 1 {
      assert rest[..i] == items[..i] && rest[..i + 1] == items[..i + 1];
      RunsAt(s, pos, rest, h, i);
    } else {
      assert items[..i + 1] == items;
    }
  }

  lemma {:induction false} ExpandBounded(items: seq<Run4>)
    ensures Expand4(items).Some? ==> Bounded(Expand4(items).value, 15)
  {
    if items != [] { ExpandBounded(items[..|items| - 1]); }
  }

  // Lengths written as runs are read back.
  lemma {:induction false} RunsRead(h: seq<nat>, s: seq<bool>, base: nat, items: seq<Run4>, i: nat)
    requires Complete(h, BITS4) && |h| == HELPERS && AllRuns(items, h) && i <= |items|
    requires Starts(s, base, RunsBits(items, h)) && Expand4(items).Some? && |Expand4(items).value| == SYMS4
    ensures Expand4(items[..i]).Some? && Bounded(Expand4(items[..i]).value, 15)
    ensures ReadLens4(h, s, base + |RunsBits(items[..i], h)|, Expand4(items[..i]).value)
            == Got(Expand4(items).value, base + |RunsBits(items, h)|)
    decreases |items| - i
  {
    hide Complete, Starts, RunBits4, RunOut, Bounded, ReadRun4, RunCoded;
    ExpandBounded(items[..i]);
    if i < |items| {
      RunsAt(s, base, items, h, i);
      RunRead(h, s, base + |RunsBits(items[..i], h)|, items[i]);
      RunsRead(h, s, base, items, i + 1);
    } else {
      assert items[..i] == items;
    }
  }

  //////////////////////////////////////////////////////////////////////////////
  // The helper code
  //////////////////////////////////////////////////////////////////////////////

  function Cells(h: seq<nat>, i: nat, ie: nat): (b: seq<bool>)
    requires ie < |h|
    ensures |b| == if i <= ie then 4 * (ie + 1 - i) else 0
    decreases ie + 1 - i
  {
    if i > ie then [] else ToBitsM(h[i], 4) + Cells(h, i + 1, ie)
  }

  function HelperBits4(h: seq<nat>, lo: nat, hi: nat): seq<bool>
    requires |h| == HELPERS && 1 <= lo && hi <= 15
  {
    ToBitsM(lo - 1, 3) + (ToBitsM(hi, 5) + (ToBitsM(h[0], 4) + (Cells(h, lo, hi) + Cells(h, 16, 21))))
  }

  // cells i to ie read into the table
  function ReadCells(s: seq<bool>, pos: nat, ca: seq<nat>, i: nat, ie: nat): (r: (seq<nat>, nat))
    requires |ca| == 32 && ie < 32 && Bounded(ca, 15)
    ensures |r.0| == 32 && Bounded(r.0, 15)
    decreases ie + 1 - i
  {
    if i > ie then (ca, pos)
    else
      Pow2Values();
      ReadCells(s, pos + 4, ca[i := ValM(s, pos, 4)], i + 1, ie)
  }

  datatype Helper4 = Helper4(h: seq<nat>, pos: nat) | NoHelper4

  function ReadHelper4(s: seq<bool>, pos: nat): (r: Helper4)
    ensures r.Helper4? ==> |r.h| == HELPERS && Bounded(r.h, 15)
  {
    Pow2Values();
    var lo, hi := ValM(s, pos, 3) + 1, ValM(s, pos + 3, 5);
    if lo > hi then NoHelper4
    else
      var (ca, pos1) := ReadCells(s, pos + 12, Copies(0, 32)[0 := ValM(s, pos + 8, 4)], lo, hi);
      var (cb, pos2) := if hi == 21 then (ca, pos1) else ReadCells(s, pos1, ca, 16, 21);
      Helper4(cb[..HELPERS], pos2)
  }

  lemma {:induction false} CellsRead(s: seq<bool>, pos: nat, h: seq<nat>, ca: seq<nat>, i: nat, ie: nat, rest: seq<bool>)
    requires |ca| == 32 && ie < |h| == HELPERS && Bounded(h, 15) && Bounded(ca, 15) && Starts(s, pos, Cells(h, i, ie) + rest)
    ensures var (r, q) := ReadCells(s, pos, ca, i, ie);
            && q == pos + |Cells(h, i, ie)| && Starts(s, q, rest)
            && forall j :: 0 <= j < 32 ==> r[j] == if i <= j <= ie then h[j] else ca[j]
    decreases ie + 1 - i
  {
    hide ToBitsM, ValM, Starts, Pow2;
    Pow2Values();
    if i <= ie {
      assert Cells(h, i, ie) + rest == ToBitsM(h[i], 4) + (Cells(h, i + 1, ie) + rest);
      StartsFieldM(s, pos, h[i], 4, Cells(h, i + 1, ie) + rest);
      CellsRead(s, pos + 4, h, ca[i := h[i]], i + 1, ie, rest);
    } else {
      assert Cells(h, i, ie) + rest == rest;
    }
  }

  // The lengths between lo and hi and from 16 on are stored; the others are zero.
  ghost predicate Stored4(h: seq<nat>, lo: nat, hi: nat) {
    && |h| == HELPERS && Bounded(h, 15) && 1 <= lo <= 8 && lo <= hi <= 15
    && forall j :: 1 <= j < 16 && !(lo <= j <= hi) ==> h[j] == 0
  }

  lemma HelperRead4(s: seq<bool>, pos: nat, h: seq<nat>, lo: nat, hi: nat)
    requires Stored4(h, lo, hi) && Starts(s, pos, HelperBits4(h, lo, hi))
    ensures ReadHelper4(s, pos) == Helper4(h, pos + |HelperBits4(h, lo, hi)|)
  {
    hide ToBitsM, ValM, Starts, Pow2, Cells, ReadCells;
    Pow2Values();
    var c, d := Cells(h, lo, hi), Cells(h, 16, 21);
    StartsFieldM(s, pos, lo - 1, 3, ToBitsM(hi, 5) + (ToBitsM(h[0], 4) + (c + d)));
    StartsFieldM(s, pos + 3, hi, 5, ToBitsM(h[0], 4) + (c + d));
    StartsFieldM(s, pos + 8, h[0], 4, c + d);
    var ca := Copies(0, 32)[0 := h[0]];
    CellsRead(s, pos + 12, h, ca, lo, hi, d);
    var (cb, q) := ReadCells(s, pos + 12, ca, lo, hi);
    assert d == d + [];
    CellsRead(s, q, h, cb, 16, 21, []);
    var r := ReadCells(s, q, cb, 16, 21).0;
    assert r[..HELPERS] == h;
  }

  //////////////////////////////////////////////////////////////////////////////
  // The whole decoder
  //////////////////////////////////////////////////////////////////////////////

  datatype Outcome4 = Done4(n: nat, buf: seq<byte>) | Failed4(buf: seq<byte>) | NotModelled4(buf: seq<byte>)

  // the main code, and where the data start
  datatype Head4 = Head4(lens: seq<nat>, pos: nat) | BadHead4 | UnmodelledHead4

  function ReadMain(h: seq<nat>, s: seq<bool>, pos: nat): (r: Head4)
    requires Complete(h, BITS4) && |h| == HELPERS
    ensures r.Head4? ==> |r.lens| == SYMS4 && Complete(r.lens, BITS4)
  {
    match ReadLens4(h, s, pos, [])
    case Nowhere => UnmodelledHead4
    case Got(acc, q) =>
      match TabCheck4(acc[..SYMS4])
      case Bad4 => BadHead4
      case Undefined4 => UnmodelledHead4
      case Good4 => Head4(acc[..SYMS4], q)
  }

  function ReadHead4(s: seq<bool>): (r: Head4)
    ensures r.Head4? ==> |r.lens| == SYMS4 && Complete(r.lens, BITS4)
  {
    match ReadHelper4(s, 16)
    case NoHelper4 => BadHead4
    case Helper4(h, pos) =>
      match TabCheck4(h)
      case Bad4 => BadHead4
      case Undefined4 => UnmodelledHead4
      case Good4 => ReadMain(h, s, pos)
  }

  // sd4_decomp
  function Decode4(data: seq<byte>, buf: seq<byte>): (r: Outcome4)
    ensures |r.buf| == |buf|
  {
    var s := Stream(data);
    if ValM(s, 0, 16) != MAGIC4 then Failed4(buf)
    else
      match ReadHead4(s)
      case BadHead4 => Failed4(buf)
      case UnmodelledHead4 => NotModelled4(buf)
      case Head4(lens, pos) =>
        match DecodeData(lens, s, pos, buf, 0)
        case Error4(b) => Failed4(b)
        case At4(_, b, p) => Done4(p, b)
  }

  //////////////////////////////////////////////////////////////////////////////
  // A whole stream
  //////////////////////////////////////////////////////////////////////////////

  datatype Plan4 = Plan4(lens: seq<nat>, h: seq<nat>, lo: nat, hi: nat, items: seq<Run4>, toks: seq<LzTok>)

  ghost predicate PlanOk4(pl: Plan4) {
    && Complete(pl.lens, BITS4) && |pl.lens| == SYMS4 && pl.lens[END4] >= 1 && AllCoded4(pl.toks, pl.lens)
    && Complete(pl.h, BITS4) && Stored4(pl.h, pl.lo, pl.hi)
    && AllRuns(pl.items, pl.h) && Expand4(pl.items) == Some(pl.lens)
  }

  function PlanBits4(pl: Plan4): seq<bool>
    requires PlanOk4(pl)
  {
    ToBitsM(MAGIC4, 16) + (HelperBits4(pl.h, pl.lo, pl.hi) + (RunsBits(pl.items, pl.h)
      + (ToksBits4(pl.toks, pl.lens) + SymBits(pl.lens, END4))))
  }

  lemma Good4Table(lens: seq<nat>)
    requires Complete(lens, BITS4)
    ensures TabCheck4(lens) == Good4
  {
    Pow2Values();
  }

  // the main code is found and the data stand behind the runs
  lemma HeadRead(s: seq<bool>, pl: Plan4)
    requires PlanOk4(pl) && Starts(s, 0, PlanBits4(pl))
    ensures ValM(s, 0, 16) == MAGIC4
    ensures var pos := 16 + |HelperBits4(pl.h, pl.lo, pl.hi)| + |RunsBits(pl.items, pl.h)|;
            ReadHead4(s) == Head4(pl.lens, pos) && Starts(s, pos, ToksBits4(pl.toks, pl.lens) + SymBits(pl.lens, END4))
  {
    hide *;
    PlanParts4(pl);
    Pow2Values();
    Sizes4();
    var rest := ToksBits4(pl.toks, pl.lens) + SymBits(pl.lens, END4);
    var hb, rb := HelperBits4(pl.h, pl.lo, pl.hi), RunsBits(pl.items, pl.h);
    StartsFieldM(s, 0, MAGIC4, 16, hb + (rb + rest));
    StartsConcat(s, 16, hb, rb + rest);
    StartsConcat(s, 16 + |hb|, rb, rest);
    HelperRead4(s, 16, pl.h, pl.lo, pl.hi);
    Good4Table(pl.h);
    Good4Table(pl.lens);
    RunsRead(pl.h, s, 16 + |hb|, pl.items, 0);
    NoRuns(pl.items, pl.h);
    HeadIs(s, pl.h, 16 + |hb|, pl.lens, 16 + |hb| + |rb|);
  }

  lemma NoRuns(items: seq<Run4>, h: seq<nat>)
    ensures |RunsBits(items[..0], h)| == 0 && Expand4(items[..0]) == Some([]) && Bounded([], 15)
  {
  }

  lemma HeadIs(s: seq<bool>, h: seq<nat>, pos: nat, lens: seq<nat>, q: nat)
    requires ReadHelper4(s, 16) == Helper4(h, pos) && TabCheck4(h) == Good4 == TabCheck4(lens) && |lens| == SYMS4
    requires Complete(h, BITS4) && |h| == HELPERS && Bounded([], 15) && ReadLens4(h, s, pos, []) == Got(lens, q)
    ensures ReadHead4(s) == Head4(lens, q)
  {
    hide Complete, TabCheck4, ReadLens4, ReadHelper4;
    assert lens[..SYMS4] == lens;
  }

  lemma PlanParts4(pl: Plan4)
    requires PlanOk4(pl)
    ensures Complete(pl.lens, BITS4) && |pl.lens| == SYMS4 && END4 < |pl.lens| && pl.lens[END4] >= 1 && AllCoded4(pl.toks, pl.lens)
    ensures Complete(pl.h, BITS4) && Stored4(pl.h, pl.lo, pl.hi) && |pl.h| == HELPERS && 1 <= pl.lo && pl.hi <= 15
    ensures AllRuns(pl.items, pl.h) && Expand4(pl.items) == Some(pl.lens)
    ensures MAGIC4 == 0x81
    ensures PlanBits4(pl) == ToBitsM(MAGIC4, 16) + (HelperBits4(pl.h, pl.lo, pl.hi) + (RunsBits(pl.items, pl.h)
              + (ToksBits4(pl.toks, pl.lens) + SymBits(pl.lens, END4))))
    ensures pl.toks[..0] == [] && Produce(pl.toks[..0]) == Some([]) && |ToksBits4(pl.toks[..0], pl.lens)| == 0
  {
    hide Complete, AllRuns, AllCoded4, SymBits, HelperBits4;
  }

  // The data a stream stands for come back, whatever follows it and for any buffer they fit in.
  lemma StreamDecodes4(data: seq<byte>, pl: Plan4, buf: seq<byte>) returns (buf': seq<byte>)
    requires PlanOk4(pl) && Starts(Stream(data), 0, PlanBits4(pl))
    requires Produce(pl.toks).Some? && |Produce(pl.toks).value| <= |buf|
    ensures Decode4(data, buf) == Done4(|Produce(pl.toks).value|, buf')
    ensures |buf'| == |buf| && buf'[..|Produce(pl.toks).value|] == Produce(pl.toks).value
  {
    hide *;
    var s := Stream(data);
    PlanParts4(pl);
    HeadRead(s, pl);
    var pos := 16 + |HelperBits4(pl.h, pl.lo, pl.hi)| + |RunsBits(pl.items, pl.h)|;
    buf' := DecodeToks4(pl.lens, s, pos, pl.toks, buf, 0, 0);
    DecodeIs(data, buf, pl.lens, pos);
  }

  lemma DecodeIs(data: seq<byte>, buf: seq<byte>, lens: seq<nat>, pos: nat)
    requires ValM(Stream(data), 0, 16) == MAGIC4 && ReadHead4(Stream(data)) == Head4(lens, pos)
    requires Complete(lens, BITS4) && |lens| == SYMS4
    ensures var st := DecodeData(lens, Stream(data), pos, buf, 0);
            Decode4(data, buf) == match st case Error4(b) => Failed4(b) case At4(_, b, p) => Done4(p, b)
  {
    hide Stream, ValM, ReadHead4, DecodeData, Complete;
  }
}
