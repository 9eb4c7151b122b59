/**
 A whole SQ stream, and why it is decoded to the data of its tokens.
 */
module SqStream {
  import opened Bits
  import opened Lz
  import opened LzTokens
  import opened Canonical
  import opened SqCodes
  import opened SqRead
  import opened SqFormat
  import opened SqHeader

  // everything a stream is made of
  datatype Plan = Plan(c: Codes, h: seq<nat>, count3: nat, items: seq<Rle>, toks: seq<LzTok>)

  ghost predicate PlanOk(pl: Plan) {
    && CodesOk(pl.c) && |pl.c.off| >= 1 && pl.c.ch[END_SYM] >= 1
    && HelperOk(pl.h, pl.count3)
    && AllRle(pl.items, pl.h) && Expand(pl.items).acc == pl.c.ch + pl.c.off
    && AllCoded(pl.toks, pl.c)
  }

  // a helper code of which the first count3 lengths, in storage order, are stored
  ghost predicate HelperOk(h: seq<nat>, count3: nat) {
    && |h| == 19 && Complete(h, MAX_BITS) && Bounded(h, 7)
    && 4 <= count3 <= 19 && forall i :: count3 <= i < 19 ==> h[CodeIndex(i)] == 0
  }

  function CountBits(n1: nat, n2: nat, n3: nat): (b: seq<bool>)
    requires n1 >= 0x101 && n2 >= 1 && n3 >= 4
    ensures |b| == 14
  {
    ToBits(n1 - 0x101, 5) + ToBits(n2 - 1, 5) + ToBits(n3 - 4, 4)
  }

  function StartBits(): (b: seq<bool>)
    ensures |b| == 35
  {
    ToBits(0x53, 8) + ToBits(0x51, 8) + ToBits(0, 16) + ToBits(1, 1) + ToBits(2, 2)
  }

  function HeadBits(n1: nat, n2: nat, n3: nat): (b: seq<bool>)
    requires n1 >= 0x101 && n2 >= 1 && n3 >= 4
    ensures |b| == 49
  {
    StartBits() + CountBits(n1, n2, n3)
  }

  function TableBits(pl: Plan): seq<bool>
    requires PlanOk(pl)
  {
    HelperBits(pl.h, pl.count3) + ItemsBits(pl.items, pl.h)
  }

  function DataBits(pl: Plan): seq<bool>
    requires PlanOk(pl)
  {
    ToksBits(pl.toks, pl.c) + SymBits(pl.c.ch, END_SYM)
  }

  function StreamBits(pl: Plan): seq<bool>
    requires PlanOk(pl)
  {
    HeadBits(|pl.c.ch|, |pl.c.off|, pl.count3) + TableBits(pl) + DataBits(pl)
  }

  lemma ReadStart(s: seq<bool>, rest: seq<bool>)
    requires Starts(s, 0, StartBits() + rest)
    ensures Val(s, 0, 8) == 0x53 && Val(s, 8, 8) == 0x51 && Val(s, 32, 1) == 1 && Val(s, 33, 2) == 2
    ensures Starts(s, 35, rest)
  {
    hide Starts, Val, ToBits, Pow2;
    Pow2Values();
    StartsConcat(s, 0, StartBits(), rest);
    var a := ToBits(0x53, 8) + ToBits(0x51, 8) + ToBits(0, 16) + ToBits(1, 1);
    StartsConcat(s, 0, a, ToBits(2, 2));
    StartsConcat(s, 0, ToBits(0x53, 8) + ToBits(0x51, 8) + ToBits(0, 16), ToBits(1, 1));
    StartsConcat(s, 0, ToBits(0x53, 8) + ToBits(0x51, 8), ToBits(0, 16));
    StartsConcat(s, 0, ToBits(0x53, 8), ToBits(0x51, 8));
    StartsVal(s, 0, 0x53, 8);
    StartsVal(s, 8, 0x51, 8);
    StartsVal(s, 32, 1, 1);
    StartsVal(s, 33, 2, 2);
  }

  lemma ReadCounts(s: seq<bool>, pos: nat, n1: nat, n2: nat, n3: nat, rest: seq<bool>)
    requires 0x101 <= n1 <= 0x11E && 1 <= n2 <= 0x1E && 4 <= n3 <= 19
    requires Starts(s, pos, CountBits(n1, n2, n3) + rest)
    ensures Val(s, pos, 5) == n1 - 0x101 && Val(s, pos + 5, 5) == n2 - 1 && Val(s, pos + 10, 4) == n3 - 4
    ensures Starts(s, pos + 14, rest)
  {
    hide Starts, Val, ToBits, Pow2;
    Pow2Values();
    StartsConcat(s, pos, CountBits(n1, n2, n3), rest);
    StartsConcat(s, pos, ToBits(n1 - 0x101, 5) + ToBits(n2 - 1, 5), ToBits(n3 - 4, 4));
    StartsConcat(s, pos, ToBits(n1 - 0x101, 5), ToBits(n2 - 1, 5));
    StartsVal(s, pos, n1 - 0x101, 5);
    StartsVal(s, pos + 5, n2 - 1, 5);
    StartsVal(s, pos + 10, n3 - 4, 4);
  }

  lemma GoodTable(lens: seq<nat>)
    requires Complete(lens, MAX_BITS)
    ensures TabCheck(lens) == TabGood
  {
    Pow2Values();
  }

  lemma CodesGood(c: Codes)
    requires CodesOk(c)
    ensures TabCheck(c.ch) == TabGood && TabCheck(c.off) == TabGood
    ensures 0x101 <= |c.ch| <= 0x11E && |c.off| <= 0x1E
  {
    hide Complete, TabCheck;
    GoodTable(c.ch);
    GoodTable(c.off);
  }

  // The helper code and the run lengths give back the two codes.
  lemma ReadTables(s: seq<bool>, pos: nat, pl: Plan, rest: seq<bool>)
    requires PlanOk(pl) && Starts(s, pos, TableBits(pl) + rest)
    ensures ReadCodes(s, pos, |pl.c.ch|, |pl.c.off|, pl.count3) == Header(pl.c, pos + |TableBits(pl)|)
    ensures Starts(s, pos + |TableBits(pl)|, rest)
  {
    hide Starts, HelperBits, ItemsBits, Complete, TabCheck, ReadLens, HelperLens, RleCoded, Space, CodeIndex;
    var h, acc := pl.h, pl.c.ch + pl.c.off;
    StartsConcat(s, pos, TableBits(pl), rest);
    StartsConcat(s, pos, HelperBits(h, pl.count3), ItemsBits(pl.items, h));
    HelperRead(s, pos, h, pl.count3);
    GoodTable(h);
    CodesGood(pl.c);
    ReadItems(h, s, pos + 3 * pl.count3, pl.items, 0);
    NoItems(pl.items, h);
    assert acc[..|pl.c.ch|] == pl.c.ch && acc[|pl.c.ch|..|acc|] == pl.c.off;
  }

  lemma NoItems(items: seq<Rle>, h: seq<nat>)
    ensures |ItemsBits(items[..0], h)| == 0 && Expand(items[..0]) == RleState([], 0)
  {
  }

  lemma ReadPlanHeader(s: seq<bool>, pl: Plan)
    requires PlanOk(pl) && Starts(s, 35, CountBits(|pl.c.ch|, |pl.c.off|, pl.count3) + TableBits(pl) + DataBits(pl))
    ensures ReadHeader(s, 35) == Header(pl.c, 49 + |TableBits(pl)|)
    ensures Starts(s, 49 + |TableBits(pl)|, DataBits(pl))
  {
    hide Starts, Val, ReadCodes, CountBits, TableBits, DataBits, Complete, HelperOk, AllRle, AllCoded;
    HelperSize(pl);
    var n := CountBits(|pl.c.ch|, |pl.c.off|, pl.count3);
    assert n + TableBits(pl) + DataBits(pl) == n + (TableBits(pl) + DataBits(pl));
    ReadCounts(s, 35, |pl.c.ch|, |pl.c.off|, pl.count3, TableBits(pl) + DataBits(pl));
    ReadTables(s, 49, pl, DataBits(pl));
  }

  lemma HelperSize(pl: Plan)
    requires PlanOk(pl)
    ensures 4 <= pl.count3 <= 19
  {
  }

  // The data a stream stands for come back, whatever follows it and for any buffer they fit in.
  lemma StreamDecodes(data: seq<byte>, pl: Plan, buf: seq<byte>) returns (buf': seq<byte>)
    requires PlanOk(pl) && Starts(BytesBits(data), 0, StreamBits(pl))
    requires Produce(pl.toks).Some? && |Produce(pl.toks).value| <= |buf|
    ensures Decode(data, buf) == Done(|Produce(pl.toks).value|, buf')
    ensures |buf'| == |buf| && buf'[..|Produce(pl.toks).value|] == Produce(pl.toks).value
  {
    hide *;
    PlanParts(pl);
    var s := BytesBits(data);
    var n := CountBits(|pl.c.ch|, |pl.c.off|, pl.count3);
    assert StreamBits(pl) == StartBits() + (n + TableBits(pl) + DataBits(pl)) by { Regroup(pl); }
    ReadStart(s, n + TableBits(pl) + DataBits(pl));
    ReadPlanHeader(s, pl);
    var pos := 49 + |TableBits(pl)|;
    buf' := DecodeToks(pl.c, s, pos, pl.toks, buf, 0, 0);
    OneBlock(data, pl.c, pos, buf);
  }

  lemma PlanParts(pl: Plan)
    requires PlanOk(pl)
    ensures CodesOk(pl.c) && |pl.c.ch| >= 0x101 && |pl.c.off| >= 1 && 4 <= pl.count3 && END_SYM == 0x100 && pl.c.ch[END_SYM] >= 1
    ensures AllCoded(pl.toks, pl.c)
    ensures DataBits(pl) == ToksBits(pl.toks, pl.c) + SymBits(pl.c.ch, END_SYM)
    ensures pl.toks[..0] == [] && Produce(pl.toks[..0]) == Some([]) && |ToksBits(pl.toks[..0], pl.c)| == 0
  {
    hide AllRle, AllCoded, Complete, SymBits;
  }

  lemma Regroup(pl: Plan)
    requires PlanOk(pl)
    ensures StreamBits(pl)
            == StartBits() + (CountBits(|pl.c.ch|, |pl.c.off|, pl.count3) + TableBits(pl) + DataBits(pl))
  {
    hide AllRle, AllCoded, Complete, StartBits, CountBits, TableBits, DataBits;
  }

  // one final block
  lemma OneBlock(data: seq<byte>, c: Codes, pos: nat, buf: seq<byte>)
    requires var s := BytesBits(data);
             && Val(s, 0, 8) == 0x53 && Val(s, 8, 8) == 0x51 && Val(s, 32, 1) == 1 && Val(s, 33, 2) == 2
             && ReadHeader(s, 35) == Header(c, pos) && CodesOk(c)
             && DecodeBlock(c, s, pos, buf, 0).At?
    ensures var st := DecodeBlock(c, BytesBits(data), pos, buf, 0);
            Decode(data, buf) == Done(st.p, st.buf)
  {
    hide BytesBits, Val, ReadHeader, DecodeBlock, Complete;
    var s := BytesBits(data);
    if 32 >= |s| { ValPastEnd(s, 33, 2); }
  }
}
