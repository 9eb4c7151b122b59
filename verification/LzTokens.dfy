/**
 Literals and repetitions, the common meaning of the SQ, SD3 and SD4 streams.
 */
module LzTokens {
  import opened Bits
  import opened Lz

  datatype LzTok = Lit(b: byte) | Rep(offs: nat, len: nat)

  predicate TokOk(t: LzTok, at: nat) {
    t.Rep? ==> 1 <= t.offs <= at && t.len >= 1
  }

  function TokOut(t: LzTok, out: seq<byte>): (r: seq<byte>)
    requires TokOk(t, |out|)
    ensures |out| < |r| && out <= r
  {
    match t
    case Lit(b) => out + [b]
    case Rep(offs, len) => Repeat(out, offs, len)
  }

  // the data the tokens produce one after the other
  function Produce(toks: seq<LzTok>): Option<seq<byte>> {
    if toks == [] then Some([])
    else
      var t := toks[|toks| - 1];
      match Produce(toks[..|toks| - 1])
      case None => None
      case Some(out) => if TokOk(t, |out|) then Some(TokOut(t, out)) else None
  }

  lemma ProduceAdd(toks: seq<LzTok>, t: LzTok)
    requires Produce(toks).Some? && TokOk(t, |Produce(toks).value|)
    ensures Produce(toks + [t]) == Some(TokOut(t, Produce(toks).value))
  {
    assert (toks + [t])[..|toks|] == toks;
  }

  lemma ProduceLit(toks: seq<LzTok>, data: seq<byte>, pos: nat)
    requires pos < |data| && Produce(toks) == Some(data[..pos])
    ensures Produce(toks + [Lit(data[pos])]) == Some(data[..pos + 1])
  {
    ProduceAdd(toks, Lit(data[pos]));
    assert data[..pos] + [data[pos]] == data[..pos + 1];
  }

  lemma ProduceRep(toks: seq<LzTok>, data: seq<byte>, src: nat, pos: nat, len: nat)
    requires Match(data, src, pos, len) && len >= 1 && Produce(toks) == Some(data[..pos])
    ensures Produce(toks + [Rep(pos - src, len)]) == Some(data[..pos + len])
  {
    ProduceAdd(toks, Rep(pos - src, len));
    MatchRepeat(data, src, pos, len);
  }

  lemma {:induction false} ProducePrefix(toks: seq<LzTok>, i: nat)
    requires i < |toks| && Produce(toks).Some?
    ensures var o := Produce(toks[..i]);
            && o.Some? && TokOk(toks[i], |o.value|)
            && Produce(toks[..i + 1]) == Some(TokOut(toks[i], o.value))
            && |o.value| < |Produce(toks[..i + 1]).value| <= |Produce(toks).value|
    decreases |toks|
  {
    assert toks[..i + 1][..i] == toks[..i];
    if i < |toks| - 1 {
      var rest := toks[..|toks| - 1];
      assert rest[..i] == toks[..i] && rest[..i + 1] == toks[..i + 1];
      ProducePrefix(rest, i);
    } else {
      assert toks[..i + 1] == toks;
    }
  }

  // a token copied into a buffer filled up to p
  lemma TokInBuffer(t: LzTok, buf: seq<byte>, p: nat)
    requires p <= |buf| && TokOk(t, p) && |TokOut(t, buf[..p])| <= |buf|
    ensures t.Lit? ==> p < |buf| && buf[p := t.b][..p + 1] == TokOut(t, buf[..p])
    ensures t.Rep? ==> p + t.len <= |buf| && CopyBack(buf, p, t.offs, t.len)[..p + t.len] == TokOut(t, buf[..p])
  {
    if t.Rep? { CopyBackRepeat(buf, p, t.offs, t.len); }
  }
}
