/**
 Copies out of the data already produced: what a repetition token means, and the in-place
 copy M_MOVSB of all the decoders.
 */
module Lz {
  import opened Bits

  datatype Option<T> = None | Some(value: T)

  // n more bytes, each the one d places back
  function Repeat(out: seq<byte>, d: nat, n: nat): (r: seq<byte>)
    requires 1 <= d <= |out|
    ensures |r| == |out| + n && out <= r
    decreases n
  {
    if n == 0 then out else Repeat(out + [out[|out| - d]], d, n - 1)
  }

  // the same on a buffer of fixed length filled up to p
  function CopyBack(buf: seq<byte>, p: nat, d: nat, n: nat): (r: seq<byte>)
    requires d <= p && p + n <= |buf|
    ensures |r| == |buf|
    ensures forall i :: 0 <= i < p ==> r[i] == buf[i]
    ensures forall i :: p + n <= i < |buf| ==> r[i] == buf[i]
    decreases n
  {
    if n == 0 then buf
    else
      var b := if d == 0 then buf else buf[p := buf[p - d]];
      CopyBack(b, p + 1, d, n - 1)
  }

  lemma {:induction false} CopyBackRepeat(buf: seq<byte>, p: nat, d: nat, n: nat)
    requires 1 <= d <= p && p + n <= |buf|
    ensures CopyBack(buf, p, d, n)[..p + n] == Repeat(buf[..p], d, n)
    decreases n
  {
    if n > 0 {
      var b := buf[p := buf[p - d]];
      assert b[..p + 1] == buf[..p] + [buf[..p][p - d]];
      CopyBackRepeat(b, p + 1, d, n - 1);
    }
  }

  // the n bytes at src and at pos agree; the two runs may overlap
  predicate Match(data: seq<byte>, src: nat, pos: nat, n: nat) {
    src < pos && pos + n <= |data| && data[src..src + n] == data[pos..pos + n]
  }

  lemma MatchInside(data: seq<byte>, src: nat, pos: nat, len: nat)
    requires Match(data, src, pos, len)
    ensures src < pos && pos + len <= |data|
  {
  }

  // a match inside the data is exactly a repetition that produces it
  lemma {:induction false} MatchRepeat(data: seq<byte>, src: nat, pos: nat, n: nat)
    requires Match(data, src, pos, n)
    ensures Repeat(data[..pos], pos - src, n) == data[..pos + n]
    decreases n
  {
    if n > 0 {
      assert data[src..src + n][0] == data[pos..pos + n][0];
      assert data[..pos] + [data[..pos][src]] == data[..pos + 1];
      assert data[src + 1..src + n] == data[src..src + n][1..] && data[pos + 1..pos + n] == data[pos..pos + n][1..];
      MatchRepeat(data, src + 1, pos + 1, n - 1);
    }
  }

  // M_MOVSB: copies n bytes from d places back, forwards
  method MovSb(buf: array<byte>, p: nat, d: nat, n: nat)
    requires d <= p && p + n <= buf.Length
    modifies buf
    ensures buf[..] == CopyBack(old(buf[..]), p, d, n)
  {
    ghost var was := buf[..];
    var i := 0;
    while i < n
      invariant 0 <= i <= n
      invariant CopyBack(was, p, d, n) == CopyBack(buf[..], p + i, d, n - i)
    {
      ghost var now := buf[..];
      buf[p + i] := buf[p + i - d];
      assert buf[..] == if d == 0 then now else now[p + i := now[p + i - d]];
      i := i + 1;
    }
  }

  // how far data agree at a and b, at most limit bytes
  method FirstDiff(data: seq<byte>, a: nat, b: nat, limit: nat) returns (n: nat)
    requires a < b && b + limit <= |data|
    ensures n <= limit && Match(data, a, b, n)
    ensures n < limit ==> data[a + n] != data[b + n]
  {
    n := 0;
    while n < limit
      invariant n <= limit && data[a..a + n] == data[b..b + n]
    {
      if data[a + n] != data[b + n] { break; }
      assert data[a..a + n + 1] == data[a..a + n] + [data[a + n]];
      assert data[b..b + n + 1] == data[b..b + n] + [data[b + n]];
      n := n + 1;
    }
  }

  // two bytes known to agree and those compared behind them
  lemma MatchFront(data: seq<byte>, src: nat, pi: nat, n: nat)
    requires src < pi && pi + 2 + n <= |data| && data[src] == data[pi] && data[src + 1] == data[pi + 1]
    requires Match(data, src + 2, pi + 2, n)
    ensures Match(data, src, pi, n + 2)
  {
    assert data[src..src + n + 2] == [data[src], data[src + 1]] + data[src + 2..src + 2 + n];
    assert data[pi..pi + n + 2] == [data[pi], data[pi + 1]] + data[pi + 2..pi + 2 + n];
  }
}
