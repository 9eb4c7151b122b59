/**
 Bit streams with the first bit highest, as the Stacker codecs write them: a 32-bit buffer
 `buf` that fills from the top, and the number `pb` of bits still free in it.
 */
module MsbStream {
  import opened Bits
  import opened Canonical

  // Bytes stored once n bits are written: a word is stored when the first bit behind it is.
  function StoredBytes(n: nat): nat {
    if n == 0 then 0 else (n - 1) / 16 * 2
  }

  // bytes as a stream, each byte highest bit first
  function BytesBitsM(data: seq<byte>): (b: seq<bool>)
    ensures |b| == 8 * |data|
  {
    if data == [] then [] else BytesBitsM(data[..|data| - 1]) + ToBitsM(data[|data| - 1], 8)
  }

  lemma {:induction false} BytesBitsMConcat(a: seq<byte>, b: seq<byte>)
    ensures BytesBitsM(a + b) == BytesBitsM(a) + BytesBitsM(b)
    decreases |b|
  {
    hide ToBitsM;
    if b == [] {
      assert a + b == a;
    } else {
      var c := b[..|b| - 1];
      assert (a + b)[..|a + b| - 1] == a + c;
      BytesBitsMConcat(a, c);
    }
  }

  lemma ByteBitsM(b: byte)
    ensures BytesBitsM([b]) == ToBitsM(b, 8)
  {
    hide ToBitsM;
    assert [b][..0] == [];
  }

  lemma BytesBitsMSlice(data: seq<byte>, i: nat, n: nat)
    requires i + n <= |data|
    ensures BytesBitsM(data)[8 * i..8 * (i + n)] == BytesBitsM(data[i..i + n])
  {
    hide *;
    var l, m, r := data[..i], data[i..i + n], data[i + n..];
    assert data == l + m + r;
    BytesBitsMConcat(l + m, r);
    BytesBitsMConcat(l, m);
  }

  // runs as numbers, first bit highest
  lemma {:induction false} ValMSplit(s: seq<bool>, pos: nat, a: nat, b: nat)
    ensures ValM(s, pos, a + b) == Shl(ValM(s, pos, a), b) + ValM(s, pos + a, b)
    decreases b
  {
    if b > 0 { ValMSplit(s, pos, a, b - 1); }
  }

  // a run inside a run already read
  lemma ValMSub(s: seq<bool>, pos: nat, k: nat, n: nat, m: nat)
    requires k + n <= m
    ensures Low(Shr(ValM(s, pos, m), m - k - n), n) == ValM(s, pos + k, n)
  {
    hide *;
    var r := m - k - n;
    ValMSplit(s, pos, k + n, r);
    ShrSum(ValM(s, pos + k + n, r), ValM(s, pos, k + n), r);
    ShrSmall(ValM(s, pos + k + n, r), r);
    ValMSplit(s, pos, k, n);
    ShrSum(ValM(s, pos + k, n), ValM(s, pos, k), n);
    ShrSmall(ValM(s, pos + k, n), n);
  }

  lemma {:induction false} ValMPastEnd(s: seq<bool>, pos: nat, n: nat)
    requires pos >= |s|
    ensures ValM(s, pos, n) == 0
    decreases n
  {
    if n > 0 { ValMPastEnd(s, pos, n - 1); }
  }

  lemma ByteValM(data: seq<byte>, i: nat)
    ensures ValM(BytesBitsM(data), 8 * i, 8) == if i < |data| then data[i] else 0
  {
    hide BytesBitsM, ToBitsM, ValM, Pow2;
    Pow2Values();
    if i < |data| {
      BytesBitsMSlice(data, i, 1);
      assert data[i..i + 1] == [data[i]];
      ByteBitsM(data[i]);
      ValMRead(BytesBitsM(data), 8 * i, data[i], 8);
    } else {
      ValMPastEnd(BytesBitsM(data), 8 * i, 8);
    }
  }

  // two bytes read as one word
  lemma WordValM(data: seq<byte>, i: nat)
    ensures ValM(BytesBitsM(data), 8 * i, 16)
            == 256 * (if i < |data| then data[i] as int else 0) + if i + 1 < |data| then data[i + 1] as int else 0
  {
    hide BytesBitsM, ValM, Shl;
    ByteValM(data, i);
    ByteValM(data, i + 1);
    ValMSplit(BytesBitsM(data), 8 * i, 8, 8);
    ShlSteps(ValM(BytesBitsM(data), 8 * i, 8));
  }

  // a field of n bits followed by more
  lemma StartsFieldM(s: seq<bool>, pos: nat, v: nat, n: nat, rest: seq<bool>)
    requires Starts(s, pos, ToBitsM(v, n) + rest) && v < Pow2(n)
    ensures ValM(s, pos, n) == v && Starts(s, pos + n, rest)
  {
    hide ToBitsM, ValM, Starts, Pow2;
    StartsConcat(s, pos, ToBitsM(v, n), rest);
    ValMRead(s, pos, v, n);
  }

  // appending a run is adding below
  lemma {:induction false} ToBitsMAppend(a: nat, k: nat, b: nat, n: nat)
    requires b < Pow2(n)
    ensures ToBitsM(Shl(a, n) + b, k + n) == ToBitsM(a, k) + ToBitsM(b, n)
    decreases n
  {
    if n > 0 {
      assert (Shl(a, n) + b) / 2 == Shl(a, n - 1) + b / 2;
      assert (Shl(a, n) + b) % 2 == b % 2;
      ToBitsMAppend(a, k, b / 2, n - 1);
      assert ToBitsM(a, k) + ToBitsM(b, n) == ToBitsM(a, k) + ToBitsM(b / 2, n - 1) + [b % 2 == 1];
    }
  }

  lemma ToBitsMSplit(v: nat, a: nat, b: nat)
    ensures ToBitsM(v, a + b) == ToBitsM(Shr(v, b), a) + ToBitsM(Low(v, b), b)
  {
    ShrLow(v, b);
    ToBitsMAppend(Shr(v, b), a, Low(v, b), b);
  }

  lemma {:induction false} OrComm(a: nat, b: nat)
    ensures Or(a, b) == Or(b, a)
    decreases a + b
  {
    if a > 0 && b > 0 { OrComm(a / 2, b / 2); }
  }

  // a word as two bytes, high byte first
  lemma BytesBitsMWord(a: seq<byte>, w: nat)
    requires w < 65536
    ensures BytesBitsM(a + [w / 256, w % 256]) == BytesBitsM(a) + ToBitsM(w, 16)
  {
    var hi: byte, lo: byte := w / 256, w % 256;
    hide *;
    assert [hi, lo] == [hi] + [lo];
    BytesBitsMConcat(a, [hi, lo]);
    BytesBitsMConcat([hi], [lo]);
    ByteBitsM(hi);
    ByteBitsM(lo);
    ToBitsMSplit(w, 8, 8);
    ShrSteps8(w);
  }

  // the top part of the buffer, all that is below it being clear
  ghost predicate Holds(buf: nat, pb: nat, v: nat) {
    pb <= 32 && v < Pow2(32 - pb) && buf == Shl(v, pb)
  }

  // what or-ing n more bits in below does
  lemma PushBelow(buf: nat, pb: nat, v: nat, cod: nat, n: nat)
    requires Holds(buf, pb, v) && n <= pb && cod < Pow2(n)
    ensures Holds(Or(buf, Shl(cod, pb - n)), pb - n, Shl(v, n) + cod)
    ensures ToBitsM(Shl(v, n) + cod, 32 - pb + n) == ToBitsM(v, 32 - pb) + ToBitsM(cod, n)
  {
    hide *;
    HoldsIs(buf, pb, v);
    var q := pb - n;
    ShlShl(v, n, q);
    ShlAdd(Shl(v, n), cod, q);
    ShlBound(cod, n, q);
    OrBelow(Shl(cod, q), v, pb);
    ToBitsMAppend(v, 32 - pb, cod, n);
    ShlBound(v, 32 - pb, n);
    IsHeld(Or(buf, Shl(cod, q)), q, Shl(v, n) + cod);
  }

  lemma OrBelow(a: nat, v: nat, k: nat)
    requires a < Pow2(k)
    ensures Or(Shl(v, k), a) == a + Shl(v, k)
  {
    hide *;
    OrComm(Shl(v, k), a);
    OrDisjoint(a, v, k);
  }

  lemma HoldsIs(buf: nat, pb: nat, v: nat)
    requires Holds(buf, pb, v)
    ensures pb <= 32 && v < Pow2(32 - pb) && buf == Shl(v, pb)
  {
  }

  lemma IsHeld(buf: nat, pb: nat, v: nat)
    requires pb <= 32 && v < Pow2(32 - pb) && buf == Shl(v, pb)
    ensures Holds(buf, pb, v)
  {
  }

  // what taking the top word out does
  lemma PopTop(buf: nat, pb: nat, v: nat)
    requires Holds(buf, pb, v) && pb <= 16
    ensures var w, r := Shr(buf, 16), Low(v, 16 - pb);
            && w < 65536 && ToBitsM(v, 32 - pb) == ToBitsM(w, 16) + ToBitsM(r, 16 - pb)
            && Holds(Shl(Low(buf, 16), 16), pb + 16, r)
  {
    hide *;
    HoldsIs(buf, pb, v);
    var m := 16 - pb;
    ToBitsMSplit(v, 16, m);
    ShrLow(v, m);
    var t := Shr(v, m);
    // buf == (t << 16) + (r << pb)
    ShlAdd(Low(v, m), Shl(t, m), pb);
    ShlShl(t, m, pb);
    ShlBound(Low(v, m), m, pb);
    ShrSum(Shl(Low(v, m), pb), t, 16);
    ShrSmall(Shl(Low(v, m), pb), 16);
    ShrBound(v, 16, m);
    Pow2At16();
    ShlShl(Low(v, m), pb, 16);
    IsHeld(Shl(Low(buf, 16), 16), pb + 16, Low(v, m));
  }

  lemma Pow2At16()
    ensures Pow2(16) == 65536
  {
    Pow2Values();
  }
}
