/**
 The DS and JM decompressor.
 */
module DsDecompress {
  import opened Bits
  import opened Lz
  import opened LsbStream
  import opened DsFormat

  // k low zero bits below a one
  lemma {:induction false} ZerosOf(s: seq<bool>, pos: nat, m: nat, k: nat, n: nat)
    requires k < n <= m && Low(Val(s, pos, m), k) == 0 && Low(Shr(Val(s, pos, m), k), 1) == 1
    ensures Zeros(s, pos, n) == k
    decreases k
  {
    if k > 0 { ZerosOf(s, pos + 1, m - 1, k - 1, n - 1); }
  }

  lemma {:induction false} AllZeros(s: seq<bool>, pos: nat, m: nat, n: nat)
    requires n <= m && Low(Val(s, pos, m), n) == 0
    ensures Zeros(s, pos, n) == n
    decreases n
  {
    if n > 0 { AllZeros(s, pos + 1, m - 1, n - 1); }
  }

  // a count of class k, read from the bits ahead
  method RdClass(r: Reader, u: nat, k: nat) returns (len: int)
    requires r.Valid() && r.pb <= 16 && u == Val(r.Stream(), r.pos, 32 - r.pb)
    requires k < 8 && Low(u, k) == 0 && Low(Shr(u, k), 1) == 1
    modifies r
    ensures r.Valid() && len == ReadLen(r.Stream(), old(r.pos)) && r.pos == old(r.pos) + LenSize(r.Stream(), old(r.pos))
  {
    hide r.Valid, Val, Low, Shr, Zeros;
    ZerosOf(r.Stream(), r.pos, 32 - r.pb, k, 9);
    ValSub(r.Stream(), r.pos, k + 1, k, 32 - r.pb);
    r.Skip(2 * k + 1);
    len := Low(Shr(u, k + 1), k) + Pow2(k) + 2;
  }

  // dblb_rdlen
  method RdLen(r: Reader) returns (len: int)
    requires r.Valid()
    modifies r
    ensures r.Valid() && len == ReadLen(r.Stream(), old(r.pos)) && r.pos == old(r.pos) + LenSize(r.Stream(), old(r.pos))
  {
    hide r.Valid, Val, Low, Shr, Zeros, ReadLen, LenSize;
    var u := r.Prepare();
    if Low(u, 1) == 1 { LowZero(u); len := RdClass(r, u, 0); return; }
    LowStep(u, 0);
    if Low(Shr(u, 1), 1) == 1 { len := RdClass(r, u, 1); return; }
    LowStep(u, 1);
    if Low(Shr(u, 2), 1) == 1 { len := RdClass(r, u, 2); return; }
    LowStep(u, 2);
    if Low(Shr(u, 3), 1) == 1 { len := RdClass(r, u, 3); return; }
    LowStep(u, 3);
    if Low(Shr(u, 4), 1) == 1 { len := RdClass(r, u, 4); return; }
    LowStep(u, 4);
    if Low(Shr(u, 5), 1) == 1 { len := RdClass(r, u, 5); return; }
    LowStep(u, 5);
    if Low(Shr(u, 6), 1) == 1 { len := RdClass(r, u, 6); return; }
    LowStep(u, 6);
    if Low(Shr(u, 7), 1) == 1 { len := RdClass(r, u, 7); return; }
    LowStep(u, 7);
    len := RdLong(r, u);
  }

  // eight zeros ahead: the last class, or no count at all
  method RdLong(r: Reader, u: nat) returns (len: int)
    requires r.Valid() && r.pb <= 16 && u == Val(r.Stream(), r.pos, 32 - r.pb) && Low(u, 8) == 0
    modifies r
    ensures r.Valid() && len == ReadLen(r.Stream(), old(r.pos)) && r.pos == old(r.pos) + LenSize(r.Stream(), old(r.pos))
  {
    hide r.Valid, Val, Low, Shr, Zeros;
    Pow2Values();
    LowStep(u, 8);
    r.Skip(9);
    if Low(Shr(u, 8), 1) == 1 {
      ZerosOf(r.Stream(), old(r.pos), 32 - old(r.pb), 8, 9);
      len := r.RdN(8);
      len := len + 258;
    } else {
      AllZeros(r.Stream(), old(r.pos), 32 - old(r.pb), 9);
      len := -1;
    }
  }

  // dblb_decrep
  method DecRep(r: Reader, out: array<byte>, p: nat, offs: nat, jm: bool, stac: bool)
    returns (res: int, p': nat, ghost st: State)
    requires r.Valid() && p < out.Length
    modifies r, out
    ensures r.Valid() && st == DecodeRep(r.Stream(), old(r.pos), old(out[..]), p, offs, jm, stac)
    ensures out[..] == st.buf
    ensures if st.Stopped? then res == st.r && res < 0 else res == 0 && r.pos == st.pos && p' == st.p
  {
    hide r.Valid, ReadLen, LenSize, CopyBack;
    st := DecodeRep(r.Stream(), r.pos, out[..], p, offs, jm, stac);
    p' := p;
    if offs == 0 { return -2, p', st; }
    if offs == SYNC {
      if p % SECTOR_SIZE != 0 && !stac { return -2, p', st; }
      return 0, p', st;
    }
    var len := RdLen(r);
    len := len + if jm then 0 else -1;
    if len <= 0 { return -2, p', st; }
    if offs > p { return -2, p', st; }
    if p + len > out.Length { return -2, p', st; }
    MovSb(out, p, offs, len);
    p' := p + len;
    res := 0;
  }

  // a field of the bits ahead
  lemma Field(s: seq<bool>, pos: nat, m: nat, k: nat, n: nat)
    requires k + n <= m
    ensures Low(Shr(Val(s, pos, m), k), n) == Val(s, pos + k, n)
    ensures n == 1 ==> Low(Shr(Val(s, pos, m), k), n) == BitAt(s, pos + k)
  {
    ValSub(s, pos, k, n, m);
  }

  // the part of a token in front of a repeat count
  method RdHead(r: Reader, jm: bool) returns (h: Head)
    requires r.Valid()
    modifies r
    ensures r.Valid() && h == ReadHead(r.Stream(), old(r.pos), jm) && r.pos == old(r.pos) + h.bits
  {
    if jm { h := RdJmHead(r); } else { h := RdDsHead(r); }
  }

  // the switch of ds_dec
  method RdDsHead(r: Reader) returns (h: Head)
    requires r.Valid()
    modifies r
    ensures r.Valid() && h == ReadHead(r.Stream(), old(r.pos), false) && r.pos == old(r.pos) + h.bits
  {
    hide r.Valid, Val, Low, Shr, FarHead;
    var u := r.Prepare();
    ghost var s, pos, m := r.Stream(), r.pos, 32 - r.pb;
    Pow2Values();
    Field(s, pos, m, 0, 1);
    Field(s, pos, m, 1, 1);
    var b0, b1 := Low(Shr(u, 0), 1), Low(Shr(u, 1), 1);
    if b0 == 0 && b1 == 0 {
      r.Skip(8);
      Field(s, pos, m, 2, 6);
      h := HeadRep(Low(Shr(u, 2), 6), 8);
    } else if b0 == 1 && b1 == 0 {
      r.Skip(9);
      Field(s, pos, m, 2, 7);
      h := HeadLit(Low(Shr(u, 2), 7) + 128, 9);
    } else if b0 == 0 {
      r.Skip(9);
      Field(s, pos, m, 2, 7);
      h := HeadLit(Low(Shr(u, 2), 7), 9);
    } else {
      h := RdDsFar(r, u);
    }
  }

  method RdDsFar(r: Reader, u: nat) returns (h: Head)
    requires r.Valid() && r.pb <= 16 && u == Val(r.Stream(), r.pos, 32 - r.pb)
    modifies r
    ensures r.Valid() && h == FarHead(r.Stream(), old(r.pos) + 2, 2) && r.pos == old(r.pos) + h.bits
  {
    hide r.Valid, Val, Low, Shr;
    ghost var s, pos, m := r.Stream(), r.pos, 32 - r.pb;
    Field(s, pos, m, 2, 1);
    if Low(Shr(u, 2), 1) == 1 {
      r.Skip(15);
      Field(s, pos, m, 3, 12);
      h := HeadRep(Low(Shr(u, 3), 12) + 320, 15);
    } else {
      r.Skip(11);
      Field(s, pos, m, 3, 8);
      h := HeadRep(Low(Shr(u, 3), 8) + 64, 11);
    }
  }

  // dblb_rdoffs; skipped bits come in front of the offset
  method RdOffs(r: Reader, n: nat) returns (h: Head)
    requires r.Valid()
    modifies r
    ensures r.Valid() && h == JmOffs(r.Stream(), old(r.pos), n) && r.pos + n == old(r.pos) + h.bits
  {
    hide r.Valid, Val, Low, Shr;
    var u := r.Prepare();
    ghost var s, pos, m := r.Stream(), r.pos, 32 - r.pb;
    Pow2Values();
    Field(s, pos, m, 0, 1);
    Field(s, pos, m, 1, 1);
    if Low(Shr(u, 0), 1) == 0 {
      r.Skip(7);
      Field(s, pos, m, 1, 6);
      h := HeadRep(Low(Shr(u, 1), 6), n + 7);
    } else if Low(Shr(u, 1), 1) == 0 {
      r.Skip(10);
      Field(s, pos, m, 2, 8);
      h := HeadRep(Low(Shr(u, 2), 8) + 64, n + 10);
    } else {
      r.Skip(14);
      Field(s, pos, m, 2, 12);
      h := HeadRep(Low(Shr(u, 2), 12) + 320, n + 14);
    }
  }

  // the switch of jm_dec
  method RdJmHead(r: Reader) returns (h: Head)
    requires r.Valid()
    modifies r
    ensures r.Valid() && h == ReadHead(r.Stream(), old(r.pos), true) && r.pos == old(r.pos) + h.bits
  {
    hide r.Valid, Val, Low, Shr, JmOffs;
    var u := r.Prepare();
    ghost var s, pos, m := r.Stream(), r.pos, 32 - r.pb;
    Pow2Values();
    Field(s, pos, m, 0, 1);
    Field(s, pos, m, 1, 1);
    if Low(Shr(u, 0), 1) == 0 {
      r.Skip(8);
      Field(s, pos, m, 1, 7);
      h := HeadLit(Low(Shr(u, 1), 7), 8);
    } else if Low(Shr(u, 1), 1) == 0 {
      r.Skip(2);
      h := RdOffs(r, 2);
    } else {
      r.Skip(9);
      Field(s, pos, m, 2, 7);
      h := HeadLit(Low(Shr(u, 2), 7) + 128, 9);
    }
  }

  // the sync marker behind the data
  method CheckFinalSync(r: Reader, jm: bool) returns (ok: bool)
    requires r.Valid()
    modifies r
    ensures r.Valid() && ok == FinalSync(r.Stream(), old(r.pos), jm)
  {
    hide r.Valid, Val, JmOffs;
    if jm {
      var u := r.RdN(2);
      if u == 1 {
        var h := RdOffs(r, 2);
        u := h.offs;
      }
      JmOffsBound(r.Stream(), old(r.pos) + 2, 2);
      Pow2Values();
      ok := u == SYNC;
    } else {
      var u := r.RdN(3);
      Pow2Values();
      if u == 7 {
        u := r.RdN(12);
        u := u + 320;
      }
      ok := u == SYNC;
    }
  }

  lemma JmOffsBound(s: seq<bool>, pos: nat, n: nat)
    ensures JmOffs(s, pos, n).offs <= SYNC
  {
    Pow2Values();
  }

  // one round of the decoder's loop
  method Step(r: Reader, out: array<byte>, p: nat, jm: bool, stac: bool) returns (res: int, p': nat, ghost st: State)
    requires r.Valid() && p < out.Length
    modifies r, out
    ensures r.Valid() && st == DecodeToken(r.Stream(), old(r.pos), old(out[..]), p, jm, stac)
    ensures out[..] == st.buf
    ensures if st.Stopped? then res == st.r && res < 0 else res == 0 && r.pos == st.pos && p' == st.p
  {
    hide Reader.Valid, Val, BytesBits, DecodeRep, ReadHead;
    st := DecodeToken(r.Stream(), r.pos, out[..], p, jm, stac);
    ghost var was := out[..];
    var h := RdHead(r, jm);
    if h.HeadLit? {
      out[p] := h.b;
      assert out[..] == was[p := h.b];
      p', res := p + 1, 0;
    } else {
      ghost var st';
      res, p', st' := DecRep(r, out, p, h.offs, jm, stac);
    }
  }

  // ds_dec and jm_dec: the number of bytes produced, or a negative error code
  method Decompress(data: seq<byte>, garbage: nat, out: array<byte>, jm: bool, stac: bool) returns (res: int)
    requires out.Length > 0 && garbage < Pow2(32)
    modifies out
    ensures (res, out[..]) == Decode(data, old(out[..]), jm, stac)
  {
    hide Reader.Valid, Val, BytesBits, DecodeToken, FinalSync;
    var r := new Reader(data, garbage);
    ghost var s := r.Stream();
    var u := r.RdN(16);
    if u != Magic(jm) { return -1; }
    u := r.RdN(16);
    var p: nat := 0;
    ghost var want := DecodeFrom(s, 32, out[..], 0, jm, stac);
    while p < out.Length
      invariant r.Valid() && r.Stream() == s && p <= out.Length
      invariant DecodeFrom(s, r.pos, out[..], p, jm, stac) == want
      decreases out.Length - p + if r.pos < |s| then |s| - r.pos else 0
    {
      ghost var st;
      res, p, st := Step(r, out, p, jm, stac);
      if res != 0 { return; }
    }
    if !stac {
      var ok := CheckFinalSync(r, jm);
      if !ok { return -2; }
    }
    res := p;
  }

  lemma LowZero(u: nat)
    ensures Low(u, 0) == 0 && Low(Shr(u, 0), 1) == Low(u, 1)
  {
  }

  lemma LowStep(u: nat, k: nat)
    requires Low(u, k) == 0
    ensures Low(Shr(u, k), 1) != 1 ==> Low(u, k + 1) == 0
  {
    LowSplit(u, k, 1);
    ShlZero(k);
  }
}
