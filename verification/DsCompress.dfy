/**
 The DS and JM compressor: hash chains over the cluster propose matches, every match is
 compared byte by byte, and the tokens go straight to the bit stream.
 */
module DsCompress {
  import opened Bits
  import opened Lz
  import opened LsbStream
  import opened DsFormat

  const HASH_TAB_ENT := 0x400
  const NO_HASH := 0xFFFF
  const MAX_TRY: seq<nat> := [1, 2, 3, 4, 6, 8, 10, 14, 18, 22, 28, 40]

  //////////////////////////////////////////////////////////////////////////////
  // Token writers
  //////////////////////////////////////////////////////////////////////////////

  method WriteByte(w: Writer, b: byte, jm: bool)
    requires w.Valid()
    modifies w, w.out
    ensures w.Valid() && w.bits == old(w.bits) + LitBits(b, jm)
  {
    hide w.Valid, ToBits;
    Pow2Values();
    if !jm {
      if b < 128 { w.WrN(2, 2); } else { w.WrN(1, 2); }
    } else {
      if b < 128 { w.WrN(0, 1); } else { w.WrN(3, 2); }
    }
    w.WrN(b % 128, 7);
  }

  // the count field: a one behind k zeros, then the offset into class k
  method WriteLen(w: Writer, len: nat)
    requires w.Valid() && 3 <= len <= 513
    modifies w, w.out
    ensures w.Valid() && w.bits == old(w.bits) + LenBits(len)
  {
    hide w.Valid, ToBits, LenBits;
    Pow2Values();
    if len == 3 { w.WrN(1, 1); ShortestLen(); return; }
    if len < 6 { WriteClass(w, len, 1); return; }
    if len < 10 { WriteClass(w, len, 2); return; }
    if len < 18 { WriteClass(w, len, 3); return; }
    if len < 34 { WriteClass(w, len, 4); return; }
    if len < 66 { WriteClass(w, len, 5); return; }
    if len < 130 { WriteClass(w, len, 6); return; }
    if len < 258 { WriteClass(w, len, 7); return; }
    WriteClass(w, len, 8);
  }

  method WriteClass(w: Writer, len: nat, k: nat)
    requires w.Valid() && 3 <= len <= 513 && k == LenClass(len)
    modifies w, w.out
    ensures w.Valid() && w.bits == old(w.bits) + LenBits(len)
  {
    hide w.Valid, ToBits, LenClass, Pow2;
    ClassFits(len, k);
    w.WrN(Pow2(k), k + 1);
    w.WrN(len - Pow2(k) - 2, k);
  }

  lemma ClassFits(len: nat, k: nat)
    requires 3 <= len <= 513 && k == LenClass(len)
    ensures k <= 8 && Pow2(k) + 2 <= len < 2 * Pow2(k) + 2 && Pow2(k) < Pow2(k + 1)
  {
    hide LenClass;
  }

  lemma ShortestLen()
    ensures LenBits(3) == ToBits(1, 1)
  {
    assert ToBits(0, 0) == [];
  }

  // what write_temp writes for len bytes found again diff places back
  function TempTokens(data: seq<byte>, pos: nat, len: nat, diff: nat, jm: bool): seq<Token>
    requires pos + len <= |data| && len >= 1
  {
    if len == 1 then [Lit(data[pos])]
    else if len == 2 && jm then [Lit(data[pos]), Lit(data[pos + 1])]
    else [Rep(diff, len)]
  }

  method WriteTemp(w: Writer, data: seq<byte>, pos: nat, len: nat, diff: nat, jm: bool)
    requires w.Valid() && pos + len <= |data| && 1 <= len <= SECTOR_SIZE && diff < SYNC
    modifies w, w.out
    ensures w.Valid() && w.bits == old(w.bits) + TokensBits(TempTokens(data, pos, len, diff, jm), jm)
  {
    hide w.Valid, ToBits, LitBits, LenBits, OffsBits, TokensBits;
    Pow2Values();
    if len == 1 {
      WriteByte(w, data[pos], jm);
      TokensBitsOne(Lit(data[pos]), jm);
      return;
    }
    if len == 2 && jm {
      WriteByte(w, data[pos], jm);
      WriteByte(w, data[pos + 1], jm);
      TokensBitsTwo(Lit(data[pos]), Lit(data[pos + 1]), jm);
      return;
    }
    TokensBitsOne(Rep(diff, len), jm);
    WriteOffs(w, diff, jm);
    WriteLen(w, if jm then len else len + 1);
  }

  method WriteOffs(w: Writer, diff: nat, jm: bool)
    requires w.Valid() && diff < SYNC
    modifies w, w.out
    ensures w.Valid() && w.bits == old(w.bits) + OffsBits(diff, jm)
  {
    hide w.Valid, ToBits, FarBits, Pow2, OffsHead, OffsBits;
    Pow2Values();
    ghost var was := w.bits;
    WriteOffsHead(w, diff >= 64, jm);
    if diff < 64 {
      w.WrN(diff, 6);
      assert was + OffsHead(false, jm) + ToBits(diff, 6) == was + (OffsHead(false, jm) + ToBits(diff, 6));
    } else {
      WriteFar(w, diff);
      assert was + OffsHead(true, jm) + FarBits(diff) == was + (OffsHead(true, jm) + FarBits(diff));
    }
    OffsParts(diff, jm);
  }

  function OffsHead(far: bool, jm: bool): seq<bool> {
    if jm then ToBits(1, 2) + ToBits(if far then 1 else 0, 1) else ToBits(if far then 3 else 0, 2)
  }

  lemma OffsParts(diff: nat, jm: bool)
    requires diff < SYNC
    ensures OffsBits(diff, jm) == OffsHead(diff >= 64, jm) + if diff < 64 then ToBits(diff, 6) else FarBits(diff)
  {
    hide ToBits, FarBits;
  }

  method WriteOffsHead(w: Writer, far: bool, jm: bool)
    requires w.Valid()
    modifies w, w.out
    ensures w.Valid() && w.bits == old(w.bits) + OffsHead(far, jm)
  {
    hide w.Valid, ToBits;
    Pow2Values();
    if jm {
      w.WrN(1, 2);
      w.WrN(if far then 1 else 0, 1);
    } else {
      w.WrN(if far then 3 else 0, 2);
    }
  }

  method WriteFar(w: Writer, diff: nat)
    requires w.Valid() && 64 <= diff < SYNC
    modifies w, w.out
    ensures w.Valid() && w.bits == old(w.bits) + FarBits(diff)
  {
    hide w.Valid, ToBits;
    Pow2Values();
    if diff < 320 {
      w.WrN(0, 1);
      w.WrN(diff - 64, 8);
    } else {
      w.WrN(1, 1);
      w.WrN(diff - 320, 12);
    }
  }

  lemma TokensBitsOne(t: Token, jm: bool)
    ensures TokensBits([t], jm) == TokenBits(t, jm)
  {
    assert [t][..0] == [];
  }

  lemma TokensBitsTwo(t: Token, u: Token, jm: bool)
    ensures TokensBits([t, u], jm) == TokenBits(t, jm) + TokenBits(u, jm)
  {
    assert [t, u][..1] == [t];
    TokensBitsOne(t, jm);
  }

  method WriteMarker(w: Writer, jm: bool)
    requires w.Valid()
    modifies w, w.out
    ensures w.Valid() && w.bits == old(w.bits) + TokenBits(Mark, jm)
  {
    hide w.Valid, ToBits;
    Pow2Values();
    ShlSteps(1);
    if jm {
      w.WrN(13, 4);
      ToBitsAppend(1, 2, 3, 2);
      ToBitsAppend(1, 1, 1, 1);
      ShlSteps(3);
    } else {
      w.WrN(7, 3);
      ToBitsAppend(3, 2, 1, 1);
    }
    w.WrN(0xFFF, 12);
  }

  //////////////////////////////////////////////////////////////////////////////
  // Matches
  //////////////////////////////////////////////////////////////////////////////

  // ((p[0] << 4) ^ p[1]) & 0x3FF
  function Hash(data: seq<byte>, pos: nat): (h: nat)
    requires pos + 1 < |data|
    ensures h < HASH_TAB_ENT
  {
    Pow2Values();
    Low(Xor(Shl(data[pos], 4), data[pos + 1]), 10)
  }

  // Positions are stored in 16 bits. Whatever the tables hold is only a hint.
  method NewHash(data: seq<byte>, pos: nat, hashTab: array<nat>, hashHist: array<nat>) returns (cur: nat)
    requires pos + 1 < |data| && hashTab.Length == HASH_TAB_ENT && hashHist.Length > 0 && hashTab != hashHist
    modifies hashTab, hashHist
    ensures cur == old(hashTab[Hash(data, pos)])
    ensures hashTab[..] == old(hashTab[..])[Hash(data, pos) := pos % 65536]
    ensures hashHist[..] == old(hashHist[..])[pos % hashHist.Length := cur]
  {
    var h := Hash(data, pos);
    cur := hashTab[h];
    hashTab[h] := pos % 65536;
    hashHist[pos % hashHist.Length] := cur;
  }

  // Follows the chain of earlier positions from first on and keeps the longest match.
  method FindMatch(data: seq<byte>, pos: nat, markPos: nat, first: nat, tryCount: nat, hashHist: array<nat>)
    returns (maxMatch: nat, maxHash: nat)
    requires first < pos < markPos <= |data| && pos + 1 < |data| && tryCount > 0 && hashHist.Length > 0
    ensures maxMatch >= 2 ==>
              Match(data, maxHash, pos, maxMatch) && maxHash < pos < maxHash + SYNC && pos + maxMatch <= markPos
  {
    hide Match;
    var cur: nat, tryCn: nat := first, tryCount;
    maxMatch, maxHash := 1, 0;
    while true
      invariant cur < pos && tryCn > 0 && maxMatch >= 1 && pos + maxMatch < |data|
      invariant maxMatch >= 2 ==>
                  Match(data, maxHash, pos, maxMatch) && maxHash < pos < maxHash + SYNC && pos + maxMatch <= markPos
      decreases tryCn
    {
      if pos - cur >= SYNC { break; }
      if data[cur + maxMatch] == data[pos + maxMatch]
         && data[cur + maxMatch - 1] == data[pos + maxMatch - 1]
         && data[cur] == data[pos] {
        var n := FirstDiff(data, cur, pos, markPos - pos);
        if n > maxMatch {
          maxHash, maxMatch := cur, n;
          if n == markPos - pos { break; }
        }
      }
      tryCn := tryCn - 1;
      if tryCn == 0 || hashHist[cur % hashHist.Length] >= cur { break; }
      cur := hashHist[cur % hashHist.Length];
    }
  }

  //////////////////////////////////////////////////////////////////////////////
  // The compressor
  //////////////////////////////////////////////////////////////////////////////

  lemma AddToken(toks: seq<Token>, t: Token, room: nat, jm: bool)
    requires Output(toks, room, jm).Some? && TokenOk(t, |Output(toks, room, jm).value|, room, jm)
    ensures Output(toks + [t], room, jm) == Some(TokenOut(t, Output(toks, room, jm).value, room, jm))
    ensures TokensBits(toks + [t], jm) == TokensBits(toks, jm) + TokenBits(t, jm)
  {
    assert (toks + [t])[..|toks|] == toks;
  }

  lemma AddLit(toks: seq<Token>, data: seq<byte>, pos: nat, jm: bool)
    requires pos < |data| && Output(toks, |data|, jm) == Some(data[..pos])
    ensures Output(toks + [Lit(data[pos])], |data|, jm) == Some(data[..pos + 1])
    ensures TokensBits(toks + [Lit(data[pos])], jm) == TokensBits(toks, jm) + LitBits(data[pos], jm)
  {
    hide LitBits, Output, TokensBits;
    AddToken(toks, Lit(data[pos]), |data|, jm);
    assert data[..pos] + [data[pos]] == data[..pos + 1];
  }

  lemma AddTwoLits(toks: seq<Token>, data: seq<byte>, pos: nat, jm: bool)
    requires pos + 2 <= |data| && Output(toks, |data|, jm) == Some(data[..pos])
    ensures var temp := [Lit(data[pos]), Lit(data[pos + 1])];
            && Output(toks + temp, |data|, jm) == Some(data[..pos + 2])
            && TokensBits(toks + temp, jm) == TokensBits(toks, jm) + TokensBits(temp, jm)
  {
    hide *;
    var a, b := data[pos], data[pos + 1];
    AddLit(toks, data, pos, jm);
    AddLit(toks + [Lit(a)], data, pos + 1, jm);
    TwoLitsBits(a, b, jm);
    Behind(toks, Lit(a), Lit(b));
    var s, p, q := TokensBits(toks, jm), LitBits(a, jm), LitBits(b, jm);
    assert s + p + q == s + (p + q);
  }

  lemma TwoLitsBits(a: byte, b: byte, jm: bool)
    ensures TokensBits([Lit(a), Lit(b)], jm) == LitBits(a, jm) + LitBits(b, jm)
  {
    hide LitBits, TokensBits;
    TokensBitsTwo(Lit(a), Lit(b), jm);
  }

  lemma Behind<T>(s: seq<T>, a: T, b: T)
    ensures s + [a, b] == s + [a] + [b]
  {
  }

  lemma AddTemp(toks: seq<Token>, data: seq<byte>, src: nat, pos: nat, len: nat, jm: bool)
    requires Match(data, src, pos, len) && 2 <= len <= SECTOR_SIZE && pos - src < SYNC
    requires Output(toks, |data|, jm) == Some(data[..pos])
    ensures var temp := TempTokens(data, pos, len, pos - src, jm);
            && Output(toks + temp, |data|, jm) == Some(data[..pos + len])
            && TokensBits(toks + temp, jm) == TokensBits(toks, jm) + TokensBits(temp, jm)
  {
    hide Output, TokensBits, TokenBits, Match;
    MatchInside(data, src, pos, len);
    if len == 2 && jm {
      AddTwoLits(toks, data, pos, jm);
    } else {
      var t := Rep(pos - src, len);
      MatchRepeat(data, src, pos, len);
      AddToken(toks, t, |data|, jm);
      TokensBitsOne(t, jm);
    }
  }

  function KnownMethod(m: nat): (b: bool)
    ensures b ==> m < 0x1_0000_0000
  {
    m in [0x5344, 0x1005344, 0x2005344, 0x4D4A, 0x1004D4A]
  }

  function IsJm(m: nat): bool {
    m == 0x4D4A || m == 0x1004D4A
  }

  // what has been written so far for the first pos bytes
  ghost predicate Written(w: Writer, m: nat, toks: seq<Token>)
    reads w, w.out
  {
    w.Valid() && w.bits == ToBits(m, 32) + TokensBits(toks, IsJm(m))
  }

  // the bytes of a stream: the method, the tokens and 15 bits to flush the buffer, in whole words
  function StreamSize(toks: seq<Token>, jm: bool): nat {
    (32 + |TokensBits(toks, jm)| + 15) / 16 * 2
  }

  // the tokens of the front of a cluster, or of the whole of it
  ghost predicate Begun(toks: seq<Token>, data: seq<byte>, jm: bool) {
    (exists pos :: 0 <= pos <= |data| && Output(toks, |data|, jm) == Some(data[..pos])) || Done(toks, data, |data|, jm)
  }

  // The result fits the tokens: -1 only if their stream does not leave a sector free, otherwise the number of
  // sectors of the stream of all the data. The buffer holds their stream as far as it goes.
  ghost predicate Fitted(k: int, zk: seq<byte>, data: seq<byte>, m: nat, toks: seq<Token>)
    requires |data| >= SECTOR_SIZE
  {
    var n, room := StreamSize(toks, IsJm(m)), |data| - SECTOR_SIZE;
    && Begun(toks, data, IsJm(m)) && (k == -1 <==> n > room)
    && (k != -1 ==> Done(toks, data, |data|, IsJm(m)) && k == (n - 1) / SECTOR_SIZE + 1)
    && room <= |zk| && BytesBits(zk[..if n <= room then n else room]) <= ToBits(m, 32) + TokensBits(toks, IsJm(m)) + ToBits(0, 15)
  }

  // one token for the data at pos
  method CompressToken(w: Writer, data: seq<byte>, pos: nat, markPos: nat, tryCount: nat,
                       hashTab: array<nat>, hashHist: array<nat>, m: nat, ghost toks: seq<Token>)
    returns (next: nat, ghost toks': seq<Token>)
    requires Written(w, m, toks) && pos < markPos <= |data| && markPos - pos <= SECTOR_SIZE && tryCount > 0
    requires hashTab.Length == HASH_TAB_ENT && hashHist.Length > 0
    requires hashTab != hashHist && w.out as object != hashTab && w.out as object != hashHist
    requires Output(toks, |data|, IsJm(m)) == Some(data[..pos])
    modifies w, w.out, hashTab, hashHist
    ensures Written(w, m, toks') && pos < next <= markPos
    ensures Output(toks', |data|, IsJm(m)) == Some(data[..next])
  {
    hide w.Valid, ToBits, TokensBits, Output, LitBits, Match, TempTokens;
    var jm := IsJm(m);
    if pos + 1 < |data| {
      var cur := NewHash(data, pos, hashTab, hashHist);
      if cur < pos {
        var len, src := FindMatch(data, pos, markPos, cur, tryCount, hashHist);
        if len >= 2 {
          AddTemp(toks, data, src, pos, len, jm);
          WriteTemp(w, data, pos, len, pos - src, jm);
          toks' := toks + TempTokens(data, pos, len, pos - src, jm);
          next := FillHash(data, pos, len, hashTab, hashHist);
          return;
        }
      }
    }
    AddLit(toks, data, pos, jm);
    WriteByte(w, data[pos], jm);
    toks' := toks + [Lit(data[pos])];
    next := pos + 1;
  }

  // hashes the bytes of a match; the last one of the cluster cannot be hashed
  method FillHash(data: seq<byte>, pos: nat, len: nat, hashTab: array<nat>, hashHist: array<nat>) returns (next: nat)
    requires pos + len <= |data| && len >= 2
    requires hashTab.Length == HASH_TAB_ENT && hashHist.Length > 0 && hashTab != hashHist
    modifies hashTab, hashHist
    ensures next == pos + len
  {
    next := pos + 1;
    var left: nat := len - 1;
    var i: nat := left;
    if next + i + 1 >= |data| { i := |data| - next - 1; }
    left := left - i;
    while i > 0
      invariant next + i + left == pos + len && next + i < |data|
    {
      var _ := NewHash(data, next, hashTab, hashHist);
      next := next + 1;
      i := i - 1;
    }
    next := next + left;
  }

  // the tokens of a cluster of which pos bytes are done; the last marker ends the cluster
  ghost predicate Done(toks: seq<Token>, data: seq<byte>, pos: nat, jm: bool) {
    pos <= |data| &&
    if pos < |data| then Output(toks, |data|, jm) == Some(data[..pos])
    else toks != [] && toks[|toks| - 1] == Mark && Output(toks[..|toks| - 1], |data|, jm) == Some(data)
  }

  lemma AddMark(toks: seq<Token>, data: seq<byte>, pos: nat, jm: bool)
    requires pos <= |data| && pos % SECTOR_SIZE == 0 && Output(toks, |data|, jm) == Some(data[..pos])
    ensures Done(toks + [Mark], data, pos, jm)
    ensures TokensBits(toks + [Mark], jm) == TokensBits(toks, jm) + TokenBits(Mark, jm)
  {
    hide Output, OffsBits;
    assert (toks + [Mark])[..|toks|] == toks;
    if pos < |data| {
      AddToken(toks, Mark, |data|, jm);
    } else {
      assert data[..pos] == data;
    }
  }

  // the compressed sectors in zk decode to exactly this cluster, whatever the output buffer held
  ghost predicate Decodes(zk: seq<byte>, data: seq<byte>, jm: bool) {
    forall buf: seq<byte> :: |buf| == |data| > 0 ==> Decode(zk, buf, jm, false) == (|data| as int, data)
  }

  // the first n bits written lead the bytes stored, once n bits have been flushed
  lemma Flushed(out: seq<byte>, pd: nat, body: seq<bool>, tail: seq<bool>, rest: seq<bool>, len: nat)
    requires pd <= len <= |out| && body + tail == BytesBits(out[..pd]) + rest && |body| <= 8 * pd
    ensures Starts(BytesBits(out[..len]), 0, body)
  {
    hide BytesBits;
    assert out[..len] == out[..pd] + out[pd..len];
    BytesBitsConcat(out[..pd], out[pd..len]);
    assert (body + tail)[..|body|] == body;
    assert (BytesBits(out[..pd]) + rest)[..|body|] == BytesBits(out[..pd])[..|body|];
    assert BytesBits(out[..len])[0..0 + |body|] == BytesBits(out[..pd])[..|body|];
  }

  lemma StreamDecodes(zk: seq<byte>, data: seq<byte>, m: nat, toks: seq<Token>)
    requires KnownMethod(m) && |data| > 0 && Done(toks, data, |data|, IsJm(m))
    requires Starts(BytesBits(zk), 0, ToBits(m, 32) + TokensBits(toks, IsJm(m)))
    ensures Decodes(zk, data, IsJm(m))
  {
    hide Starts, ToBits, BytesBits, TokensBits, Decode, Output;
    var jm, body := IsJm(m), toks[..|toks| - 1];
    assert toks == body + [Mark];
    MagicBits(m);
    assert ToBits(Magic(jm), 16) + ToBits(m / 65536, 16) + TokensBits(toks, jm)
        == ToBits(Magic(jm), 16) + (ToBits(m / 65536, 16) + TokensBits(toks, jm));
    forall buf: seq<byte> | |buf| == |data| > 0 ensures Decode(zk, buf, jm, false) == (|data| as int, data) {
      DecodeTokens(zk, m / 65536, body, buf, jm, false);
    }
  }

  lemma StreamStarts(zk: seq<byte>, m: nat, toks: seq<Token>)
    requires KnownMethod(m) && Starts(BytesBits(zk), 0, ToBits(m, 32) + TokensBits(toks, IsJm(m)))
    ensures Val(BytesBits(zk), 0, 32) == m
  {
    hide Starts, ToBits, BytesBits, TokensBits, Val, Pow2;
    Pow2Values();
    StartsField(BytesBits(zk), 0, m, 32, TokensBits(toks, IsJm(m)));
  }

  lemma MagicBits(m: nat)
    requires KnownMethod(m)
    ensures ToBits(m, 32) == ToBits(Magic(IsJm(m)), 16) + ToBits(m / 65536, 16)
  {
    hide ToBits, Shr, Low;
    ToBitsSplit(m, 16, 16);
    ShrWord(m);
    ToBitsLow(m, 16);
  }

  // 512 bytes from pos on and the marker behind them
  method CompressSector(w: Writer, data: seq<byte>, start: nat, tryCount: nat,
                        hashTab: array<nat>, hashHist: array<nat>, m: nat, ghost toks: seq<Token>)
    returns (overflow: bool, ghost toks': seq<Token>)
    requires Written(w, m, toks) && start + SECTOR_SIZE <= |data| && start % SECTOR_SIZE == 0 && tryCount > 0
    requires hashTab.Length == HASH_TAB_ENT && hashHist.Length > 0
    requires hashTab != hashHist && w.out as object != hashTab && w.out as object != hashHist
    requires Output(toks, |data|, IsJm(m)) == Some(data[..start])
    modifies w, w.out, hashTab, hashHist
    ensures Written(w, m, toks') && (overflow ==> w.pd > w.pe && Begun(toks', data, IsJm(m)))
    ensures !overflow ==> Done(toks', data, start + SECTOR_SIZE, IsJm(m))
  {
    hide w.Valid, ToBits, TokensBits, Output, Done, TokenBits;
    var pos: nat, markPos: nat := start, start + SECTOR_SIZE;
    toks' := toks;
    while pos < markPos
      invariant pos <= markPos <= |data| && markPos - pos <= SECTOR_SIZE
      invariant Written(w, m, toks') && Output(toks', |data|, IsJm(m)) == Some(data[..pos])
    {
      if w.pd > w.pe { return true, toks'; }
      pos, toks' := CompressToken(w, data, pos, markPos, tryCount, hashTab, hashHist, m, toks');
    }
    AddMark(toks', data, pos, IsJm(m));
    WriteMarker(w, IsJm(m));
    toks' := toks' + [Mark];
    overflow := false;
  }

  method NewTables(len: nat) returns (hashTab: array<nat>, hashHist: array<nat>)
    ensures fresh(hashTab) && fresh(hashHist) && hashTab != hashHist
    ensures hashTab.Length == HASH_TAB_ENT && hashHist.Length == len
    ensures forall i :: 0 <= i < HASH_TAB_ENT ==> hashTab[i] == NO_HASH
    ensures forall i :: 0 <= i < len ==> hashHist[i] == NO_HASH
  {
    hashTab := new nat[HASH_TAB_ENT](_ => NO_HASH);
    hashHist := new nat[len](_ => NO_HASH);
  }

  // The DS and JM branch of dbl_compress: the number of sectors written, or -1.
  method CompressCluster(clusterk: array<byte>, clusterd: seq<byte>, size: nat, m: nat, cf: nat) returns (k: int, ghost toks: seq<Token>)
    requires size > 0 && |clusterd| == size * SECTOR_SIZE <= clusterk.Length
    requires KnownMethod(m) && cf < |MAX_TRY|
    modifies clusterk
    ensures k == -1 || 1 <= k <= size - 1
    ensures Fitted(k, clusterk[..], clusterd, m, toks)
    ensures k >= 1 ==> Decodes(clusterk[..k * SECTOR_SIZE], clusterd, IsJm(m)) && Val(BytesBits(clusterk[..k * SECTOR_SIZE]), 0, 32) == m
  {
    hide Writer.Valid, ToBits, TokensBits, Output, Decodes, BytesBits, KnownMethod, Val, Pow2, Fitted, Begun;
    var w := new Writer(clusterk, (size - 1) * SECTOR_SIZE);
    Pow2Values();
    w.WrN(m, 32);
    var hashTab, hashHist := NewTables(if cf > 8 then 0x1000 else 0x800);
    var pos: nat := 0;
    toks := [];
    EmptyTokens(|clusterd|, IsJm(m));
    while pos < |clusterd|
      invariant pos <= |clusterd| && pos % SECTOR_SIZE == 0
      invariant Written(w, m, toks) && Done(toks, clusterd, pos, IsJm(m))
    {
      var overflow;
      overflow, toks := CompressSector(w, clusterd, pos, MAX_TRY[cf], hashTab, hashHist, m, toks);
      if overflow {
        TooLong(w, clusterd, m, toks);
        assert w.out == clusterk;
        return -1, toks;
      }
      pos := pos + SECTOR_SIZE;
    }
    k := Finish(w, clusterd, m, toks);
  }

  lemma AllBegun(toks: seq<Token>, data: seq<byte>, jm: bool)
    requires Done(toks, data, |data|, jm)
    ensures Begun(toks, data, jm)
  {
  }

  // The buffer is full before all the data are compressed.
  lemma TooLong(w: Writer, data: seq<byte>, m: nat, toks: seq<Token>)
    requires Written(w, m, toks) && w.pd > w.pe == |data| - SECTOR_SIZE >= 0 && Begun(toks, data, IsJm(m)) && |data| <= w.out.Length
    ensures Fitted(-1, w.out[..], data, m, toks)
  {
    hide w.Valid, ToBits, TokensBits, BytesBits, Begun, Done;
    w.Overflowed();
    var bits := w.bits;
    assert bits <= bits + ToBits(0, 15);
    assert w.out[..][..w.pe] == w.out[..w.pe];
  }

  // flushes the bit buffer and counts the sectors
  method Finish(w: Writer, clusterd: seq<byte>, m: nat, ghost toks: seq<Token>) returns (k: int)
    requires Written(w, m, toks) && w.pe == |clusterd| - SECTOR_SIZE && |clusterd| <= w.out.Length
    requires |clusterd| % SECTOR_SIZE == 0 && |clusterd| > 0
    requires KnownMethod(m) && Done(toks, clusterd, |clusterd|, IsJm(m))
    modifies w, w.out
    ensures k == -1 || 1 <= k <= |clusterd| / SECTOR_SIZE - 1
    ensures Fitted(k, w.out[..], clusterd, m, toks)
    ensures k >= 1 ==> Decodes(w.out[..k * SECTOR_SIZE], clusterd, IsJm(m)) && Val(BytesBits(w.out[..k * SECTOR_SIZE]), 0, 32) == m
  {
    hide w.Valid, ToBits, TokensBits, Done, Decodes, BytesBits, Starts, KnownMethod, Val, Pow2, Begun;
    ghost var written := w.bits;
    Pow2Values();
    w.WrN(0, 15);
    w.Size();
    w.Front();
    AllBegun(toks, clusterd, IsJm(m));
    assert w.out[..][..if w.pd <= w.pe then w.pd else w.pe] == w.out[..if w.pd <= w.pe then w.pd else w.pe];
    if w.pd > w.pe { return -1; }
    w.Stored();
    k := (w.pd - 1) / SECTOR_SIZE + 1;
    Flushed(w.out[..], w.pd, written, ToBits(0, 15), ToBits(w.buf, w.pb), k * SECTOR_SIZE);
    assert w.out[..][..k * SECTOR_SIZE] == w.out[..k * SECTOR_SIZE];
    StreamDecodes(w.out[..k * SECTOR_SIZE], clusterd, m, toks);
    StreamStarts(w.out[..k * SECTOR_SIZE], m, toks);
  }
}
