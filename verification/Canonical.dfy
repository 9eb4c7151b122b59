/**
 Canonical prefix codes, as in section 3.2.2 of RFC 1951: a table of code lengths fixes the
 codes. Codes of one length are consecutive numbers in the order of their symbols, and the
 first code of a length follows from the number of shorter codes.

 The decoding rule is the one the long-code search of the decoders uses: the length of the
 next code is the least l for which the next l bits, as a number, are below `Space(l)`.
 */
module Canonical {
  import opened Bits

  // n times v
  function Copies(v: nat, n: nat): (s: seq<nat>)
    ensures |s| == n && forall i :: 0 <= i < n ==> s[i] == v
  {
    seq(n, _ => v)
  }

  // how many symbols have length l
  function Count(lens: seq<nat>, l: nat): (n: nat)
    ensures n <= |lens|
  {
    if lens == [] then 0 else Count(lens[..|lens| - 1], l) + if lens[|lens| - 1] == l then 1 else 0
  }

  // The number of l-bit words that start with a code of at most l bits.
  function Space(lens: seq<nat>, l: nat): nat {
    if l == 0 then 0 else 2 * Space(lens, l - 1) + Count(lens, l)
  }

  // the first code of length l
  function First(lens: seq<nat>, l: nat): nat
    requires l >= 1
  {
    2 * Space(lens, l - 1)
  }

  // symbols before i of the same length
  function Rank(lens: seq<nat>, i: nat): nat
    requires i < |lens|
  {
    Count(lens[..i], lens[i])
  }

  function CodeOf(lens: seq<nat>, i: nat): nat
    requires i < |lens| && lens[i] >= 1
  {
    First(lens, lens[i]) + Rank(lens, i)
  }

  predicate Bounded(lens: seq<nat>, maxBits: nat) {
    forall i :: 0 <= i < |lens| ==> lens[i] <= maxBits
  }

  // Every word of maxBits bits starts with exactly one code.
  predicate Complete(lens: seq<nat>, maxBits: nat) {
    Space(lens, maxBits) == Pow2(maxBits) && Bounded(lens, maxBits)
  }

  // the symbol of length l and rank k
  function SymAt(lens: seq<nat>, l: nat, k: nat): (i: nat)
    requires k < Count(lens, l)
    ensures i < |lens| && lens[i] == l && Rank(lens, i) == k
  {
    var n := |lens| - 1;
    if lens[n] == l && Count(lens[..n], l) == k then n
    else
      var i := SymAt(lens[..n], l, k);
      assert lens[..n][..i] == lens[..i];
      i
  }

  // the length of the code at pos, tried from l on
  function CodeLen(lens: seq<nat>, maxBits: nat, s: seq<bool>, pos: nat, l: nat): (r: nat)
    requires 1 <= l <= maxBits
    ensures l <= r <= maxBits
    decreases maxBits - l
  {
    if l == maxBits || ValM(s, pos, l) < Space(lens, l) then l else CodeLen(lens, maxBits, s, pos, l + 1)
  }

  //////////////////////////////////////////////////////////////////////////////
  // Counting
  //////////////////////////////////////////////////////////////////////////////

  lemma {:induction false} CountSplit(lens: seq<nat>, i: nat, l: nat)
    requires i <= |lens|
    ensures Count(lens[..i], l) <= Count(lens, l)
    ensures i < |lens| && lens[i] == l ==> Count(lens[..i], l) < Count(lens, l)
    decreases |lens|
  {
    if i < |lens| {
      var n := |lens| - 1;
      assert lens[..n][..i] == lens[..i];
      CountSplit(lens[..n], i, l);
    } else {
      assert lens[..i] == lens;
    }
  }

  lemma CountNext(lens: seq<nat>, i: nat, l: nat)
    requires i < |lens|
    ensures Count(lens[..i + 1], l) == Count(lens[..i], l) + if lens[i] == l then 1 else 0
  {
    assert lens[..i + 1][..i] == lens[..i];
  }

  // symbols of one length have different ranks
  lemma RankDiffers(lens: seq<nat>, i: nat, j: nat)
    requires i < j < |lens| && lens[i] == lens[j]
    ensures Rank(lens, i) < Rank(lens, j)
  {
    assert lens[..j][..i] == lens[..i];
    CountSplit(lens[..j], i, lens[i]);
  }

  lemma CodeInSpace(lens: seq<nat>, i: nat)
    requires i < |lens| && lens[i] >= 1
    ensures First(lens, lens[i]) <= CodeOf(lens, i) < Space(lens, lens[i])
  {
    CountSplit(lens, i, lens[i]);
  }

  lemma {:induction false} SpaceGrows(lens: seq<nat>, a: nat, b: nat)
    ensures Shl(Space(lens, a), b) <= Space(lens, a + b)
    decreases b
  {
    if b > 0 { SpaceGrows(lens, a, b - 1); }
  }

  lemma SpaceBound(lens: seq<nat>, maxBits: nat, l: nat)
    requires Complete(lens, maxBits) && l <= maxBits
    ensures Space(lens, l) <= Pow2(l)
  {
    SpaceGrows(lens, l, maxBits - l);
    PowShl(l, maxBits - l);
    if Space(lens, l) > Pow2(l) { ShlMono(Pow2(l), Space(lens, l), maxBits - l); }
  }

  lemma {:induction false} PowShl(a: nat, b: nat)
    ensures Shl(Pow2(a), b) == Pow2(a + b)
    decreases b
  {
    if b > 0 { PowShl(a, b - 1); }
  }

  lemma CodeFits(lens: seq<nat>, maxBits: nat, i: nat)
    requires Complete(lens, maxBits) && i < |lens| && lens[i] >= 1
    ensures CodeOf(lens, i) < Pow2(lens[i])
  {
    CodeInSpace(lens, i);
    SpaceBound(lens, maxBits, lens[i]);
  }

  // the front part of a longer code lies above all shorter codes
  lemma LongCodeAbove(lens: seq<nat>, i: nat, l: nat)
    requires i < |lens| && 1 <= l < lens[i]
    ensures Shr(CodeOf(lens, i), lens[i] - l) >= Space(lens, l)
  {
    var d := lens[i] - l;
    CodeInSpace(lens, i);
    SpaceGrows(lens, l, d - 1);
    assert Shl(Space(lens, l), d) <= First(lens, lens[i]);
    ShrMono(Shl(Space(lens, l), d), CodeOf(lens, i), d);
    ShrSum(0, Space(lens, l), d);
    ShrSmall(0, d);
  }

  // No code is the front part of another.
  lemma PrefixFree(lens: seq<nat>, i: nat, j: nat)
    requires i < |lens| && j < |lens| && i != j && 1 <= lens[i] <= lens[j]
    ensures Shr(CodeOf(lens, j), lens[j] - lens[i]) != CodeOf(lens, i)
  {
    CodeInSpace(lens, i);
    if lens[i] < lens[j] {
      LongCodeAbove(lens, j, lens[i]);
    } else {
      assert Shr(CodeOf(lens, j), 0) == CodeOf(lens, j);
      if i < j { RankDiffers(lens, i, j); } else { RankDiffers(lens, j, i); }
    }
  }

  //////////////////////////////////////////////////////////////////////////////
  // Decoding
  //////////////////////////////////////////////////////////////////////////////

  // the first l of n bits read as a number
  lemma {:induction false} ValMPrefix(s: seq<bool>, pos: nat, n: nat, l: nat)
    requires l <= n
    ensures ValM(s, pos, l) == Shr(ValM(s, pos, n), n - l)
    decreases n
  {
    if l < n { ValMPrefix(s, pos, n - 1, l); }
  }

  // what the search finds: no shorter length fits, and the length found does
  lemma {:induction false} CodeLenFound(lens: seq<nat>, maxBits: nat, s: seq<bool>, pos: nat, l: nat)
    requires Complete(lens, maxBits) && 1 <= l <= maxBits
    requires forall k :: 1 <= k < l ==> ValM(s, pos, k) >= Space(lens, k)
    ensures var r := CodeLen(lens, maxBits, s, pos, l);
            && First(lens, r) <= ValM(s, pos, r) < Space(lens, r)
            && forall k :: 1 <= k < r ==> ValM(s, pos, k) >= Space(lens, k)
    decreases maxBits - l
  {
    if l == maxBits || ValM(s, pos, l) < Space(lens, l) {
      if l > 1 { assert ValM(s, pos, l - 1) >= Space(lens, l - 1); }
    } else {
      CodeLenFound(lens, maxBits, s, pos, l + 1);
    }
  }

  // the symbol at pos
  function DecodeSym(lens: seq<nat>, maxBits: nat, s: seq<bool>, pos: nat): (i: nat)
    requires Complete(lens, maxBits) && maxBits >= 1
    ensures i < |lens| && lens[i] == CodeLen(lens, maxBits, s, pos, 1) >= 1
    ensures ValM(s, pos, lens[i]) == CodeOf(lens, i)
  {
    var l := CodeLen(lens, maxBits, s, pos, 1);
    CodeLenFound(lens, maxBits, s, pos, 1);
    SymAt(lens, l, ValM(s, pos, l) - First(lens, l))
  }

  // The symbol whose code stands at pos is the one found there.
  lemma DecodeSymUnique(lens: seq<nat>, maxBits: nat, s: seq<bool>, pos: nat, i: nat)
    requires Complete(lens, maxBits) && maxBits >= 1
    requires i < |lens| && lens[i] >= 1 && ValM(s, pos, lens[i]) == CodeOf(lens, i)
    ensures DecodeSym(lens, maxBits, s, pos) == i
  {
    hide CodeOf;
    var j := DecodeSym(lens, maxBits, s, pos);
    if i != j {
      if lens[i] <= lens[j] {
        ValMPrefix(s, pos, lens[j], lens[i]);
        PrefixFree(lens, i, j);
      } else {
        ValMPrefix(s, pos, lens[i], lens[j]);
        PrefixFree(lens, j, i);
      }
    }
  }

  // how a symbol is written
  function SymBits(lens: seq<nat>, i: nat): (b: seq<bool>)
    requires i < |lens| && lens[i] >= 1
    ensures |b| == lens[i]
  {
    ToBitsM(CodeOf(lens, i), lens[i])
  }

  lemma {:induction false} ValMRead(s: seq<bool>, pos: nat, v: nat, n: nat)
    requires Starts(s, pos, ToBitsM(v, n)) && v < Pow2(n)
    ensures ValM(s, pos, n) == v
    decreases n
  {
    if n > 0 {
      StartsConcat(s, pos, ToBitsM(v / 2, n - 1), [v % 2 == 1]);
      ValMRead(s, pos, v / 2, n - 1);
      assert s[pos + n - 1] == s[pos + n - 1..pos + n][0];
    }
  }

  // Writing a symbol and decoding it.
  lemma SymRoundTrip(lens: seq<nat>, maxBits: nat, s: seq<bool>, pos: nat, i: nat)
    requires Complete(lens, maxBits) && maxBits >= 1
    requires i < |lens| && lens[i] >= 1 && Starts(s, pos, SymBits(lens, i))
    ensures DecodeSym(lens, maxBits, s, pos) == i
  {
    CodeFits(lens, maxBits, i);
    ValMRead(s, pos, CodeOf(lens, i), lens[i]);
    DecodeSymUnique(lens, maxBits, s, pos, i);
  }
}
