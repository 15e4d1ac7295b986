/** Canonical Huffman codes as RFC 1951, section 3.2.2 defines them from code lengths alone.

    A code is given by the sequence of its code lengths, indexed by symbol; length 0 means that
    the symbol does not occur. Nothing here knows about decoding tables.
 */
module CanonicalCode {
  import opened BitStream

  /** bl_count[l]: how many symbols have length l. */
  function Count(lens: seq<nat>, l: nat): nat {
    if |lens| == 0 then 0
    else Count(lens[..|lens| - 1], l) + (if lens[|lens| - 1] == l then 1 else 0)
  }

  /** next_code[l]: the first code of length l, step 2 of section 3.2.2. */
  function First(lens: seq<nat>, l: nat): nat {
    if l <= 1 then 0 else 2 * (First(lens, l - 1) + Count(lens, l - 1))
  }

  /** The code of symbol s, step 3 of section 3.2.2: consecutive values in symbol order. */
  function CodeValue(lens: seq<nat>, s: nat): nat
    requires s < |lens|
  {
    First(lens, lens[s]) + Count(lens[..s], lens[s])
  }

  /** The bits from pos on start with the code of symbol s, most significant bit first. */
  predicate IsCodeAt(lens: seq<nat>, s: nat, src: seq<byte>, pos: nat) {
    s < |lens| && lens[s] > 0 && ReadMsb(src, pos, lens[s]) == CodeValue(lens, s)
  }

  ghost predicate ValidLengths(lens: seq<nat>) {
    forall i | 0 <= i < |lens| :: lens[i] <= 15
  }

  /** The Kraft sum in units of 2^-15. */
  function Kraft(lens: seq<nat>): nat {
    KraftUpTo(lens, 15)
  }

  /** The part of the Kraft sum that codes of length at most m contribute. */
  function KraftUpTo(lens: seq<nat>, m: nat): nat {
    if |lens| == 0 then 0
    else KraftUpTo(lens[..|lens| - 1], m) + Weight(lens[|lens| - 1], m)
  }

  function Weight(l: nat, m: nat): nat {
    if 1 <= l <= m && l <= 15 then Pow2(15 - l) else 0
  }

  /** Every bit string starts with exactly one code word. */
  ghost predicate Complete(lens: seq<nat>) {
    ValidLengths(lens) && Kraft(lens) == Pow2(15)
  }

  function NumCodes(lens: seq<nat>): nat {
    if |lens| == 0 then 0
    else NumCodes(lens[..|lens| - 1]) + (if lens[|lens| - 1] > 0 then 1 else 0)
  }

  /** The largest symbol that has a code, -1 if there is none. */
  function MaxSym(lens: seq<nat>): int {
    if |lens| == 0 then -1
    else if lens[|lens| - 1] > 0 then |lens| - 1
    else MaxSym(lens[..|lens| - 1])
  }

  // ------------------------------------------------------------------ Kraft sum and counts

  /** How many m-bit strings start with a code of length at most m, or follow no such code
      but precede one: the m-bit strings below the first free one. */
  function Filled(lens: seq<nat>, m: nat): nat {
    First(lens, m) + Count(lens, m)
  }

  lemma {:induction false} KraftStep(lens: seq<nat>, m: nat)
    requires 1 <= m <= 15
    ensures KraftUpTo(lens, m) == KraftUpTo(lens, m - 1) + Scale(Count(lens, m), 15 - m)
  {
    if |lens| == 0 {
      ScaleSum(0, 0, 15 - m);
    } else {
      var init, last := lens[..|lens| - 1], lens[|lens| - 1];
      KraftStep(init, m);
      ScaleSum(Count(init, m), 1, 15 - m);
      ScaleOne(15 - m);
    }
  }

  lemma {:induction false} KraftZero(lens: seq<nat>)
    ensures KraftUpTo(lens, 0) == 0
  {
    if |lens| > 0 {
      KraftZero(lens[..|lens| - 1]);
    }
  }

  /** The counting loop of a table builder and the textbook Kraft sum agree. */
  lemma {:induction false} KraftIsFilled(lens: seq<nat>, m: nat)
    requires 1 <= m <= 15
    ensures KraftUpTo(lens, m) == Scale(Filled(lens, m), 15 - m)
  {
    KraftStep(lens, m);
    if m == 1 {
      KraftZero(lens);
    } else {
      KraftIsFilled(lens, m - 1);
      var a, c, n := Filled(lens, m - 1), Count(lens, m), 15 - m;
      ScaleScale(a, 1, n);
      ScaleSum(2 * a, c, n);
    }
  }

  lemma {:induction false} FilledGrows(lens: seq<nat>, l: nat, m: nat)
    requires 1 <= l <= m
    ensures Filled(lens, m) >= Scale(Filled(lens, l), m - l)
  {
    if l < m {
      FilledGrows(lens, l, m - 1);
    }
  }

  /** Over-subscription at any length makes the Kraft sum exceed 1. */
  lemma OverSubscribed(lens: seq<nat>, l: nat)
    requires 1 <= l <= 15 && Filled(lens, l) > Pow2(l)
    ensures Kraft(lens) > Pow2(15)
  {
    KraftIsFilled(lens, 15);
    FilledGrows(lens, l, 15);
    ScaleMonotone(Pow2(l), Filled(lens, l), 15 - l);
    ScaleOne(l);
    ScaleScale(1, l, 15 - l);
    ScaleOne(15);
  }

  /** At most one code has a Kraft sum below 1. */
  lemma {:induction false} KraftBound(lens: seq<nat>)
    ensures NumCodes(lens) == 0 ==> Kraft(lens) == 0
    ensures NumCodes(lens) <= 1 ==> Kraft(lens) <= Pow2(14)
  {
    if |lens| > 0 {
      var init, last := lens[..|lens| - 1], lens[|lens| - 1];
      KraftBound(init);
      if 1 <= last <= 15 { Pow2Monotone(15 - last, 14); }
    }
  }

  lemma CompleteHasTwoCodes(lens: seq<nat>)
    requires Kraft(lens) >= Pow2(15)
    ensures NumCodes(lens) >= 2
  {
    KraftBound(lens);
    assert Pow2(15) == 2 * Pow2(14);
  }

  // ------------------------------------------------------- the code is prefix free and total

  lemma {:induction false} CountMonotone(lens: seq<nat>, a: nat, b: nat, l: nat)
    requires a <= b <= |lens|
    ensures Count(lens[..a], l) <= Count(lens[..b], l)
  {
    if a < b {
      CountMonotone(lens, a, b - 1, l);
      assert lens[..b][..b - 1] == lens[..b - 1];
    }
  }

  lemma CountBefore(lens: seq<nat>, s: nat)
    requires s < |lens|
    ensures Count(lens[..s + 1], lens[s]) == Count(lens[..s], lens[s]) + 1
    ensures Count(lens[..s], lens[s]) < Count(lens, lens[s])
  {
    assert lens[..s + 1][..s] == lens[..s];
    CountMonotone(lens, s + 1, |lens|, lens[s]);
    assert lens[..|lens|] == lens;
  }

  lemma RankInjective(lens: seq<nat>, s: nat, t: nat)
    requires s < |lens| && t < |lens| && lens[s] == lens[t]
    requires Count(lens[..s], lens[s]) == Count(lens[..t], lens[t])
    ensures s == t
  {
    CountBefore(lens, s);
    CountBefore(lens, t);
    if s < t {
      CountMonotone(lens, s + 1, t, lens[s]);
    } else if t < s {
      CountMonotone(lens, t + 1, s, lens[s]);
    }
  }

  /** The symbol of length l that has k symbols of that length before it. */
  lemma {:induction false} Nth(lens: seq<nat>, l: nat, k: nat) returns (s: nat)
    requires k < Count(lens, l)
    ensures s < |lens| && lens[s] == l && Count(lens[..s], l) == k
  {
    var init := lens[..|lens| - 1];
    if k < Count(init, l) {
      s := Nth(init, l, k);
      assert init[..s] == lens[..s];
    } else {
      s := |lens| - 1;
    }
  }

  /** Bits that start with a code of length l lie below every code that is longer. */
  lemma {:induction false} ShortBelowLong(lens: seq<nat>, src: seq<byte>, pos: nat, l: nat, m: nat)
    requires 1 <= l < m && ReadMsb(src, pos, l) < Filled(lens, l)
    ensures ReadMsb(src, pos, m) < First(lens, m)
  {
    if l < m - 1 {
      ShortBelowLong(lens, src, pos, l, m - 1);
    }
  }

  /** No two symbols match the same bits: the code is prefix free. */
  lemma PrefixFree(lens: seq<nat>, s: nat, t: nat, src: seq<byte>, pos: nat)
    requires IsCodeAt(lens, s, src, pos) && IsCodeAt(lens, t, src, pos)
    ensures s == t
  {
    CountBefore(lens, s);
    CountBefore(lens, t);
    if lens[s] < lens[t] {
      ShortBelowLong(lens, src, pos, lens[s], lens[t]);
    } else if lens[t] < lens[s] {
      ShortBelowLong(lens, src, pos, lens[t], lens[s]);
    } else {
      RankInjective(lens, s, t);
    }
  }

  /** In a complete code some symbol matches, whatever the bits are. */
  lemma {:induction false} SomeCode(lens: seq<nat>, src: seq<byte>, pos: nat, l: nat) returns (s: nat)
    requires Complete(lens) && 1 <= l <= 15 && First(lens, l) <= ReadMsb(src, pos, l)
    ensures IsCodeAt(lens, s, src, pos)
    decreases 15 - l
  {
    if ReadMsb(src, pos, l) < Filled(lens, l) {
      s := Nth(lens, l, ReadMsb(src, pos, l) - First(lens, l));
    } else {
      LastLevel(lens, src, pos, l);
      s := SomeCode(lens, src, pos, l + 1);
    }
  }

  /** A complete code fills the last level. */
  lemma LastLevel(lens: seq<nat>, src: seq<byte>, pos: nat, l: nat)
    requires Complete(lens) && 1 <= l <= 15 && Filled(lens, l) <= ReadMsb(src, pos, l)
    ensures l < 15
  {
    KraftIsFilled(lens, 15);
    ReadMsbBound(src, pos, l);
  }

  /** The symbol that the bits from pos on start with. */
  ghost function SymbolAt(lens: seq<nat>, src: seq<byte>, pos: nat): (s: nat)
    requires Complete(lens)
    ensures s < |lens| && lens[s] > 0 && IsCodeAt(lens, s, src, pos)
  {
    assert exists s :: IsCodeAt(lens, s, src, pos) by {
      var s := SomeCode(lens, src, pos, 1);
    }
    var s: nat :| IsCodeAt(lens, s, src, pos);
    s
  }

  // ------------------------------------------------------------------- lengths tables accept

  /** A code that has one symbol only is completed by a second, unused, code word: section 3.2.7
      stores a single distance code in one bit and leaves the other one-bit word without meaning. */
  function Completed(lens: seq<nat>): seq<nat> {
    if NumCodes(lens) == 1 && MaxSym(lens) >= 0 && MaxSym(lens) < |lens| then lens[..MaxSym(lens) + 1] + [1]
    else lens
  }

  /** The code lengths that describe a usable code: none at all, a single symbol of length 1,
      or a complete code. */
  ghost predicate Acceptable(lens: seq<nat>) {
    ValidLengths(lens) &&
    (NumCodes(lens) == 0 || (NumCodes(lens) == 1 && Count(lens, 1) == 1) || Complete(lens))
  }

  /** The same, symbol by symbol: lengths up to 15, and either a Kraft sum of one, or no symbol, or only
      one, of length 1. */
  lemma AcceptableIff(lens: seq<nat>)
    ensures Acceptable(lens) <==>
            (forall s | 0 <= s < |lens| :: lens[s] <= 15) &&
            (Kraft(lens) == Pow2(15) || AllZero(lens) || exists s: nat :: OnlySymbol(lens, s))
  {
    ZeroCodes(lens);
    OneCode(lens);
    hide Kraft, NumCodes, Count, AllZero, OnlySymbol, Pow2;
  }

  predicate AllZero(lens: seq<nat>) {
    forall s | 0 <= s < |lens| :: lens[s] == 0
  }

  /** s is the only symbol with a code, of one bit. */
  predicate OnlySymbol(lens: seq<nat>, s: nat) {
    s < |lens| && lens[s] == 1 && forall t | 0 <= t < |lens| && t != s :: lens[t] == 0
  }

  lemma {:induction false} ZeroCodes(lens: seq<nat>)
    ensures NumCodes(lens) == 0 <==> AllZero(lens)
    ensures AllZero(lens) ==> Count(lens, 1) == 0
  {
    if |lens| > 0 {
      var init, last := lens[..|lens| - 1], lens[|lens| - 1];
      ZeroCodes(init);
      assert lens == init + [last];
    }
  }

  lemma {:induction false} OneCode(lens: seq<nat>)
    ensures NumCodes(lens) == 1 && Count(lens, 1) == 1 <==> exists s: nat :: OnlySymbol(lens, s)
  {
    if |lens| > 0 {
      var init, last := lens[..|lens| - 1], lens[|lens| - 1];
      ZeroCodes(init);
      OneCode(init);
      CountAtMost(init);
      assert lens == init + [last];
      if s: nat :| OnlySymbol(init, s) && last == 0 {
        assert OnlySymbol(lens, s);
      }
      if last == 1 && AllZero(init) {
        assert OnlySymbol(lens, |lens| - 1);
      }
      if s: nat :| OnlySymbol(lens, s) {
        if s < |lens| - 1 {
          assert OnlySymbol(init, s) && last == 0;
        } else {
          assert AllZero(init) && last == 1;
        }
      }
    }
  }

  lemma {:induction false} CountAtMost(lens: seq<nat>)
    ensures Count(lens, 1) <= NumCodes(lens)
  {
    if |lens| > 0 {
      CountAtMost(lens[..|lens| - 1]);
    }
  }

  lemma {:induction false} NoCodes(lens: seq<nat>)
    ensures NumCodes(lens) == 0 <==> MaxSym(lens) == -1
    ensures -1 <= MaxSym(lens) < |lens|
    ensures MaxSym(lens) >= 0 ==> lens[MaxSym(lens)] > 0
  {
    if |lens| > 0 {
      NoCodes(lens[..|lens| - 1]);
    }
  }

  lemma {:induction false} AboveMaxSym(lens: seq<nat>, s: nat)
    requires s < |lens| && lens[s] > 0
    ensures s <= MaxSym(lens)
  {
    if s < |lens| - 1 {
      AboveMaxSym(lens[..|lens| - 1], s);
    }
  }

  lemma {:induction false} CountZeros(lens: seq<nat>, l: nat)
    requires l > 0 && NumCodes(lens) == 0
    ensures Count(lens, l) == 0 && KraftUpTo(lens, 15) == 0
  {
    if |lens| > 0 {
      CountZeros(lens[..|lens| - 1], l);
    }
  }

  /** The shape of a one-symbol code. */
  lemma {:induction false} SingleCode(lens: seq<nat>, l: nat)
    requires NumCodes(lens) == 1 && l > 0
    ensures MaxSym(lens) >= 0 && MaxSym(lens) < |lens|
    ensures NumCodes(lens[..MaxSym(lens)]) == 0
    ensures Count(lens, l) == if lens[MaxSym(lens)] == l then 1 else 0
  {
    var init := lens[..|lens| - 1];
    if lens[|lens| - 1] > 0 {
      CountZeros(init, l);
    } else {
      SingleCode(init, l);
      assert init[..MaxSym(lens)] == lens[..MaxSym(lens)];
    }
  }

  /** Counts of a completed one-symbol code. */
  lemma CompletedSingle(lens: seq<nat>, l: nat)
    requires NumCodes(lens) == 1 && Count(lens, 1) == 1 && l > 0
    ensures MaxSym(lens) >= 0 && MaxSym(lens) < |lens|
    ensures Completed(lens) == lens[..MaxSym(lens)] + [1, 1]
    ensures Count(Completed(lens), l) == if l == 1 then 2 else 0
    ensures Count(lens, l) == if l == 1 then 1 else 0
    ensures NumCodes(lens[..MaxSym(lens)]) == 0
    ensures Complete(Completed(lens))
  {
    SingleCode(lens, 1);
    SingleCode(lens, l);
    var m := MaxSym(lens);
    var zeros := lens[..m];
    assert lens[..m + 1] + [1] == zeros + [1, 1];
    var c := zeros + [1, 1];
    assert c[..|c| - 1] == zeros + [1] && (zeros + [1])[..m] == zeros;
    CountZeros(zeros, l);
    assert Count(zeros + [1], l) == if l == 1 then 1 else 0;
    assert KraftUpTo(zeros + [1], 15) == Pow2(14);
    assert KraftUpTo(c, 15) == Pow2(14) + Pow2(14) == Pow2(15);
    forall i | 0 <= i < |c| ensures c[i] <= 15 {
      if i < m { ZerosAre(zeros, i); }
    }
  }

  lemma {:induction false} ZerosAre(lens: seq<nat>, i: nat)
    requires NumCodes(lens) == 0 && i < |lens|
    ensures lens[i] == 0
  {
    if i < |lens| - 1 {
      ZerosAre(lens[..|lens| - 1], i);
    }
  }

  /** Acceptable lengths with at least one symbol describe, once completed, a complete code. */
  lemma CompletedIsComplete(lens: seq<nat>)
    requires Acceptable(lens) && MaxSym(lens) != -1
    ensures Complete(Completed(lens)) && |Completed(lens)| <= |lens| + 1
  {
    NoCodes(lens);
    if NumCodes(lens) == 1 && Count(lens, 1) == 1 {
      CompletedSingle(lens, 1);
    } else {
      CompleteHasTwoCodes(lens);
    }
  }

  /** A single code is the word 0, before and after completion. */
  lemma SingleCodeWord(lens: seq<nat>, c: seq<nat>, m: nat, s: nat)
    requires NumCodes(lens) == 1 && Count(lens, 1) == 1 && c == Completed(lens) && m == MaxSym(lens)
    requires s <= m
    ensures m < |lens| && |c| == m + 2 && c[s] == lens[s]
    ensures s < m ==> lens[s] == 0
    ensures s == m ==> lens[s] == 1 && CodeValue(lens, s) == CodeValue(c, s) == 0
  {
    CompletedSingle(lens, 1);
    SingleCode(lens, 1);
    if s < m {
      ZerosAre(lens[..m], s);
    } else {
      assert c[..s] == lens[..s];
      CountZeros(lens[..s], 1);
    }
  }

  /** Symbols up to MaxSym have the same codes before and after completion, and the completing
      symbol is the only one above. */
  lemma CompletedCodes(lens: seq<nat>, s: nat, src: seq<byte>, pos: nat)
    requires Acceptable(lens) && MaxSym(lens) != -1 && s <= MaxSym(lens)
    ensures s < |lens| && s < |Completed(lens)| && Completed(lens)[s] == lens[s]
    ensures IsCodeAt(lens, s, src, pos) <==> IsCodeAt(Completed(lens), s, src, pos)
  {
    NoCodes(lens);
    if NumCodes(lens) == 1 && Count(lens, 1) == 1 {
      SingleCodeWord(lens, Completed(lens), MaxSym(lens), s);
    } else {
      CompleteHasTwoCodes(lens);
    }
  }
}
