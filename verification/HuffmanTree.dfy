/** The decoding tables of kernel/src/tinf/tinflate.c: struct tinf_tree, its builder for code
    lengths and the fixed tables.
 */
module HuffmanTree {
  import opened BitStream
  import opened CanonicalCode

  /** Number of codes shorter than l: where the symbols of length l start in the sorted table. */
  function Base(lens: seq<nat>, l: nat): nat {
    if l <= 1 then 0 else Base(lens, l - 1) + Count(lens, l - 1)
  }

  /** s is the symbol that is number k among those of length l. */
  ghost predicate IsNth(lens: seq<nat>, s: nat, l: nat, k: nat) {
    s < |lens| && lens[s] == l && Count(lens[..s], l) == k
  }

  /** symbols lists the symbols of length l in order, from index Base(l) on. */
  ghost predicate Sorted(symbols: seq<nat>, lens: seq<nat>, l: nat, n: nat) {
    forall k: nat | k < n :: InPlace(symbols, lens, l, k)
  }

  /** The first i symbols are sorted in. */
  ghost predicate SortedUpTo(symbols: seq<nat>, lens: seq<nat>, i: nat)
    requires i <= |lens|
  {
    forall l: nat | 1 <= l <= 15 :: Sorted(symbols, lens, l, Count(lens[..i], l))
  }

  ghost predicate InPlace(symbols: seq<nat>, lens: seq<nat>, l: nat, k: nat) {
    Base(lens, l) + k < |symbols| && IsNth(lens, symbols[Base(lens, l) + k], l, k)
  }

  /** The tables describe the code with these lengths. */
  ghost predicate TablesFor(counts: seq<nat>, symbols: seq<nat>, lens: seq<nat>) {
    |counts| == 16 && |symbols| == 288 &&
    (forall l: nat | 1 <= l <= 15 :: counts[l] == Count(lens, l)) &&
    (forall l: nat | 1 <= l <= 15 :: Sorted(symbols, lens, l, Count(lens, l)))
  }

  lemma {:induction false} BaseMonotone(lens: seq<nat>, l: nat, m: nat)
    requires 1 <= l < m
    ensures Base(lens, l) + Count(lens, l) <= Base(lens, m)
  {
    if l < m - 1 {
      BaseMonotone(lens, l, m - 1);
    }
  }

  lemma {:induction false} BaseStep(lens: seq<nat>, m: nat)
    requires |lens| > 0 && m >= 1
    ensures Base(lens, m) == Base(lens[..|lens| - 1], m) + (if 1 <= lens[|lens| - 1] < m then 1 else 0)
  {
    if m > 1 {
      BaseStep(lens, m - 1);
    }
  }

  /** All codes are sorted in, and none besides. */
  lemma {:induction false} BaseTotal(lens: seq<nat>)
    requires ValidLengths(lens)
    ensures Base(lens, 16) == NumCodes(lens) <= |lens|
  {
    if |lens| > 0 {
      BaseStep(lens, 16);
      BaseTotal(lens[..|lens| - 1]);
    } else {
      BaseEmpty(lens, 16);
    }
  }

  lemma {:induction false} BaseEmpty(lens: seq<nat>, l: nat)
    requires |lens| == 0
    ensures Base(lens, l) == 0
  {
    if l > 1 {
      BaseEmpty(lens, l - 1);
    }
  }

  /** Positions of different ranks do not collide. */
  lemma IndexInjective(lens: seq<nat>, l: nat, k: nat, l': nat, k': nat)
    requires l >= 1 && l' >= 1 && k < Count(lens, l) && k' < Count(lens, l')
    requires Base(lens, l) + k == Base(lens, l') + k'
    ensures l == l' && k == k'
  {
    if l < l' {
      BaseMonotone(lens, l, l');
    } else if l' < l {
      BaseMonotone(lens, l', l);
    }
  }

  lemma IndexBound(lens: seq<nat>, l: nat, k: nat)
    requires ValidLengths(lens) && 1 <= l <= 15 && k < Count(lens, l)
    ensures Base(lens, l) + k < NumCodes(lens) <= |lens|
  {
    BaseMonotone(lens, l, 16);
    BaseTotal(lens);
  }

  /** One step of the distribution sort. */
  lemma SortStep(symbols: seq<nat>, lens: seq<nat>, i: nat, l: nat)
    requires ValidLengths(lens) && |symbols| == 288 && i < |lens| <= 288 && lens[i] >= 1 && 1 <= l <= 15
    requires Sorted(symbols, lens, l, Count(lens[..i], l))
    ensures Base(lens, lens[i]) + Count(lens[..i], lens[i]) < 288
    ensures Sorted(symbols[Base(lens, lens[i]) + Count(lens[..i], lens[i]) := i], lens, l, Count(lens[..i + 1], l))
  {
    var li, r := lens[i], Count(lens[..i], lens[i]);
    CountBefore(lens, i);
    IndexBound(lens, li, r);
    assert lens[..i + 1][..i] == lens[..i];
    CountMonotone(lens, i + 1, |lens|, l);
    assert lens[..|lens|] == lens;
    var after := symbols[Base(lens, li) + r := i];
    forall k: nat | k < Count(lens[..i + 1], l)
      ensures InPlace(after, lens, l, k)
    {
      IndexBound(lens, l, k);
      assert k < Count(lens[..i], l) ==> InPlace(symbols, lens, l, k);
      if Base(lens, l) + k == Base(lens, li) + r {
        IndexInjective(lens, l, k, li, r);
      }
    }
  }

  lemma SortStepAll(symbols: seq<nat>, lens: seq<nat>, i: nat)
    requires ValidLengths(lens) && |symbols| == 288 && i < |lens| <= 288 && lens[i] >= 1
    requires SortedUpTo(symbols, lens, i)
    ensures Base(lens, lens[i]) + Count(lens[..i], lens[i]) < 288
    ensures SortedUpTo(symbols[Base(lens, lens[i]) + Count(lens[..i], lens[i]) := i], lens, i + 1)
  {
    SortStep(symbols, lens, i, 1);
    var after := symbols[Base(lens, lens[i]) + Count(lens[..i], lens[i]) := i];
    var next := lens[..i + 1];
    forall l: nat | 1 <= l <= 15 ensures Sorted(after, lens, l, Count(next, l)) {
      SortStep(symbols, lens, i, l);
    }
  }

  lemma {:induction false} CountConstant(lens: seq<nat>, c: nat, l: nat)
    requires forall i | 0 <= i < |lens| :: lens[i] == c
    ensures Count(lens, l) == if l == c then |lens| else 0
  {
    if |lens| > 0 {
      CountConstant(lens[..|lens| - 1], c, l);
    }
  }

  lemma {:induction false} CountAppend(a: seq<nat>, b: seq<nat>, l: nat)
    ensures Count(a + b, l) == Count(a, l) + Count(b, l)
  {
    if |b| == 0 {
      assert a + b == a;
    } else {
      assert (a + b)[..|a + b| - 1] == a + b[..|b| - 1];
      CountAppend(a, b[..|b| - 1], l);
    }
  }

  // ------------------------------------------------------------------------- fixed codes

  /** Section 3.2.6: the literal/length code of blocks with fixed codes. */
  function FixedLit(): (lens: seq<nat>)
    ensures |lens| == 288
  {
    seq(288, i => if i < 144 then 8 else if i < 256 then 9 else if i < 280 then 7 else 8)
  }

  /** Section 3.2.6: distance codes are 5-bit numbers. */
  function FixedDist(): (lens: seq<nat>)
    ensures |lens| == 32
  {
    seq(32, i => 5)
  }

  /** How many of the first i fixed lengths are l. */
  lemma FixedCount(i: nat, l: nat)
    requires i <= 288
    ensures Count(FixedLit()[..i], l) ==
            (if l == 8 then Clip(i, 0, 144) + Clip(i, 280, 288)
             else if l == 9 then Clip(i, 144, 256)
             else if l == 7 then Clip(i, 256, 280) else 0)
  {
    var f := FixedLit();
    if i <= 144 {
      CountConstant(f[..i], 8, l);
    } else if i <= 256 {
      FixedCount(144, l);
      CountConstant(f[144..i], 9, l);
      assert f[..144] + f[144..i] == f[..i];
      CountAppend(f[..144], f[144..i], l);
    } else if i <= 280 {
      FixedCount(256, l);
      CountConstant(f[256..i], 7, l);
      assert f[..256] + f[256..i] == f[..i];
      CountAppend(f[..256], f[256..i], l);
    } else {
      FixedCount(280, l);
      CountConstant(f[280..i], 8, l);
      assert f[..280] + f[280..i] == f[..i];
      CountAppend(f[..280], f[280..i], l);
    }
  }

  /** How many of 0 .. i-1 lie in [lo, hi). */
  function Clip(i: nat, lo: nat, hi: nat): nat
    requires lo <= hi
  {
    if i <= lo then 0 else if i < hi then i - lo else hi - lo
  }

  lemma FixedFirst()
    ensures First(FixedLit(), 7) == 0 && First(FixedLit(), 8) == 48 && First(FixedLit(), 9) == 400
    ensures Base(FixedLit(), 7) == 0 && Base(FixedLit(), 8) == 24 && Base(FixedLit(), 9) == 176
    ensures forall l: nat :: Count(FixedLit(), l) == if l == 7 then 24 else if l == 8 then 152 else if l == 9 then 112 else 0
  {
    var f := FixedLit();
    assert f[..288] == f;
    forall l: nat ensures Count(f, l) == if l == 7 then 24 else if l == 8 then 152 else if l == 9 then 112 else 0 {
      FixedCount(288, l);
    }
    FirstZero(f, 7);
    assert First(f, 8) == 2 * (First(f, 7) + Count(f, 7)) == 48;
    assert First(f, 9) == 2 * (First(f, 8) + Count(f, 8)) == 400;
  }

  lemma {:induction false} FirstZero(lens: seq<nat>, l: nat)
    requires forall m: nat | 1 <= m < l :: Count(lens, m) == 0
    ensures First(lens, l) == 0 && Base(lens, l) == 0
  {
    if l > 1 {
      FirstZero(lens, l - 1);
    }
  }

  /** Doubling to the last level once no more codes follow. */
  lemma {:induction false} FirstDoubles(lens: seq<nat>, l: nat, m: nat)
    requires 1 <= l <= m
    requires forall i: nat | l < i <= m :: Count(lens, i) == 0
    ensures Filled(lens, m) == Scale(Filled(lens, l), m - l)
  {
    if l < m {
      FirstDoubles(lens, l, m - 1);
    }
  }

  /** The code words of section 3.2.6 as it lists them: 8 bits from 00110000, 9 bits from
      110010000, 7 bits from 0000000 and 8 bits from 11000000. */
  lemma FixedCodeWords(s: nat)
    requires s < 288
    ensures CodeValue(FixedLit(), s) ==
            if s < 144 then 0x30 + s else if s < 256 then 0x190 + (s - 144)
            else if s < 280 then s - 256 else 0xC0 + (s - 280)
    ensures FixedLit()[s] == if s < 144 then 8 else if s < 256 then 9 else if s < 280 then 7 else 8
  {
    FixedFirst();
    FixedCount(s, FixedLit()[s]);
  }

  /** A code that fills a level, with nothing below, is complete. */
  lemma FilledComplete(f: seq<nat>, l: nat)
    requires ValidLengths(f) && 1 <= l <= 15 && Filled(f, l) == Pow2(l) && forall i: nat | l < i <= 15 :: Count(f, i) == 0
    ensures Complete(f)
  {
    KraftIsFilled(f, 15);
    hide First, Count, Pow2, Scale;
    FirstDoubles(f, l, 15);
    ScaleOne(l);
    ScaleScale(1, l, 15 - l);
    ScaleOne(15);
  }

  lemma FixedLitComplete()
    ensures Complete(FixedLit())
  {
    FixedFirst();
    assert Filled(FixedLit(), 9) == 512 == Pow2(9) by { Pow2Small(); hide FixedLit; }
    FixedValid();
    hide FixedLit, First, Count, Pow2;
    FilledComplete(FixedLit(), 9);
  }

  lemma FixedValid()
    ensures ValidLengths(FixedLit())
  {
  }

  lemma FixedDistComplete()
    ensures Complete(FixedDist()) && (forall l: nat :: Count(FixedDist(), l) == if l == 5 then 32 else 0)
    ensures First(FixedDist(), 5) == 0 && Base(FixedDist(), 5) == 0
  {
    var f := FixedDist();
    forall l: nat ensures Count(f, l) == if l == 5 then 32 else 0 {
      CountConstant(f, 5, l);
    }
    hide Count;
    FirstZero(f, 5);
    assert Pow2(5) == 32 by { Pow2Small(); }
    FilledComplete(f, 5);
  }

  /** The distance code words are the numbers themselves, in five bits. */
  lemma FixedDistWords(s: nat)
    requires s < 32
    ensures FixedDist()[s] == 5 && CodeValue(FixedDist(), s) == s
  {
    FixedDistComplete();
    CountConstant(FixedDist()[..s], 5, 5);
  }

  lemma BaseZero(lens: seq<nat>)
    ensures Base(lens, 0) == 0
  {
  }

  /** A level with more codes than are free. */
  lemma TooMany(lens: seq<nat>, i: nat)
    requires 1 <= i <= 15 && Count(lens, i) > Pow2(i) - First(lens, i)
    ensures !Complete(lens) && NumCodes(lens) >= 2
  {
    hide First, Count, Pow2, Kraft;
    OverSubscribed(lens, i);
    CompleteHasTwoCodes(lens);
  }

  /** What is free on the next level. */
  lemma AvailableStep(lens: seq<nat>, i: nat, available: nat, used: nat)
    requires i < 16 && available == (if i == 0 then 1 else Pow2(i) - First(lens, i)) && used <= available
    requires used == if i == 0 then 0 else Count(lens, i)
    ensures 2 * (available - used) == Pow2(i + 1) - First(lens, i + 1)
    ensures Base(lens, i + 1) == Base(lens, i) + used
  {
    assert i == 0 ==> Pow2(1) == 2;
  }

  /** After the last level nothing is free just if the code is complete. */
  lemma NothingLeft(lens: seq<nat>, available: nat)
    requires ValidLengths(lens) && available == Pow2(16) - First(lens, 16)
    ensures available == 0 <==> Complete(lens)
    ensures Complete(lens) ==> NumCodes(lens) >= 2
  {
    KraftIsFilled(lens, 15);
    assert Pow2(16) == 2 * Pow2(15) && First(lens, 16) == 2 * Filled(lens, 15);
    if Complete(lens) {
      CompleteHasTwoCodes(lens);
    }
    hide Pow2, First, Kraft;
  }

  class TinfTree {
    const counts: array<nat>
    const symbols: array<nat>
    var maxSym: int

    constructor ()
      ensures Shaped() && fresh(this) && fresh(counts) && fresh(symbols)
    {
      counts := new nat[16];
      symbols := new nat[288];
    }

    ghost predicate Shaped()
    {
      counts.Length == 16 && symbols.Length == 288 && counts != symbols
    }

    /** The tables hold the code with lengths lens. */
    ghost predicate Holds(lens: seq<nat>)
      reads this, counts, symbols
    {
      Shaped() && TablesFor(counts[..], symbols[..], lens)
    }

    /** tinf_build_tree: accepts exactly the lengths of a usable code, and then the tables hold
        that code, completed if it has a single symbol. */
    method Build(lengths: seq<nat>) returns (ok: bool)
      requires Shaped() && |lengths| <= 288 && ValidLengths(lengths)
      modifies this, counts, symbols
      ensures ok <==> Acceptable(lengths)
      ensures ok ==> maxSym == MaxSym(lengths)
      ensures ok && maxSym != -1 ==> Holds(Completed(lengths))
    {
      CountLengths(lengths);
      var offs := new nat[16];
      var ok', numCodes := Offsets(lengths, offs);
      NoCodes(lengths);
      if !ok' {
        return false;
      }
      if numCodes == 1 && counts[1] != 1 {
        assert Complete(lengths) ==> false by { if Complete(lengths) { CompleteHasTwoCodes(lengths); } }
        return false;
      }
      Distribute(lengths, offs);
      if numCodes == 1 {
        CompleteTable(lengths);
      }
      return true;
    }

    /** counts becomes the number of codes of every length that is used, maxSym the last symbol that has one. */
    method CountLengths(lengths: seq<nat>)
      requires Shaped() && |lengths| <= 288 && ValidLengths(lengths)
      modifies this, counts
      ensures counts[0] == 0 && maxSym == MaxSym(lengths)
      ensures forall l: nat | 1 <= l <= 15 :: counts[l] == Count(lengths, l)
    {
      for i := 0 to 16
        invariant forall j | 0 <= j < i :: counts[j] == 0
      {
        counts[i] := 0;
      }
      maxSym := -1;
      for i := 0 to |lengths|
        invariant counts[0] == 0 && maxSym == MaxSym(lengths[..i])
        invariant forall l: nat | 1 <= l <= 15 :: counts[l] == Count(lengths[..i], l)
      {
        assert lengths[..i + 1][..i] == lengths[..i];
        if lengths[i] != 0 {
          maxSym := i;
          counts[lengths[i]] := counts[lengths[i]] + 1;
        }
      }
      assert lengths[..|lengths|] == lengths;
    }

    /** offs becomes the index where the symbols of each length start. Fails where a length has more
        codes than are free, and where codes are left over. */
    method Offsets(lengths: seq<nat>, offs: array<nat>) returns (ok: bool, numCodes: nat)
      requires Shaped() && |lengths| <= 288 && ValidLengths(lengths)
      requires counts[0] == 0 && forall l: nat | 1 <= l <= 15 :: counts[l] == Count(lengths, l)
      requires offs.Length == 16 && offs != counts && offs != symbols
      modifies offs
      ensures ok <==> NumCodes(lengths) <= 1 || Complete(lengths)
      ensures ok ==> numCodes == NumCodes(lengths)
      ensures ok ==> forall l: nat | 1 <= l <= 15 :: offs[l] == Base(lengths, l)
    {
      hide First, Base, Count, Pow2, NumCodes, Complete;
      var available: nat := 1;
      numCodes := 0;
      BaseZero(lengths);
      for i := 0 to 16
        invariant available == if i == 0 then 1 else Pow2(i) - First(lengths, i)
        invariant numCodes == Base(lengths, i)
        invariant forall l: nat | 1 <= l < i :: offs[l] == Base(lengths, l)
      {
        var used := counts[i];
        if used > available {
          TooMany(lengths, i);
          return false, numCodes;
        }
        AvailableStep(lengths, i, available, used);
        available := 2 * (available - used);
        offs[i] := numCodes;
        numCodes := numCodes + used;
      }
      BaseTotal(lengths);
      NothingLeft(lengths, available);
      if numCodes > 1 && available > 0 {
        return false, numCodes;
      }
      return true, numCodes;
    }

    /** symbols becomes the list of symbols with a code, shortest codes first. */
    method Distribute(lengths: seq<nat>, offs: array<nat>)
      requires Shaped() && |lengths| <= 288 && ValidLengths(lengths)
      requires offs.Length == 16 && offs != counts && offs != symbols
      requires forall l: nat | 1 <= l <= 15 :: offs[l] == Base(lengths, l)
      modifies offs, symbols
      ensures forall l: nat | 1 <= l <= 15 :: Sorted(symbols[..], lengths, l, Count(lengths, l))
    {
      for i := 0 to |lengths|
        invariant forall l: nat | 1 <= l <= 15 :: offs[l] == Base(lengths, l) + Count(lengths[..i], l)
        invariant SortedUpTo(symbols[..], lengths, i)
      {
        assert lengths[..i + 1][..i] == lengths[..i];
        if lengths[i] != 0 {
          SortStepAll(symbols[..], lengths, i);
          ghost var after := symbols[..][offs[lengths[i]] := i];
          symbols[offs[lengths[i]]] := i;
          assert symbols[..] == after;
          offs[lengths[i]] := offs[lengths[i]] + 1;
        } else {
          assert SortedUpTo(symbols[..], lengths, i + 1);
        }
      }
      assert lengths[..|lengths|] == lengths;
    }

    /** A single code gets a second code word, for a symbol that is too large. */
    method CompleteTable(lengths: seq<nat>)
      requires Shaped() && |lengths| <= 288 && ValidLengths(lengths)
      requires NumCodes(lengths) == 1 && Count(lengths, 1) == 1 && maxSym == MaxSym(lengths)
      requires forall l: nat | 1 <= l <= 15 :: counts[l] == Count(lengths, l)
      requires Sorted(symbols[..], lengths, 1, 1)
      modifies counts, symbols
      ensures Holds(Completed(lengths))
    {
      SoleSymbol(lengths, symbols[..]);
      hide Completed, Count, Complete, NumCodes, IsNth, MaxSym;
      counts[1] := 2;
      symbols[1] := maxSym + 1;
      ghost var c := Completed(lengths);
      assert Base(c, 1) == 0;
      forall k: nat | k < 2 ensures InPlace(symbols[..], c, 1, k) { }
      forall l: nat | 1 <= l <= 15
        ensures counts[l] == Count(c, l) && Sorted(symbols[..], c, l, Count(c, l))
      {
        CompletedSingle(lengths, l);
      }
    }

    /** tinf_build_fixed_trees, literal/length part. */
    method BuildFixedLit()
      requires Shaped()
      modifies this, counts, symbols
      ensures Holds(FixedLit()) && maxSym == 285
    {
      for i := 0 to 16
        invariant forall j | 0 <= j < i :: counts[j] == 0
      {
        counts[i] := 0;
      }
      counts[7] := 24;
      counts[8] := 152;
      counts[9] := 112;
      ghost var cs := counts[..];
      FillRun(0, 24, 256);
      FillRun(24, 144, 0);
      FillRun(24 + 144, 8, 280);
      FillRun(24 + 144 + 8, 112, 144);
      maxSym := 285;
      FixedFirst();
      assert forall l: nat | 1 <= l <= 15 :: counts[l] == cs[l];
      FixedSorted(symbols[..]);
    }

    /** One of the loops that fill the table with consecutive symbols. */
    method FillRun(at: nat, count: nat, first: nat)
      requires Shaped() && at + count <= 288
      modifies symbols
      ensures forall j: nat | j < 288 :: symbols[j] == if at <= j < at + count then first + j - at else old(symbols[j])
    {
      for i := 0 to count
        invariant forall j: nat | j < 288 :: symbols[j] == if at <= j < at + i then first + j - at else old(symbols[j])
      {
        symbols[at + i] := first + i;
      }
    }

    /** tinf_build_fixed_trees, distance part. */
    method BuildFixedDist()
      requires Shaped()
      modifies this, counts, symbols
      ensures Holds(FixedDist()) && maxSym == 29
    {
      for i := 0 to 16
        invariant forall j | 0 <= j < i :: counts[j] == 0
      {
        counts[i] := 0;
      }
      counts[5] := 32;
      ghost var cs := counts[..];
      for i := 0 to 32
        invariant counts[..] == cs
        invariant forall j | 0 <= j < i :: symbols[j] == j
      {
        symbols[i] := i;
      }
      maxSym := 29;
      FixedDistComplete();
      assert forall l: nat | 1 <= l <= 15 :: counts[l] == cs[l];
      FixedDistSorted(symbols[..]);
    }
  }

  /** The only symbol is the first one in the table. */
  lemma SoleSymbol(lens: seq<nat>, symbols: seq<nat>)
    requires NumCodes(lens) == 1 && Count(lens, 1) == 1 && Sorted(symbols, lens, 1, 1)
    ensures MaxSym(lens) >= 0 && |symbols| > 0 && symbols[0] == MaxSym(lens)
    ensures IsNth(Completed(lens), symbols[0], 1, 0) && IsNth(Completed(lens), symbols[0] + 1, 1, 1)
  {
    assert InPlace(symbols, lens, 1, 0) && Base(lens, 1) == 0;
    hide Completed, Count, NumCodes, MaxSym;
    CompleteTableRanks(lens, symbols[0]);
  }

  lemma CompleteTableRanks(lens: seq<nat>, s: nat)
    requires NumCodes(lens) == 1 && Count(lens, 1) == 1
    requires s < |lens| && lens[s] == 1
    ensures s == MaxSym(lens)
    ensures IsNth(Completed(lens), s, 1, 0) && IsNth(Completed(lens), s + 1, 1, 1)
  {
    CompletedSingle(lens, 1);
    var m, c := MaxSym(lens), Completed(lens);
    AboveMaxSym(lens, s);
    if s < m {
      ZerosAre(lens[..m], s);
    }
    CountZeros(lens[..m], 1);
    assert c[..m] == lens[..m];
    assert c[..m + 1] == lens[..m] + [1];
    assert (lens[..m] + [1])[..m] == lens[..m];
  }

  lemma FixedDistSorted(symbols: seq<nat>)
    requires |symbols| == 288
    requires forall j | 0 <= j < 32 :: symbols[j] == j
    ensures forall l: nat | 1 <= l <= 15 :: Sorted(symbols, FixedDist(), l, Count(FixedDist(), l))
  {
    var f := FixedDist();
    FixedDistComplete();
    forall k: nat | k < 32 ensures InPlace(symbols, f, 5, k) {
      CountConstant(f[..k], 5, 5);
    }
  }

  lemma FixedSorted(symbols: seq<nat>)
    requires |symbols| == 288
    requires forall j | 0 <= j < 24 :: symbols[j] == 256 + j
    requires forall j | 24 <= j < 168 :: symbols[j] == j - 24
    requires forall j | 168 <= j < 176 :: symbols[j] == 280 + j - 168
    requires forall j | 176 <= j < 288 :: symbols[j] == 144 + j - 176
    ensures forall l: nat | 1 <= l <= 15 :: Sorted(symbols, FixedLit(), l, Count(FixedLit(), l))
  {
    var f := FixedLit();
    FixedFirst();
    forall l: nat | 1 <= l <= 15 ensures Sorted(symbols, f, l, Count(f, l)) {
      forall k: nat | k < Count(f, l)
        ensures InPlace(symbols, f, l, k)
      {
        var s := symbols[Base(f, l) + k];
        FixedCount(s, l);
      }
    }
  }
}
