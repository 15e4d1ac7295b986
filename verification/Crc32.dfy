/** kernel/src/tinf/crc32.c: the CRC-32 of RFC 1952, section 8, computed by nibbles. */
module Crc32 {

  type word = bv32

  /** The reflected polynomial of section 8. */
  const POLY: word := 0xEDB88320

  const CRC32TAB: seq<word> := [
    0x00000000, 0x1DB71064, 0x3B6E20C8, 0x26D930AC, 0x76DC4190,
    0x6B6B51F4, 0x4DB26158, 0x5005713C, 0xEDB88320, 0xF00F9344,
    0xD6D6A3E8, 0xCB61B38C, 0x9B64C2B0, 0x86D3D2D4, 0xA00AE278,
    0xBDBDF21C]

  function Xor(a: word, b: word): word {
    a ^ b
  }

  function Wide(b: bv8): word {
    b as word
  }

  // ----------------------------------------------------------------------------- by bits

  /** One step of the division, for the bit that is shifted out. */
  function BitStep(c: word): word {
    if c & 1 == 1 then (c >> 1) ^ POLY else c >> 1
  }

  function BitSteps(c: word, n: nat): word
    decreases n
  {
    if n == 0 then c else BitSteps(BitStep(c), n - 1)
  }

  /** The register after the message: each byte goes into the low end, then eight bit steps. */
  function Register(c: word, data: seq<bv8>): word
    decreases |data|
  {
    if |data| == 0 then c
    else Register(BitSteps(Xor(c, Wide(data[0])), 8), data[1..])
  }

  /** The checksum: the register starts with ones and is complemented at the end. */
  function Crc(data: seq<bv8>): word {
    Xor(Register(0xFFFFFFFF, data), 0xFFFFFFFF)
  }

  // ----------------------------------------------------------------------------- by nibbles

  /** A nibble as an array index. */
  function Index(c: word): (i: nat)
    ensures i < 16
  {
    (if c & 1 == 0 then 0 else 1) + (if c & 2 == 0 then 0 else 2) +
    (if c & 4 == 0 then 0 else 4) + (if c & 8 == 0 then 0 else 8)
  }

  lemma XorShift(a: word, b: word)
    ensures (a ^ b) >> 1 == (a >> 1) ^ (b >> 1)
  {
  }

  lemma XorLow(a: word, b: word)
    ensures ((a ^ b) & 1 == 1) <==> ((a & 1 == 1) != (b & 1 == 1))
  {
  }

  lemma XorCancel(x: word, y: word, p: word)
    ensures (x ^ p) ^ (y ^ p) == x ^ y
  {
  }

  lemma XorRight(x: word, y: word, p: word)
    ensures (x ^ y) ^ p == x ^ (y ^ p)
  {
  }

  lemma XorAssoc(x: word, y: word, p: word)
    ensures Xor(Xor(x, y), p) == Xor(x, Xor(y, p))
  {
    XorRight(x, y, p);
  }

  lemma XorSwap(x: word, y: word, p: word)
    ensures (x ^ y) ^ p == (x ^ p) ^ y
  {
  }

  lemma BitStepLinear(a: word, b: word)
    ensures BitStep(Xor(a, b)) == Xor(BitStep(a), BitStep(b))
  {
    BitStepXor(a, b);
  }

  lemma BitStepXor(a: word, b: word)
    ensures BitStep(a ^ b) == BitStep(a) ^ BitStep(b)
  {
    XorShift(a, b);
    XorLow(a, b);
    if a & 1 == 1 && b & 1 == 1 {
      XorCancel(a >> 1, b >> 1, POLY);
    } else if a & 1 == 1 {
      XorSwap(a >> 1, b >> 1, POLY);
    } else if b & 1 == 1 {
      XorRight(a >> 1, b >> 1, POLY);
    }
  }

  /** The division is linear over exclusive or. */
  lemma {:induction false} BitStepsLinear(a: word, b: word, n: nat)
    ensures BitSteps(Xor(a, b), n) == Xor(BitSteps(a, n), BitSteps(b, n))
    decreases n
  {
    hide Xor, BitStep;
    if n > 0 {
      BitStepLinear(a, b);
      BitStepsLinear(BitStep(a), BitStep(b), n - 1);
    }
  }

  lemma {:induction false} BitStepsSplit(c: word, m: nat, n: nat)
    ensures BitSteps(BitSteps(c, m), n) == BitSteps(c, m + n)
    decreases m
  {
    hide BitStep;
    if m > 0 {
      BitStepsSplit(BitStep(c), m - 1, n);
    }
  }

  function FourSteps(c: word): word {
    BitStep(BitStep(BitStep(BitStep(c))))
  }

  lemma FourStepsAre(c: word, n: nat)
    requires n == 4
    ensures BitSteps(c, n) == FourSteps(c)
  {
    var c1 := BitStep(c);
    var c2 := BitStep(c1);
    var c3 := BitStep(c2);
    assert BitSteps(BitStep(c3), 0) == BitStep(c3);
    assert BitSteps(c3, 1) == BitStep(c3);
    assert BitSteps(c2, 2) == BitSteps(c3, 1);
    assert BitSteps(c1, 3) == BitSteps(c2, 2);
  }

  /** The step that one table lookup makes. */
  function NibbleStep(c: word): word {
    Xor(CRC32TAB[Index(LowNibble(c))], Shifted(c))
  }

  function LowNibble(c: word): word {
    c & 0x0F
  }

  function Shifted(c: word): word {
    c >> 4
  }

  lemma TableIsFourSteps(c: word)
    ensures CRC32TAB[Index(LowNibble(c))] == FourSteps(LowNibble(c))
  {
  }

  lemma HighNibbles(c: word)
    ensures FourSteps(c & 0xFFFFFFF0) == Shifted(c)
  {
  }

  lemma LowHigh(c: word)
    ensures Xor(LowNibble(c), c & 0xFFFFFFF0) == c
  {
  }

  /** One table lookup is four bit steps. */
  lemma NibbleIsFourSteps(c: word, n: nat)
    requires n == 4
    ensures NibbleStep(c) == BitSteps(c, n)
  {
    var high := c & 0xFFFFFFF0;
    LowHigh(c);
    HighNibbles(c);
    NibbleParts(c, high, n);
  }

  lemma NibbleParts(c: word, high: word, n: nat)
    requires n == 4 && Xor(LowNibble(c), high) == c && FourSteps(high) == Shifted(c)
    ensures NibbleStep(c) == BitSteps(c, n)
  {
    hide BitStep, BitSteps, FourSteps, Index, Xor, LowNibble, Shifted;
    TableIsFourSteps(c);
    FourStepsAre(LowNibble(c), n);
    FourStepsAre(high, n);
    BitStepsLinear(LowNibble(c), high, n);
  }

  lemma {:induction false} RegisterSnoc(c: word, data: seq<bv8>, i: nat, n: nat)
    requires i < |data| && n == 8
    ensures Register(c, data[..i + 1]) == BitSteps(Xor(Register(c, data[..i]), Wide(data[i])), n)
    decreases i
  {
    hide BitSteps, Xor, Wide;
    var d := data[..i + 1];
    assert d[0] == data[0];
    if i == 0 {
      assert d[1..] == [];
      assert data[..0] == [];
      assert Register(c, data[..0]) == c;
    } else {
      var c1 := BitSteps(Xor(c, Wide(data[0])), 8);
      RegisterSnoc(c1, data[1..], i - 1, n);
      assert d[1..] == data[1..][..i];
      assert data[..i][1..] == data[1..][..i - 1];
      assert data[..i][0] == data[0] && data[1..][i - 1] == data[i];
    }
  }

  lemma ZeroLength(data: seq<bv8>)
    requires |data| == 0
    ensures Crc(data) == 0
  {
  }

  /** tinf_crc32. */
  method TinfCrc32(data: seq<bv8>) returns (r: word)
    ensures r == Crc(data)
  {
    hide BitSteps, Index, Xor, Wide, LowNibble, Shifted, NibbleStep;
    var crc: word := 0xFFFFFFFF;
    if |data| == 0 {
      ZeroLength(data);
      return 0;
    }
    assert data[..0] == [];
    for i := 0 to |data|
      invariant crc == Register(0xFFFFFFFF, data[..i])
    {
      RegisterSnoc(0xFFFFFFFF, data, i, 8);
      crc := Xor(crc, Wide(data[i]));
      BitStepsSplit(crc, 4, 4);
      NibbleIsFourSteps(crc, 4);
      crc := NibbleStep(crc);
      NibbleIsFourSteps(crc, 4);
      crc := NibbleStep(crc);
    }
    assert data[..|data|] == data;
    r := Xor(crc, 0xFFFFFFFF);
  }

  // ----------------------------------------------------------- what the checksum is good for

  /** The bit steps backwards. */
  function BackStep(c: word): word {
    if c & 0x80000000 != 0 then ((c ^ POLY) << 1) | 1 else c << 1
  }

  lemma BackStepInverts(c: word)
    ensures BackStep(BitStep(c)) == c
  {
  }

  lemma {:induction false} BitStepsInjective(a: word, b: word, n: nat)
    requires a != b
    ensures BitSteps(a, n) != BitSteps(b, n)
    decreases n
  {
    hide BitStep, BackStep;
    if n > 0 {
      BackStepInverts(a);
      BackStepInverts(b);
      BitStepsInjective(BitStep(a), BitStep(b), n - 1);
    }
  }

  lemma XorInjective(a: word, b: word, x: word)
    ensures Xor(a, x) == Xor(b, x) <==> a == b
  {
  }

  /** Different registers stay different, whatever follows. */
  lemma {:induction false} RegisterInjective(a: word, b: word, data: seq<bv8>)
    requires a != b
    ensures Register(a, data) != Register(b, data)
    decreases |data|
  {
    hide BitSteps, Xor, Wide;
    if |data| > 0 {
      var x := Wide(data[0]);
      XorInjective(a, b, x);
      BitStepsInjective(Xor(a, x), Xor(b, x), 8);
      RegisterInjective(BitSteps(Xor(a, x), 8), BitSteps(Xor(b, x), 8), data[1..]);
    }
  }

  lemma {:induction false} RegisterAppend(c: word, a: seq<bv8>, b: seq<bv8>)
    ensures Register(c, a + b) == Register(Register(c, a), b)
    decreases |a|
  {
    hide BitSteps, Xor, Wide;
    if |a| == 0 {
      assert a + b == b;
    } else {
      assert (a + b)[1..] == a[1..] + b;
      RegisterAppend(BitSteps(Xor(c, Wide(a[0])), 8), a[1..], b);
    }
  }

  function Shl8(t: word): word {
    t << 8
  }

  /** The word has n bytes at most. */
  predicate Fits(t: word, n: nat) {
    (n <= 3 ==> t & 0xFF000000 == 0) && (n <= 2 ==> t & 0xFFFF0000 == 0) &&
    (n <= 1 ==> t & 0xFFFFFF00 == 0) && (n == 0 ==> t == 0)
  }

  /** Up to four bytes as a little-endian word. */
  function WordOf(w: seq<bv8>): word
    requires |w| <= 4
  {
    if |w| == 0 then 0 else Xor(Wide(w[0]), Shl8(WordOf(w[1..])))
  }

  lemma {:induction false} WordOfFits(w: seq<bv8>)
    requires |w| <= 4
    ensures Fits(WordOf(w), |w|)
  {
    hide Fits, Xor, Wide, Shl8;
    if |w| > 0 {
      WordOfFits(w[1..]);
      ConsFits(w[0], WordOf(w[1..]), |w| - 1);
    } else {
      ZeroFits();
    }
  }

  lemma ZeroFits()
    ensures Fits(0, 0)
  {
  }

  lemma ConsFits(b: bv8, t: word, n: nat)
    requires Fits(t, n) && n <= 3
    ensures Fits(Xor(Wide(b), Shl8(t)), n + 1)
  {
  }

  lemma ShiftFour(t: word, u: word)
    requires Fits(t, 3) && u == t << 4
    ensures FourSteps(Shl8(t)) == u && FourSteps(u) == t
  {
  }

  /** Bits above the low byte move down unchanged in eight steps. */
  lemma ShiftedThrough(t: word, u: word, m: nat, n: nat)
    requires Fits(t, 3) && u == t << 4 && m == 4 && n == 8
    ensures BitSteps(Shl8(t), n) == t
  {
    ShiftFour(t, u);
    hide FourSteps, BitSteps, Fits, Shl8;
    BitStepsSplit(Shl8(t), m, m);
    FourStepsAre(Shl8(t), m);
    FourStepsAre(u, m);
  }

  /** A window of at most four bytes acts on the register as one word. */
  lemma {:induction false} WindowIsWord(c: word, w: seq<bv8>)
    requires |w| <= 4
    ensures Register(c, w) == BitSteps(Xor(c, WordOf(w)), 8 * |w|)
    decreases |w|
  {
    if |w| == 0 {
      assert Xor(c, 0) == c;
    } else {
      WindowStep(c, WordOf(w[1..]), w);
    }
  }

  lemma FitsMore(t: word, n: nat)
    requires n <= 3 && Fits(t, n)
    ensures Fits(t, 3)
  {
  }

  lemma {:induction false} WindowStep(c: word, t: word, w: seq<bv8>)
    requires 0 < |w| <= 4 && t == WordOf(w[1..])
    ensures Register(c, w) == BitSteps(Xor(c, WordOf(w)), 8 * |w|)
    decreases |w|, 0
  {
    ShiftWindow(t, |w| - 1, w);
    hide BitSteps, Xor, Wide, Shl8, Fits;
    var x := Wide(w[0]);
    WindowIsWord(BitSteps(Xor(c, x), 8), w[1..]);
    BitStepsLinear(Xor(c, x), Shl8(t), 8);
    BitStepsSplit(Xor(Xor(c, x), Shl8(t)), 8, 8 * |w[1..]|);
    XorAssoc(c, x, Shl8(t));
    assert 8 + 8 * |w[1..]| == 8 * |w|;
  }

  lemma ShiftWindow(t: word, n: nat, w: seq<bv8>)
    requires 0 < |w| <= 4 && t == WordOf(w[1..]) && n == |w| - 1
    ensures BitSteps(Shl8(t), 8) == t
  {
    hide BitSteps, Fits, WordOf;
    WordOfFits(w[1..]);
    FitsMore(t, n);
    ShiftedThrough(t, t << 4, 4, 8);
  }

  lemma {:induction false} WordOfInjective(v: seq<bv8>, w: seq<bv8>)
    requires |v| == |w| <= 4 && WordOf(v) == WordOf(w)
    ensures v == w
  {
    hide Xor, Wide, Shl8, Fits;
    if |v| > 0 {
      WordOfFits(v[1..]);
      WordOfFits(w[1..]);
      FitsMore(WordOf(v[1..]), |v| - 1);
      FitsMore(WordOf(w[1..]), |w| - 1);
      WordParts(v[0], WordOf(v[1..]), w[0], WordOf(w[1..]));
      WordOfInjective(v[1..], w[1..]);
      assert v == [v[0]] + v[1..] && w == [w[0]] + w[1..];
    }
  }

  lemma WordParts(a: bv8, s: word, b: bv8, t: word)
    requires Fits(s, 3) && Fits(t, 3)
    requires Xor(Wide(a), Shl8(s)) == Xor(Wide(b), Shl8(t))
    ensures a == b && s == t
  {
  }

  lemma XorSame(c: word, a: word, b: word)
    ensures Xor(c, a) == Xor(c, b) <==> a == b
  {
  }

  /** What the check is for: any change confined to at most four consecutive bytes, wherever it
      is and whatever surrounds it, changes the checksum. */
  lemma DetectsBursts(before: seq<bv8>, v: seq<bv8>, w: seq<bv8>, after: seq<bv8>)
    requires |v| == |w| <= 4 && v != w
    ensures Crc(before + v + after) != Crc(before + w + after)
  {
    hide Register, BitSteps, WordOf, Xor;
    var c := Register(0xFFFFFFFF, before);
    RegisterAppend(0xFFFFFFFF, before + v, after);
    RegisterAppend(0xFFFFFFFF, before, v);
    RegisterAppend(0xFFFFFFFF, before + w, after);
    RegisterAppend(0xFFFFFFFF, before, w);
    WindowIsWord(c, v);
    WindowIsWord(c, w);
    if WordOf(v) == WordOf(w) {
      WordOfInjective(v, w);
    }
    XorSame(c, WordOf(v), WordOf(w));
    BitStepsInjective(Xor(c, WordOf(v)), Xor(c, WordOf(w)), 8 * |v|);
    RegisterInjective(Register(c, v), Register(c, w), after);
    XorInjective(Register(0xFFFFFFFF, before + v + after), Register(0xFFFFFFFF, before + w + after), 0xFFFFFFFF);
  }
}
