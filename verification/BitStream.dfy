/** Bits, bytes and machine words.

    The bit stream of a byte string follows RFC 1951, section 3.1.1: bits are packed into
    each byte starting with the least significant one. Beyond the last byte the stream is
    continued with zeros, which is what a bit reader sees that keeps reading past its input.
 */
module BitStream {

  type byte = b: int | 0 <= b < 256
  type bit = b: int | 0 <= b < 2

  function Pow2(n: nat): (p: nat)
    ensures p >= 1
  {
    if n == 0 then 1 else 2 * Pow2(n - 1)
  }

  lemma {:induction false} Pow2Monotone(a: nat, b: nat)
    requires a <= b
    ensures Pow2(a) <= Pow2(b)
  {
    if a < b {
      Pow2Monotone(a, b - 1);
    }
  }

  /** x times the n-th power of two, by doubling. */
  function Scale(x: nat, n: nat): nat {
    if n == 0 then x else 2 * Scale(x, n - 1)
  }

  lemma {:induction false} ScaleSum(x: nat, y: nat, n: nat)
    ensures Scale(x + y, n) == Scale(x, n) + Scale(y, n)
  {
    if n > 0 {
      ScaleSum(x, y, n - 1);
    }
  }

  lemma {:induction false} ScaleScale(x: nat, m: nat, n: nat)
    ensures Scale(Scale(x, m), n) == Scale(x, m + n)
  {
    if n > 0 {
      ScaleScale(x, m, n - 1);
    }
  }

  lemma {:induction false} ScaleMonotone(x: nat, y: nat, n: nat)
    ensures x <= y ==> Scale(x, n) <= Scale(y, n)
    ensures x < y ==> Scale(x, n) < Scale(y, n)
  {
    if n > 0 {
      ScaleMonotone(x, y, n - 1);
    }
  }

  lemma {:induction false} ScaleOne(n: nat)
    ensures Scale(1, n) == Pow2(n)
  {
    if n > 0 {
      ScaleOne(n - 1);
    }
  }

  // ---------------------------------------------------------------- C's bitwise operators

  /** x | y on unsigned words. */
  function Or(x: nat, y: nat): nat
    decreases x + y
  {
    if x == 0 && y == 0 then 0
    else 2 * Or(x / 2, y / 2) + (if x % 2 == 1 || y % 2 == 1 then 1 else 0)
  }

  /** x & y on unsigned words. */
  function And(x: nat, y: nat): nat
    decreases x + y
  {
    if x == 0 && y == 0 then 0
    else 2 * And(x / 2, y / 2) + (if x % 2 == 1 && y % 2 == 1 then 1 else 0)
  }

  /** x >> n on unsigned words. */
  function Shr(x: nat, n: nat): nat {
    if n == 0 then x else Shr(x / 2, n - 1)
  }

  /** The low n bits of x. */
  function Low(x: nat, n: nat): nat {
    if n == 0 then 0 else x % 2 + 2 * Low(x / 2, n - 1)
  }

  /** x << n on 32-bit unsigned words. */
  function Shl32(x: nat, n: nat): nat {
    Low(Scale(x, n), 32)
  }

  lemma {:induction false} LowFits(x: nat, n: nat)
    requires x < Pow2(n)
    ensures Low(x, n) == x
  {
    if n > 0 {
      LowFits(x / 2, n - 1);
    }
  }

  lemma {:induction false} OrZero(x: nat)
    ensures Or(x, 0) == x && Or(0, x) == x
  {
    if x > 0 {
      OrZero(x / 2);
    }
  }

  /** Or-ing bits above the top of x is adding them. */
  lemma {:induction false} OrDisjoint(x: nat, y: nat, k: nat)
    requires x < Pow2(k)
    ensures Or(x, Scale(y, k)) == x + Scale(y, k)
  {
    if k == 0 {
      OrZero(y);
    } else {
      OrDisjoint(x / 2, y, k - 1);
    }
  }

  lemma {:induction false} AndZero(x: nat)
    ensures And(x, 0) == 0
  {
    if x > 0 {
      AndZero(x / 2);
    }
  }

  /** Masking with (1 << n) - 1 keeps the low n bits. */
  lemma {:induction false} AndMask(x: nat, n: nat)
    ensures And(x, Pow2(n) - 1) == Low(x, n)
  {
    if n == 0 {
      AndZero(x);
    } else {
      AndMask(x / 2, n - 1);
      AndStep(x, Pow2(n - 1) - 1);
    }
  }

  lemma AndStep(x: nat, m: nat)
    ensures And(x, 2 * m + 1) == 2 * And(x / 2, m) + x % 2
  {
    assert (2 * m + 1) / 2 == m && (2 * m + 1) % 2 == 1;
  }

  // ---------------------------------------------------------------------- the bit stream

  /** Binary digit j of v. */
  function Digit(v: nat, j: nat): bit {
    if j == 0 then v % 2 else Digit(v / 2, j - 1)
  }

  /** Bit i of the stream. */
  function Bit(src: seq<byte>, i: nat): bit {
    if i < 8 * |src| then Digit(src[i / 8], i % 8) else 0
  }

  /** n bits from position pos as a number, first bit least significant (section 3.1.1). */
  function ReadLsb(src: seq<byte>, pos: nat, n: nat): nat
    decreases n, pos
  {
    if n == 0 then 0 else Bit(src, pos) + 2 * ReadLsb(src, pos + 1, n - 1)
  }

  /** n bits from position pos as a number, first bit most significant: Huffman codes. */
  function ReadMsb(src: seq<byte>, pos: nat, n: nat): nat
    decreases n, pos
  {
    if n == 0 then 0 else 2 * ReadMsb(src, pos, n - 1) + Bit(src, pos + n - 1)
  }

  lemma {:induction false} ReadLsbBound(src: seq<byte>, pos: nat, n: nat)
    ensures ReadLsb(src, pos, n) < Pow2(n)
    decreases n
  {
    if n > 0 {
      ReadLsbBound(src, pos + 1, n - 1);
    }
  }

  lemma {:induction false} ReadMsbBound(src: seq<byte>, pos: nat, n: nat)
    ensures ReadMsb(src, pos, n) < Pow2(n)
  {
    if n > 0 {
      ReadMsbBound(src, pos, n - 1);
    }
  }

  /** Reading a + b bits is reading a bits and then b bits above them. */
  lemma {:induction false} ReadLsbSplit(src: seq<byte>, pos: nat, a: nat, b: nat)
    ensures ReadLsb(src, pos, a + b) == ReadLsb(src, pos, a) + Scale(ReadLsb(src, pos + a, b), a)
    decreases a
  {
    if a > 0 {
      ReadLsbSplit(src, pos + 1, a - 1, b);
      assert pos + 1 + (a - 1) == pos + a && a - 1 + b == a + b - 1;
    }
  }

  /** The low m of n bits are the first m, the rest is what is left in the stream. */
  lemma {:induction false} ReadLsbPrefix(src: seq<byte>, pos: nat, n: nat, m: nat)
    requires m <= n
    ensures Low(ReadLsb(src, pos, n), m) == ReadLsb(src, pos, m)
    ensures Shr(ReadLsb(src, pos, n), m) == ReadLsb(src, pos + m, n - m)
    decreases m
  {
    if m > 0 {
      ReadLsbPrefix(src, pos + 1, n - 1, m - 1);
      assert pos + 1 + (m - 1) == pos + m && n - 1 - (m - 1) == n - m;
    }
  }

  /** If the stream holds the binary digits of v from pos on, reading n bits gives v's low n bits. */
  lemma {:induction false} ReadLsbDigits(src: seq<byte>, pos: nat, n: nat, v: nat)
    requires forall j: nat | j < n :: Bit(src, pos + j) == Digit(v, j)
    ensures ReadLsb(src, pos, n) == Low(v, n)
    decreases n
  {
    if n > 0 {
      assert Bit(src, pos + 0) == Digit(v, 0);
      forall j: nat | j < n - 1 ensures Bit(src, pos + 1 + j) == Digit(v / 2, j) {
        assert Bit(src, pos + (j + 1)) == Digit(v, j + 1);
      }
      ReadLsbDigits(src, pos + 1, n - 1, v / 2);
    }
  }

  function ByteAt(src: seq<byte>, i: nat): byte {
    if i < |src| then src[i] else 0
  }

  lemma {:induction false} ZeroDigit(j: nat)
    ensures Digit(0, j) == 0
  {
    if j > 0 {
      ZeroDigit(j - 1);
    }
  }

  lemma BitOfByte(src: seq<byte>, i: nat, j: nat)
    requires j < 8
    ensures Bit(src, 8 * i + j) == Digit(ByteAt(src, i), j)
  {
    assert (8 * i + j) / 8 == i && (8 * i + j) % 8 == j;
    ZeroDigit(j);
  }

  /** Eight aligned bits are the byte itself. */
  lemma ReadLsbByte(src: seq<byte>, i: nat, n: nat)
    requires n == 8
    ensures ReadLsb(src, 8 * i, n) == ByteAt(src, i)
  {
    forall j: nat | j < n ensures Bit(src, 8 * i + j) == Digit(ByteAt(src, i), j) {
      BitOfByte(src, i, j);
    }
    ReadLsbDigits(src, 8 * i, n, ByteAt(src, i));
    Pow2Small();
    LowFits(ByteAt(src, i), n);
  }

  lemma Pow2Small()
    ensures Pow2(0) == 1 && Pow2(1) == 2 && Pow2(2) == 4 && Pow2(3) == 8 && Pow2(4) == 16
    ensures Pow2(5) == 32 && Pow2(6) == 64 && Pow2(7) == 128 && Pow2(8) == 256
  {
  }
}
