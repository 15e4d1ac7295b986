/** kernel/src/tinf/tinflate.c: struct tinf_data and the functions that decode with it. Every
    method is proved against InflateSpec; Uncompress, the entry point, also against Rfc1951.
    An assertion of the source that fails stops the kernel; here each is a proof obligation.
 */
module Tinflate {
  import opened BitStream
  import opened CanonicalCode
  import opened HuffmanTree
  import opened Rfc1951
  import opened InflateSpec
  import opened InflateTheorems
  import opened InflateErrors

  const LENGTH_BITS: seq<nat> := [
    0, 0, 0, 0, 0, 0, 0, 0, 1, 1,
    1, 1, 2, 2, 2, 2, 3, 3, 3, 3,
    4, 4, 4, 4, 5, 5, 5, 5, 0, 127]

  const LENGTH_BASE: seq<nat> := [
    3, 4, 5, 6, 7, 8, 9, 10, 11, 13,
    15, 17, 19, 23, 27, 31, 35, 43, 51, 59,
    67, 83, 99, 115, 131, 163, 195, 227, 258, 0]

  const DIST_BITS: seq<nat> := [
    0, 0, 0, 0, 1, 1, 2, 2, 3, 3,
    4, 4, 5, 5, 6, 6, 7, 7, 8, 8,
    9, 9, 10, 10, 11, 11, 12, 12, 13, 13]

  const DIST_BASE: seq<nat> := [
    1, 2, 3, 4, 5, 7, 9, 13, 17, 25,
    33, 49, 65, 97, 129, 193, 257, 385, 513, 769,
    1025, 1537, 2049, 3073, 4097, 6145, 8193, 12289, 16385, 24577]

  /** The tables are those of section 3.2.5. */
  lemma {:induction false} LengthTables(c: nat)
    requires 257 <= c <= 285
    ensures LENGTH_BITS[c - 257] == LengthExtra(c) <= 5
    ensures LENGTH_BASE[c - 257] == LengthBase(c)
  {
    LengthBitsTable(c);
    if 257 < c < 285 {
      LengthTables(c - 1);
      hide LengthExtra, Pow2;
      LengthStep(c - 257);
    }
  }

  lemma LengthStep(i: nat)
    requires 1 <= i < 28
    ensures LENGTH_BASE[i] == LENGTH_BASE[i - 1] + Pow2(LENGTH_BITS[i - 1])
  {
    if i <= 9 {
      LengthStepLow(i);
    } else if i <= 18 {
      LengthStepMiddle(i);
    } else {
      Pow2Small();
      hide Pow2;
    }
  }

  lemma LengthStepLow(i: nat)
    requires 1 <= i <= 9
    ensures LENGTH_BASE[i] == LENGTH_BASE[i - 1] + Pow2(LENGTH_BITS[i - 1])
  {
    Pow2Small();
    hide Pow2;
  }

  lemma LengthStepMiddle(i: nat)
    requires 10 <= i <= 18
    ensures LENGTH_BASE[i] == LENGTH_BASE[i - 1] + Pow2(LENGTH_BITS[i - 1])
  {
    Pow2Small();
    hide Pow2;
  }

  lemma LengthBitsTable(c: nat)
    requires 257 <= c <= 285
    ensures LENGTH_BITS[c - 257] == LengthExtra(c) <= 5
  {
  }

  lemma {:induction false} DistTables(d: nat)
    requires d <= 29
    ensures DIST_BITS[d] == DistExtra(d) <= 13
    ensures DIST_BASE[d] == DistBase(d)
  {
    DistBitsTable(d);
    if d > 0 {
      DistTables(d - 1);
      hide DistExtra, Pow2;
      DistStep(d);
    }
  }

  lemma DistStep(i: nat)
    requires 1 <= i < 30
    ensures DIST_BASE[i] == DIST_BASE[i - 1] + Pow2(DIST_BITS[i - 1])
  {
    if i <= 9 {
      DistStepLow(i);
    } else if i <= 19 {
      DistStepMiddle(i);
    } else {
      Pow2Upto13();
      hide Pow2;
    }
  }

  lemma DistStepLow(i: nat)
    requires 1 <= i <= 9
    ensures DIST_BASE[i] == DIST_BASE[i - 1] + Pow2(DIST_BITS[i - 1])
  {
    Pow2Upto13();
    hide Pow2;
  }

  lemma DistStepMiddle(i: nat)
    requires 10 <= i <= 19
    ensures DIST_BASE[i] == DIST_BASE[i - 1] + Pow2(DIST_BITS[i - 1])
  {
    Pow2Upto13();
    hide Pow2;
  }

  lemma DistBitsTable(d: nat)
    requires d <= 29
    ensures DIST_BITS[d] == DistExtra(d) <= 13
  {
  }

  lemma Pow2Upto13()
    ensures Pow2(0) == 1 && Pow2(1) == 2 && Pow2(2) == 4 && Pow2(3) == 8 && Pow2(4) == 16
    ensures Pow2(5) == 32 && Pow2(6) == 64 && Pow2(7) == 128 && Pow2(8) == 256 && Pow2(9) == 512
    ensures Pow2(10) == 1024 && Pow2(11) == 2048 && Pow2(12) == 4096 && Pow2(13) == 8192
  {
    Pow2Small();
  }

  /** ~x on 32-bit words. */
  function Not32(x: nat): nat
    requires x <= 0xFFFF_FFFF
  {
    0xFFFF_FFFF - x
  }

  /** The low half of a complement is the complement of the low half. */
  lemma {:induction false} LowOfComplement(x: nat, n: nat, m: nat)
    requires x < Pow2(n) && n <= m
    ensures Pow2(n) <= Pow2(m)
    ensures Low(Pow2(m) - 1 - x, n) == Pow2(n) - 1 - x
  {
    Pow2Monotone(n, m);
    if n > 0 {
      Pow2Monotone(n - 1, m - 1);
      LowOfComplement(x / 2, n - 1, m - 1);
      var y := Pow2(m) - 1 - x;
      assert y % 2 == 1 - x % 2 && y / 2 == Pow2(m - 1) - 1 - x / 2;
    }
  }

  lemma Complement16(x: nat)
    requires x <= 0xFFFF
    ensures And(Not32(x), 0x0000FFFF) == 65535 - x
  {
    Pow2Of16(16);
    Pow2Of32();
    LowOfComplement(x, 16, 32);
    AndMask(Not32(x), 16);
  }

  lemma Pow2Of32()
    ensures Pow2(32) == 0x1_0000_0000
  {
    Pow2Of16(16);
    assert Pow2(17) == 0x2_0000 && Pow2(18) == 0x4_0000 && Pow2(19) == 0x8_0000 && Pow2(20) == 0x10_0000;
    assert Pow2(21) == 0x20_0000 && Pow2(22) == 0x40_0000 && Pow2(23) == 0x80_0000 && Pow2(24) == 0x100_0000;
    assert Pow2(25) == 0x200_0000 && Pow2(26) == 0x400_0000 && Pow2(27) == 0x800_0000 && Pow2(28) == 0x1000_0000;
    assert Pow2(29) == 0x2000_0000 && Pow2(30) == 0x4000_0000 && Pow2(31) == 0x8000_0000;
  }

  /** read_le16. */
  function ReadLittle16(src: seq<byte>, i: nat): (r: nat)
    requires i + 1 < |src|
    ensures r == Le16(src, i) && r <= 65535
  {
    ShiftFits(src[i + 1], 8);
    Pow2Small();
    Scale256(src[i + 1], 8);
    OrDisjoint(src[i], src[i + 1], 8);
    Or(src[i], Shl32(src[i + 1], 8))
  }

  /** A byte shifted left by at most 24 loses no bits. */
  lemma ShiftFits(b: byte, n: nat)
    requires n <= 24
    ensures Shl32(b, n) == Scale(b, n)
  {
    Pow2Small();
    ScaleMonotone(b, 256, n);
    ScaleOne(8);
    ScaleScale(1, 8, n);
    ScaleOne(8 + n);
    Pow2Monotone(8 + n, 32);
    LowFits(Scale(b, n), 32);
  }

  /** A match grows at its end. */
  lemma {:induction false} CopyMatchSnoc(out: seq<byte>, dist: nat, len: nat)
    requires 1 <= dist <= |out|
    ensures CopyMatch(out, dist, len + 1) ==
            CopyMatch(out, dist, len) + [CopyMatch(out, dist, len)[|out| + len - dist]]
    decreases len
  {
    if len > 0 {
      CopyMatchSnoc(out + [out[|out| - dist]], dist, len - 1);
    }
  }

  /** How many bits tinf_refill leaves in the tag. */
  function Refilled(bitcount: nat, num: nat): nat {
    if bitcount >= num then bitcount else bitcount + 8 * ((num - bitcount + 7) / 8)
  }

  class TinfData {
    const input: seq<byte>          // source .. source_end
    var source: nat
    var tag: nat
    var bitcount: nat
    var overflow: bool

    const output: array<byte>       // dest_start ..
    const destEnd: nat
    var dest: nat

    const ltree: TinfTree
    const dtree: TinfTree

    ghost var pos: nat              // position in the bit stream
    ghost var ahead: nat            // bytes taken, those after the end of the input included

    constructor (dest: array<byte>, destLen: nat, source: seq<byte>)
      requires destLen <= dest.Length
      ensures Valid() && pos == 0 && this.dest == 0
      ensures input == source && output == dest && destEnd == destLen
      ensures fresh(this) && fresh(ltree) && fresh(dtree)
      ensures fresh(ltree.counts) && fresh(ltree.symbols) && fresh(dtree.counts) && fresh(dtree.symbols)
    {
      input := source;
      this.source, tag, bitcount, overflow := 0, 0, 0, false;
      output, this.dest, destEnd := dest, 0, destLen;
      ltree := new TinfTree();
      dtree := new TinfTree();
      pos, ahead := 0, 0;
    }

    /** The tag holds the bitcount bits of the stream from pos on. */
    ghost predicate Reads()
      reads `source, `tag, `bitcount, `overflow, `pos, `ahead
    {
      source <= |input| && source <= ahead && pos + bitcount == 8 * ahead &&
      (overflow <==> ahead > source) && (overflow ==> source == |input|) &&
      tag == ReadLsb(input, pos, bitcount)
    }

    ghost predicate Shaped()
      reads this
    {
      dest <= destEnd <= output.Length && ltree.Shaped() && dtree.Shaped() &&
      ltree != dtree && ltree.counts != dtree.counts && ltree.symbols != dtree.symbols &&
      ltree.counts != dtree.symbols && ltree.symbols != dtree.counts
    }

    /** Between reads less than a byte is left in the tag. */
    ghost predicate Valid()
      reads this
    {
      Reads() && bitcount < 8 && Shaped()
    }

    /** The output produced so far. */
    ghost function Out(): seq<byte>
      requires dest <= output.Length
      reads this, output
    {
      output[..dest]
    }

    /** tinf_refill. */
    method Refill(num: nat)
      requires Reads() && num <= 32 && Refilled(bitcount, num) <= 32
      modifies this`source, this`tag, this`bitcount, this`overflow, this`ahead
      ensures Reads() && bitcount == Refilled(old(bitcount), num)
    {
      while bitcount < num
        invariant Reads() && bitcount >= old(bitcount)
        invariant Refilled(bitcount, num) == Refilled(old(bitcount), num)
      {
        RefilledStep(bitcount, num);
        hide ReadLsb, Or, Shl32, Low, Scale, Refilled;
        RefillStep(input, pos, bitcount, ahead);
        if source != |input| {
          tag := Or(tag, Shl32(input[source], bitcount));
          source := source + 1;
        } else {
          overflow := true;
        }
        bitcount := bitcount + 8;
        ahead := ahead + 1;
      }
    }

    /** tinf_getbits_no_refill: the next num bits, first bit least significant. */
    method GetBitsNoRefill(num: nat) returns (bits: nat)
      requires Reads() && num <= bitcount && num < 32
      modifies this`tag, this`bitcount, this`pos
      ensures Reads() && bits == ReadLsb(input, old(pos), num)
      ensures pos == old(pos) + num && bitcount == old(bitcount) - num
    {
      ReadLsbPrefix(input, pos, bitcount, num);
      AndMask(tag, num);
      bits := And(tag, Pow2(num) - 1);
      tag := Shr(tag, num);
      bitcount := bitcount - num;
      pos := pos + num;
    }

    /** tinf_getbits. */
    method GetBits(num: nat) returns (bits: nat)
      requires Valid() && num < 25
      modifies this`source, this`tag, this`bitcount, this`overflow, this`pos, this`ahead
      ensures Valid() && bits == ReadLsb(input, old(pos), num) && pos == old(pos) + num
    {
      Refill(num);
      bits := GetBitsNoRefill(num);
    }

    /** tinf_getbits_base. */
    method GetBitsBase(num: nat, base: nat) returns (value: nat)
      requires Valid() && num < 25
      modifies this`source, this`tag, this`bitcount, this`overflow, this`pos, this`ahead
      ensures Valid() && value == base + ReadLsb(input, old(pos), num) && pos == old(pos) + num
    {
      if num != 0 {
        var bits := GetBits(num);
        value := base + bits;
      } else {
        value := base + 0;
      }
    }

    /** The overflow flag says that more bits have been taken than there are. */
    lemma OverflowIff()
      requires Valid()
      ensures overflow <==> pos > 8 * |input|
    {
    }

    /** tinf_decode_symbol. */
    method DecodeSymbol(t: TinfTree, ghost lens: seq<nat>) returns (sym: nat)
      requires Valid() && t.Holds(lens) && Complete(lens)
      modifies this`source, this`tag, this`bitcount, this`overflow, this`pos, this`ahead
      ensures Valid() && sym == SymbolAt(lens, input, old(pos)) && pos == old(pos) + lens[sym]
    {
      hide Complete, First, ReadMsb, ReadLsb, Count, Base, SymbolAt, Reads, Shaped, Sorted;
      var base, offs: nat := 0, 0;
      var len := 1;
      ghost var p := pos;
      FirstLevel(lens, input, p);
      while true
        invariant Valid() && 1 <= len <= 15 && pos == p + len - 1
        invariant 2 * offs + First(lens, len) == 2 * ReadMsb(input, p, len - 1)
        invariant base == Base(lens, len)
        decreases 15 - len
      {
        var b := GetBits(1);
        offs := 2 * offs + b;
        assert len <= 15;
        NextLevel(lens, input, p, len);
        if offs < t.counts[len] {
          break;
        }
        LastLevel(lens, input, p, len);
        base := base + t.counts[len];
        offs := offs - t.counts[len];
        len := len + 1;
      }
      FoundSymbol(t.symbols[..], lens, len, offs, input, p);
      assert base + offs < 288;
      sym := t.symbols[base + offs];
    }

    /** A tree holds the code c; without any code only maxSym says so. */
    ghost predicate TreeIs(t: TinfTree, c: Code)
      reads t, t.counts, t.symbols
    {
      t.maxSym == c.max && (c.max != -1 ==> t.Holds(c.lens))
    }

    /** The lengths of the code length code, stored three bits each in a special order. */
    method ReadClcLengths(lengths: array<nat>, hclen: nat)
      requires Valid() && lengths.Length == 320 && hclen <= 19
      modifies this`source, this`tag, this`bitcount, this`overflow, this`pos, this`ahead, lengths
      ensures Valid() && pos == old(pos) + 3 * hclen
      ensures lengths[..19] == ReadClc(input, old(pos), hclen)
    {
      hide ReadLsb, Reads, Shaped, ReadClc;
      Clear19(lengths);
      ghost var p := pos;
      for i := 0 to hclen
        invariant Valid() && pos == p + 3 * i
        invariant lengths[..19] == ReadClc(input, p, i)
      {
        ReadClcStep(input, p, i);
        var clen := GetBits(3);
        var k := CLCIDX[i];
        ghost var before := lengths[..19];
        lengths[k] := clen;
        assert lengths[..19] == before[k := clen];
      }
    }

    method Clear19(lengths: array<nat>)
      requires lengths.Length == 320
      modifies lengths
      ensures lengths[..19] == ReadClc(input, pos, 0)
    {
      for i := 0 to 19
        invariant forall j | 0 <= j < i :: lengths[j] == 0
      {
        lengths[i] := 0;
      }
    }

    /** One symbol of the code length code: which length follows how many times. */
    method NextRun(lengths: array<nat>, num: nat, total: nat, ghost clc: Code) returns (ok: bool, value: nat, length: nat)
      requires Valid() && num <= total && num <= lengths.Length && ValidLengths(lengths[..num])
      requires Usable(clc) && clc.max != -1 && clc.max <= 18 && TreeIs(ltree, clc)
      modifies this`source, this`tag, this`bitcount, this`overflow, this`pos, this`ahead
      ensures Valid()
      ensures NextLengths(clc, total, input, old(pos), lengths[..num]) ==
              if ok && length <= total - num then Accept(pos, lengths[..num] + Repeat(value, length)) else Reject
    {
      hide SymbolAt, ReadLsb, Complete, TablesFor, Repeat;
      var sym := DecodeSymbol(ltree, clc.lens);
      if sym > ltree.maxSym {
        return false, 0, 0;
      }
      value, length := sym, 1;
      if sym == 16 {
        if num == 0 {
          return false, 0, 0;
        }
        value := lengths[num - 1];
        length := GetBitsBase(2, 3);
      } else if sym == 17 {
        value := 0;
        length := GetBitsBase(3, 3);
      } else if sym == 18 {
        value := 0;
        length := GetBitsBase(7, 11);
      }
      ok := true;
    }

    /** The run lengths of a dynamic header, until all literal and distance lengths are there. */
    method DecodeLengthsLoop(lengths: array<nat>, total: nat, ghost clc: Code) returns (ok: bool)
      requires Valid() && lengths.Length == 320 && total <= 320
      requires Usable(clc) && clc.max != -1 && clc.max <= 18 && TreeIs(ltree, clc)
      requires lengths != ltree.counts && lengths != ltree.symbols
      modifies this`source, this`tag, this`bitcount, this`overflow, this`pos, this`ahead, lengths
      ensures Valid()
      ensures ok <==> DecodeLengths(clc, total, input, old(pos), []).Good?
      ensures ok ==> DecodeLengths(clc, total, input, old(pos), []) == Good(lengths[..total], pos)
    {
      hide DecodeLengths, Complete, Usable, TablesFor, NextLengths, Reads, Shaped, ValidLengths, Repeat;
      var num := 0;
      ghost var p := pos;
      assert lengths[..0] == [];
      ValidEmpty();
      while num < total
        invariant Valid() && num <= total && ValidLengths(lengths[..num]) && TreeIs(ltree, clc)
        invariant DecodeLengths(clc, total, input, p, []) == DecodeLengths(clc, total, input, pos, lengths[..num])
      {
        DecodeUnfold(clc, total, input, pos, lengths[..num]);
        var go, value, length := NextRun(lengths, num, total, clc);
        if !go || length > total - num {
          return false;
        }
        Fill(lengths, num, value, length);
        num := num + length;
      }
      DecodeDone(clc, total, input, pos, lengths[..num]);
      return true;
    }

    /** Write value to the next length places. */
    method Fill(lengths: array<nat>, num: nat, value: nat, length: nat)
      requires num + length <= lengths.Length
      modifies lengths
      ensures lengths[..num + length] == old(lengths[..num]) + Repeat(value, length)
    {
      var n, left := num, length;
      while left > 0
        invariant n + left == num + length && n >= num && left >= 0
        invariant lengths[..num] == old(lengths[..num])
        invariant forall j | num <= j < n :: lengths[j] == value
      {
        left := left - 1;
        lengths[n] := value;
        n := n + 1;
      }
    }

    /** The tables of the code in which a dynamic header is written; ltree holds them for the time being. */
    method BuildClcTree(lengths: seq<nat>) returns (ok: bool)
      requires Shaped() && |lengths| == 19 && ValidLengths(lengths)
      modifies ltree, ltree.counts, ltree.symbols
      ensures ok <==> Acceptable(lengths) && MaxSym(lengths) != -1
      ensures ok ==> TreeIs(ltree, CodeOf(lengths))
    {
      hide Acceptable, Complete, TablesFor, MaxSym, Completed, CodeOf;
      ok := ltree.Build(lengths);
      if ok {
        CodeOfMax(lengths);
        ok := ltree.maxSym != -1;
      }
    }

    /** tinf_decode_trees. */
    method DecodeTrees() returns (res: Status)
      requires Valid()
      modifies this`source, this`tag, this`bitcount, this`overflow, this`pos, this`ahead
      modifies ltree, ltree.counts, ltree.symbols, dtree, dtree.counts, dtree.symbols
      ensures Valid()
      ensures var c := DynamicCodes(input, old(pos));
              if c.Malformed? then res == DataError
              else res == TinfOk && pos == c.pos && TreeIs(ltree, c.lit) && TreeIs(dtree, c.dist)
    {
      hide *;
      var lengths := new nat[288 + 32];
      ghost var p := pos;
      var hlit := GetBitsBase(5, 257);
      var hdist := GetBitsBase(5, 1);
      var hclen := GetBitsBase(4, 4);
      ReadLsbBound(input, p + 10, 4);
      Pow2Small();
      DynamicTooLong(input, p, hlit, hdist);
      if hlit > 286 || hdist > 30 {
        return DataError;
      }
      ReadClcLengths(lengths, hclen);
      ghost var clens := lengths[..19];
      ReadClcShape(input, p + 14, hclen, clens);
      ClcValidLengths(hclen, clens);
      DynamicUnfold(input, p, hlit, hdist, hclen, clens);
      ValidShaped();
      var ok := BuildClcTree(lengths[..19]);
      if !ok {
        return DataError;
      }
      CodeOfMax(clens);
      ok := DecodeLengthsLoop(lengths, hlit + hdist, CodeOf(clens));
      if !ok {
        return DataError;
      }
      ValidShaped();
      res := BuildBoth(lengths[..hlit + hdist], hlit);
    }

    lemma ValidShaped()
      requires Valid()
      ensures Shaped()
    {
    }

    /** The tables of a dynamic block, out of the lengths that its header has given. */
    method BuildBoth(lengths: seq<nat>, hlit: nat) returns (res: Status)
      requires Shaped() && 257 <= hlit <= 286 && hlit < |lengths| <= hlit + 30 && ValidLengths(lengths)
      modifies ltree, ltree.counts, ltree.symbols, dtree, dtree.counts, dtree.symbols
      ensures var c := CodesFrom(lengths, hlit, pos);
              if c.Malformed? then res == DataError
              else res == TinfOk && c.pos == pos && TreeIs(ltree, c.lit) && TreeIs(dtree, c.dist)
    {
      // the source looks at lengths[256] first
      hide Acceptable, TablesFor, MaxSym, Completed, Complete, CodeOf;
      if lengths[256] == 0 {
        return DataError;
      }
      var ok := BuildOne(ltree, lengths[..hlit]);
      if !ok {
        return DataError;
      }
      ok := BuildOne(dtree, lengths[hlit..]);
      if !ok {
        return DataError;
      }
      return TinfOk;
    }

    method BuildOne(t: TinfTree, lengths: seq<nat>) returns (ok: bool)
      requires t.Shaped() && |lengths| <= 288 && ValidLengths(lengths)
      modifies t, t.counts, t.symbols
      ensures ok <==> Acceptable(lengths)
      ensures ok ==> TreeIs(t, CodeOf(lengths))
    {
      hide Acceptable, TablesFor, MaxSym, Completed, Complete, CodeOf;
      ok := t.Build(lengths);
      if ok {
        CodeOfMax(lengths);
      }
    }

    /** The length and distance of the match that sym begins, and its bytes. */
    method InflateMatch(sym: nat, ghost lit: Code, ghost dist: Code) returns (res: Status)
      requires Valid() && Usable(dist) && 256 < sym && TreeIs(ltree, lit) && TreeIs(dtree, dist)
      modifies this`source, this`tag, this`bitcount, this`overflow, this`pos, this`ahead, this`dest, output
      ensures Valid() && dest >= old(dest) && output[dest..] == old(output[..])[dest..]
      ensures var r := MatchStep(lit, dist, input, old(pos), sym, old(Out()), destEnd);
              if r.Stop? then res == r.status && Out() == old(Out())
              else res == TinfOk && pos == r.pos && Out() == r.out
    {
      hide SymbolAt, ReadLsb, Complete, TablesFor, Reads, LengthBase, LengthExtra, DistBase, DistExtra, CopyMatch, MatchStep;
      ghost var p1, out := pos, Out();
      if sym > ltree.maxSym || sym - 257 > 28 || dtree.maxSym == -1 {
        NoMatch(lit, dist, input, p1, sym, out, destEnd);
        return DataError;
      }
      LengthTables(sym);
      var length := GetBitsBase(LENGTH_BITS[sym - 257], LENGTH_BASE[sym - 257]);
      ghost var p2 := pos;
      var d := DecodeSymbol(dtree, dist.lens);
      ghost var p3 := pos;
      BadDistance(lit, dist, input, p1, sym, out, destEnd, p2, d, p3);
      if d > dtree.maxSym || d > 29 {
        return DataError;
      }
      DistTables(d);
      DistPositive(d);
      var offs := GetBitsBase(DIST_BITS[d], DIST_BASE[d]);
      GoodMatch(lit, dist, input, p1, sym, out, destEnd, length, p2, d, p3, offs, pos);
      if offs > dest {
        return DataError;
      }
      if destEnd - dest < length {
        return BufError;
      }
      CopyBytes(offs, length);
      return TinfOk;
    }

    /** Copy a match, byte by byte, and step over it. */
    method CopyBytes(offs: nat, length: nat)
      requires Shaped() && 1 <= offs <= dest && dest + length <= destEnd
      modifies this`dest, output
      ensures dest == old(dest) + length && output[dest..] == old(output[..])[dest..]
      ensures Out() == CopyMatch(old(Out()), offs, length)
    {
      ghost var before, all := Out(), output[..];
      for i := 0 to length
        invariant dest == |before| && output[..dest + i] == CopyMatch(before, offs, i)
        invariant output[dest + i..] == all[dest + i..]
      {
        CopyMatchSnoc(before, offs, i);
        hide CopyMatch;
        assert output[dest + i - offs] == output[..dest + i][dest + i - offs];
        assert all[dest + i..][1..] == all[dest + i + 1..];
        assert output[dest + i..][1..] == output[dest + i + 1..];
        output[dest + i] := output[dest + i - offs];
        assert output[..dest + i + 1] == output[..dest + i] + [output[dest + i]];
      }
      dest := dest + length;
    }

    /** One symbol of a block: done tells whether the block ends here. */
    method InflateSymbol(ghost lit: Code, ghost dist: Code) returns (res: Status, done: bool)
      requires Valid() && Usable(lit) && Usable(dist) && lit.max >= 256 && TreeIs(ltree, lit) && TreeIs(dtree, dist)
      modifies this`source, this`tag, this`bitcount, this`overflow, this`pos, this`ahead, this`dest, output
      ensures Valid() && dest >= old(dest) && output[dest..] == old(output[..])[dest..]
      ensures var r := BlockStep(lit, dist, input, old(pos), old(Out()), destEnd);
              if r.Stop? then done && res == r.status && Out() == old(Out()) && (res == TinfOk ==> pos == r.pos)
              else !done && pos == r.pos && Out() == r.out
    {
      hide SymbolAt, ReadLsb, Complete, TablesFor, MatchStep, Reads, Usable;
      UsableComplete(lit);
      var sym := DecodeSymbol(ltree, lit.lens);
      OverflowIff();
      if overflow {
        return DataError, true;
      }
      if sym < 256 {
        if dest == destEnd {
          return BufError, true;
        }
        Emit(sym);
        return TinfOk, false;
      } else {
        if sym == 256 {
          return TinfOk, true;
        }
        res := InflateMatch(sym, lit, dist);
        done := res != TinfOk;
      }
    }

    /** A literal goes behind what has been produced. */
    method Emit(b: byte)
      requires dest < destEnd <= output.Length
      modifies this`dest, output
      ensures dest == old(dest) + 1 && Out() == old(Out()) + [b] && output[dest..] == old(output[..])[dest..]
    {
      output[dest] := b;
      dest := dest + 1;
      assert output[..dest] == output[..dest - 1] + [b];
    }

    /** tinf_inflate_block_data. */
    method InflateBlockData(ghost lit: Code, ghost dist: Code) returns (res: Status)
      requires Valid() && Usable(lit) && Usable(dist) && lit.max >= 256 && TreeIs(ltree, lit) && TreeIs(dtree, dist)
      modifies this`source, this`tag, this`bitcount, this`overflow, this`pos, this`ahead, this`dest, output
      ensures Valid() && dest >= old(dest) && output[dest..] == old(output[..])[dest..]
      ensures var r := BlockData(lit, dist, input, old(pos), old(Out()), destEnd);
              res == r.status && Out() == r.out && (res == TinfOk ==> pos == r.pos)
    {
      hide BlockData, BlockStep, TablesFor, Reads, Usable;
      ghost var p, before, all := pos, Out(), output[..];
      while true
        invariant Valid() && TreeIs(ltree, lit) && TreeIs(dtree, dist)
        invariant dest >= |before| && output[dest..] == all[dest..]
        invariant BlockData(lit, dist, input, p, before, destEnd) == BlockData(lit, dist, input, pos, Out(), destEnd)
        decreases if pos <= 8 * |input| then 8 * |input| - pos + 1 else 0
      {
        BlockUnfold(lit, dist, input, pos, Out(), destEnd);
        var done;
        res, done := InflateSymbol(lit, dist);
        if done {
          return;
        }
      }
    }

    /** tinf_inflate_uncompressed_block. */
    method InflateUncompressedBlock() returns (res: Status)
      requires Valid()
      modifies this`source, this`tag, this`bitcount, this`overflow, this`pos, this`ahead, this`dest, output
      ensures dest >= old(dest) && dest <= destEnd && output[dest..] == old(output[..])[dest..]
      ensures var r := StoredBlock(input, old(pos), old(Out()), destEnd);
              res == r.status && Out() == r.out && (res == TinfOk ==> Valid() && pos == r.pos)
    {
      BlockStart();
      hide *;
      ghost var p0, out, start := pos, Out(), source;
      if |input| - source < 4 {
        StoredTooShort(input, p0, out, destEnd);
        return DataError;
      }
      var length := ReadLittle16(input, source);
      StoredIs(input, p0, out, destEnd, start, length);
      var invlength := ReadLittle16(input, source + 2);
      Complement16(invlength);
      if length != And(Not32(invlength), 0x0000FFFF) {
        return DataError;
      }
      source := source + 4;
      if |input| - source < length {
        return DataError;
      }
      if destEnd - dest < length {
        return BufError;
      }
      FinishStored(length);
      res := TinfOk;
    }

    /** Where a stored block begins. */
    lemma BlockStart()
      requires Valid()
      ensures Shaped() && dest <= destEnd <= output.Length && source <= |input| && (overflow ==> source == |input|)
      ensures (pos + 7) / 8 == source || (source == |input| && (pos + 7) / 8 > source)
    {
    }

    /** The rest of a stored block: the data, and then the next byte boundary. */
    method FinishStored(length: nat)
      requires Shaped() && source + length <= |input| && dest + length <= destEnd && !overflow
      requires dest <= destEnd <= output.Length
      modifies this`source, this`tag, this`bitcount, this`pos, this`ahead, this`dest, output
      ensures Valid() && pos == 8 * (old(source) + length) && dest == old(dest) + length && dest <= output.Length
      ensures Out() == old(Out()) + input[old(source)..old(source) + length] && output[dest..] == old(output[..])[dest..]
    {
      hide ReadLsb;
      CopyStored(length);
      tag := 0;
      bitcount := 0;
      pos, ahead := 8 * source, source;
      ReadNone(input, pos);
    }

    /** The data of a stored block go to the output. */
    method CopyStored(length: nat)
      requires source + length <= |input| && dest + length <= destEnd <= output.Length
      modifies this`source, this`dest, output
      ensures source == old(source) + length && dest == old(dest) + length
      ensures Out() == old(Out()) + input[old(source)..source] && output[dest..] == old(output[..])[dest..]
    {
      ghost var from, to, all := source, dest, output[..];
      var left := length;
      while left > 0
        invariant source + left == from + length && source >= from && dest - to == source - from
        invariant output[..dest] == all[..to] + input[from..source]
        invariant output[dest..] == all[dest..]
      {
        left := left - 1;
        output[dest] := input[source];
        assert output[..dest + 1] == output[..dest] + [input[source]];
        dest, source := dest + 1, source + 1;
      }
    }

    /** tinf_inflate_fixed_block. */
    method InflateFixedBlock() returns (res: Status)
      requires Valid()
      modifies this`source, this`tag, this`bitcount, this`overflow, this`pos, this`ahead, this`dest, output
      modifies ltree, ltree.counts, ltree.symbols, dtree, dtree.counts, dtree.symbols
      ensures Shaped() && dest >= old(dest) && output[dest..] == old(output[..])[dest..]
      ensures var r := BlockBody(1, input, old(pos), old(Out()), destEnd);
              res == r.status && Out() == r.out && (res == TinfOk ==> Valid() && pos == r.pos)
    {
      hide TablesFor, Complete, Reads, FixedLit, FixedDist, BlockBody, BlockData, Usable;
      ltree.BuildFixedLit();
      dtree.BuildFixedDist();
      FixedRealizes();
      BodyFixed(input, pos, Out(), destEnd);
      res := InflateBlockData(Code(FixedLit(), 285), Code(FixedDist(), 29));
    }

    /** tinf_inflate_dynamic_block. */
    method InflateDynamicBlock() returns (res: Status)
      requires Valid()
      modifies this`source, this`tag, this`bitcount, this`overflow, this`pos, this`ahead, this`dest, output
      modifies ltree, ltree.counts, ltree.symbols, dtree, dtree.counts, dtree.symbols
      ensures Shaped() && dest >= old(dest) && output[dest..] == old(output[..])[dest..]
      ensures var r := BlockBody(2, input, old(pos), old(Out()), destEnd);
              res == r.status && Out() == r.out && (res == TinfOk ==> Valid() && pos == r.pos)
    {
      hide TablesFor, Complete, Reads, BlockBody, BlockData, DynamicCodes, Usable, TreeIs;
      BodyDynamic(input, pos, Out(), destEnd);
      ghost var c := DynamicCodes(input, pos);
      res := DecodeTrees();
      if res != TinfOk {
        return;
      }
      res := InflateBlockData(c.lit, c.dist);
    }

    /** The switch over the block type. */
    method InflateBlock(btype: nat) returns (res: Status)
      requires Valid()
      modifies this`source, this`tag, this`bitcount, this`overflow, this`pos, this`ahead, this`dest, output
      modifies ltree, ltree.counts, ltree.symbols, dtree, dtree.counts, dtree.symbols
      ensures Shaped() && dest >= old(dest) && output[dest..] == old(output[..])[dest..]
      ensures var r := BlockBody(btype, input, old(pos), old(Out()), destEnd);
              res == r.status && Out() == r.out && (res == TinfOk ==> Valid() && pos == r.pos)
    {
      hide BlockData, DynamicCodes, StoredBlock, FixedLit, FixedDist, Reads;
      if btype == 0 {
        res := InflateUncompressedBlock();
      } else if btype == 1 {
        res := InflateFixedBlock();
      } else if btype == 2 {
        res := InflateDynamicBlock();
      } else {
        res := DataError;
      }
    }

    lemma OutIs()
      requires Shaped()
      ensures dest <= destEnd <= output.Length && Out() == output[..dest]
    {
    }

    /** The loop of tinf_uncompress, with its final check of the bit reader. */
    method InflateStream() returns (res: Status)
      requires Valid()
      modifies this`source, this`tag, this`bitcount, this`overflow, this`pos, this`ahead, this`dest, output
      modifies ltree, ltree.counts, ltree.symbols, dtree, dtree.counts, dtree.symbols
      ensures Shaped() && dest >= old(dest) && output[dest..] == old(output[..])[dest..]
      ensures var r := Stream(input, old(pos), old(Out()), destEnd);
              res == r.status && Out() == r.out
    {
      hide Stream, BlockBody, ReadLsb, Reads;
      ghost var p, before, all := pos, Out(), output[..];
      while true
        invariant Valid() && dest >= |before| && output[dest..] == all[dest..]
        invariant Stream(input, p, before, destEnd) == Stream(input, pos, Out(), destEnd)
        decreases if pos <= 8 * |input| then 8 * |input| - pos + 1 else 0
      {
        StreamUnfold(input, pos, Out(), destEnd);
        var bfinal := GetBits(1);
        var btype := GetBits(2);
        res := InflateBlock(btype);
        if res != TinfOk {
          return;
        }
        if bfinal != 0 {
          break;
        }
      }
      OverflowIff();
      if overflow {
        return DataError;
      }
      res := TinfOk;
    }
  }

  /** tinf_uncompress: returns TINF_OK exactly if the source starts with a DEFLATE stream whose
      content fits into destLen bytes, and then dest holds that content and the length returned is
      its length. A source that begins with more content than fits gives TINF_BUF_ERROR, every other one
      TINF_DATA_ERROR. Nothing beyond the bytes produced is written, and on an error the length is left
      alone. */
  method Uncompress(dest: array<byte>, destLen: nat, source: seq<byte>) returns (res: Status, newLen: nat)
    requires destLen <= dest.Length
    modifies dest
    ensures res == TinfOk <==> exists data :: Inflates(source, data) && |data| <= destLen
    ensures res == TinfOk ==> newLen <= destLen && Inflates(source, dest[..newLen])
    ensures res == TinfOk ==> dest[newLen..] == old(dest[..])[newLen..]
    ensures res == BufError <==> Overflows(source, destLen)
    ensures res == DataError <==> !Overflows(source, destLen) && forall data :: !Inflates(source, data)
    ensures res != TinfOk ==> newLen == destLen
    ensures dest[destLen..] == old(dest[..])[destLen..]
  {
    hide *;
    InflateInvertsDeflate(source, destLen);
    InflateAnswers(source, destLen);
    var d := new TinfData(dest, destLen, source);
    ghost var r := Stream(source, 0, [], destLen);
    d.ValidShaped();
    d.OutIs();
    res := d.InflateStream();
    d.OutIs();
    assert dest[destLen..] == dest[d.dest..][destLen - d.dest..];
    if res != TinfOk {
      return res, destLen;
    }
    newLen := d.dest;
  }

  lemma UsableComplete(c: Code)
    requires Usable(c) && c.max >= 0
    ensures Complete(c.lens)
  {
  }

  lemma BlockUnfold(lit: Code, dist: Code, src: seq<byte>, pos: nat, out: seq<byte>, cap: nat)
    requires Usable(lit) && Usable(dist) && lit.max >= 256 && |out| <= cap
    ensures BlockData(lit, dist, src, pos, out, cap) ==
            match BlockStep(lit, dist, src, pos, out, cap)
            case Stop(status, p) => Outcome(status, p, out)
            case Next(p, o) => BlockData(lit, dist, src, p, o, cap)
  {
    hide BlockStep, Complete;
  }

  lemma ReadClcStep(src: seq<byte>, pos: nat, i: nat)
    requires i < 19
    ensures CLCIDX[i] < 19
    ensures ReadClc(src, pos, i + 1) == ReadClc(src, pos, i)[CLCIDX[i] := ReadLsb(src, pos + 3 * i, 3)]
  {
    hide ReadLsb;
  }

  lemma StreamUnfold(src: seq<byte>, pos: nat, out: seq<byte>, cap: nat)
    requires |out| <= cap
    ensures ReadLsb(src, pos, 1) <= 1
    ensures var r := BlockBody(ReadLsb(src, pos + 1, 2), src, pos + 3, out, cap);
            Stream(src, pos, out, cap) ==
            if r.status != TinfOk || ReadLsb(src, pos, 1) != 0 then r else Stream(src, r.pos, r.out, cap)
  {
    ReadLsbBound(src, pos, 1);
    Pow2Small();
    hide BlockBody, ReadLsb;
  }

  lemma DecodeDone(clc: Code, total: nat, src: seq<byte>, pos: nat, acc: seq<nat>)
    requires Usable(clc) && clc.max != -1 && clc.max <= 18 && |acc| == total && ValidLengths(acc)
    ensures DecodeLengths(clc, total, src, pos, acc) == Good(acc, pos)
  {
  }

  lemma DynamicTooLong(src: seq<byte>, pos: nat, hlit: nat, hdist: nat)
    requires hlit == 257 + ReadLsb(src, pos, 5) && hdist == 1 + ReadLsb(src, pos + 5, 5)
    ensures hlit > 286 || hdist > 30 ==> DynamicCodes(src, pos).Malformed?
  {
    hide ReadLsb, ReadClc, Acceptable, MaxSym, CodeOf, DecodeLengths, CodesFrom, Usable, Complete;
  }

  lemma ClcValidLengths(n: nat, clens: seq<nat>)
    requires ValidClc(n, clens)
    ensures |clens| == 19 && ValidLengths(clens)
  {
  }

  lemma FirstLevel(lens: seq<nat>, input: seq<byte>, p: nat)
    ensures First(lens, 1) == 0 && ReadMsb(input, p, 0) == 0 && Base(lens, 1) == 0
  {
  }

  /** One more bit of a code, and what the sums over shorter codes become. */
  lemma NextLevel(lens: seq<nat>, input: seq<byte>, p: nat, len: nat)
    requires len >= 1
    ensures ReadMsb(input, p, len) == 2 * ReadMsb(input, p, len - 1) + ReadLsb(input, p + len - 1, 1)
    ensures First(lens, len + 1) == 2 * (First(lens, len) + Count(lens, len))
    ensures Base(lens, len + 1) == Base(lens, len) + Count(lens, len)
  {
    ReadOne(input, p + len - 1);
  }

  /** The table entry that the code bits lead to is the symbol with that code word. */
  lemma FoundSymbol(symbols: seq<nat>, lens: seq<nat>, len: nat, offs: nat, input: seq<byte>, p: nat)
    requires Complete(lens) && 1 <= len <= 15 && Sorted(symbols, lens, len, Count(lens, len))
    requires offs < Count(lens, len) && offs + First(lens, len) == ReadMsb(input, p, len)
    ensures Base(lens, len) + offs < |symbols| && symbols[Base(lens, len) + offs] == SymbolAt(lens, input, p)
    ensures lens[SymbolAt(lens, input, p)] == len
  {
    hide Count, First, Base, ReadMsb, Complete;
    assert InPlace(symbols, lens, len, offs);
    var sym := symbols[Base(lens, len) + offs];
    assert IsCodeAt(lens, sym, input, p);
    PrefixFree(lens, sym, SymbolAt(lens, input, p), input, p);
  }

  lemma RefilledStep(bitcount: nat, num: nat)
    requires bitcount < num
    ensures bitcount + 8 <= Refilled(bitcount, num) == Refilled(bitcount + 8, num)
  {
  }

  // ------------------------------------------------------- what a match is, number by number

  lemma NoMatch(lit: Code, dist: Code, src: seq<byte>, p1: nat, sym: nat, out: seq<byte>, cap: nat)
    requires Usable(dist) && sym > 256 && |out| <= cap && (sym > lit.max || sym > 285 || dist.max == -1)
    ensures MatchStep(lit, dist, src, p1, sym, out, cap) == Stop(DataError, p1)
  {
  }

  lemma BadDistance(lit: Code, dist: Code, src: seq<byte>, p1: nat, sym: nat, out: seq<byte>, cap: nat, p2: nat, d: nat, p3: nat)
    requires Usable(dist) && sym > 256 && |out| <= cap && sym <= lit.max && sym <= 285 && dist.max != -1
    requires p2 == p1 + LengthExtra(sym) && d == SymbolAt(dist.lens, src, p2) && p3 == p2 + dist.lens[d]
    ensures d > dist.max || d > 29 ==> MatchStep(lit, dist, src, p1, sym, out, cap) == Stop(DataError, p3)
  {
    hide SymbolAt, ReadLsb, Complete, LengthBase, LengthExtra, DistBase, DistExtra, CopyMatch;
  }

  lemma GoodMatch(lit: Code, dist: Code, src: seq<byte>, p1: nat, sym: nat, out: seq<byte>, cap: nat,
                  length: nat, p2: nat, d: nat, p3: nat, offs: nat, p4: nat)
    requires Usable(dist) && sym > 256 && |out| <= cap && sym <= lit.max && sym <= 285 && dist.max != -1
    requires length == LengthBase(sym) + ReadLsb(src, p1, LengthExtra(sym)) && p2 == p1 + LengthExtra(sym)
    requires d == SymbolAt(dist.lens, src, p2) && p3 == p2 + dist.lens[d] && d <= dist.max && d <= 29
    requires offs == DistBase(d) + ReadLsb(src, p3, DistExtra(d)) && p4 == p3 + DistExtra(d)
    ensures offs >= 1
    ensures MatchStep(lit, dist, src, p1, sym, out, cap) ==
            if offs > |out| then Stop(DataError, p4) else if cap - |out| < length then Stop(BufError, p4)
            else Next(p4, CopyMatch(out, offs, length))
  {
    hide SymbolAt, ReadLsb, Complete, LengthBase, LengthExtra, DistBase, DistExtra, CopyMatch;
    DistPositive(d);
  }

  /** A stored block with a whole header. */
  lemma StoredIs(src: seq<byte>, pos: nat, out: seq<byte>, cap: nat, start: nat, length: nat)
    requires |out| <= cap && start == (pos + 7) / 8 && start + 4 <= |src| && length == Le16(src, start)
    ensures StoredBlock(src, pos, out, cap) ==
            if length != 65535 - Le16(src, start + 2) then Outcome(DataError, pos, out)
            else if start + 4 + length > |src| then Outcome(DataError, pos, out)
            else if cap - |out| < length then Outcome(BufError, pos, out)
            else Outcome(TinfOk, 8 * (start + 4 + length), out + src[start + 4..start + 4 + length])
  {
    hide Le16;
  }

  lemma StoredTooShort(src: seq<byte>, pos: nat, out: seq<byte>, cap: nat)
    requires |out| <= cap && (pos + 7) / 8 + 4 > |src|
    ensures StoredBlock(src, pos, out, cap) == Outcome(DataError, pos, out)
  {
  }

  /** Or-ing the next byte into the tag, or nothing after the last one, appends eight bits. */
  lemma RefillStep(input: seq<byte>, pos: nat, bitcount: nat, ahead: nat)
    requires pos + bitcount == 8 * ahead && bitcount <= 24
    ensures ahead < |input| ==>
              ReadLsb(input, pos, bitcount + 8) == Or(ReadLsb(input, pos, bitcount), Shl32(input[ahead], bitcount))
    ensures ahead >= |input| ==> ReadLsb(input, pos, bitcount + 8) == ReadLsb(input, pos, bitcount)
  {
    hide ReadLsb, Scale, Or, Shl32;
    ReadLsbSplit(input, pos, bitcount, 8);
    ReadLsbByte(input, ahead, 8);
    ReadLsbBound(input, pos, bitcount);
    if ahead < |input| {
      ShiftFits(input[ahead], bitcount);
      OrDisjoint(ReadLsb(input, pos, bitcount), input[ahead], bitcount);
    } else {
      ScaleZero(bitcount);
    }
  }

  lemma {:induction false} ScaleZero(n: nat)
    ensures Scale(0, n) == 0
  {
    if n > 0 {
      ScaleZero(n - 1);
    }
  }
}
