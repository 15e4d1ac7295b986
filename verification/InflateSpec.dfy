/** Decoding one symbol at a time, as a function of the bit stream: the result, error code and
    output included, that kernel/src/tinf/tinflate.c computes. Symbols are found by the code
    words of RFC 1951 (SymbolAt), not by tables. Sound and Complete in InflateTheorems relate it
    to the format.
 */
module InflateSpec {
  import opened BitStream
  import opened CanonicalCode
  import opened HuffmanTree
  import opened Rfc1951

  datatype Status = TinfOk | DataError | BufError

  /** Status, position after the part decoded (meaningful if TinfOk), output so far. */
  datatype Outcome = Outcome(status: Status, pos: nat, out: seq<byte>)

  /** A code as the decoder uses it: a complete code, and the largest symbol that is meaningful
      (-1 if there is no code at all). */
  datatype Code = Code(lens: seq<nat>, max: int)

  ghost predicate Usable(c: Code) {
    c.max >= -1 && (c.max != -1 ==> Complete(c.lens))
  }

  // --------------------------------------------------------------------- data of one block

  /** One symbol with what belongs to it: the block ends, or goes on with more output. */
  datatype Step = Stop(status: Status, pos: nat) | Next(pos: nat, out: seq<byte>)

  /** The match that length symbol sym, read before p1, begins. */
  ghost function MatchStep(lit: Code, dist: Code, src: seq<byte>, p1: nat, sym: nat, out: seq<byte>, cap: nat): (r: Step)
    requires Usable(dist) && sym > 256 && |out| <= cap
    ensures r.Next? ==> p1 <= r.pos && out <= r.out && |r.out| <= cap
    ensures r.Stop? ==> r.status != TinfOk
  {
    if sym > lit.max || sym > 285 || dist.max == -1 then Stop(DataError, p1)
    else
      var length := LengthBase(sym) + ReadLsb(src, p1, LengthExtra(sym));
      var p2 := p1 + LengthExtra(sym);
      var dsym := SymbolAt(dist.lens, src, p2);
      var p3 := p2 + dist.lens[dsym];
      if dsym > dist.max || dsym > 29 then Stop(DataError, p3)
      else
        var offs := DistBase(dsym) + ReadLsb(src, p3, DistExtra(dsym));
        var p4 := p3 + DistExtra(dsym);
        if offs > |out| then Stop(DataError, p4)
        else if cap - |out| < length then Stop(BufError, p4)
        else
          DistPositive(dsym);
          CopyKeeps(out, offs, length);
          Next(p4, CopyMatch(out, offs, length))
  }

  ghost function BlockStep(lit: Code, dist: Code, src: seq<byte>, pos: nat, out: seq<byte>, cap: nat): (r: Step)
    requires Usable(lit) && Usable(dist) && lit.max != -1 && |out| <= cap
    ensures r.Next? ==> pos < r.pos && pos < 8 * |src| && out <= r.out && |r.out| <= cap
    ensures r.Stop? && r.status == TinfOk ==> pos < r.pos <= 8 * |src|
  {
    var sym := SymbolAt(lit.lens, src, pos);
    var p1 := pos + lit.lens[sym];
    if p1 > 8 * |src| then Stop(DataError, p1)
    else if sym < 256 then
      if |out| == cap then Stop(BufError, p1) else Next(p1, out + [sym])
    else if sym == 256 then Stop(TinfOk, p1)
    else MatchStep(lit, dist, src, p1, sym, out, cap)
  }

  ghost function BlockData(lit: Code, dist: Code, src: seq<byte>, pos: nat, out: seq<byte>, cap: nat): (r: Outcome)
    requires Usable(lit) && Usable(dist) && lit.max != -1 && |out| <= cap
    ensures r.status == TinfOk ==> pos < r.pos <= 8 * |src|
    ensures out <= r.out && |r.out| <= cap
    decreases if pos <= 8 * |src| then 8 * |src| - pos + 1 else 0
  {
    match BlockStep(lit, dist, src, pos, out, cap)
    case Stop(status, p) => Outcome(status, p, out)
    case Next(p, o) => BlockData(lit, dist, src, p, o, cap)
  }

  lemma {:induction false} CopyKeeps(out: seq<byte>, dist: nat, len: nat)
    requires 1 <= dist <= |out|
    ensures out <= CopyMatch(out, dist, len)
    decreases len
  {
    if len > 0 {
      CopyKeeps(out + [out[|out| - dist]], dist, len - 1);
    }
  }

  // ------------------------------------------------------------------- code descriptions

  datatype LengthStep = Reject | Accept(pos: nat, lengths: seq<nat>)

  /** One symbol of the code length code, with its repeat count, after the lengths acc. */
  ghost function NextLengths(clc: Code, total: nat, src: seq<byte>, pos: nat, acc: seq<nat>): (r: LengthStep)
    requires Usable(clc) && clc.max != -1 && clc.max <= 18 && |acc| <= total && ValidLengths(acc)
    ensures r.Accept? ==> |acc| < |r.lengths| <= total && acc <= r.lengths && r.pos >= pos && ValidLengths(r.lengths)
  {
    var sym := SymbolAt(clc.lens, src, pos);
    var p1 := pos + clc.lens[sym];
    if sym > clc.max then Reject
    else if sym == 16 && |acc| == 0 then Reject
    else
      var value := if sym == 16 then acc[|acc| - 1] else if sym >= 17 then 0 else sym;
      var extra := if sym == 16 then 2 else if sym == 17 then 3 else if sym == 18 then 7 else 0;
      var times := if sym == 16 || sym == 17 then 3 + ReadLsb(src, p1, extra)
                   else if sym == 18 then 11 + ReadLsb(src, p1, extra) else 1;
      if times > total - |acc| then Reject
      else Accept(p1 + extra, acc + Repeat(value, times))
  }

  datatype Described = Bad | Good(lengths: seq<nat>, pos: nat)

  /** The run-length coded lengths, total of them, after acc. */
  ghost function DecodeLengths(clc: Code, total: nat, src: seq<byte>, pos: nat, acc: seq<nat>): (r: Described)
    requires Usable(clc) && clc.max != -1 && clc.max <= 18 && |acc| <= total && ValidLengths(acc)
    ensures r.Good? ==> |r.lengths| == total && acc <= r.lengths && r.pos >= pos && ValidLengths(r.lengths)
    decreases total - |acc|
  {
    if |acc| == total then Good(acc, pos)
    else
      match NextLengths(clc, total, src, pos, acc)
      case Reject => Bad
      case Accept(p, a) => DecodeLengths(clc, total, src, p, a)
  }

  /** clcidx: the symbols whose lengths are stored, one after the other. */
  const CLCIDX: seq<nat> := [16, 17, 18, 0, 8, 7, 9, 6, 10, 5, 11, 4, 12, 3, 13, 2, 14, 1, 15]

  /** The table is the order of section 3.2.7 of RFC 1951: 16, 17, 18, 0, then 8, 9, .. 15 in turn with
      7, 6, .. 1. */
  lemma ClcTable()
    ensures |CLCIDX| == 19 && forall i: nat | i < 19 :: CLCIDX[i] == ClcSymbol(i)
    ensures (forall i: nat | i < 3 :: CLCIDX[i] == 16 + i) && CLCIDX[3] == 0
    ensures (forall k: nat | k < 8 :: CLCIDX[4 + 2 * k] == 8 + k) && forall k: nat | k < 7 :: CLCIDX[5 + 2 * k] == 7 - k
  {
  }

  /** The stored lengths of the code length code: 19 of them, n read from pos on. */
  ghost function ReadClc(src: seq<byte>, pos: nat, n: nat): (lens: seq<nat>)
    requires n <= 19
    ensures |lens| == 19 && forall s | 0 <= s < 19 :: lens[s] <= 7
  {
    if n == 0 then Repeat(0, 19)
    else
      ReadLsbBound(src, pos + 3 * (n - 1), 3);
      Pow2Small();
      ReadClc(src, pos, n - 1)[CLCIDX[n - 1] := ReadLsb(src, pos + 3 * (n - 1), 3)]
  }

  datatype Codes = Malformed | Codes(lit: Code, dist: Code, pos: nat)

  /** A code from its lengths. */
  ghost function CodeOf(lens: seq<nat>): (c: Code)
    requires Acceptable(lens)
    ensures Usable(c) && c.max == MaxSym(lens)
  {
    NoCodes(lens);
    if MaxSym(lens) != -1 then
      CompletedIsComplete(lens);
      Code(Completed(lens), MaxSym(lens))
    else Code([], -1)
  }

  /** The codes that all lengths describe, the first hlit of them the literal/length code. */
  ghost function CodesFrom(all: seq<nat>, hlit: nat, p: nat): (r: Codes)
    requires 257 <= hlit < |all|
    ensures r.Codes? ==> Usable(r.lit) && Usable(r.dist) && r.lit.max >= 256 && r.pos == p
  {
    if all[256] == 0 || !Acceptable(all[..hlit]) || !Acceptable(all[hlit..]) then Malformed
    else
      AboveMaxSym(all[..hlit], 256);
      Codes(CodeOf(all[..hlit]), CodeOf(all[hlit..]), p)
  }

  /** The two codes of a dynamic block. */
  ghost function DynamicCodes(src: seq<byte>, pos: nat): (r: Codes)
    ensures r.Codes? ==> Usable(r.lit) && Usable(r.dist) && r.lit.max >= 256 && r.pos >= pos
  {
    var hlit := 257 + ReadLsb(src, pos, 5);
    var hdist := 1 + ReadLsb(src, pos + 5, 5);
    var hclen := 4 + ReadLsb(src, pos + 10, 4);
    ReadLsbBound(src, pos + 10, 4);
    Pow2Small();
    if hlit > 286 || hdist > 30 then Malformed
    else
      var clens := ReadClc(src, pos + 14, hclen);
      if !Acceptable(clens) || MaxSym(clens) == -1 then Malformed
      else
        NoCodes(clens);
        match DecodeLengths(CodeOf(clens), hlit + hdist, src, pos + 14 + 3 * hclen, [])
        case Bad => Malformed
        case Good(all, p) => CodesFrom(all, hlit, p)
  }

  // ---------------------------------------------------------------------- blocks, streams

  /** Two bytes, least significant first. */
  function Le16(src: seq<byte>, i: nat): nat {
    ByteAt(src, i) + 256 * ByteAt(src, i + 1)
  }

  ghost function StoredBlock(src: seq<byte>, pos: nat, out: seq<byte>, cap: nat): (r: Outcome)
    requires |out| <= cap
    ensures r.status == TinfOk ==> pos <= r.pos <= 8 * |src|
    ensures out <= r.out && |r.out| <= cap
  {
    var start := (pos + 7) / 8;
    if start + 4 > |src| then Outcome(DataError, pos, out)
    else
      var length := Le16(src, start);
      if length != 65535 - Le16(src, start + 2) then Outcome(DataError, pos, out)
      else if start + 4 + length > |src| then Outcome(DataError, pos, out)
      else if cap - |out| < length then Outcome(BufError, pos, out)
      else Outcome(TinfOk, 8 * (start + 4 + length), out + src[start + 4..start + 4 + length])
  }

  /** One block without its three header bits. */
  ghost function BlockBody(kind: nat, src: seq<byte>, pos: nat, out: seq<byte>, cap: nat): (r: Outcome)
    requires |out| <= cap
    ensures r.status == TinfOk ==> pos <= r.pos <= 8 * |src|
    ensures out <= r.out && |r.out| <= cap
  {
    if kind == 0 then StoredBlock(src, pos, out, cap)
    else if kind == 1 then
      FixedLitComplete();
      FixedDistComplete();
      BlockData(Code(FixedLit(), 285), Code(FixedDist(), 29), src, pos, out, cap)
    else if kind == 2 then
      match DynamicCodes(src, pos)
      case Malformed => Outcome(DataError, pos, out)
      case Codes(lit, dist, p) => BlockData(lit, dist, src, p, out, cap)
    else Outcome(DataError, pos, out)
  }

  /** All blocks from pos on. */
  ghost function Stream(src: seq<byte>, pos: nat, out: seq<byte>, cap: nat): (r: Outcome)
    requires |out| <= cap
    ensures r.status == TinfOk ==> r.pos <= 8 * |src|
    ensures out <= r.out && |r.out| <= cap
    decreases if pos <= 8 * |src| then 8 * |src| - pos + 1 else 0
  {
    var r := BlockBody(ReadLsb(src, pos + 1, 2), src, pos + 3, out, cap);
    if r.status != TinfOk || ReadLsb(src, pos, 1) == 1 then r
    else Stream(src, r.pos, r.out, cap)
  }
}
