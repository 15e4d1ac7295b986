/** The DEFLATE format as an encoding: what a stream of blocks looks like as bits and which bytes
    it stands for, after RFC 1951, sections 3.2.3 to 3.2.7. A reference for the decoder that
    shares none of its code: everything here runs in the direction of the compressor.
 */
module Rfc1951 {
  import opened BitStream
  import opened CanonicalCode
  import opened HuffmanTree
  import opened Options

  // -------------------------------------------------------------------------- bits in place

  /** n binary digits of v, least significant first. */
  function LsbBits(v: nat, n: nat): (s: seq<bit>)
    ensures |s| == n
  {
    if n == 0 then [] else [v % 2] + LsbBits(v / 2, n - 1)
  }

  /** n binary digits of v, most significant first. */
  function MsbBits(v: nat, n: nat): (s: seq<bit>)
    ensures |s| == n
  {
    if n == 0 then [] else MsbBits(v / 2, n - 1) + [v % 2]
  }

  /** The bits occur in src at position pos. */
  ghost predicate At(src: seq<byte>, pos: nat, bits: seq<bit>) {
    pos + |bits| <= 8 * |src| && forall k | 0 <= k < |bits| :: Bit(src, pos + k) == bits[k]
  }

  lemma AtConcat(src: seq<byte>, pos: nat, a: seq<bit>, b: seq<bit>)
    ensures At(src, pos, a + b) <==> At(src, pos, a) && At(src, pos + |a|, b)
  {
    if At(src, pos, a + b) {
      forall k | 0 <= k < |a| ensures Bit(src, pos + k) == a[k] {
        assert (a + b)[k] == a[k];
      }
      forall k | 0 <= k < |b| ensures Bit(src, pos + |a| + k) == b[k] {
        assert (a + b)[|a| + k] == b[k];
        assert Bit(src, pos + (|a| + k)) == (a + b)[|a| + k];
      }
    }
    if At(src, pos, a) && At(src, pos + |a|, b) {
      forall k | 0 <= k < |a + b| ensures Bit(src, pos + k) == (a + b)[k] {
        if k >= |a| {
          assert Bit(src, pos + |a| + (k - |a|)) == b[k - |a|];
        }
      }
    }
  }

  /** A number written in n bits, first bit least significant, is what reading n bits returns. */
  lemma {:induction false} AtLsb(src: seq<byte>, pos: nat, v: nat, n: nat)
    requires v < Pow2(n)
    ensures At(src, pos, LsbBits(v, n)) <==> ReadLsb(src, pos, n) == v && pos + n <= 8 * |src|
    decreases n
  {
    if n > 0 {
      AtLsb(src, pos + 1, v / 2, n - 1);
      AtConcat(src, pos, [v % 2], LsbBits(v / 2, n - 1));
      AtOne(src, pos, v % 2);
    }
  }

  lemma AtOne(src: seq<byte>, pos: nat, b: bit)
    ensures At(src, pos, [b]) <==> Bit(src, pos) == b && pos < 8 * |src|
  {
    if At(src, pos, [b]) {
      assert Bit(src, pos + 0) == [b][0];
    }
  }

  lemma {:induction false} AtMsb(src: seq<byte>, pos: nat, v: nat, n: nat)
    requires v < Pow2(n)
    ensures At(src, pos, MsbBits(v, n)) <==> ReadMsb(src, pos, n) == v && pos + n <= 8 * |src|
    decreases n
  {
    if n > 0 {
      AtMsb(src, pos, v / 2, n - 1);
      AtConcat(src, pos, MsbBits(v / 2, n - 1), [v % 2]);
      AtOne(src, pos + n - 1, v % 2);
      hide At, Bit;
    }
  }

  /** The code word of symbol s. */
  function CodeBits(lens: seq<nat>, s: nat): (r: seq<bit>)
    requires s < |lens|
    ensures |r| == lens[s]
  {
    MsbBits(CodeValue(lens, s), lens[s])
  }

  /** A symbol's code word is in place exactly if a decoder matches that symbol there. */
  lemma AtCode(src: seq<byte>, pos: nat, lens: seq<nat>, s: nat)
    requires Acceptable(lens) && s < |lens| && lens[s] > 0
    ensures At(src, pos, CodeBits(lens, s)) <==> IsCodeAt(lens, s, src, pos) && pos + lens[s] <= 8 * |src|
  {
    CodeFits(lens, s);
    AtMsb(src, pos, CodeValue(lens, s), lens[s]);
  }

  lemma CodeFits(lens: seq<nat>, s: nat)
    requires Acceptable(lens) && s < |lens| && lens[s] > 0
    ensures CodeValue(lens, s) < Pow2(lens[s])
  {
    CountBefore(lens, s);
    assert CodeValue(lens, s) < Filled(lens, lens[s]);
    if Complete(lens) {
      if Filled(lens, lens[s]) > Pow2(lens[s]) {
        OverSubscribed(lens, lens[s]);
      }
    } else {
      AboveMaxSym(lens, s);
      NoCodes(lens);
      CompletedSingle(lens, lens[s]);
    }
  }

  // ------------------------------------------------------------- section 3.2.5: length/distance

  function LengthExtra(c: nat): nat
    requires 257 <= c <= 285
  {
    if c < 265 || c == 285 then 0 else (c - 261) / 4
  }

  /** The lengths of one code follow those of the code before it; code 285 is 258. */
  function LengthBase(c: nat): nat
    requires 257 <= c <= 285
  {
    if c == 257 then 3
    else if c == 285 then 258
    else LengthBase(c - 1) + Pow2(LengthExtra(c - 1))
  }

  function DistExtra(d: nat): nat
    requires d <= 29
  {
    if d < 4 then 0 else (d - 2) / 2
  }

  function DistBase(d: nat): nat
    requires d <= 29
  {
    if d == 0 then 1 else DistBase(d - 1) + Pow2(DistExtra(d - 1))
  }

  // --------------------------------------------------------------------- tokens of a block

  /** A literal byte, or a match with its length and distance codes and their extra bits. */
  datatype Token =
    | Literal(value: byte)
    | Match(lsym: nat, lextra: nat, dsym: nat, dextra: nat)

  ghost predicate ValidToken(t: Token, lit: seq<nat>, dist: seq<nat>) {
    match t
    case Literal(v) => v < |lit| && lit[v] > 0
    case Match(ls, le, ds, de) =>
      257 <= ls <= 285 && ls < |lit| && lit[ls] > 0 && le < Pow2(LengthExtra(ls)) &&
      ds <= 29 && ds < |dist| && dist[ds] > 0 && de < Pow2(DistExtra(ds))
  }

  /** The bytes a match repeats, one after the other: it may reach into its own output. */
  function CopyMatch(out: seq<byte>, dist: nat, len: nat): (r: seq<byte>)
    requires 1 <= dist <= |out|
    ensures |r| == |out| + len
    decreases len
  {
    if len == 0 then out else CopyMatch(out + [out[|out| - dist]], dist, len - 1)
  }

  /** Section 3.2.3: an overlapping match repeats the last dist bytes over and over. */
  lemma {:induction false} CopyMatchPeriodic(out: seq<byte>, dist: nat, len: nat, i: nat)
    requires 1 <= dist <= |out| && i < |out| + len
    ensures CopyMatch(out, dist, len)[i] ==
            if i < |out| then out[i] else CopyMatch(out, dist, len)[i - dist]
    decreases len
  {
    if len > 0 {
      var out' := out + [out[|out| - dist]];
      CopyMatchPeriodic(out', dist, len - 1, i);
      if i == |out| {
        CopyMatchPeriodic(out', dist, len - 1, i - dist);
      }
    }
  }

  /** Output after token t, None if it reaches before the beginning of the output. */
  ghost function Apply(t: Token, out: seq<byte>, lit: seq<nat>, dist: seq<nat>): Option<seq<byte>>
    requires ValidToken(t, lit, dist)
  {
    match t
    case Literal(v) => Some(out + [v])
    case Match(ls, le, ds, de) =>
      var d := DistBase(ds) + de;
      if d > |out| then None
      else DistPositive(ds); Some(CopyMatch(out, d, LengthBase(ls) + le))
  }

  lemma {:induction false} DistPositive(d: nat)
    requires d <= 29
    ensures DistBase(d) >= 1
  {
    if d > 0 { DistPositive(d - 1); }
  }

  ghost predicate ValidTokens(ts: seq<Token>, lit: seq<nat>, dist: seq<nat>) {
    forall i | 0 <= i < |ts| :: ValidToken(ts[i], lit, dist)
  }

  ghost function Expand(ts: seq<Token>, out: seq<byte>, lit: seq<nat>, dist: seq<nat>): Option<seq<byte>>
    requires ValidTokens(ts, lit, dist)
  {
    if |ts| == 0 then Some(out)
    else
      match Apply(ts[0], out, lit, dist)
      case None => None
      case Some(o) => Expand(ts[1..], o, lit, dist)
  }

  ghost function EncodeToken(t: Token, lit: seq<nat>, dist: seq<nat>): seq<bit>
    requires ValidToken(t, lit, dist)
  {
    match t
    case Literal(v) => CodeBits(lit, v)
    case Match(ls, le, ds, de) =>
      CodeBits(lit, ls) + (LsbBits(le, LengthExtra(ls)) + (CodeBits(dist, ds) + LsbBits(de, DistExtra(ds))))
  }

  /** The tokens and then the end-of-block code 256. */
  ghost function EncodeTokens(ts: seq<Token>, lit: seq<nat>, dist: seq<nat>): seq<bit>
    requires ValidTokens(ts, lit, dist) && 256 < |lit|
  {
    if |ts| == 0 then CodeBits(lit, 256)
    else EncodeToken(ts[0], lit, dist) + EncodeTokens(ts[1..], lit, dist)
  }

  // ------------------------------------------------- section 3.2.7: dynamic code descriptions

  /** Run-length coded code lengths. */
  datatype LengthOp =
    | Single(len: nat)
    | CopyPrevious(times: nat)
    | FewZeros(times: nat)
    | ManyZeros(times: nat)

  function OpSymbol(op: LengthOp): nat {
    match op
    case Single(l) => l
    case CopyPrevious(_) => 16
    case FewZeros(_) => 17
    case ManyZeros(_) => 18
  }

  predicate ValidOp(op: LengthOp, clens: seq<nat>) {
    OpSymbol(op) < |clens| && clens[OpSymbol(op)] > 0 &&
    match op
    case Single(l) => l <= 15
    case CopyPrevious(t) => 3 <= t <= 6
    case FewZeros(t) => 3 <= t <= 10
    case ManyZeros(t) => 11 <= t <= 138
  }

  function Repeat(l: nat, n: nat): (s: seq<nat>)
    ensures |s| == n && forall i | 0 <= i < n :: s[i] == l
  {
    seq(n, i => l)
  }

  /** The lengths after op; a copy needs a length before it. */
  function ApplyOp(op: LengthOp, acc: seq<nat>): Option<seq<nat>> {
    match op
    case Single(l) => Some(acc + [l])
    case CopyPrevious(t) => if |acc| == 0 then None else Some(acc + Repeat(acc[|acc| - 1], t))
    case FewZeros(t) => Some(acc + Repeat(0, t))
    case ManyZeros(t) => Some(acc + Repeat(0, t))
  }

  ghost predicate ValidOps(ops: seq<LengthOp>, clens: seq<nat>) {
    forall i | 0 <= i < |ops| :: ValidOp(ops[i], clens)
  }

  function ExpandOps(ops: seq<LengthOp>, acc: seq<nat>): Option<seq<nat>> {
    if |ops| == 0 then Some(acc)
    else
      match ApplyOp(ops[0], acc)
      case None => None
      case Some(a) => ExpandOps(ops[1..], a)
  }

  function EncodeOp(op: LengthOp, clens: seq<nat>): seq<bit>
    requires ValidOp(op, clens)
  {
    CodeBits(clens, OpSymbol(op)) +
    match op
    case Single(_) => []
    case CopyPrevious(t) => LsbBits(t - 3, 2)
    case FewZeros(t) => LsbBits(t - 3, 3)
    case ManyZeros(t) => LsbBits(t - 11, 7)
  }

  ghost function EncodeOps(ops: seq<LengthOp>, clens: seq<nat>): seq<bit>
    requires ValidOps(ops, clens)
  {
    if |ops| == 0 then [] else EncodeOp(ops[0], clens) + EncodeOps(ops[1..], clens)
  }

  /** The order in which the lengths of the code length code are stored: the three repeat codes, 0,
      and then from the middle outwards, 8 and more in turn with 7 and less. */
  function ClcSymbol(i: nat): (s: nat)
    requires i < 19
    ensures s < 19
  {
    if i < 3 then 16 + i else if i == 3 then 0 else if i % 2 == 0 then 8 + (i - 4) / 2 else 7 - (i - 5) / 2
  }

  /** Code descriptions: how many lengths of the code length code are stored, that code, the
      run-length coded lengths, and how many of them belong to the literal/length code. */
  datatype Header = Header(hclen: nat, clens: seq<nat>, ops: seq<LengthOp>, hlit: nat, hdist: nat)

  /** The first n stored lengths cover the code length code; the others are zero. */
  ghost predicate ValidClc(n: nat, clens: seq<nat>) {
    4 <= n <= 19 && |clens| == 19 &&
    (forall s | 0 <= s < 19 :: clens[s] <= 7) &&
    (forall i | n <= i < 19 :: clens[ClcSymbol(i)] == 0)
  }

  ghost predicate ValidHeader(h: Header) {
    ValidClc(h.hclen, h.clens) &&
    Acceptable(h.clens) && MaxSym(h.clens) != -1 &&
    257 <= h.hlit <= 286 && 1 <= h.hdist <= 30 &&
    ValidOps(h.ops, h.clens) &&
    match ExpandOps(h.ops, [])
    case None => false
    case Some(all) =>
      |all| == h.hlit + h.hdist && all[256] > 0 &&
      Acceptable(all[..h.hlit]) && Acceptable(all[h.hlit..])
  }

  ghost function LitLengths(h: Header): (lit: seq<nat>)
    requires ValidHeader(h)
    ensures |lit| == h.hlit && lit[256] > 0 && Acceptable(lit)
  {
    ExpandOps(h.ops, []).value[..h.hlit]
  }

  ghost function DistLengths(h: Header): (dist: seq<nat>)
    requires ValidHeader(h)
    ensures Acceptable(dist)
  {
    ExpandOps(h.ops, []).value[h.hlit..]
  }

  /** The stored lengths of the code length code, from number i on. */
  ghost function EncodeClc(h: Header, i: nat): seq<bit>
    requires i <= h.hclen <= 19 && |h.clens| == 19
    decreases h.hclen - i
  {
    if i == h.hclen then [] else LsbBits(h.clens[ClcSymbol(i)], 3) + EncodeClc(h, i + 1)
  }

  ghost function EncodeHeader(h: Header): seq<bit>
    requires ValidHeader(h)
  {
    LsbBits(h.hlit - 257, 5) + (LsbBits(h.hdist - 1, 5) + (LsbBits(h.hclen - 4, 4) +
    (EncodeClc(h, 0) + EncodeOps(h.ops, h.clens))))
  }

  // ------------------------------------------------------------------ blocks and streams

  datatype Block =
    | Stored(pad: seq<bit>, data: seq<byte>)
    | Fixed(tokens: seq<Token>)
    | Dynamic(header: Header, tokens: seq<Token>)

  function BlockType(b: Block): nat {
    match b
    case Stored(_, _) => 0
    case Fixed(_) => 1
    case Dynamic(_, _) => 2
  }

  /** Number of bits skipped to reach a byte boundary. */
  function Padding(pos: nat): nat {
    (8 - pos % 8) % 8
  }

  ghost predicate ValidBlock(b: Block, pos: nat) {
    match b
    case Stored(pad, data) => |data| <= 65535 && |pad| == Padding(pos + 3)
    case Fixed(ts) => ValidTokens(ts, FixedLit(), FixedDist())
    case Dynamic(h, ts) => ValidHeader(h) && ValidTokens(ts, LitLengths(h), DistLengths(h))
  }

  function EncodeBytes(data: seq<byte>): seq<bit> {
    if |data| == 0 then [] else LsbBits(data[0], 8) + EncodeBytes(data[1..])
  }

  ghost function EncodeBlock(b: Block, last: bool, pos: nat): seq<bit>
    requires ValidBlock(b, pos)
  {
    [if last then 1 else 0] + (LsbBits(BlockType(b), 2) +
    match b
    case Stored(pad, data) =>
      pad + (LsbBits(|data|, 16) + (LsbBits(65535 - |data|, 16) + EncodeBytes(data)))
    case Fixed(ts) => EncodeTokens(ts, FixedLit(), FixedDist())
    case Dynamic(h, ts) => EncodeHeader(h) + EncodeTokens(ts, LitLengths(h), DistLengths(h)))
  }

  /** What block b adds to the output. */
  ghost function BlockMeaning(b: Block, pos: nat, out: seq<byte>): Option<seq<byte>>
    requires ValidBlock(b, pos)
  {
    match b
    case Stored(_, data) => Some(out + data)
    case Fixed(ts) => Expand(ts, out, FixedLit(), FixedDist())
    case Dynamic(h, ts) => Expand(ts, out, LitLengths(h), DistLengths(h))
  }

  /** The blocks are in src from bit position pos on, the last one and only that marked as final,
      and after the output out they stand for the output result. */
  ghost predicate Denotes(src: seq<byte>, pos: nat, blocks: seq<Block>, out: seq<byte>, result: seq<byte>)
    decreases |blocks|
  {
    |blocks| > 0 &&
    ValidBlock(blocks[0], pos) &&
    var bits := EncodeBlock(blocks[0], |blocks| == 1, pos);
    At(src, pos, bits) &&
    match BlockMeaning(blocks[0], pos, out)
    case None => false
    case Some(o) =>
      if |blocks| == 1 then result == o else Denotes(src, pos + |bits|, blocks[1..], o, result)
  }

  /** data is the content of the DEFLATE stream that src starts with. */
  ghost predicate Inflates(src: seq<byte>, data: seq<byte>) {
    exists blocks :: Denotes(src, 0, blocks, [], data)
  }

  // ------------------------------------------------------------------------ too much content

  /** The bits are read at position pos, where zeros are read behind the end of src. */
  ghost predicate Reads(src: seq<byte>, pos: nat, bits: seq<bit>) {
    forall k | 0 <= k < |bits| :: Bit(src, pos + k) == bits[k]
  }

  /** The code word that a token begins with. */
  function LeadBits(t: Token, lit: seq<nat>): seq<bit>
    requires (if t.Literal? then t.value else t.lsym) < |lit|
  {
    CodeBits(lit, if t.Literal? then t.value else t.lsym)
  }

  /** The tokens are in src, but that the last one may run over its end, into zeros, as long as the code
      word that it begins with does not. No end of block is needed. */
  ghost predicate TokensBegin(src: seq<byte>, pos: nat, ts: seq<Token>, lit: seq<nat>, dist: seq<nat>)
    requires ValidTokens(ts, lit, dist)
    decreases |ts|
  {
    |ts| > 0 &&
    if |ts| == 1 then At(src, pos, LeadBits(ts[0], lit)) && Reads(src, pos, EncodeToken(ts[0], lit, dist))
    else At(src, pos, EncodeToken(ts[0], lit, dist)) &&
         TokensBegin(src, pos + |EncodeToken(ts[0], lit, dist)|, ts[1..], lit, dist)
  }

  /** Block b is in src, or at least as far as its tokens reach; it may be the last one or not. */
  ghost predicate BlockBegins(src: seq<byte>, pos: nat, b: Block)
    requires ValidBlock(b, pos)
  {
    At(src, pos + 1, LsbBits(BlockType(b), 2)) &&
    match b
    case Stored(pad, data) =>
      At(src, pos + 3, pad + (LsbBits(|data|, 16) + (LsbBits(65535 - |data|, 16) + EncodeBytes(data))))
    case Fixed(ts) => TokensBegin(src, pos + 3, ts, FixedLit(), FixedDist())
    case Dynamic(h, ts) =>
      At(src, pos + 3, EncodeHeader(h)) &&
      TokensBegin(src, pos + 3 + |EncodeHeader(h)|, ts, LitLengths(h), DistLengths(h))
  }

  /** The blocks are in src from pos on, the last one perhaps not as a whole, and after the output out they
      stand for more than cap bytes. */
  ghost predicate Exceeds(src: seq<byte>, pos: nat, blocks: seq<Block>, out: seq<byte>, cap: nat)
    decreases |blocks|
  {
    |blocks| > 0 && ValidBlock(blocks[0], pos) &&
    match BlockMeaning(blocks[0], pos, out)
    case None => false
    case Some(o) =>
      if |blocks| == 1 then BlockBegins(src, pos, blocks[0]) && |o| > cap
      else
        var bits := EncodeBlock(blocks[0], false, pos);
        At(src, pos, bits) && Exceeds(src, pos + |bits|, blocks[1..], o, cap)
  }

  /** src begins with blocks, or parts of blocks, whose content is longer than cap. */
  ghost predicate Overflows(src: seq<byte>, cap: nat) {
    exists blocks :: Exceeds(src, 0, blocks, [], cap)
  }
}
