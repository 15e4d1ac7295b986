/** Which error the decoder of InflateSpec reports: a full buffer for exactly the sources that begin
    with more content than fits, after Rfc1951, and bad data for all others that are no stream.
 */
module InflateErrors {
  import opened BitStream
  import opened CanonicalCode
  import opened HuffmanTree
  import opened Options
  import opened Rfc1951
  import opened InflateSpec
  import opened InflateTheorems

  // ------------------------------------------------------- bits that may run over the end

  lemma ReadsAt(src: seq<byte>, pos: nat, bits: seq<bit>)
    ensures At(src, pos, bits) <==> Reads(src, pos, bits) && pos + |bits| <= 8 * |src|
  {
  }

  lemma ReadsConcat(src: seq<byte>, pos: nat, a: seq<bit>, b: seq<bit>)
    ensures Reads(src, pos, a + b) <==> Reads(src, pos, a) && Reads(src, pos + |a|, b)
  {
    if Reads(src, pos, a + b) {
      forall k | 0 <= k < |a| ensures Bit(src, pos + k) == a[k] {
        assert (a + b)[k] == a[k];
      }
      forall k | 0 <= k < |b| ensures Bit(src, pos + |a| + k) == b[k] {
        assert Bit(src, pos + (|a| + k)) == (a + b)[|a| + k];
      }
    }
    if Reads(src, pos, a) && Reads(src, pos + |a|, b) {
      forall k | 0 <= k < |a + b| ensures Bit(src, pos + k) == (a + b)[k] {
        if k >= |a| {
          assert Bit(src, pos + |a| + (k - |a|)) == b[k - |a|];
        }
      }
    }
  }

  lemma ReadsOne(src: seq<byte>, pos: nat, b: bit)
    ensures Reads(src, pos, [b]) <==> Bit(src, pos) == b
  {
    if Reads(src, pos, [b]) {
      assert Bit(src, pos + 0) == [b][0];
    }
  }

  lemma {:induction false} ReadsLsb(src: seq<byte>, pos: nat, v: nat, n: nat)
    requires v < Pow2(n)
    ensures Reads(src, pos, LsbBits(v, n)) <==> ReadLsb(src, pos, n) == v
    decreases n
  {
    if n > 0 {
      ReadsLsb(src, pos + 1, v / 2, n - 1);
      ReadsConcat(src, pos, [v % 2], LsbBits(v / 2, n - 1));
      ReadsOne(src, pos, v % 2);
    }
  }

  lemma {:induction false} ReadsMsb(src: seq<byte>, pos: nat, v: nat, n: nat)
    requires v < Pow2(n)
    ensures Reads(src, pos, MsbBits(v, n)) <==> ReadMsb(src, pos, n) == v
    decreases n
  {
    if n > 0 {
      ReadsMsb(src, pos, v / 2, n - 1);
      ReadsConcat(src, pos, MsbBits(v / 2, n - 1), [v % 2]);
      ReadsOne(src, pos + n - 1, v % 2);
    }
  }

  lemma ReadsCode(src: seq<byte>, pos: nat, lens: seq<nat>, s: nat)
    requires Acceptable(lens) && s < |lens| && lens[s] > 0
    ensures Reads(src, pos, CodeBits(lens, s)) <==> IsCodeAt(lens, s, src, pos)
  {
    CodeFits(lens, s);
    ReadsMsb(src, pos, CodeValue(lens, s), lens[s]);
  }

  // -------------------------------------------------------------------------- one token

  /** The four parts of a match, the last three at p1, p2 and p3. */
  ghost predicate MatchReads(src: seq<byte>, pos: nat, p1: nat, p2: nat, p3: nat, t: Token, ll: seq<nat>, dl: seq<nat>)
    requires t.Match? && ValidToken(t, ll, dl)
  {
    p1 == pos + ll[t.lsym] && p2 == p1 + LengthExtra(t.lsym) && p3 == p2 + dl[t.dsym] &&
    IsCodeAt(ll, t.lsym, src, pos) && ReadLsb(src, p1, LengthExtra(t.lsym)) == t.lextra &&
    IsCodeAt(dl, t.dsym, src, p2) && ReadLsb(src, p3, DistExtra(t.dsym)) == t.dextra
  }

  lemma ReadsMatch(src: seq<byte>, pos: nat, p1: nat, p2: nat, p3: nat, t: Token, ll: seq<nat>, dl: seq<nat>)
    requires t.Match? && ValidToken(t, ll, dl) && Acceptable(ll) && Acceptable(dl)
    requires p1 == pos + ll[t.lsym] && p2 == p1 + LengthExtra(t.lsym) && p3 == p2 + dl[t.dsym]
    ensures Reads(src, pos, EncodeToken(t, ll, dl)) <==> MatchReads(src, pos, p1, p2, p3, t, ll, dl)
  {
    hide Reads, LsbBits, CodeBits, ReadLsb, IsCodeAt, Acceptable, Complete, LengthExtra, DistExtra, LengthBase, DistBase, CopyMatch;
    var a, b := CodeBits(ll, t.lsym), LsbBits(t.lextra, LengthExtra(t.lsym));
    var c, d := CodeBits(dl, t.dsym), LsbBits(t.dextra, DistExtra(t.dsym));
    ReadsConcat(src, pos, a, b + (c + d));
    ReadsConcat(src, p1, b, c + d);
    ReadsConcat(src, p2, c, d);
    ReadsCode(src, pos, ll, t.lsym);
    ReadsCode(src, p2, dl, t.dsym);
    ReadsLsb(src, p1, t.lextra, LengthExtra(t.lsym));
    ReadsLsb(src, p3, t.dextra, DistExtra(t.dsym));
  }

  /** Token t begins at pos and does not fit. */
  ghost predicate TokenExceeds(src: seq<byte>, pos: nat, t: Token, ll: seq<nat>, dl: seq<nat>, out: seq<byte>, cap: nat) {
    ValidToken(t, ll, dl) && At(src, pos, LeadBits(t, ll)) && Reads(src, pos, EncodeToken(t, ll, dl)) &&
    Apply(t, out, ll, dl).Some? && |Apply(t, out, ll, dl).value| > cap
  }

  /** A match that the decoder finds too long is a token that does not fit. */
  lemma MatchTooLong(lit: Code, dist: Code, ll: seq<nat>, dl: seq<nat>, src: seq<byte>, pos: nat, sym: nat, out: seq<byte>, cap: nat)
    returns (t: Token)
    requires Realizes(lit, ll, 285) && Realizes(dist, dl, 29) && lit.max != -1 && |out| <= cap
    requires sym == SymbolAt(lit.lens, src, pos) && sym > 256 && pos + lit.lens[sym] <= 8 * |src|
    requires var r := MatchStep(lit, dist, src, pos + lit.lens[sym], sym, out, cap); r.Stop? && r.status == BufError
    ensures TokenExceeds(src, pos, t, ll, dl, out, cap)
  {
    hide At, Reads, LsbBits, CodeBits, CodeValue, ReadLsb, ReadMsb, LengthBase, DistBase, CopyMatch, CodeOf, Complete, EncodeToken, Acceptable;
    DecodesSymbol(lit, ll, 285, sym, src, pos);
    var p1 := pos + lit.lens[sym];
    var p2 := p1 + LengthExtra(sym);
    var dsym := SymbolAt(dist.lens, src, p2);
    DecodesSymbol(dist, dl, 29, dsym, src, p2);
    var p3 := p2 + dist.lens[dsym];
    t := Match(sym, ReadLsb(src, p1, LengthExtra(sym)), dsym, ReadLsb(src, p3, DistExtra(dsym)));
    ReadLsbBound(src, p1, LengthExtra(sym));
    ReadLsbBound(src, p3, DistExtra(dsym));
    ReadsMatch(src, pos, p1, p2, p3, t, ll, dl);
    AtCode(src, pos, ll, sym);
  }

  lemma StepTooLong(lit: Code, dist: Code, ll: seq<nat>, dl: seq<nat>, src: seq<byte>, pos: nat, out: seq<byte>, cap: nat) returns (t: Token)
    requires Realizes(lit, ll, 285) && Realizes(dist, dl, 29) && lit.max >= 256 && |out| <= cap
    requires var r := BlockStep(lit, dist, src, pos, out, cap); r.Stop? && r.status == BufError
    ensures TokenExceeds(src, pos, t, ll, dl, out, cap)
  {
    hide At, Reads, LsbBits, CodeBits, ReadLsb, LengthBase, DistBase, CopyMatch, Complete, CodeOf, MatchStep, Acceptable;
    var sym := SymbolAt(lit.lens, src, pos);
    if sym < 256 {
      DecodesSymbol(lit, ll, 285, sym, src, pos);
      AtCode(src, pos, ll, sym);
      ReadsCode(src, pos, ll, sym);
      t := Literal(sym);
    } else {
      t := MatchTooLong(lit, dist, ll, dl, src, pos, sym, out, cap);
    }
  }

  /** A token that does not fit makes the decoder say so. */
  lemma StepExceeds(lit: Code, dist: Code, ll: seq<nat>, dl: seq<nat>, t: Token, src: seq<byte>, pos: nat, out: seq<byte>, cap: nat)
    requires Realizes(lit, ll, 285) && Realizes(dist, dl, 29) && lit.max >= 256 && |out| <= cap
    requires TokenExceeds(src, pos, t, ll, dl, out, cap)
    ensures var r := BlockStep(lit, dist, src, pos, out, cap); r.Stop? && r.status == BufError
  {
    hide At, Reads, LsbBits, ReadLsb, LengthBase, DistBase, CopyMatch, Complete, CodeOf, MatchStep, Acceptable, CodeBits, LengthExtra, DistExtra;
    if t.Literal? {
      AtCode(src, pos, ll, t.value);
      DecodesSymbol(lit, ll, 285, t.value, src, pos);
      hide EncodeToken;
    } else {
      MatchExceeds(lit, dist, ll, dl, t, src, pos, out, cap);
    }
  }

  lemma MatchExceeds(lit: Code, dist: Code, ll: seq<nat>, dl: seq<nat>, t: Token, src: seq<byte>, pos: nat, out: seq<byte>, cap: nat)
    requires Realizes(lit, ll, 285) && Realizes(dist, dl, 29) && lit.max >= 256 && |out| <= cap && t.Match?
    requires ValidToken(t, ll, dl) && TokenExceeds(src, pos, t, ll, dl, out, cap)
    ensures var p1 := pos + ll[t.lsym];
            SymbolAt(lit.lens, src, pos) == t.lsym && lit.lens[t.lsym] == ll[t.lsym] && p1 <= 8 * |src| &&
            MatchStep(lit, dist, src, p1, t.lsym, out, cap) == Stop(BufError, p1 + LengthExtra(t.lsym) + dl[t.dsym] + DistExtra(t.dsym))
  {
    hide At, Reads, LsbBits, CodeBits, ReadLsb, Complete, LengthBase, DistBase, CopyMatch, Usable, CodeOf, EncodeToken, Acceptable;
    var p1 := pos + ll[t.lsym];
    var p2 := p1 + LengthExtra(t.lsym);
    ReadsMatch(src, pos, p1, p2, p2 + dl[t.dsym], t, ll, dl);
    AtCode(src, pos, ll, t.lsym);
    DecodesSymbol(lit, ll, 285, t.lsym, src, pos);
    DecodesSymbol(dist, dl, 29, t.dsym, src, p2);
    DistPositive(t.dsym);
  }

  // --------------------------------------------------------------------- data of one block

  lemma StepInside(lit: Code, dist: Code, src: seq<byte>, pos: nat, out: seq<byte>, cap: nat)
    requires Usable(lit) && Usable(dist) && lit.max != -1 && |out| <= cap
    ensures BlockData(lit, dist, src, pos, out, cap).status == BufError ==> pos <= 8 * |src|
  {
    hide MatchStep, Complete;
  }

  /** The tokens begin at pos and do not fit. */
  ghost predicate TokensExceed(src: seq<byte>, pos: nat, ts: seq<Token>, ll: seq<nat>, dl: seq<nat>, out: seq<byte>, cap: nat) {
    ValidTokens(ts, ll, dl) && TokensBegin(src, pos, ts, ll, dl) &&
    Expand(ts, out, ll, dl).Some? && |Expand(ts, out, ll, dl).value| > cap
  }

  lemma OneToken(src: seq<byte>, pos: nat, t: Token, ll: seq<nat>, dl: seq<nat>, out: seq<byte>, cap: nat)
    requires ValidToken(t, ll, dl)
    ensures TokensExceed(src, pos, [t], ll, dl, out, cap) <==> TokenExceeds(src, pos, t, ll, dl, out, cap)
  {
    hide At, Reads, EncodeToken, Apply, ValidToken;
    assert [t][1..] == [] && [t][0] == t;
    if Apply(t, out, ll, dl).Some? {
      assert Expand([], Apply(t, out, ll, dl).value, ll, dl) == Apply(t, out, ll, dl);
    }
  }

  lemma MoreTokens(src: seq<byte>, pos: nat, t: Token, rest: seq<Token>, ll: seq<nat>, dl: seq<nat>, out: seq<byte>, cap: nat)
    requires ValidToken(t, ll, dl) && ValidTokens(rest, ll, dl) && |rest| > 0 && Apply(t, out, ll, dl).Some?
    ensures TokensExceed(src, pos, [t] + rest, ll, dl, out, cap) <==>
            At(src, pos, EncodeToken(t, ll, dl)) &&
            TokensExceed(src, pos + |EncodeToken(t, ll, dl)|, rest, ll, dl, Apply(t, out, ll, dl).value, cap)
  {
    hide At, Reads, EncodeToken, Apply, ValidToken;
    var ts := [t] + rest;
    assert ts[1..] == rest && ts[0] == t;
  }

  lemma {:induction false} BlockDataTooLong(lit: Code, dist: Code, ll: seq<nat>, dl: seq<nat>, src: seq<byte>, pos: nat, out: seq<byte>, cap: nat)
    returns (ts: seq<Token>)
    requires Realizes(lit, ll, 285) && Realizes(dist, dl, 29) && lit.max >= 256 && |out| <= cap
    requires BlockData(lit, dist, src, pos, out, cap).status == BufError
    ensures TokensExceed(src, pos, ts, ll, dl, out, cap)
    decreases if pos <= 8 * |src| then 8 * |src| - pos + 1 else 0
  {
    hide At, Reads, CodeBits, Complete, CodeOf, BlockStep, Acceptable, EncodeToken, Apply, TokenExceeds, TokensExceed;
    match BlockStep(lit, dist, src, pos, out, cap)
    case Stop(status, p) =>
      var t := StepTooLong(lit, dist, ll, dl, src, pos, out, cap);
      ExceedsValid(src, pos, t, ll, dl, out, cap);
      OneToken(src, pos, t, ll, dl, out, cap);
      ts := [t];
    case Next(p, o) =>
      StepInside(lit, dist, src, p, o, cap);
      var rest := BlockDataTooLong(lit, dist, ll, dl, src, p, o, cap);
      var t := StepSound(lit, dist, ll, dl, src, pos, out, cap);
      ExceedValid(src, p, rest, ll, dl, o, cap);
      MoreTokens(src, pos, t, rest, ll, dl, out, cap);
      ts := [t] + rest;
  }

  lemma ExceedsValid(src: seq<byte>, pos: nat, t: Token, ll: seq<nat>, dl: seq<nat>, out: seq<byte>, cap: nat)
    requires TokenExceeds(src, pos, t, ll, dl, out, cap)
    ensures ValidToken(t, ll, dl)
  {
  }

  lemma ExceedValid(src: seq<byte>, pos: nat, ts: seq<Token>, ll: seq<nat>, dl: seq<nat>, out: seq<byte>, cap: nat)
    requires TokensExceed(src, pos, ts, ll, dl, out, cap)
    ensures ValidTokens(ts, ll, dl) && |ts| > 0
  {
  }

  lemma FirstApplies(src: seq<byte>, pos: nat, ts: seq<Token>, ll: seq<nat>, dl: seq<nat>, out: seq<byte>, cap: nat)
    requires TokensExceed(src, pos, ts, ll, dl, out, cap)
    ensures |ts| > 0 && ValidToken(ts[0], ll, dl) && Apply(ts[0], out, ll, dl).Some?
  {
    hide At, Reads, EncodeToken, Apply, ValidToken;
  }

  lemma {:induction false} BlockDataExceeds(lit: Code, dist: Code, ll: seq<nat>, dl: seq<nat>, ts: seq<Token>,
                                            src: seq<byte>, pos: nat, out: seq<byte>, cap: nat)
    requires Realizes(lit, ll, 285) && Realizes(dist, dl, 29) && lit.max >= 256 && |out| <= cap
    requires TokensExceed(src, pos, ts, ll, dl, out, cap)
    ensures BlockData(lit, dist, src, pos, out, cap).status == BufError
    decreases |ts|
  {
    hide At, Reads, CodeBits, Complete, CodeOf, BlockStep, Acceptable, EncodeToken, Apply, TokenExceeds, TokensExceed, ValidToken;
    ExceedValid(src, pos, ts, ll, dl, out, cap);
    FirstApplies(src, pos, ts, ll, dl, out, cap);
    var t, rest := ts[0], ts[1..];
    if rest == [] {
      assert ts == [t];
      OneToken(src, pos, t, ll, dl, out, cap);
      StepExceeds(lit, dist, ll, dl, t, src, pos, out, cap);
    } else {
      assert ts == [t] + rest;
      MoreTokens(src, pos, t, rest, ll, dl, out, cap);
      StepComplete(lit, dist, ll, dl, t, src, pos, out, cap);
      var o := Apply(t, out, ll, dl).value;
      if |o| <= cap {
        BlockDataExceeds(lit, dist, ll, dl, rest, src, pos + |EncodeToken(t, ll, dl)|, o, cap);
      }
    }
  }

  // ----------------------------------------------------------------------- blocks, streams

  /** Block b begins at pos and does not fit. */
  ghost predicate BlockExceeds(src: seq<byte>, pos: nat, b: Block, out: seq<byte>, cap: nat) {
    ValidBlock(b, pos) && BlockBegins(src, pos, b) && BlockMeaning(b, pos, out).Some? && |BlockMeaning(b, pos, out).value| > cap
  }

  lemma KindAt(src: seq<byte>, pos: nat, b: Block)
    ensures At(src, pos + 1, LsbBits(BlockType(b), 2)) <==> ReadLsb(src, pos + 1, 2) == BlockType(b) && pos + 3 <= 8 * |src|
  {
    Pow2Small();
    hide ReadLsb, LsbBits, At;
    AtLsb(src, pos + 1, BlockType(b), 2);
  }

  lemma StoredTooLong(src: seq<byte>, pos: nat, out: seq<byte>, cap: nat) returns (pad: seq<bit>, data: seq<byte>)
    requires |out| <= cap && StoredBlock(src, pos, out, cap).status == BufError
    ensures |data| <= 65535 && |pad| == Padding(pos) && |out + data| > cap
    ensures At(src, pos, pad + (LsbBits(|data|, 16) + (LsbBits(65535 - |data|, 16) + EncodeBytes(data))))
  {
    hide At, LsbBits, EncodeBytes, Le16, Padding, BitsFrom;
    var start := (pos + 7) / 8;
    Boundary(pos);
    Le16Bound(src, start);
    data := src[start + 4..start + 4 + Le16(src, start)];
    AtStored(src, start, data);
    pad := BitsFrom(src, pos, Padding(pos));
    PadSound(src, pos, Padding(pos), LsbBits(|data|, 16) + (LsbBits(65535 - |data|, 16) + EncodeBytes(data)));
  }

  /** A block that the decoder finds too long is one that does not fit. */
  lemma BodyTooLong(src: seq<byte>, pos: nat, out: seq<byte>, cap: nat) returns (b: Block)
    requires |out| <= cap && BlockBody(ReadLsb(src, pos + 1, 2), src, pos + 3, out, cap).status == BufError
    ensures BlockExceeds(src, pos, b, out, cap)
  {
    var kind := ReadLsb(src, pos + 1, 2);
    if kind == 0 {
      b := StoredBodyTooLong(src, pos, out, cap);
    } else if kind == 1 {
      b := FixedBodyTooLong(src, pos, out, cap);
    } else {
      b := DynamicBodyTooLong(src, pos, out, cap);
    }
  }

  lemma StoredBodyTooLong(src: seq<byte>, pos: nat, out: seq<byte>, cap: nat) returns (b: Block)
    requires |out| <= cap && ReadLsb(src, pos + 1, 2) == 0 && BlockBody(0, src, pos + 3, out, cap).status == BufError
    ensures BlockExceeds(src, pos, b, out, cap)
  {
    hide At, LsbBits, EncodeBytes, StoredBlock, Padding, ReadLsb;
    var pad, data := StoredTooLong(src, pos + 3, out, cap);
    b := Stored(pad, data);
    AtInside(src, pos + 3, pad + (LsbBits(|data|, 16) + (LsbBits(65535 - |data|, 16) + EncodeBytes(data))));
    KindAt(src, pos, b);
  }

  lemma FixedBodyTooLong(src: seq<byte>, pos: nat, out: seq<byte>, cap: nat) returns (b: Block)
    requires |out| <= cap && ReadLsb(src, pos + 1, 2) == 1 && BlockBody(1, src, pos + 3, out, cap).status == BufError
    ensures BlockExceeds(src, pos, b, out, cap)
  {
    hide At, FixedLit, FixedDist, Realizes, Usable, Complete, BlockBody, BlockData, TokensBegin, ValidTokens, Expand, ReadLsb, LsbBits;
    FixedRealizes();
    BodyFixed(src, pos + 3, out, cap);
    StepInside(Code(FixedLit(), 285), Code(FixedDist(), 29), src, pos + 3, out, cap);
    var ts := BlockDataTooLong(Code(FixedLit(), 285), Code(FixedDist(), 29), FixedLit(), FixedDist(), src, pos + 3, out, cap);
    b := Fixed(ts);
    KindAt(src, pos, b);
  }

  lemma DynamicBodyTooLong(src: seq<byte>, pos: nat, out: seq<byte>, cap: nat) returns (b: Block)
    requires |out| <= cap && ReadLsb(src, pos + 1, 2) == 2 && BlockBody(2, src, pos + 3, out, cap).status == BufError
    ensures BlockExceeds(src, pos, b, out, cap)
  {
    hide At, Realizes, Usable, Complete, BlockBody, BlockData, TokensBegin, EncodeHeader, ValidTokens, Expand, ReadLsb, LsbBits,
      ValidHeader, CodeOf, DynamicCodes, LitLengths, DistLengths;
    BodyDynamic(src, pos + 3, out, cap);
    var c := DynamicCodes(src, pos + 3);
    StepInside(c.lit, c.dist, src, c.pos, out, cap);
    var h := DynamicSound(src, pos + 3);
    HeaderRealizes(h);
    var ts := BlockDataTooLong(c.lit, c.dist, LitLengths(h), DistLengths(h), src, c.pos, out, cap);
    b := Dynamic(h, ts);
    AtInside(src, pos + 3, EncodeHeader(h));
    KindAt(src, pos, b);
  }

  /** A block that does not fit makes the decoder say so. */
  lemma BodyExceeds(src: seq<byte>, pos: nat, b: Block, out: seq<byte>, cap: nat)
    requires |out| <= cap && BlockExceeds(src, pos, b, out, cap)
    ensures BlockBody(ReadLsb(src, pos + 1, 2), src, pos + 3, out, cap).status == BufError
  {
    match b
    case Stored(_, _) => StoredBodyExceeds(src, pos, b, out, cap);
    case Fixed(_) => FixedBodyExceeds(src, pos, b, out, cap);
    case Dynamic(_, _) => DynamicBodyExceeds(src, pos, b, out, cap);
  }

  lemma StoredBodyExceeds(src: seq<byte>, pos: nat, b: Block, out: seq<byte>, cap: nat)
    requires b.Stored? && |out| <= cap && BlockExceeds(src, pos, b, out, cap)
    ensures BlockBody(ReadLsb(src, pos + 1, 2), src, pos + 3, out, cap).status == BufError
  {
    hide At, LsbBits, EncodeBytes, StoredBlock, Padding, ReadLsb;
    KindAt(src, pos, b);
    StoredComplete(src, pos + 3, out, cap, b.pad, b.data);
  }

  lemma FixedBodyExceeds(src: seq<byte>, pos: nat, b: Block, out: seq<byte>, cap: nat)
    requires b.Fixed? && |out| <= cap && BlockExceeds(src, pos, b, out, cap)
    ensures BlockBody(ReadLsb(src, pos + 1, 2), src, pos + 3, out, cap).status == BufError
  {
    hide At, FixedLit, FixedDist, Realizes, Usable, Complete, BlockBody, BlockData, TokensBegin, ValidTokens, Expand, ReadLsb, LsbBits;
    KindAt(src, pos, b);
    FixedRealizes();
    BodyFixed(src, pos + 3, out, cap);
    BlockDataExceeds(Code(FixedLit(), 285), Code(FixedDist(), 29), FixedLit(), FixedDist(), b.tokens, src, pos + 3, out, cap);
  }

  lemma DynamicBodyExceeds(src: seq<byte>, pos: nat, b: Block, out: seq<byte>, cap: nat)
    requires b.Dynamic? && |out| <= cap && BlockExceeds(src, pos, b, out, cap)
    ensures BlockBody(ReadLsb(src, pos + 1, 2), src, pos + 3, out, cap).status == BufError
  {
    hide *;
    DynamicParts(src, pos, b, out, cap);
    DynamicExceeds(b.header, b.tokens, src, pos + 3, out, cap);
  }

  lemma DynamicExceeds(h: Header, ts: seq<Token>, src: seq<byte>, pos: nat, out: seq<byte>, cap: nat)
    requires |out| <= cap && ValidHeader(h) && At(src, pos, EncodeHeader(h))
    requires TokensExceed(src, pos + |EncodeHeader(h)|, ts, LitLengths(h), DistLengths(h), out, cap)
    ensures BlockBody(2, src, pos, out, cap).status == BufError
  {
    hide *;
    var ll, dl := LitLengths(h), DistLengths(h);
    HeaderRealizes(h);
    BodyDynamic(src, pos, out, cap);
    DynamicComplete(src, pos, h);
    BlockDataExceeds(CodeOf(ll), CodeOf(dl), ll, dl, ts, src, pos + |EncodeHeader(h)|, out, cap);
  }

  lemma DynamicParts(src: seq<byte>, pos: nat, b: Block, out: seq<byte>, cap: nat)
    requires b.Dynamic? && BlockExceeds(src, pos, b, out, cap)
    ensures ValidHeader(b.header) && At(src, pos + 3, EncodeHeader(b.header)) && ReadLsb(src, pos + 1, 2) == 2
    ensures TokensExceed(src, pos + 3 + |EncodeHeader(b.header)|, b.tokens, LitLengths(b.header), DistLengths(b.header), out, cap)
  {
    hide At, TokensBegin, EncodeHeader, ValidTokens, Expand, LsbBits, ReadLsb, ValidHeader, LitLengths, DistLengths;
    KindAt(src, pos, b);
  }

  lemma {:induction false} StreamTooLong(src: seq<byte>, pos: nat, out: seq<byte>, cap: nat) returns (blocks: seq<Block>)
    requires |out| <= cap && Stream(src, pos, out, cap).status == BufError
    ensures Exceeds(src, pos, blocks, out, cap)
    decreases if pos <= 8 * |src| then 8 * |src| - pos + 1 else 0
  {
    hide At, BlockBody, BodyBits, ValidBlock, EncodeBlock, BlockMeaning, ReadLsb, BlockBegins;
    var r := BlockBody(ReadLsb(src, pos + 1, 2), src, pos + 3, out, cap);
    if r.status == BufError {
      var b := BodyTooLong(src, pos, out, cap);
      blocks := [b];
    } else {
      var b := BodySound(ReadLsb(src, pos + 1, 2), src, pos + 3, out, cap);
      AtBlock(src, pos, b, false);
      var rest := StreamTooLong(src, r.pos, r.out, cap);
      assert |rest| > 0;
      blocks := [b] + rest;
      assert blocks[1..] == rest;
    }
  }

  lemma {:induction false} StreamExceeds(src: seq<byte>, pos: nat, blocks: seq<Block>, out: seq<byte>, cap: nat)
    requires |out| <= cap && Exceeds(src, pos, blocks, out, cap)
    ensures Stream(src, pos, out, cap).status == BufError
    decreases |blocks|
  {
    hide At, BlockBody, BodyBits, ValidBlock, EncodeBlock, BlockMeaning, ReadLsb, BlockBegins;
    var b := blocks[0];
    if |blocks| == 1 {
      BodyExceeds(src, pos, b, out, cap);
    } else {
      AtBlock(src, pos, b, false);
      BodyComplete(b, src, pos + 3, out, cap);
      var o := BlockMeaning(b, pos, out).value;
      if |o| <= cap {
        StreamExceeds(src, pos + |EncodeBlock(b, false, pos)|, blocks[1..], o, cap);
      }
    }
  }

  /** What the decoder answers, said by the format alone: it reports a full buffer just if the source
      begins with more content than fits, and bad data just if it does not, and is no stream either. */
  lemma InflateAnswers(src: seq<byte>, cap: nat)
    ensures Stream(src, 0, [], cap).status == BufError <==> Overflows(src, cap)
    ensures Stream(src, 0, [], cap).status == DataError <==> !Overflows(src, cap) && forall data :: !Inflates(src, data)
  {
    hide Stream, Exceeds, Inflates;
    InflateInvertsDeflate(src, cap);
    if Stream(src, 0, [], cap).status == BufError {
      var blocks := StreamTooLong(src, 0, [], cap);
    }
    if Overflows(src, cap) {
      var blocks :| Exceeds(src, 0, blocks, [], cap);
      StreamExceeds(src, 0, blocks, [], cap);
    }
  }
}
