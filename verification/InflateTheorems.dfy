/** The decoder of InflateSpec inverts the format of Rfc1951: what it accepts is a DEFLATE stream
    with the output as content (soundness), and it accepts every DEFLATE stream whose content
    fits (completeness).
 */
module InflateTheorems {
  import opened BitStream
  import opened CanonicalCode
  import opened HuffmanTree
  import opened Options
  import opened Rfc1951
  import opened InflateSpec

  // --------------------------------------------------------------------------- one symbol

  /** c is what the decoder uses for the code with lengths lens, if symbols above bound have no
      meaning. */
  ghost predicate Realizes(c: Code, lens: seq<nat>, bound: nat) {
    Acceptable(lens) &&
    (c == CodeOf(lens) || (Complete(lens) && c == Code(lens, bound)))
  }

  /** The decoder finds symbol s exactly if the code word of s is there. */
  lemma DecodesSymbol(c: Code, lens: seq<nat>, bound: nat, s: nat, src: seq<byte>, pos: nat)
    requires Realizes(c, lens, bound) && s <= bound
    ensures c.max != -1 ==> Complete(c.lens)
    ensures c.max != -1 && s == SymbolAt(c.lens, src, pos) && s <= c.max <==> IsCodeAt(lens, s, src, pos)
    ensures IsCodeAt(lens, s, src, pos) ==> c.lens[SymbolAt(c.lens, src, pos)] == lens[s]
  {
    NoCodes(lens);
    if c == CodeOf(lens) {
      if IsCodeAt(lens, s, src, pos) {
        AboveMaxSym(lens, s);
      }
      if c.max != -1 {
        CompletedIsComplete(lens);
        if s <= c.max {
          CompletedCodes(lens, s, src, pos);
        }
        if IsCodeAt(lens, s, src, pos) {
          PrefixFree(c.lens, s, SymbolAt(c.lens, src, pos), src, pos);
        }
      }
    } else {
      if IsCodeAt(lens, s, src, pos) {
        PrefixFree(lens, s, SymbolAt(lens, src, pos), src, pos);
      }
    }
  }

  // --------------------------------------------------------------------- data of one block

  lemma AtConcat4(src: seq<byte>, pos: nat, a: seq<bit>, b: seq<bit>, c: seq<bit>, d: seq<bit>)
    ensures At(src, pos, a + (b + (c + d))) <==>
            At(src, pos, a) && At(src, pos + |a|, b) && At(src, pos + |a| + |b|, c) &&
            At(src, pos + |a| + |b| + |c|, d)
  {
    AtConcat(src, pos, a, b + (c + d));
    AtConcat(src, pos + |a|, b, c + d);
    AtConcat(src, pos + |a| + |b|, c, d);
  }

  /** A decoder that stands at pos finds the four parts of a match one after the other, the last
      three at p1, p2 and p3. */
  ghost predicate MatchAt(src: seq<byte>, pos: nat, p1: nat, p2: nat, p3: nat, t: Token, ll: seq<nat>, dl: seq<nat>)
    requires t.Match? && ValidToken(t, ll, dl)
  {
    p1 == pos + ll[t.lsym] && p2 == p1 + LengthExtra(t.lsym) && p3 == p2 + dl[t.dsym] &&
    p3 + DistExtra(t.dsym) <= 8 * |src| &&
    IsCodeAt(ll, t.lsym, src, pos) && ReadLsb(src, p1, LengthExtra(t.lsym)) == t.lextra &&
    IsCodeAt(dl, t.dsym, src, p2) && ReadLsb(src, p3, DistExtra(t.dsym)) == t.dextra
  }

  lemma AtMatch(src: seq<byte>, pos: nat, p1: nat, p2: nat, p3: nat, t: Token, ll: seq<nat>, dl: seq<nat>)
    requires t.Match? && ValidToken(t, ll, dl) && Acceptable(ll) && Acceptable(dl)
    requires p1 == pos + ll[t.lsym] && p2 == p1 + LengthExtra(t.lsym) && p3 == p2 + dl[t.dsym]
    ensures |EncodeToken(t, ll, dl)| == p3 + DistExtra(t.dsym) - pos
    ensures At(src, pos, EncodeToken(t, ll, dl)) <==> MatchAt(src, pos, p1, p2, p3, t, ll, dl)
  {
    hide At, LsbBits, CodeBits, ReadLsb, IsCodeAt, Acceptable, Complete, LengthExtra, DistExtra, LengthBase, DistBase, CopyMatch;
    AtConcat4(src, pos, CodeBits(ll, t.lsym), LsbBits(t.lextra, LengthExtra(t.lsym)),
              CodeBits(dl, t.dsym), LsbBits(t.dextra, DistExtra(t.dsym)));
    AtCode(src, pos, ll, t.lsym);
    AtCode(src, p2, dl, t.dsym);
    AtLsb(src, p1, t.lextra, LengthExtra(t.lsym));
    AtLsb(src, p3, t.dextra, DistExtra(t.dsym));
  }

  /** A match that the decoder takes is an encoded match. */
  lemma MatchSound(lit: Code, dist: Code, ll: seq<nat>, dl: seq<nat>,
                   src: seq<byte>, pos: nat, sym: nat, out: seq<byte>, cap: nat) returns (t: Token)
    requires Realizes(lit, ll, 285) && Realizes(dist, dl, 29) && lit.max != -1 && |out| <= cap
    requires sym == SymbolAt(lit.lens, src, pos) && sym > 256
    requires var r := MatchStep(lit, dist, src, pos + lit.lens[sym], sym, out, cap); r.Next? && r.pos <= 8 * |src|
    ensures ValidToken(t, ll, dl) && At(src, pos, EncodeToken(t, ll, dl))
    ensures MatchStep(lit, dist, src, pos + lit.lens[sym], sym, out, cap).pos == pos + |EncodeToken(t, ll, dl)|
    ensures Apply(t, out, ll, dl) == Some(MatchStep(lit, dist, src, pos + lit.lens[sym], sym, out, cap).out)
  {
    hide At, LsbBits, CodeBits, CodeValue, ReadLsb, ReadMsb, LengthBase, DistBase, CopyMatch, CodeOf, Complete, EncodeToken, Acceptable;
    DecodesSymbol(lit, ll, 285, sym, src, pos);
    var p1 := pos + lit.lens[sym];
    var p2 := p1 + LengthExtra(sym);
    var dsym := SymbolAt(dist.lens, src, p2);
    DecodesSymbol(dist, dl, 29, dsym, src, p2);
    var p3 := p2 + dist.lens[dsym];
    t := Match(sym, ReadLsb(src, p1, LengthExtra(sym)), dsym, ReadLsb(src, p3, DistExtra(dsym)));
    ReadLsbBound(src, p1, LengthExtra(sym));
    ReadLsbBound(src, p3, DistExtra(dsym));
    AtMatch(src, pos, p1, p2, p3, t, ll, dl);
  }

  /** A step the decoder takes is an encoded token. */
  lemma StepSound(lit: Code, dist: Code, ll: seq<nat>, dl: seq<nat>,
                  src: seq<byte>, pos: nat, out: seq<byte>, cap: nat) returns (t: Token)
    requires Realizes(lit, ll, 285) && Realizes(dist, dl, 29) && lit.max >= 256 && |out| <= cap
    requires var r := BlockStep(lit, dist, src, pos, out, cap); r.Next? && r.pos <= 8 * |src|
    ensures ValidToken(t, ll, dl) && At(src, pos, EncodeToken(t, ll, dl))
    ensures BlockStep(lit, dist, src, pos, out, cap).pos == pos + |EncodeToken(t, ll, dl)|
    ensures Apply(t, out, ll, dl) == Some(BlockStep(lit, dist, src, pos, out, cap).out)
  {
    hide At, LsbBits, CodeBits, ReadLsb, LengthBase, DistBase, CopyMatch, Complete, CodeOf, MatchStep, Acceptable;
    var sym := SymbolAt(lit.lens, src, pos);
    if sym < 256 {
      DecodesSymbol(lit, ll, 285, sym, src, pos);
      AtCode(src, pos, ll, sym);
      t := Literal(sym);
    } else {
      t := MatchSound(lit, dist, ll, dl, src, pos, sym, out, cap);
    }
  }

  /** An encoded token makes the decoder take the step that the token stands for. */
  lemma StepComplete(lit: Code, dist: Code, ll: seq<nat>, dl: seq<nat>, t: Token,
                     src: seq<byte>, pos: nat, out: seq<byte>, cap: nat)
    requires Realizes(lit, ll, 285) && Realizes(dist, dl, 29) && lit.max >= 256 && |out| <= cap
    requires ValidToken(t, ll, dl) && At(src, pos, EncodeToken(t, ll, dl)) && Apply(t, out, ll, dl).Some?
    ensures var o := Apply(t, out, ll, dl).value;
            var r := BlockStep(lit, dist, src, pos, out, cap);
            if |o| <= cap then r == Next(pos + |EncodeToken(t, ll, dl)|, o)
            else r.Stop? && r.status == BufError
  {
    hide At, LsbBits, ReadLsb, LengthBase, DistBase, CopyMatch, Complete, CodeOf, MatchStep, Acceptable, CodeBits, LengthExtra, DistExtra;
    match t
    case Literal(v) =>
      AtCode(src, pos, ll, v);
      DecodesSymbol(lit, ll, 285, v, src, pos);
    case Match(ls, le, ds, de) =>
      MatchComplete(lit, dist, ll, dl, t, src, pos, out, cap);
  }

  lemma MatchComplete(lit: Code, dist: Code, ll: seq<nat>, dl: seq<nat>, t: Token,
                      src: seq<byte>, pos: nat, out: seq<byte>, cap: nat)
    requires Realizes(lit, ll, 285) && Realizes(dist, dl, 29) && lit.max >= 256 && |out| <= cap && t.Match?
    requires ValidToken(t, ll, dl) && At(src, pos, EncodeToken(t, ll, dl)) && Apply(t, out, ll, dl).Some?
    ensures var p1 := pos + ll[t.lsym];
            SymbolAt(lit.lens, src, pos) == t.lsym && lit.lens[t.lsym] == ll[t.lsym] && p1 <= 8 * |src| &&
            MatchStep(lit, dist, src, p1, t.lsym, out, cap) ==
            if |Apply(t, out, ll, dl).value| <= cap
            then Next(pos + |EncodeToken(t, ll, dl)|, Apply(t, out, ll, dl).value)
            else Stop(BufError, pos + |EncodeToken(t, ll, dl)|)
  {
    hide At, LsbBits, CodeBits, ReadLsb, Complete, LengthBase, DistBase, CopyMatch, Usable, CodeOf, EncodeToken, Acceptable;
    var p1 := pos + ll[t.lsym];
    var p2 := p1 + LengthExtra(t.lsym);
    AtMatch(src, pos, p1, p2, p2 + dl[t.dsym], t, ll, dl);
    DecodesSymbol(lit, ll, 285, t.lsym, src, pos);
    DecodesSymbol(dist, dl, 29, t.dsym, src, p2);
    DistPositive(t.dsym);
  }

  /** The code word of symbol 256 ends the block, and nothing else does. */
  lemma EndOfBlock(lit: Code, dist: Code, ll: seq<nat>, dl: seq<nat>,
                   src: seq<byte>, pos: nat, out: seq<byte>, cap: nat)
    requires Realizes(lit, ll, 285) && Realizes(dist, dl, 29) && lit.max >= 256 && |out| <= cap
    requires 256 < |ll| && ll[256] > 0
    ensures var r := BlockStep(lit, dist, src, pos, out, cap);
            r.Stop? && r.status == TinfOk <==> At(src, pos, CodeBits(ll, 256))
    ensures var r := BlockStep(lit, dist, src, pos, out, cap);
            At(src, pos, CodeBits(ll, 256)) ==> r == Stop(TinfOk, pos + |CodeBits(ll, 256)|)
  {
    hide At, CodeBits, CodeValue, ReadMsb, Complete, CodeOf, MatchStep, Acceptable;
    DecodesSymbol(lit, ll, 285, 256, src, pos);
    AtCode(src, pos, ll, 256);
  }

  /** Everything the block decoder accepts is an encoding of tokens that expand to its output. */
  lemma {:induction false} BlockDataSound(lit: Code, dist: Code, ll: seq<nat>, dl: seq<nat>,
                                          src: seq<byte>, pos: nat, out: seq<byte>, cap: nat)
    returns (ts: seq<Token>)
    requires Realizes(lit, ll, 285) && Realizes(dist, dl, 29) && lit.max >= 256 && |out| <= cap
    requires 256 < |ll| && ll[256] > 0
    requires BlockData(lit, dist, src, pos, out, cap).status == TinfOk
    ensures ValidTokens(ts, ll, dl)
    ensures At(src, pos, EncodeTokens(ts, ll, dl))
    ensures BlockData(lit, dist, src, pos, out, cap).pos == pos + |EncodeTokens(ts, ll, dl)|
    ensures Expand(ts, out, ll, dl) == Some(BlockData(lit, dist, src, pos, out, cap).out)
    decreases if pos <= 8 * |src| then 8 * |src| - pos + 1 else 0
  {
    hide At, CodeBits, Complete, CodeOf, BlockStep, Acceptable, EncodeToken, Apply;
    match BlockStep(lit, dist, src, pos, out, cap)
    case Stop(status, p) =>
      EndOfBlock(lit, dist, ll, dl, src, pos, out, cap);
      ts := [];
    case Next(p, o) =>
      var rest := BlockDataSound(lit, dist, ll, dl, src, p, o, cap);
      var t := StepSound(lit, dist, ll, dl, src, pos, out, cap);
      ts := [t] + rest;
      assert ts[1..] == rest && ts[0] == t;
      AtConcat(src, pos, EncodeToken(t, ll, dl), EncodeTokens(rest, ll, dl));
  }

  lemma {:induction false} ExpandGrows(ts: seq<Token>, out: seq<byte>, ll: seq<nat>, dl: seq<nat>)
    requires ValidTokens(ts, ll, dl)
    ensures Expand(ts, out, ll, dl).Some? ==> |Expand(ts, out, ll, dl).value| >= |out|
  {
    if |ts| > 0 && Apply(ts[0], out, ll, dl).Some? {
      ExpandGrows(ts[1..], Apply(ts[0], out, ll, dl).value, ll, dl);
    }
  }

  /** The block decoder inverts the encoding of every token sequence; if the expansion does not
      fit, it says so. */
  lemma {:induction false} BlockDataComplete(lit: Code, dist: Code, ll: seq<nat>, dl: seq<nat>, ts: seq<Token>,
                                             src: seq<byte>, pos: nat, out: seq<byte>, cap: nat)
    requires Realizes(lit, ll, 285) && Realizes(dist, dl, 29) && lit.max >= 256 && |out| <= cap
    requires 256 < |ll| && ll[256] > 0
    requires ValidTokens(ts, ll, dl) && At(src, pos, EncodeTokens(ts, ll, dl))
    requires Expand(ts, out, ll, dl).Some?
    ensures var o := Expand(ts, out, ll, dl).value;
            var r := BlockData(lit, dist, src, pos, out, cap);
            if |o| <= cap then r == Outcome(TinfOk, pos + |EncodeTokens(ts, ll, dl)|, o)
            else r.status == BufError
    decreases |ts|
  {
    hide At, CodeBits, Complete, CodeOf, BlockStep, Acceptable, EncodeToken, Apply;
    if |ts| == 0 {
      EndOfBlock(lit, dist, ll, dl, src, pos, out, cap);
    } else {
      var t, rest := ts[0], ts[1..];
      var e := EncodeToken(t, ll, dl);
      AtConcat(src, pos, e, EncodeTokens(rest, ll, dl));
      var o := Apply(t, out, ll, dl).value;
      ExpandGrows(rest, o, ll, dl);
      StepComplete(lit, dist, ll, dl, t, src, pos, out, cap);
      if |o| <= cap {
        BlockDataComplete(lit, dist, ll, dl, rest, src, pos + |e|, o, cap);
      }
    }
  }

  // ------------------------------------------------------------------- code descriptions

  lemma OpExtra(src: seq<byte>, pos: nat, op: LengthOp, clens: seq<nat>, n: nat, v: nat)
    requires ValidOp(op, clens) && Acceptable(clens)
    requires n == (match op case Single(_) => 0 case CopyPrevious(_) => 2 case FewZeros(_) => 3 case ManyZeros(_) => 7)
    requires v == (match op case Single(_) => 0 case CopyPrevious(t) => t - 3 case FewZeros(t) => t - 3 case ManyZeros(t) => t - 11)
    ensures |EncodeOp(op, clens)| == clens[OpSymbol(op)] + n
    ensures At(src, pos, EncodeOp(op, clens)) <==>
            IsCodeAt(clens, OpSymbol(op), src, pos) &&
            ReadLsb(src, pos + clens[OpSymbol(op)], n) == v && pos + clens[OpSymbol(op)] + n <= 8 * |src|
  {
    Pow2Small();
    OpParts(op, clens, n, v);
    hide At, CodeBits, CodeValue, ReadMsb, Acceptable, EncodeOp, ReadLsb, LsbBits;
    var p1 := pos + clens[OpSymbol(op)];
    AtConcat(src, pos, CodeBits(clens, OpSymbol(op)), LsbBits(v, n));
    AtCode(src, pos, clens, OpSymbol(op));
    AtLsb(src, p1, v, n);
  }

  lemma OpParts(op: LengthOp, clens: seq<nat>, n: nat, v: nat)
    requires ValidOp(op, clens)
    requires n == (match op case Single(_) => 0 case CopyPrevious(_) => 2 case FewZeros(_) => 3 case ManyZeros(_) => 7)
    requires v == (match op case Single(_) => 0 case CopyPrevious(t) => t - 3 case FewZeros(t) => t - 3 case ManyZeros(t) => t - 11)
    ensures EncodeOp(op, clens) == CodeBits(clens, OpSymbol(op)) + LsbBits(v, n)
  {
  }

  /** Lengths the decoder adds are an encoded run-length operation. */
  lemma OpSound(clc: Code, clens: seq<nat>, total: nat, src: seq<byte>, pos: nat, acc: seq<nat>) returns (op: LengthOp)
    requires Realizes(clc, clens, 18) && clc.max != -1 && clc.max <= 18 && |acc| <= total && ValidLengths(acc)
    requires NextLengths(clc, total, src, pos, acc).Accept? && NextLengths(clc, total, src, pos, acc).pos <= 8 * |src|
    ensures ValidOp(op, clens) && At(src, pos, EncodeOp(op, clens))
    ensures NextLengths(clc, total, src, pos, acc).pos == pos + |EncodeOp(op, clens)|
    ensures ApplyOp(op, acc) == Some(NextLengths(clc, total, src, pos, acc).lengths)
  {
    hide At, CodeBits, CodeValue, ReadLsb, ReadMsb, Acceptable, EncodeOp, CodeOf, Realizes;
    RealizesUsable(clc, clens, 18);
    var sym := SymbolAt(clc.lens, src, pos);
    DecodesSymbol(clc, clens, 18, sym, src, pos);
    var p1 := pos + clens[sym];
    Pow2Small();
    ReadLsbBound(src, p1, 2);
    ReadLsbBound(src, p1, 3);
    ReadLsbBound(src, p1, 7);
    op := if sym == 16 then CopyPrevious(3 + ReadLsb(src, p1, 2))
          else if sym == 17 then FewZeros(3 + ReadLsb(src, p1, 3))
          else if sym == 18 then ManyZeros(11 + ReadLsb(src, p1, 7))
          else Single(sym);
    var n := if sym == 16 then 2 else if sym == 17 then 3 else if sym == 18 then 7 else 0;
    ReadNone(src, p1);
    OpExtra(src, pos, op, clens, n, ReadLsb(src, p1, n));
    OneRepeat(sym);
  }

  lemma ReadNone(src: seq<byte>, pos: nat)
    ensures ReadLsb(src, pos, 0) == 0
  {
  }

  lemma OneRepeat(l: nat)
    ensures Repeat(l, 1) == [l]
  {
  }

  lemma RealizesUsable(c: Code, lens: seq<nat>, bound: nat)
    requires Realizes(c, lens, bound)
    ensures Acceptable(lens) && Usable(c)
  {
  }

  /** An encoded run-length operation makes the decoder add the lengths it stands for. */
  lemma OpComplete(clc: Code, clens: seq<nat>, total: nat, src: seq<byte>, pos: nat, acc: seq<nat>, op: LengthOp)
    requires Realizes(clc, clens, 18) && clc.max != -1 && clc.max <= 18 && |acc| <= total && ValidLengths(acc)
    requires ValidOp(op, clens) && At(src, pos, EncodeOp(op, clens))
    requires ApplyOp(op, acc).Some? && |ApplyOp(op, acc).value| <= total
    ensures NextLengths(clc, total, src, pos, acc) == Accept(pos + |EncodeOp(op, clens)|, ApplyOp(op, acc).value)
  {
    hide At, CodeBits, CodeValue, ReadLsb, ReadMsb, Acceptable, EncodeOp, Complete, CodeOf, Realizes;
    var sym := OpSymbol(op);
    RealizesUsable(clc, clens, 18);
    var n := match op case Single(_) => 0 case CopyPrevious(_) => 2 case FewZeros(_) => 3 case ManyZeros(_) => 7;
    var v := match op case Single(_) => 0 case CopyPrevious(t) => t - 3 case FewZeros(t) => t - 3 case ManyZeros(t) => t - 11;
    OpExtra(src, pos, op, clens, n, v);
    DecodesSymbol(clc, clens, 18, sym, src, pos);
    OneRepeat(sym);
  }

  /** An operation in front of others. */
  lemma ConsOps(op: LengthOp, rest: seq<LengthOp>, clens: seq<nat>, acc: seq<nat>)
    requires ValidOp(op, clens) && ValidOps(rest, clens)
    ensures ValidOps([op] + rest, clens)
    ensures EncodeOps([op] + rest, clens) == EncodeOp(op, clens) + EncodeOps(rest, clens)
    ensures ApplyOp(op, acc).Some? ==> ExpandOps([op] + rest, acc) == ExpandOps(rest, ApplyOp(op, acc).value)
  {
    hide ValidOp, EncodeOp, ApplyOp;
    var ops := [op] + rest;
    assert ops[1..] == rest && ops[0] == op;
  }

  lemma {:induction false} LengthsSound(clc: Code, clens: seq<nat>, total: nat, src: seq<byte>, pos: nat, acc: seq<nat>)
    returns (ops: seq<LengthOp>)
    requires Realizes(clc, clens, 18) && clc.max != -1 && clc.max <= 18 && |acc| <= total && ValidLengths(acc)
    requires DecodeLengths(clc, total, src, pos, acc).Good?
    requires DecodeLengths(clc, total, src, pos, acc).pos <= 8 * |src|
    ensures ValidOps(ops, clens) && At(src, pos, EncodeOps(ops, clens))
    ensures DecodeLengths(clc, total, src, pos, acc).pos == pos + |EncodeOps(ops, clens)|
    ensures ExpandOps(ops, acc) == Some(DecodeLengths(clc, total, src, pos, acc).lengths)
    decreases total - |acc|, 1
  {
    if |acc| == total {
      ops := [];
    } else {
      ops := LengthsSoundStep(clc, clens, total, src, pos, acc);
    }
  }

  lemma {:induction false} LengthsSoundStep(clc: Code, clens: seq<nat>, total: nat, src: seq<byte>, pos: nat, acc: seq<nat>)
    returns (ops: seq<LengthOp>)
    requires Realizes(clc, clens, 18) && clc.max != -1 && clc.max <= 18 && |acc| < total && ValidLengths(acc)
    requires DecodeLengths(clc, total, src, pos, acc).Good?
    requires DecodeLengths(clc, total, src, pos, acc).pos <= 8 * |src|
    ensures ValidOps(ops, clens) && At(src, pos, EncodeOps(ops, clens))
    ensures DecodeLengths(clc, total, src, pos, acc).pos == pos + |EncodeOps(ops, clens)|
    ensures ExpandOps(ops, acc) == Some(DecodeLengths(clc, total, src, pos, acc).lengths)
    decreases total - |acc|, 0
  {
    hide *;
    RealizesUsable(clc, clens, 18);
    DecodeUnfold(clc, total, src, pos, acc);
    var r := NextLengths(clc, total, src, pos, acc);
    var rest := LengthsSound(clc, clens, total, src, r.pos, r.lengths);
    var op := OpSound(clc, clens, total, src, pos, acc);
    ops := [op] + rest;
    ConsOps(op, rest, clens, acc);
    AtConcat(src, pos, EncodeOp(op, clens), EncodeOps(rest, clens));
  }

  lemma {:induction false} OpsGrow(ops: seq<LengthOp>, acc: seq<nat>, clens: seq<nat>)
    requires ValidOps(ops, clens) && ExpandOps(ops, acc).Some?
    ensures |ExpandOps(ops, acc).value| >= |acc| + |ops|
  {
    if |ops| > 0 {
      OpsGrow(ops[1..], ApplyOp(ops[0], acc).value, clens);
    }
  }

  /** Lengths within 0 .. 15 stay so. */
  lemma ApplyOpValid(op: LengthOp, acc: seq<nat>, clens: seq<nat>)
    requires ValidOp(op, clens) && ValidLengths(acc) && ApplyOp(op, acc).Some?
    ensures ValidLengths(ApplyOp(op, acc).value)
  {
  }

  lemma {:induction false} LengthsComplete(clc: Code, clens: seq<nat>, total: nat, src: seq<byte>, pos: nat,
                                           acc: seq<nat>, ops: seq<LengthOp>, all: seq<nat>)
    requires Realizes(clc, clens, 18) && clc.max != -1 && clc.max <= 18 && |acc| <= total && ValidLengths(acc)
    requires ValidOps(ops, clens) && At(src, pos, EncodeOps(ops, clens))
    requires ExpandOps(ops, acc) == Some(all) && |all| == total
    ensures DecodeLengths(clc, total, src, pos, acc) == Good(all, pos + |EncodeOps(ops, clens)|)
    decreases |ops|, 1
  {
    if |ops| > 0 {
      LengthsCompleteStep(clc, clens, total, src, pos, acc, ops, all);
    }
  }

  lemma {:induction false} LengthsCompleteStep(clc: Code, clens: seq<nat>, total: nat, src: seq<byte>, pos: nat,
                                               acc: seq<nat>, ops: seq<LengthOp>, all: seq<nat>)
    requires Realizes(clc, clens, 18) && clc.max != -1 && clc.max <= 18 && |acc| <= total && ValidLengths(acc)
    requires ValidOps(ops, clens) && At(src, pos, EncodeOps(ops, clens)) && |ops| > 0
    requires ExpandOps(ops, acc) == Some(all) && |all| == total
    ensures DecodeLengths(clc, total, src, pos, acc) == Good(all, pos + |EncodeOps(ops, clens)|)
    decreases |ops|, 0
  {
    hide *;
    SplitOps(ops, clens, acc);
    var op, rest := ops[0], ops[1..];
    var a := ApplyOp(op, acc).value;
    OpsGrow(rest, a, clens);
    AtConcat(src, pos, EncodeOp(op, clens), EncodeOps(rest, clens));
    OpComplete(clc, clens, total, src, pos, acc, op);
    LengthsComplete(clc, clens, total, src, pos + |EncodeOp(op, clens)|, a, rest, all);
    RealizesUsable(clc, clens, 18);
    DecodeUnfold(clc, total, src, pos, acc);
  }

  /** What encoding and expansion say about the first operation. */
  lemma SplitOps(ops: seq<LengthOp>, clens: seq<nat>, acc: seq<nat>)
    requires ValidOps(ops, clens) && |ops| > 0 && ExpandOps(ops, acc).Some? && ValidLengths(acc)
    ensures ValidOp(ops[0], clens) && ValidOps(ops[1..], clens)
    ensures EncodeOps(ops, clens) == EncodeOp(ops[0], clens) + EncodeOps(ops[1..], clens)
    ensures ApplyOp(ops[0], acc).Some? && ValidLengths(ApplyOp(ops[0], acc).value)
    ensures |ApplyOp(ops[0], acc).value| > |acc|
    ensures ExpandOps(ops[1..], ApplyOp(ops[0], acc).value) == ExpandOps(ops, acc)
  {
    ApplyOpValid(ops[0], acc, clens);
  }

  lemma DecodeUnfold(clc: Code, total: nat, src: seq<byte>, pos: nat, acc: seq<nat>)
    requires Usable(clc) && clc.max != -1 && clc.max <= 18 && |acc| < total && ValidLengths(acc)
    ensures var r := NextLengths(clc, total, src, pos, acc);
            DecodeLengths(clc, total, src, pos, acc) ==
            if r.Accept? then DecodeLengths(clc, total, src, r.pos, r.lengths) else Bad
  {
  }

  // -------------------------------------------------- the stored lengths of the length code

  /** Where a symbol's length is stored. */
  const CLC_PLACE: seq<nat> := [3, 17, 15, 13, 11, 9, 7, 5, 4, 6, 8, 10, 12, 14, 16, 18, 0, 1, 2]

  lemma ClcOrder()
    ensures forall i: nat | i < 19 :: 0 <= ClcSymbol(i) < 19 && CLC_PLACE[ClcSymbol(i)] == i
    ensures forall s: nat | s < 19 :: 0 <= CLC_PLACE[s] < 19 && ClcSymbol(CLC_PLACE[s]) == s
  {
  }

  lemma {:induction false} ReadClcAt(src: seq<byte>, pos: nat, n: nat, i: nat)
    requires n <= 19 && i < 19
    ensures ReadClc(src, pos, n)[ClcSymbol(i)] == if i < n then ReadLsb(src, pos + 3 * i, 3) else 0
  {
    ClcOrder();
    ClcTable();
    if n > 0 {
      ReadClcAt(src, pos, n - 1, i);
      if i < n - 1 {
        assert CLC_PLACE[ClcSymbol(i)] != CLC_PLACE[ClcSymbol(n - 1)];
      }
    }
  }

  ghost predicate StoredFrom(src: seq<byte>, pos: nat, h: Header, i: nat)
    requires i <= h.hclen <= 19 && |h.clens| == 19
    decreases h.hclen - i
  {
    i == h.hclen || (ReadLsb(src, pos + 3 * i, 3) == h.clens[ClcSymbol(i)] && StoredFrom(src, pos, h, i + 1))
  }

  lemma {:induction false} StoredAt(src: seq<byte>, pos: nat, h: Header, i: nat)
    requires i <= h.hclen <= 19 && |h.clens| == 19
    ensures StoredFrom(src, pos, h, i) <==>
            forall j: nat | i <= j < h.hclen :: ReadLsb(src, pos + 3 * j, 3) == h.clens[ClcSymbol(j)]
    decreases h.hclen - i
  {
    hide ReadLsb;
    if i < h.hclen {
      StoredAt(src, pos, h, i + 1);
    }
  }

  lemma ClcUnfold(src: seq<byte>, pos: nat, h: Header, i: nat) returns (v: nat)
    requires i < h.hclen <= 19 && |h.clens| == 19 && forall s | 0 <= s < 19 :: h.clens[s] <= 7
    ensures v < Pow2(3) && |LsbBits(v, 3)| == 3
    ensures EncodeClc(h, i) == LsbBits(v, 3) + EncodeClc(h, i + 1)
    ensures StoredFrom(src, pos, h, i) <==> ReadLsb(src, pos + 3 * i, 3) == v && StoredFrom(src, pos, h, i + 1)
  {
    Pow2Small();
    v := h.clens[ClcSymbol(i)];
    hide ReadLsb, LsbBits, Pow2;
  }

  lemma ClcUnfoldEnd(src: seq<byte>, pos: nat, h: Header, i: nat)
    requires i == h.hclen <= 19 && |h.clens| == 19
    ensures EncodeClc(h, i) == [] && StoredFrom(src, pos, h, i) && (At(src, pos + 3 * i, []) <==> pos + 3 * i <= 8 * |src|)
  {
  }

  lemma {:induction false} AtClc(src: seq<byte>, pos: nat, h: Header, i: nat)
    requires i <= h.hclen <= 19 && |h.clens| == 19 && forall s | 0 <= s < 19 :: h.clens[s] <= 7
    ensures |EncodeClc(h, i)| == 3 * (h.hclen - i)
    ensures At(src, pos + 3 * i, EncodeClc(h, i)) <==> StoredFrom(src, pos, h, i) && pos + 3 * h.hclen <= 8 * |src|
    decreases h.hclen - i
  {
    if i < h.hclen {
      hide *;
      AtClc(src, pos, h, i + 1);
      var v := ClcUnfold(src, pos, h, i);
      AtLsb(src, pos + 3 * i, v, 3);
      AtConcat(src, pos + 3 * i, LsbBits(v, 3), EncodeClc(h, i + 1));
      assert pos + 3 * i + 3 == pos + 3 * (i + 1);
    } else {
      hide *;
      ClcUnfoldEnd(src, pos, h, i);
    }
  }

  lemma ClcIff(src: seq<byte>, pos: nat, h: Header)
    requires ValidClc(h.hclen, h.clens)
    ensures |EncodeClc(h, 0)| == 3 * h.hclen
    ensures At(src, pos, EncodeClc(h, 0)) <==> ReadClc(src, pos, h.hclen) == h.clens && pos + 3 * h.hclen <= 8 * |src|
  {
    hide ReadLsb, At, EncodeClc, ReadClc, StoredFrom;
    AtClc(src, pos, h, 0);
    StoredAt(src, pos, h, 0);
    var r := ReadClc(src, pos, h.hclen);
    forall j: nat | j < 19 ensures r[ClcSymbol(j)] == if j < h.hclen then ReadLsb(src, pos + 3 * j, 3) else 0 {
      ReadClcAt(src, pos, h.hclen, j);
    }
    if StoredFrom(src, pos, h, 0) {
      forall s | 0 <= s < 19 ensures r[s] == h.clens[s] {
        ClcOrder();
        assert ClcSymbol(CLC_PLACE[s]) == s;
      }
    }
  }

  // ------------------------------------------------------------------------ dynamic codes

  lemma AtConcat5(src: seq<byte>, pos: nat, a: seq<bit>, b: seq<bit>, c: seq<bit>, d: seq<bit>, e: seq<bit>)
    ensures At(src, pos, a + (b + (c + (d + e)))) <==>
            At(src, pos, a) && At(src, pos + |a|, b) && At(src, pos + |a| + |b|, c) &&
            At(src, pos + |a| + |b| + |c|, d) && At(src, pos + |a| + |b| + |c| + |d|, e)
  {
    hide *;
    AtConcat(src, pos, a, b + (c + (d + e)));
    AtConcat4(src, pos + |a|, b, c, d, e);
  }

  lemma AtInside(src: seq<byte>, pos: nat, bits: seq<bit>)
    requires At(src, pos, bits)
    ensures pos + |bits| <= 8 * |src|
  {
  }

  /** The five parts of an encoded header. */
  ghost predicate HeaderAt(src: seq<byte>, pos: nat, h: Header)
    requires ValidHeader(h)
  {
    ReadLsb(src, pos, 5) == h.hlit - 257 && ReadLsb(src, pos + 5, 5) == h.hdist - 1 &&
    ReadLsb(src, pos + 10, 4) == h.hclen - 4 && ReadClc(src, pos + 14, h.hclen) == h.clens &&
    At(src, pos + 14 + 3 * h.hclen, EncodeOps(h.ops, h.clens))
  }

  lemma HeaderShape(h: Header)
    requires ValidHeader(h)
    ensures ValidClc(h.hclen, h.clens)
    ensures 257 <= h.hlit <= 286 && 1 <= h.hdist <= 30 && ValidOps(h.ops, h.clens)
    ensures EncodeHeader(h) == LsbBits(h.hlit - 257, 5) + (LsbBits(h.hdist - 1, 5) + (LsbBits(h.hclen - 4, 4) +
                               (EncodeClc(h, 0) + EncodeOps(h.ops, h.clens))))
  {
    hide Acceptable, ValidOps, EncodeClc, EncodeOps, LsbBits, ExpandOps, MaxSym;
    assert ValidClc(h.hclen, h.clens);
  }

  lemma ClcLength(n: nat, clens: seq<nat>)
    requires ValidClc(n, clens)
    ensures 4 <= n <= 19 && |clens| == 19
  {
  }

  lemma AtHeader(src: seq<byte>, pos: nat, h: Header)
    requires ValidHeader(h)
    ensures h.hclen <= 19 && |h.clens| == 19 && ValidOps(h.ops, h.clens)
    ensures |EncodeHeader(h)| == 14 + 3 * h.hclen + |EncodeOps(h.ops, h.clens)|
    ensures At(src, pos, EncodeHeader(h)) <==> HeaderAt(src, pos, h)
  {
    hide ValidHeader, ValidClc, At, EncodeHeader, LsbBits, ReadLsb, ReadClc, EncodeClc, EncodeOps, ValidOps;
    HeaderShape(h);
    ClcLength(h.hclen, h.clens);
    Pow2Small();
    AtConcat5(src, pos, LsbBits(h.hlit - 257, 5), LsbBits(h.hdist - 1, 5), LsbBits(h.hclen - 4, 4),
              EncodeClc(h, 0), EncodeOps(h.ops, h.clens));
    AtLsb(src, pos, h.hlit - 257, 5);
    AtLsb(src, pos + 5, h.hdist - 1, 5);
    AtLsb(src, pos + 10, h.hclen - 4, 4);
    ClcIff(src, pos + 14, h);
    if At(src, pos + 14 + 3 * h.hclen, EncodeOps(h.ops, h.clens)) {
      AtInside(src, pos + 14 + 3 * h.hclen, EncodeOps(h.ops, h.clens));
    }
  }

  /** The lengths of the length code that the decoder has read. */
  lemma ReadClcShape(src: seq<byte>, pos: nat, n: nat, clens: seq<nat>)
    requires n <= 19 && clens == ReadClc(src, pos, n)
    ensures n >= 4 ==> ValidClc(n, clens)
    ensures MaxSym(clens) <= 18
  {
    hide ReadClc, ReadLsb, MaxSym;
    NoCodes(clens);
    forall i: nat | n <= i < 19 ensures clens[ClcSymbol(i)] == 0 {
      ReadClcAt(src, pos, n, i);
    }
  }

  lemma CodeOfMax(lens: seq<nat>)
    requires Acceptable(lens)
    ensures CodeOf(lens).max == MaxSym(lens)
    ensures CodeOf(lens).max != -1 ==> CodeOf(lens).lens == Completed(lens)
    ensures Usable(CodeOf(lens))
    ensures forall bound: nat :: Realizes(CodeOf(lens), lens, bound)
  {
    NoCodes(lens);
  }

  /** Header numbers, code lengths and codes that the decoder reads. */
  lemma DynamicUnfold(src: seq<byte>, pos: nat, hlit: nat, hdist: nat, hclen: nat, clens: seq<nat>)
    requires hlit == 257 + ReadLsb(src, pos, 5) && hdist == 1 + ReadLsb(src, pos + 5, 5)
    requires hclen == 4 + ReadLsb(src, pos + 10, 4) && hclen <= 19 && clens == ReadClc(src, pos + 14, hclen)
    requires MaxSym(clens) <= 18
    ensures DynamicCodes(src, pos) ==
            if hlit > 286 || hdist > 30 || !Acceptable(clens) || MaxSym(clens) == -1 then Malformed
            else
              match DecodeLengths(CodeOf(clens), hlit + hdist, src, pos + 14 + 3 * hclen, [])
              case Bad => Malformed
              case Good(all, p) => CodesFrom(all, hlit, p)
  {
    hide ReadLsb, ReadClc, Acceptable, MaxSym, CodeOf, DecodeLengths, CodesFrom, Usable, Complete;
  }

  /** What the decoder reads as code descriptions is an encoded header. */
  lemma DynamicSound(src: seq<byte>, pos: nat) returns (h: Header)
    requires DynamicCodes(src, pos).Codes? && DynamicCodes(src, pos).pos <= 8 * |src|
    ensures ValidHeader(h) && At(src, pos, EncodeHeader(h))
    ensures DynamicCodes(src, pos) == Codes(CodeOf(LitLengths(h)), CodeOf(DistLengths(h)), pos + |EncodeHeader(h)|)
  {
    hide *;
    var hlit := 257 + ReadLsb(src, pos, 5);
    var hdist := 1 + ReadLsb(src, pos + 5, 5);
    var hclen := 4 + ReadLsb(src, pos + 10, 4);
    ReadLsbBound(src, pos + 10, 4);
    Pow2Small();
    var clens := ReadClc(src, pos + 14, hclen);
    ReadClcShape(src, pos + 14, hclen, clens);
    DynamicUnfold(src, pos, hlit, hdist, hclen, clens);
    CodeOfMax(clens);
    var clc := CodeOf(clens);
    ValidEmpty();
    var r := DecodeLengths(clc, hlit + hdist, src, pos + 14 + 3 * hclen, []);
    CodesFromPos(r.lengths, hlit, r.pos);
    var ops := LengthsSound(clc, clens, hlit + hdist, src, pos + 14 + 3 * hclen, []);
    h := Header(hclen, clens, ops, hlit, hdist);
    HeaderValid(h, r.lengths, r.pos);
    AtHeader(src, pos, h);
    HeaderIs(src, pos, h);
  }

  lemma ValidEmpty()
    ensures ValidLengths([])
  {
  }

  lemma CodesFromPos(all: seq<nat>, hlit: nat, p: nat)
    requires 257 <= hlit < |all|
    ensures CodesFrom(all, hlit, p).Codes? ==> CodesFrom(all, hlit, p).pos == p
  {
    hide Acceptable, CodeOf, MaxSym;
  }

  lemma HeaderIs(src: seq<byte>, pos: nat, h: Header)
    requires ValidHeader(h)
    requires h.hlit == 257 + ReadLsb(src, pos, 5) && h.hdist == 1 + ReadLsb(src, pos + 5, 5)
    requires h.hclen == 4 + ReadLsb(src, pos + 10, 4) && ReadClc(src, pos + 14, h.hclen) == h.clens
    requires ValidOps(h.ops, h.clens) && At(src, pos + 14 + 3 * h.hclen, EncodeOps(h.ops, h.clens))
    ensures HeaderAt(src, pos, h)
  {
    hide ValidHeader, ReadLsb, ReadClc, At, EncodeOps, ValidOps;
  }

  lemma HeaderValid(h: Header, all: seq<nat>, p: nat)
    requires ValidClc(h.hclen, h.clens)
    requires Acceptable(h.clens) && MaxSym(h.clens) != -1
    requires 257 <= h.hlit <= 286 && 1 <= h.hdist <= 30 && ValidOps(h.ops, h.clens)
    requires ExpandOps(h.ops, []) == Some(all) && |all| == h.hlit + h.hdist
    requires CodesFrom(all, h.hlit, p).Codes?
    ensures ValidHeader(h)
    ensures CodesFrom(all, h.hlit, p) == Codes(CodeOf(LitLengths(h)), CodeOf(DistLengths(h)), p)
  {
    hide Acceptable, CodeOf, MaxSym, ValidOps, ExpandOps;
  }

  /** Every encoded header is read as the two codes that it describes. */
  lemma DynamicComplete(src: seq<byte>, pos: nat, h: Header)
    requires ValidHeader(h) && At(src, pos, EncodeHeader(h))
    ensures DynamicCodes(src, pos) == Codes(CodeOf(LitLengths(h)), CodeOf(DistLengths(h)), pos + |EncodeHeader(h)|)
  {
    hide *;
    AtHeader(src, pos, h);
    HeaderFacts(src, pos, h);
    var all := ExpandOps(h.ops, []).value;
    CodeOfMax(h.clens);
    ReadClcShape(src, pos + 14, h.hclen, h.clens);
    DynamicUnfold(src, pos, h.hlit, h.hdist, h.hclen, h.clens);
    ValidEmpty();
    LengthsComplete(CodeOf(h.clens), h.clens, h.hlit + h.hdist, src, pos + 14 + 3 * h.hclen, [], h.ops, all);
    HeaderCodes(h, all, pos + |EncodeHeader(h)|);
  }

  lemma HeaderFacts(src: seq<byte>, pos: nat, h: Header)
    requires ValidHeader(h) && HeaderAt(src, pos, h)
    ensures h.hlit == 257 + ReadLsb(src, pos, 5) && h.hdist == 1 + ReadLsb(src, pos + 5, 5)
    ensures h.hclen == 4 + ReadLsb(src, pos + 10, 4) && h.hclen <= 19 && ReadClc(src, pos + 14, h.hclen) == h.clens
    ensures ValidOps(h.ops, h.clens) && At(src, pos + 14 + 3 * h.hclen, EncodeOps(h.ops, h.clens))
    ensures Acceptable(h.clens) && MaxSym(h.clens) != -1 && h.hlit <= 286 && h.hdist <= 30
    ensures ExpandOps(h.ops, []).Some? && |ExpandOps(h.ops, []).value| == h.hlit + h.hdist
  {
    hide Acceptable, MaxSym, ValidOps, ExpandOps, ReadLsb, ReadClc, At, EncodeOps;
  }

  lemma HeaderCodes(h: Header, all: seq<nat>, p: nat)
    requires ValidHeader(h) && ExpandOps(h.ops, []) == Some(all)
    ensures |all| == h.hlit + h.hdist && 257 <= h.hlit < |all|
    ensures CodesFrom(all, h.hlit, p) == Codes(CodeOf(LitLengths(h)), CodeOf(DistLengths(h)), p)
  {
    hide Acceptable, CodeOf, MaxSym, ValidOps, ExpandOps;
  }

  // ------------------------------------------------------------------------ stored blocks

  /** Bytes on a byte boundary. */
  lemma {:induction false} AtBytes(src: seq<byte>, i: nat, data: seq<byte>)
    ensures |EncodeBytes(data)| == 8 * |data|
    ensures At(src, 8 * i, EncodeBytes(data)) <==> i + |data| <= |src| && src[i..i + |data|] == data
    decreases |data|
  {
    hide At, LsbBits, ReadLsb;
    if |data| == 0 {
      AtNothing(src, 8 * i);
    } else {
      AtBytes(src, i + 1, data[1..]);
      AtConcat(src, 8 * i, LsbBits(data[0], 8), EncodeBytes(data[1..]));
      Pow2Small();
      AtLsb(src, 8 * i, data[0], 8);
      ReadLsbByte(src, i, 8);
      if i + |data| <= |src| { SliceCons(src, i, data); }
    }
  }

  lemma AtNothing(src: seq<byte>, pos: nat)
    ensures At(src, pos, []) <==> pos <= 8 * |src|
  {
  }

  lemma SliceCons(src: seq<byte>, i: nat, data: seq<byte>)
    requires |data| > 0 && i + |data| <= |src|
    ensures src[i..i + |data|] == data <==> src[i] == data[0] && src[i + 1..i + |data|] == data[1..]
  {
    assert src[i..i + |data|] == [src[i]] + src[i + 1..i + |data|];
    assert data == [data[0]] + data[1..];
  }

  /** Sixteen bits on a byte boundary are a little-endian number. */
  lemma ReadLe16(src: seq<byte>, i: nat, n: nat)
    requires n == 16
    ensures ReadLsb(src, 8 * i, n) == Le16(src, i)
  {
    ReadLsbSplit(src, 8 * i, 8, 8);
    ReadLsbByte(src, i, 8);
    ReadLsbByte(src, i + 1, 8);
    assert 8 * i + 8 == 8 * (i + 1);
    Scale256(ByteAt(src, i + 1), 8);
  }

  lemma Scale256(x: nat, n: nat)
    requires n == 8
    ensures Scale(x, n) == 256 * x
  {
    assert Scale(x, 1) == 2 * x;
    assert Scale(x, 2) == 4 * x;
    assert Scale(x, 3) == 8 * x;
    assert Scale(x, 4) == 16 * x;
    assert Scale(x, 5) == 32 * x;
    assert Scale(x, 6) == 64 * x;
    assert Scale(x, 7) == 128 * x;
  }

  lemma Pow2Of16(n: nat)
    requires n == 16
    ensures Pow2(n) == 65536
  {
    Pow2Small();
    assert Pow2(9) == 512 && Pow2(10) == 1024 && Pow2(11) == 2048 && Pow2(12) == 4096;
    assert Pow2(13) == 8192 && Pow2(14) == 16384 && Pow2(15) == 32768;
  }

  /** A stored block's length, its complement and its data, on byte boundary start. */
  ghost predicate StoredAtByte(src: seq<byte>, start: nat, data: seq<byte>) {
    start + 4 + |data| <= |src| && Le16(src, start) == |data| && Le16(src, start + 2) == 65535 - |data| &&
    src[start + 4..start + 4 + |data|] == data
  }

  lemma AtStored(src: seq<byte>, start: nat, data: seq<byte>)
    requires |data| <= 65535
    ensures |LsbBits(|data|, 16) + (LsbBits(65535 - |data|, 16) + EncodeBytes(data))| == 32 + 8 * |data|
    ensures At(src, 8 * start, LsbBits(|data|, 16) + (LsbBits(65535 - |data|, 16) + EncodeBytes(data))) <==>
            StoredAtByte(src, start, data)
  {
    hide At, LsbBits, ReadLsb, EncodeBytes, Le16;
    var a, b, c := LsbBits(|data|, 16), LsbBits(65535 - |data|, 16), EncodeBytes(data);
    AtConcat(src, 8 * start, a, b + c);
    AtConcat(src, 8 * start + 16, b, c);
    AtBytes(src, start + 4, data);
    Pow2Of16(16);
    AtLsb(src, 8 * start, |data|, 16);
    AtLsb(src, 8 * start + 16, 65535 - |data|, 16);
    ReadLe16(src, start, 16);
    ReadLe16(src, start + 2, 16);
    assert 8 * start + 16 == 8 * (start + 2) && 8 * start + 32 == 8 * (start + 4);
  }

  /** The next byte boundary is where the padding ends. */
  lemma Boundary(pos: nat)
    ensures 8 * ((pos + 7) / 8) == pos + Padding(pos)
  {
  }

  lemma Le16Bound(src: seq<byte>, i: nat)
    ensures Le16(src, i) <= 65535
  {
  }

  function BitsFrom(src: seq<byte>, pos: nat, n: nat): seq<bit> {
    seq<bit>(n, i requires 0 <= i < n => Bit(src, pos + i))
  }

  /** Padding may hold any bits: those that are there. */
  lemma PadSound(src: seq<byte>, pos: nat, n: nat, e: seq<bit>)
    requires At(src, pos + n, e)
    ensures |BitsFrom(src, pos, n)| == n && At(src, pos, BitsFrom(src, pos, n) + e)
  {
    AtConcat(src, pos, BitsFrom(src, pos, n), e);
  }

  lemma StoredSound(src: seq<byte>, pos: nat, out: seq<byte>, cap: nat) returns (pad: seq<bit>, data: seq<byte>)
    requires |out| <= cap && StoredBlock(src, pos, out, cap).status == TinfOk
    ensures |data| <= 65535 && |pad| == Padding(pos)
    ensures var e := pad + (LsbBits(|data|, 16) + (LsbBits(65535 - |data|, 16) + EncodeBytes(data)));
            At(src, pos, e) && StoredBlock(src, pos, out, cap) == Outcome(TinfOk, pos + |e|, out + data)
  {
    hide At, LsbBits, EncodeBytes, Le16, Padding, BitsFrom;
    var start := (pos + 7) / 8;
    Boundary(pos);
    Le16Bound(src, start);
    data := src[start + 4..start + 4 + Le16(src, start)];
    AtStored(src, start, data);
    pad := BitsFrom(src, pos, Padding(pos));
    PadSound(src, pos, Padding(pos), LsbBits(|data|, 16) + (LsbBits(65535 - |data|, 16) + EncodeBytes(data)));
  }

  lemma StoredComplete(src: seq<byte>, pos: nat, out: seq<byte>, cap: nat, pad: seq<bit>, data: seq<byte>)
    requires |out| <= cap && |data| <= 65535 && |pad| == Padding(pos)
    requires At(src, pos, pad + (LsbBits(|data|, 16) + (LsbBits(65535 - |data|, 16) + EncodeBytes(data))))
    ensures var e := pad + (LsbBits(|data|, 16) + (LsbBits(65535 - |data|, 16) + EncodeBytes(data)));
            var r := StoredBlock(src, pos, out, cap);
            if |out + data| <= cap then r == Outcome(TinfOk, pos + |e|, out + data) else r.status == BufError
  {
    hide At, LsbBits, EncodeBytes, Le16, Padding;
    var start := (pos + 7) / 8;
    Boundary(pos);
    AtStored(src, start, data);
    AtConcat(src, pos, pad, LsbBits(|data|, 16) + (LsbBits(65535 - |data|, 16) + EncodeBytes(data)));
  }

  // ----------------------------------------------------------------------- blocks, streams

  /** The bits of a block after its three header bits. */
  ghost function BodyBits(b: Block, pos: nat): seq<bit>
    requires ValidBlock(b, pos)
  {
    match b
    case Stored(pad, data) =>
      pad + (LsbBits(|data|, 16) + (LsbBits(65535 - |data|, 16) + EncodeBytes(data)))
    case Fixed(ts) => EncodeTokens(ts, FixedLit(), FixedDist())
    case Dynamic(h, ts) => EncodeHeader(h) + EncodeTokens(ts, LitLengths(h), DistLengths(h))
  }

  lemma AtBlock(src: seq<byte>, pos: nat, b: Block, last: bool)
    requires ValidBlock(b, pos)
    ensures |EncodeBlock(b, last, pos)| == 3 + |BodyBits(b, pos)|
    ensures At(src, pos, EncodeBlock(b, last, pos)) <==>
            (ReadLsb(src, pos, 1) == 1 <==> last) && ReadLsb(src, pos + 1, 2) == BlockType(b) &&
            At(src, pos + 3, BodyBits(b, pos))
  {
    hide At, LsbBits, ReadLsb, ValidBlock, BodyBits, EncodeBlock;
    var flag: bit := if last then 1 else 0;
    EncodeBlockParts(b, last, pos);
    AtConcat(src, pos, [flag], LsbBits(BlockType(b), 2) + BodyBits(b, pos));
    AtConcat(src, pos + 1, LsbBits(BlockType(b), 2), BodyBits(b, pos));
    AtOne(src, pos, flag);
    ReadOne(src, pos);
    Pow2Small();
    AtLsb(src, pos + 1, BlockType(b), 2);
    if At(src, pos + 3, BodyBits(b, pos)) {
      AtInside(src, pos + 3, BodyBits(b, pos));
    }
  }

  lemma EncodeBlockParts(b: Block, last: bool, pos: nat)
    requires ValidBlock(b, pos)
    ensures EncodeBlock(b, last, pos) == [if last then 1 else 0] + (LsbBits(BlockType(b), 2) + BodyBits(b, pos))
  {
    hide LsbBits, EncodeBytes, EncodeTokens, EncodeHeader, ValidHeader, ValidTokens;
  }

  lemma ReadOne(src: seq<byte>, pos: nat)
    ensures ReadLsb(src, pos, 1) == Bit(src, pos)
  {
    assert ReadLsb(src, pos + 1, 0) == 0;
  }

  lemma FixedRealizes()
    ensures Realizes(Code(FixedLit(), 285), FixedLit(), 285) && Usable(Code(FixedLit(), 285))
    ensures Realizes(Code(FixedDist(), 29), FixedDist(), 29) && Usable(Code(FixedDist(), 29))
    ensures |FixedLit()| > 256 && FixedLit()[256] > 0
  {
    FixedLitComplete();
    FixedDistComplete();
  }

  lemma BodyFixed(src: seq<byte>, pos: nat, out: seq<byte>, cap: nat)
    requires |out| <= cap
    ensures Usable(Code(FixedLit(), 285)) && Usable(Code(FixedDist(), 29))
    ensures BlockBody(1, src, pos, out, cap) ==
            BlockData(Code(FixedLit(), 285), Code(FixedDist(), 29), src, pos, out, cap)
  {
    hide Complete, FixedLit, FixedDist, BlockData;
    FixedRealizes();
  }

  lemma BodyDynamic(src: seq<byte>, pos: nat, out: seq<byte>, cap: nat)
    requires |out| <= cap
    ensures BlockBody(2, src, pos, out, cap) ==
            var c := DynamicCodes(src, pos);
            if c.Malformed? then Outcome(DataError, pos, out) else BlockData(c.lit, c.dist, src, c.pos, out, cap)
  {
    hide Complete, FixedLit, FixedDist, BlockData, DynamicCodes, Usable;
  }

  lemma HeaderRealizes(h: Header)
    requires ValidHeader(h)
    ensures Realizes(CodeOf(LitLengths(h)), LitLengths(h), 285) && Realizes(CodeOf(DistLengths(h)), DistLengths(h), 29)
    ensures Usable(CodeOf(LitLengths(h))) && Usable(CodeOf(DistLengths(h)))
    ensures CodeOf(LitLengths(h)).max >= 256
    ensures |LitLengths(h)| > 256 && LitLengths(h)[256] > 0
  {
    hide CodeOf, Complete, Usable;
    CodeOfMax(LitLengths(h));
    CodeOfMax(DistLengths(h));
    AboveMaxSym(LitLengths(h), 256);
  }

  /** A block body that the decoder accepts is an encoded block. */
  lemma BodySound(kind: nat, src: seq<byte>, pos: nat, out: seq<byte>, cap: nat) returns (b: Block)
    requires |out| <= cap && pos >= 3 && BlockBody(kind, src, pos, out, cap).status == TinfOk
    ensures BlockType(b) == kind && ValidBlock(b, pos - 3) && At(src, pos, BodyBits(b, pos - 3))
    ensures BlockBody(kind, src, pos, out, cap).pos == pos + |BodyBits(b, pos - 3)|
    ensures BlockMeaning(b, pos - 3, out) == Some(BlockBody(kind, src, pos, out, cap).out)
  {
    if kind == 0 {
      b := StoredBodySound(src, pos, out, cap);
    } else if kind == 1 {
      b := FixedBodySound(src, pos, out, cap);
    } else {
      b := DynamicBodySound(src, pos, out, cap);
    }
  }

  lemma StoredBodySound(src: seq<byte>, pos: nat, out: seq<byte>, cap: nat) returns (b: Block)
    requires |out| <= cap && pos >= 3 && BlockBody(0, src, pos, out, cap).status == TinfOk
    ensures b.Stored? && ValidBlock(b, pos - 3) && At(src, pos, BodyBits(b, pos - 3))
    ensures BlockBody(0, src, pos, out, cap).pos == pos + |BodyBits(b, pos - 3)|
    ensures BlockMeaning(b, pos - 3, out) == Some(BlockBody(0, src, pos, out, cap).out)
  {
    hide At, LsbBits, EncodeBytes, StoredBlock, Padding;
    var pad, data := StoredSound(src, pos, out, cap);
    b := Stored(pad, data);
  }

  lemma FixedBodySound(src: seq<byte>, pos: nat, out: seq<byte>, cap: nat) returns (b: Block)
    requires |out| <= cap && pos >= 3 && BlockBody(1, src, pos, out, cap).status == TinfOk
    ensures b.Fixed? && ValidBlock(b, pos - 3) && At(src, pos, BodyBits(b, pos - 3))
    ensures BlockBody(1, src, pos, out, cap).pos == pos + |BodyBits(b, pos - 3)|
    ensures BlockMeaning(b, pos - 3, out) == Some(BlockBody(1, src, pos, out, cap).out)
  {
    hide At, FixedLit, FixedDist, Realizes, Usable, Complete, BlockBody, BlockData, EncodeTokens, ValidTokens, Expand;
    FixedRealizes();
    BodyFixed(src, pos, out, cap);
    var ts := BlockDataSound(Code(FixedLit(), 285), Code(FixedDist(), 29), FixedLit(), FixedDist(), src, pos, out, cap);
    b := Fixed(ts);
  }

  lemma DynamicBodySound(src: seq<byte>, pos: nat, out: seq<byte>, cap: nat) returns (b: Block)
    requires |out| <= cap && pos >= 3 && BlockBody(2, src, pos, out, cap).status == TinfOk
    ensures b.Dynamic? && ValidBlock(b, pos - 3) && At(src, pos, BodyBits(b, pos - 3))
    ensures BlockBody(2, src, pos, out, cap).pos == pos + |BodyBits(b, pos - 3)|
    ensures BlockMeaning(b, pos - 3, out) == Some(BlockBody(2, src, pos, out, cap).out)
  {
    hide At, Realizes, Usable, Complete, BlockBody, BlockData, EncodeTokens, EncodeHeader, ValidTokens, Expand,
      ValidHeader, CodeOf, DynamicCodes, LitLengths, DistLengths;
    BodyDynamic(src, pos, out, cap);
    var c := DynamicCodes(src, pos);
    var h := DynamicSound(src, pos);
    HeaderRealizes(h);
    var ts := BlockDataSound(c.lit, c.dist, LitLengths(h), DistLengths(h), src, c.pos, out, cap);
    AtConcat(src, pos, EncodeHeader(h), EncodeTokens(ts, LitLengths(h), DistLengths(h)));
    b := Dynamic(h, ts);
  }

  /** Every encoded block is accepted, if what it stands for fits. */
  lemma BodyComplete(b: Block, src: seq<byte>, pos: nat, out: seq<byte>, cap: nat)
    requires |out| <= cap && pos >= 3 && ValidBlock(b, pos - 3) && At(src, pos, BodyBits(b, pos - 3))
    requires BlockMeaning(b, pos - 3, out).Some?
    ensures var o := BlockMeaning(b, pos - 3, out).value;
            var r := BlockBody(BlockType(b), src, pos, out, cap);
            |o| >= |out| &&
            if |o| <= cap then r == Outcome(TinfOk, pos + |BodyBits(b, pos - 3)|, o) else r.status == BufError
  {
    match b
    case Stored(pad, data) =>
      hide At, LsbBits, EncodeBytes, StoredBlock, Padding;
      StoredComplete(src, pos, out, cap, pad, data);
    case Fixed(ts) =>
      hide At, FixedLit, FixedDist, Realizes, Usable, Complete, BlockBody, BlockData, EncodeTokens, ValidTokens, Expand;
      FixedRealizes();
      BodyFixed(src, pos, out, cap);
      ExpandGrows(ts, out, FixedLit(), FixedDist());
      BlockDataComplete(Code(FixedLit(), 285), Code(FixedDist(), 29), FixedLit(), FixedDist(), ts, src, pos, out, cap);
    case Dynamic(h, ts) =>
      DynamicBodyComplete(h, ts, src, pos, out, cap);
  }

  lemma DynamicBodyComplete(h: Header, ts: seq<Token>, src: seq<byte>, pos: nat, out: seq<byte>, cap: nat)
    requires |out| <= cap && ValidHeader(h) && ValidTokens(ts, LitLengths(h), DistLengths(h))
    requires At(src, pos, EncodeHeader(h) + EncodeTokens(ts, LitLengths(h), DistLengths(h)))
    requires Expand(ts, out, LitLengths(h), DistLengths(h)).Some?
    ensures var o := Expand(ts, out, LitLengths(h), DistLengths(h)).value;
            var e := EncodeHeader(h) + EncodeTokens(ts, LitLengths(h), DistLengths(h));
            var r := BlockBody(2, src, pos, out, cap);
            |o| >= |out| &&
            if |o| <= cap then r == Outcome(TinfOk, pos + |e|, o) else r.status == BufError
  {
    hide *;
    var ll, dl := LitLengths(h), DistLengths(h);
    HeaderRealizes(h);
    AtConcat(src, pos, EncodeHeader(h), EncodeTokens(ts, ll, dl));
    BodyDynamic(src, pos, out, cap);
    DynamicComplete(src, pos, h);
    ExpandGrows(ts, out, ll, dl);
    BlockDataComplete(CodeOf(ll), CodeOf(dl), ll, dl, ts, src, pos + |EncodeHeader(h)|, out, cap);
  }

  /** Soundness: what the decoder accepts from pos on is a sequence of blocks that stand for its output. */
  lemma {:induction false} StreamSound(src: seq<byte>, pos: nat, out: seq<byte>, cap: nat) returns (blocks: seq<Block>)
    requires |out| <= cap && Stream(src, pos, out, cap).status == TinfOk
    ensures Denotes(src, pos, blocks, out, Stream(src, pos, out, cap).out)
    decreases if pos <= 8 * |src| then 8 * |src| - pos + 1 else 0
  {
    hide At, BlockBody, BodyBits, ValidBlock, EncodeBlock, BlockMeaning, ReadLsb;
    var last := ReadLsb(src, pos, 1) == 1;
    var b := BodySound(ReadLsb(src, pos + 1, 2), src, pos + 3, out, cap);
    AtBlock(src, pos, b, last);
    if last {
      blocks := [b];
    } else {
      var r := BlockBody(ReadLsb(src, pos + 1, 2), src, pos + 3, out, cap);
      var rest := StreamSound(src, r.pos, r.out, cap);
      assert |rest| > 0;
      blocks := [b] + rest;
      assert blocks[1..] == rest;
    }
  }

  /** Completeness: every sequence of blocks that stands for an output that fits is accepted with
      that output, and one whose output does not fit is reported as too long. */
  lemma {:induction false} StreamComplete(src: seq<byte>, pos: nat, blocks: seq<Block>, out: seq<byte>, result: seq<byte>, cap: nat)
    requires |out| <= cap && Denotes(src, pos, blocks, out, result)
    ensures |result| >= |out|
    ensures var r := Stream(src, pos, out, cap);
            if |result| <= cap then r.status == TinfOk && r.out == result else r.status == BufError
    decreases |blocks|
  {
    hide At, BlockBody, BodyBits, ValidBlock, EncodeBlock, BlockMeaning, ReadLsb;
    var b := blocks[0];
    AtBlock(src, pos, b, |blocks| == 1);
    BodyComplete(b, src, pos + 3, out, cap);
    var o := BlockMeaning(b, pos, out).value;
    if |blocks| > 1 {
      if |o| <= cap {
        StreamComplete(src, pos + |EncodeBlock(b, false, pos)|, blocks[1..], o, result, cap);
      } else {
        DenotesGrows(src, pos + |EncodeBlock(b, false, pos)|, blocks[1..], o, result);
      }
    }
  }

  lemma {:induction false} DenotesGrows(src: seq<byte>, pos: nat, blocks: seq<Block>, out: seq<byte>, result: seq<byte>)
    requires Denotes(src, pos, blocks, out, result)
    ensures |result| >= |out|
    decreases |blocks|
  {
    hide At, BlockBody, BodyBits, ValidBlock, EncodeBlock, BlockMeaning, ReadLsb;
    AtBlock(src, pos, blocks[0], |blocks| == 1);
    BodyComplete(blocks[0], src, pos + 3, out, |out|);
    if |blocks| > 1 {
      DenotesGrows(src, pos + |EncodeBlock(blocks[0], false, pos)|, blocks[1..],
                   BlockMeaning(blocks[0], pos, out).value, result);
    }
  }

  /** The decoder accepts exactly the DEFLATE streams whose content fits into cap bytes, and then
      returns that content; it reports a full buffer for every DEFLATE stream whose content is
      larger. */
  lemma InflateInvertsDeflate(src: seq<byte>, cap: nat)
    ensures Stream(src, 0, [], cap).status == TinfOk <==> exists data :: Inflates(src, data) && |data| <= cap
    ensures Stream(src, 0, [], cap).status == TinfOk ==> Inflates(src, Stream(src, 0, [], cap).out)
    ensures forall data :: Inflates(src, data) ==>
              if |data| <= cap then Stream(src, 0, [], cap).out == data
              else Stream(src, 0, [], cap).status == BufError
  {
    hide Stream, Denotes;
    var r := Stream(src, 0, [], cap);
    if r.status == TinfOk {
      var blocks := StreamSound(src, 0, [], cap);
      assert Inflates(src, r.out);
    }
    forall data | Inflates(src, data)
      ensures if |data| <= cap then r.status == TinfOk && r.out == data else r.status == BufError
    {
      var blocks :| Denotes(src, 0, blocks, [], data);
      StreamComplete(src, 0, blocks, [], data, cap);
    }
  }

  /** A stream has one content at most. */
  lemma ContentUnique(src: seq<byte>, a: seq<byte>, b: seq<byte>)
    requires Inflates(src, a) && Inflates(src, b)
    ensures a == b
  {
    hide *;
    InflateInvertsDeflate(src, |a| + |b|);
  }
}
