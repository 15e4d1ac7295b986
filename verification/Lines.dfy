/** Lines of a text. */
module Lines {
  import opened BitStream

  const NEWLINE: byte := 10

  /** The length of the first line. */
  function LineEnd(text: seq<byte>): (n: nat)
    ensures n <= |text| && NEWLINE !in text[..n] && (n < |text| ==> text[n] == NEWLINE)
  {
    if text == [] || text[0] == NEWLINE then 0 else
      var n := 1 + LineEnd(text[1..]);
      assert text[..n] == [text[0]] + text[1..][..n - 1];
      n
  }

  lemma LineEndAppend(text: seq<byte>, c: byte)
    ensures LineEnd(text) < |text| ==> LineEnd(text + [c]) == LineEnd(text)
    ensures LineEnd(text) == |text| ==> LineEnd(text + [c]) == |text| + if c == NEWLINE then 0 else 1
    decreases |text|
  {
    if text != [] && text[0] != NEWLINE {
      assert (text + [c])[1..] == text[1..] + [c];
      LineEndAppend(text[1..], c);
    }
  }

  /** The lines of a text, without their newlines. */
  function LinesOf(text: seq<byte>): (lines: seq<seq<byte>>)
    ensures forall i | 0 <= i < |lines| :: NEWLINE !in lines[i]
  {
    if text == [] then [] else
      var n := LineEnd(text);
      [text[..n]] + if n < |text| then LinesOf(text[n + 1..]) else []
  }

  /** Lines with a newline after each. */
  function Joined(lines: seq<seq<byte>>): seq<byte> {
    if lines == [] then [] else lines[0] + [NEWLINE] + Joined(lines[1..])
  }

  predicate Terminated(text: seq<byte>) {
    text == [] || text[|text| - 1] == NEWLINE
  }

  /** A text that ends in a newline is its lines. */
  lemma {:induction false} JoinedLines(text: seq<byte>)
    ensures Terminated(text) <==> Joined(LinesOf(text)) == text
    decreases |text|
  {
    if text != [] {
      var n := LineEnd(text);
      if n < |text| {
        assert text == text[..n] + [NEWLINE] + text[n + 1..];
        JoinedLines(text[n + 1..]);
        assert LinesOf(text)[1..] == LinesOf(text[n + 1..]);
      } else {
        assert LinesOf(text)[1..] == [];
      }
    }
  }

  /** Lines are determined by the text. */
  lemma {:induction false} LinesOfJoined(lines: seq<seq<byte>>)
    requires forall i | 0 <= i < |lines| :: NEWLINE !in lines[i]
    ensures LinesOf(Joined(lines)) == lines
  {
    if lines != [] {
      var text := Joined(lines);
      FirstLine(lines[0], Joined(lines[1..]));
      assert text[|lines[0]| + 1..] == Joined(lines[1..]) && text[..|lines[0]|] == lines[0];
      assert text != [] && LineEnd(text) == |lines[0]|;
      LinesOfJoined(lines[1..]);
    }
  }

  lemma {:induction false} FirstLine(line: seq<byte>, rest: seq<byte>)
    requires NEWLINE !in line
    ensures LineEnd(line + [NEWLINE] + rest) == |line|
  {
    var text := line + [NEWLINE] + rest;
    if line != [] {
      assert text[1..] == line[1..] + [NEWLINE] + rest;
      FirstLine(line[1..], rest);
    }
  }

  /** A newline further on does not matter. */
  lemma {:induction false} LineEndPrefix(text: seq<byte>, more: seq<byte>)
    ensures LineEnd(text) < |text| ==> LineEnd(text + more) == LineEnd(text)
    ensures LineEnd(text) == |text| ==> LineEnd(text + more) == |text| + LineEnd(more)
  {
    if text != [] && text[0] != NEWLINE {
      assert (text + more)[1..] == text[1..] + more;
      LineEndPrefix(text[1..], more);
    } else if text == [] {
      assert text + more == more;
    }
  }
}
