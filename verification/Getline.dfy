/** getline of libc/stdio: lines out of a buffer that grows while no newline is in it. */
module Getline {
  import opened BitStream
  import opened Lines

  /** How many bytes a read of count bytes gives. */
  function Given(count: nat, left: nat, answers: seq<nat>): (bytes: nat)
    requires count > 0
    ensures bytes <= count && bytes <= left && (bytes == 0 <==> left == 0)
  {
    var most := if answers == [] then count else if answers[0] == 0 then 1 else answers[0];
    if left < count then (if left < most then left else most) else if count < most then count else most
  }

  function Later(answers: seq<nat>): seq<nat> {
    if answers == [] then [] else answers[1..]
  }

  /** The pattern of k reads of one byte each, before reads that are not cut short. */
  function Ones(k: nat): (r: seq<nat>)
    ensures |r| == k
  {
    seq(k, i => 1)
  }

  lemma OnesLater(k: nat, count: nat, left: nat)
    requires count > 0
    ensures k > 0 ==> Later(Ones(k)) == Ones(k - 1) && Given(count, left, Ones(k)) == if left == 0 then 0 else 1
    ensures k == 0 ==> Later(Ones(k)) == Ones(k) && Given(count, left, Ones(k)) == if left < count then left else count
  {
  }

  function Max(a: nat, b: nat): nat {
    if a < b then b else a
  }

  /** A FILE, and what is left of the file it reads. */
  class LineReader {
    var buf: array?<byte>
    var size: nat
    var index: int
    var unread: seq<byte>
    var answers: seq<nat>               // how many bytes the next reads give, at most

    /** The characters in the buffer end in a NUL inside the buffer. */
    ghost predicate Valid()
      reads this, buf
    {
      0 !in unread &&
      if buf == null then index == 0
      else
        size == buf.Length >= 512 && -1 <= index < size && (index == -1 ==> unread == []) &&
        (index > 0 ==> buf[index] == 0 && 0 !in buf[..index])
    }

    /** What has been read from the file, but not handed out yet. */
    ghost function Buffered(): seq<byte>
      reads this, buf
    {
      if buf == null || index <= 0 || index > buf.Length then [] else buf[..index]
    }

    ghost function Pending(): seq<byte>
      reads this, buf
    {
      Buffered() + unread
    }

    /** The size of the buffer, also before it is there. */
    ghost function Capacity(): (n: nat)
      reads this
    {
      if buf == null then 512 else size
    }

    /** fopen, for a file that is read in the given pattern. */
    constructor (file: seq<byte>, pattern: seq<nat>)
      requires 0 !in file
      ensures Valid() && Pending() == file && Buffered() == [] && buf == null && answers == pattern && unread == file
    {
      buf, size, index, unread, answers := null, 0, 0, file, pattern;
    }

    /** read: some of the next count bytes, none only at the end of the file. */
    method Read(at: nat, count: nat) returns (bytes: nat)
      requires 0 < count && buf != null && at + count <= buf.Length
      modifies this`unread, this`answers, buf
      ensures bytes == Given(count, |old(unread)|, old(answers)) && answers == Later(old(answers))
      ensures unread == old(unread)[bytes..] && buf[..at + bytes] == old(buf[..at]) + old(unread)[..bytes]
    {
      bytes := Given(count, |unread|, answers);
      answers := Later(answers);
      for i := 0 to bytes
        invariant unread == old(unread) && answers == Later(old(answers))
        invariant forall k | 0 <= k < at :: buf[k] == old(buf[k])
        invariant forall k | 0 <= k < i :: buf[at + k] == unread[k]
      {
        buf[at + i] := unread[i];
      }
      assert forall k | at <= k < at + bytes :: buf[k] == buf[at + (k - at)];
      unread := unread[bytes..];
    }

    /** strchr for a newline, up to the NUL. */
    method FindNewline() returns (found: bool, pos: nat)
      requires Valid() && buf != null && index > 0
      ensures pos == LineEnd(Buffered()) <= index && (found <==> pos < index)
    {
      pos := 0;
      ghost var text := buf[..index];
      LineEndHere(text, 0);
      while buf[pos] != 0 && buf[pos] != NEWLINE
        invariant pos <= index && LineEnd(text) == pos + LineEnd(text[pos..])
        decreases index - pos
      {
        assert buf[pos] == text[pos];
        LineEndHere(text, pos);
        pos := pos + 1;
      }
      LineEndHere(text, pos);
      found := buf[pos] == NEWLINE;
    }

    /** realloc, if less than 512 bytes are left. */
    method Grow()
      requires Valid() && buf != null && index > 0
      modifies this`buf, this`size
      ensures Valid() && buf != null && index + 512 <= size && (buf == old(buf) || fresh(buf))
      ensures buf[..index] == old(buf[..index]) && size == Max(old(size), index + 512)
    {
      if index + 512 > size {
        var n: nat, src := index + 512, buf;
        var larger := new byte[n];
        for i := 0 to index + 1
          invariant buf == src && size == src.Length && forall k | 0 <= k < i :: larger[k] == src[k]
        {
          larger[i] := src[i];
        }
        assert larger[..index] == src[..index];
        buf := larger;
        size := index + 512;
      }
    }

    /** The first reads of getline, if nothing is buffered. ok is false at the end of the file. */
    method Fill() returns (ok: bool, total: nat)
      requires Valid()
      modifies this, buf
      ensures Valid() && Pending() == old(Pending()) && (ok <==> Pending() != [])
      ensures ok ==> buf != null && index > 0
      ensures ok ==> (total > 0 <==> old(Buffered()) == [])
      ensures total > 0 ==> old(unread) != []
      ensures ok ==> (total == 0 ==> unread == old(unread) && Buffered() == old(Buffered()) && answers == old(answers))
      ensures Capacity() == old(Capacity()) && |unread| <= |old(unread)|
      ensures old(Buffered()) == [] ==> |unread| == |old(unread)| - Given(old(Capacity()) - 1, |old(unread)|, old(answers))
      ensures old(Buffered()) == [] ==> answers == Later(old(answers))
      ensures buf == old(buf) || fresh(buf)
    {
      hide Given, Later;
      total := 0;
      if buf == null {
        size := 512;
        buf := new byte[512];
        total := ReadFront(511);
        if total == 0 {
          return false, 0;
        }
      }
      if index <= 0 {
        total := ReadFront(size - 1);
        if total == 0 {
          return false, 0;
        }
      }
      ok := true;
    }

    /** A read into an empty buffer. */
    method ReadFront(count: nat) returns (bytes: nat)
      requires 0 !in unread && buf != null && size == buf.Length >= 512 && 0 < count < size
      requires index == 0 || (index == -1 && unread == [])
      modifies this`index, this`unread, this`answers, buf
      ensures Valid() && bytes == Given(count, |old(unread)|, old(answers)) && answers == Later(old(answers))
      ensures bytes == 0 ==> old(unread) == [] && unread == [] && Buffered() == []
      ensures bytes > 0 ==> index > 0 && Pending() == old(unread) && |unread| == |old(unread)| - bytes
    {
      hide Given, Later;
      bytes := Read(0, count);
      if bytes != 0 {
        index := index + bytes;
        buf[bytes] := 0;
        assert buf[..bytes] == old(unread)[..bytes];
      }
    }

    /** The body of getline's loop: more of the file goes behind what is buffered. */
    method ReadMore() returns (bytes: nat)
      requires Valid() && buf != null && index > 0
      modifies this, buf
      ensures Valid() && buf != null && index > 0 && Pending() == old(Pending()) && (buf == old(buf) || fresh(buf))
      ensures bytes == 0 ==> old(unread) == [] && unread == [] && Buffered() == old(Buffered())
      ensures bytes == |old(unread)| - |unread| == Given(511, |old(unread)|, old(answers)) && answers == Later(old(answers))
      ensures size == Max(old(size), old(index) + 512) && index == old(index) + bytes
    {
      hide Given, Later;
      Grow();
      bytes := Read(index, 511);
      buf[index + bytes] := 0;
      index := index + bytes;
    }

    /** getline. The first line of what is pending is handed out. At the end of a file whose last line
        has no newline, that line is handed out only if some of it has not been buffered before. */
    method GetLine() returns (linesize: int, line: seq<byte>)
      requires Valid()
      modifies this, buf
      ensures Valid() && (buf == old(buf) || fresh(buf))
      ensures var text := old(Pending());
              var n := LineEnd(text);
              if text == [] then linesize == -1 && Pending() == []
              else if n < |text| then linesize == n && line == text[..n] && Pending() == text[n + 1..]
              else if old(unread) != [] then linesize == n && line == text && Pending() == []
              else linesize == -1 && Pending() == text && unread == []
      ensures Called(old(Pending()), old(Buffered()) == [], old(Capacity()), old(unread), old(answers), Buffered() == [], Capacity(), unread, answers)
    {
      hide *;
      ghost var text, empty0, c0, unread0, answers0 := Pending(), Buffered() == [], Capacity(), unread, answers;
      Bounds();
      line := [];
      var ok, total := Fill();
      if !ok {
        NothingCalled(text, empty0, c0, unread0, answers0, Buffered() == [], Capacity(), unread, answers);
        return -1, [];
      }
      Bounds();
      ghost var index1, unread1, answers1 := index, unread, answers;
      ghost var index2;
      linesize, line, index2 := HandOut(total);
      Bounds();
      CallDone(text, empty0, c0, unread0, answers0, index1, unread1, answers1, index2, Buffered() == [], Capacity(), unread, answers);
    }

    lemma Bounds()
      requires Valid()
      ensures Capacity() >= 512 && (buf != null ==> Capacity() == size) && Pending() == Buffered() + unread
      ensures buf != null && index > 0 ==> |Buffered()| == index && |Pending()| == index + |unread|
      ensures Buffered() == [] ==> Pending() == unread
    {
    }

    /** The rest of getline, once something is in the buffer. at is where the buffer ended before the
        line was taken out. */
    method HandOut(total0: nat) returns (linesize: int, line: seq<byte>, ghost at: int)
      requires Valid() && buf != null && index > 0
      modifies this, buf
      ensures Valid() && buf != null && (buf == old(buf) || fresh(buf))
      ensures var text := old(Pending());
              var n := LineEnd(text);
              text != [] &&
              if n < |text| then linesize == n && line == text[..n] && Pending() == text[n + 1..] && (at == n + 1 ==> Buffered() == [])
              else if total0 > 0 || old(unread) != [] then linesize == n && line == text && Pending() == []
              else linesize == -1 && Pending() == text && unread == []
      ensures Searched(old(Pending()), old(index), old(size), old(unread), old(answers), at, size, unread, answers)
      ensures |unread| <= |old(unread)|
    {
      hide LineEnd, Buffered, Searched, Valid;
      ghost var text := Pending();
      var total, pos, hasRead := FindLine(total0);
      at := index;
      Bounds();
      WholeLine(Buffered(), unread);
      if total == 0 && hasRead {
        assert Pending() == Buffered();
        return -1, [], at;
      }
      Front(pos);
      linesize := pos;
      line := buf[..pos];
      Shift(pos);
    }

    lemma Front(pos: nat)
      requires Valid() && buf != null && 0 < index && pos <= index
      ensures pos <= buf.Length && pos <= |Pending()| && buf[..pos] == Pending()[..pos]
    {
    }

    lemma NoBuffer()
      ensures buf == null ==> Capacity() == 512
    {
    }

    /** The loop of getline: until there is a newline in the buffer, or the file has ended. */
    method FindLine(total0: nat) returns (total: nat, pos: nat, hasRead: bool)
      requires Valid() && buf != null && index > 0
      modifies this, buf
      ensures Valid() && buf != null && index > 0 && Pending() == old(Pending()) && (buf == old(buf) || fresh(buf))
      ensures pos == LineEnd(Buffered()) <= |Buffered()| == index && (pos == index ==> unread == [] && hasRead)
      ensures total == total0 + |old(unread)| - |unread| && (!hasRead ==> total == total0)
      ensures |unread| <= |old(unread)| && (hasRead && total == total0 ==> pos == index)
      ensures Searched(old(Pending()), old(index), old(size), old(unread), old(answers), index, size, unread, answers)
    {
      hide LineEnd, Buffered, Given, Later, Ones, Max, Searching, Searched, Valid;
      Bounds();
      total, hasRead := total0, false;
      ghost var text, n, i0, size0, unread0, answers0 := Pending(), LineEnd(Pending()), index, size, unread, answers;
      var found;
      found, pos := FindNewline();
      Bounds();
      SearchStarts(text, i0, size0, unread0, answers0);
      WholeLine(Buffered(), unread);
      while !found
        invariant Valid() && buf != null && index > 0 && Pending() == old(Pending()) && (buf == old(buf) || fresh(buf))
        invariant pos == LineEnd(Buffered()) <= |Buffered()| == index && (found <==> pos < index)
        invariant total == total0 + |old(unread)| - |unread| && |unread| <= |old(unread)| && (if hasRead then total > total0 else total == total0)
        invariant Searching(text, i0, size0, unread0, answers0, index, size, unread, answers)
        invariant index + |unread| == |text| && (found ==> pos == n) && (!found ==> index <= n)
        decreases |unread|
      {
        hasRead := true;
        ghost var i1, size1, unread1, answers1 := index, size, unread, answers;
        var bytes := ReadMore();
        total := total + bytes;
        Bounds();
        SearchOn(text, i0, size0, unread0, answers0, i1, size1, unread1, answers1, index, size, unread, answers);
        WholeLine(Buffered(), unread);
        if bytes == 0 {
          pos := index;
          break;
        }
        found, pos := FindNewline();
      }
      SearchEnds(text, i0, size0, unread0, answers0, index, size, unread, answers);
    }

    /** memmove of what lies behind the line to the beginning. */
    method Shift(pos: nat)
      requires Valid() && buf != null && 0 < index && pos <= index && (pos == index ==> unread == [])
      modifies this`index, buf
      ensures Valid() && Pending() == (if pos == old(index) then [] else old(Pending())[pos + 1..])
      ensures index == old(index) - (pos + 1) && (index <= 0 ==> Buffered() == [])
    {
      for i := 0 to size - pos - 1
        invariant index == old(index)
        invariant forall k | 0 <= k < i :: buf[k] == old(buf[k + pos + 1])
        invariant forall k | i <= k < size :: buf[k] == old(buf[k])
      {
        buf[i] := buf[i + pos + 1];
      }
      index := index - (pos + 1);
      if index >= 0 {
        assert buf[..index] == old(buf[..index])[pos + 1..];
      }
    }

    /** Calling getline until it returns -1 gives all lines of a file, however the reads are cut, if it
        is one of those that Kept describes; of another file the last line is left in the buffer if the
        reads are cut at the worst place. */
    method ReadAll() returns (lines: seq<seq<byte>>)
      requires Valid()
      modifies this, buf
      ensures Valid() && LinesOf(old(Pending())) == lines + LinesOf(Pending()) && LineEnd(Pending()) == |Pending()|
      ensures Pending() != [] ==> unread == []
      ensures old(Buffered()) == [] && Kept(old(Pending()), old(Capacity())) ==>
                lines == LinesOf(old(Pending())) && Pending() == []
      ensures Terminated(old(Pending())) ==> lines == LinesOf(old(Pending())) && Joined(lines) == old(Pending()) && Pending() == []
      ensures old(Buffered()) == [] && !Kept(old(Pending()), old(Capacity())) && old(answers) == Ones(LosingPoint(old(Pending()), old(Capacity()))) ==>
                Pending() != []
    {
      hide Valid, LineEnd, LinesOf, Joined, Buffered, Called, Keeping, Losing, Kept, Ones, Max, LosingPoint, Terminated;
      ghost var text, c0 := Pending(), Capacity();
      ghost var good := Buffered() == [] && Kept(text, c0);
      ghost var bad := Buffered() == [] && !Kept(text, c0) && answers == Ones(LosingPoint(text, c0));
      lines := [];
      JoinedLines(text);
      LinesOfEmpty();
      Bounds();
      StartsWell(text, c0, unread, answers, Buffered() == []);
      while true
        invariant Valid() && (Terminated(text) ==> Terminated(Pending())) && (buf == old(buf) || fresh(buf))
        invariant LinesOf(text) == lines + LinesOf(Pending())
        invariant good ==> Keeping(Pending(), Capacity(), unread)
        invariant bad ==> Losing(Pending(), Capacity(), unread, answers, Buffered() == [])
        decreases |Pending()|
      {
        ghost var before, c1, unread1, answers1, empty1 := Pending(), Capacity(), unread, answers, Buffered() == [];
        Bounds();
        FirstOf(before);
        var linesize, line := GetLine();
        Bounds();
        GoesOn(before, Pending(), empty1, c1, unread1, answers1, Buffered() == [], Capacity(), unread, answers);
        if linesize == -1 {
          break;
        }
        lines := lines + [line];
      }
      EndsWell(Pending(), Capacity(), unread, answers, Buffered() == []);
    }
  }

  /** No pattern of reads can leave the last line in the buffer, while it is c bytes large. A read that
      reaches the end of the file begins inside the last line, because no read that begins before it
      can be long enough: one that begins a line gives at most c - 1 bytes, another one 511. */
  predicate Kept(text: seq<byte>, c: nat) {
    Terminated(text) || KeptAll(text, c)
  }

  /** The same, for a text whose last line is not empty. */
  predicate KeptAll(text: seq<byte>, c: nat)
    decreases |text|
  {
    var n := LineEnd(text);
    n < |text| ==> |text| >= c && |text| - n > 511 && KeptAll(text[n + 1..], Max(c, n + 512))
  }

  /** How many bytes must be read one at a time before a read that is not cut short takes the rest of
      the file while a line before the last one is being read. */
  function LosingPoint(text: seq<byte>, c: nat): nat
    decreases |text|
  {
    var n := LineEnd(text);
    if n == |text| || |text| < c then 0 else if |text| - n <= 511 then n else n + 1 + LosingPoint(text[n + 1..], Max(c, n + 512))
  }

  /** A file of less than 512 bytes with a newline, but not at the end, such as a, newline, b. */
  lemma ShortFile(file: seq<byte>)
    requires |file| < 512 && !Terminated(file) && NEWLINE in file
    ensures !Kept(file, 512) && LosingPoint(file, 512) == 0
    ensures !Terminated([97, 10, 98]) && NEWLINE in [97, 10, 98]
  {
    var n := LineEnd(file);
    assert file[..|file|] == file;
    assert [97, 10, 98][1] == NEWLINE;
  }

  /** Between two calls: the last line will be handed out. */
  ghost predicate Keeping(text: seq<byte>, c: nat, unread: seq<byte>) {
    text == [] || Terminated(text) || (unread != [] && KeptAll(text, c))
  }

  /** Between two calls: the last line is in the buffer already, or will be too early. */
  ghost predicate Losing(text: seq<byte>, c: nat, unread: seq<byte>, answers: seq<nat>, empty: bool) {
    text != [] && !Terminated(text) && (unread == [] || (empty && !KeptAll(text, c) && answers == Ones(LosingPoint(text, c))))
  }

  lemma StartsWell(text: seq<byte>, c: nat, unread: seq<byte>, answers: seq<nat>, empty: bool)
    requires empty ==> unread == text
    ensures empty && Kept(text, c) ==> Keeping(text, c, unread)
    ensures empty && !Kept(text, c) && answers == Ones(LosingPoint(text, c)) ==> Losing(text, c, unread, answers, empty)
  {
  }

  lemma {:induction false} KeptSmaller(text: seq<byte>, c: nat, c': nat)
    requires KeptAll(text, c) && c' <= c
    ensures KeptAll(text, c')
    decreases |text|
  {
    var n := LineEnd(text);
    if n < |text| {
      KeptSmaller(text[n + 1..], Max(c, n + 512), Max(c', n + 512));
    }
  }

  /** A call of getline; rest is what is pending after it. */
  lemma GoesOn(text: seq<byte>, rest: seq<byte>, empty0: bool, c0: nat, unread0: seq<byte>, answers0: seq<nat>,
               empty: bool, c: nat, unread: seq<byte>, answers: seq<nat>)
    requires Called(text, empty0, c0, unread0, answers0, empty, c, unread, answers) && c0 >= 512
    requires if LineEnd(text) < |text| then rest == text[LineEnd(text) + 1..]
             else if unread0 != [] || text == [] then rest == [] else rest == text && unread == []
    ensures Keeping(text, c0, unread0) ==> Keeping(rest, c, unread)
    ensures Losing(text, c0, unread0, answers0, empty0) ==> Losing(rest, c, unread, answers, empty)
  {
    hide *;
    KeepsOn(text, rest, empty0, c0, unread0, answers0, empty, c, unread, answers);
    LosesOn(text, rest, empty0, c0, unread0, answers0, empty, c, unread, answers);
  }

  lemma KeepsOn(text: seq<byte>, rest: seq<byte>, empty0: bool, c0: nat, unread0: seq<byte>, answers0: seq<nat>,
                empty: bool, c: nat, unread: seq<byte>, answers: seq<nat>)
    requires Called(text, empty0, c0, unread0, answers0, empty, c, unread, answers) && c0 >= 512
    requires if LineEnd(text) < |text| then rest == text[LineEnd(text) + 1..] else unread0 != [] || text == [] ==> rest == []
    ensures Keeping(text, c0, unread0) ==> Keeping(rest, c, unread)
  {
    var n := LineEnd(text);
    RestTerminated(text, n);
    CalledUse(text, empty0, c0, unread0, answers0, empty, c, unread, answers);
    KeptUse(text, c0);
    hide LineEnd, Called, KeptAll, Terminated, Max;
    if n < |text| && KeptAll(text, c0) {
      KeptSmaller(rest, Max(c0, n + 512), c);
    }
  }

  lemma CalledUse(text: seq<byte>, empty0: bool, c0: nat, unread0: seq<byte>, answers0: seq<nat>,
                  empty: bool, c: nat, unread: seq<byte>, answers: seq<nat>)
    requires Called(text, empty0, c0, unread0, answers0, empty, c, unread, answers)
    ensures LineEnd(text) < |text| ==> c <= Max(c0, LineEnd(text) + 512)
    ensures LineEnd(text) < |text| && unread == [] && unread0 != [] ==> |text| < c0 || |text| - LineEnd(text) <= 511
  {
    hide LineEnd, Ones;
  }

  lemma KeptUse(text: seq<byte>, c: nat)
    ensures KeptAll(text, c) && LineEnd(text) < |text| ==>
              |text| >= c && |text| - LineEnd(text) > 511 && KeptAll(text[LineEnd(text) + 1..], Max(c, LineEnd(text) + 512))
  {
    hide LineEnd;
  }

  lemma LosesOn(text: seq<byte>, rest: seq<byte>, empty0: bool, c0: nat, unread0: seq<byte>, answers0: seq<nat>,
                empty: bool, c: nat, unread: seq<byte>, answers: seq<nat>)
    requires Called(text, empty0, c0, unread0, answers0, empty, c, unread, answers) && c0 >= 512
    requires LineEnd(text) < |text| ==> rest == text[LineEnd(text) + 1..]
    requires LineEnd(text) == |text| && text != [] && unread0 == [] ==> rest == text && unread == []
    ensures Losing(text, c0, unread0, answers0, empty0) ==> Losing(rest, c, unread, answers, empty)
  {
    var n := LineEnd(text);
    hide LineEnd, Ones, Terminated;
    if n < |text| {
      RestUnterminated(text, n);
    }
  }

  lemma RestUnterminated(text: seq<byte>, n: nat)
    requires n < |text| && text[n] == NEWLINE
    ensures !Terminated(text) ==> text[n + 1..] != [] && !Terminated(text[n + 1..])
  {
  }

  lemma EndsWell(text: seq<byte>, c: nat, unread: seq<byte>, answers: seq<nat>, empty: bool)
    requires LineEnd(text) == |text| && (text != [] ==> unread == [])
    ensures Keeping(text, c, unread) ==> text == []
    ensures Losing(text, c, unread, answers, empty) ==> text != []
  {
    RestTerminated(text, LineEnd(text));
  }

  /** Opening a file and calling getline until it returns -1. All lines are returned, but perhaps for
      the last; of the files that Kept describes the last too, whatever the pattern of reads; and of no
      other file, if the reads are cut as LosingPoint says. */
  method ReadFile(file: seq<byte>, pattern: seq<nat>) returns (lines: seq<seq<byte>>)
    requires 0 !in file
    ensures lines == LinesOf(file) || (LinesOf(file) != [] && lines == LinesOf(file)[..|LinesOf(file)| - 1])
    ensures Kept(file, 512) ==> lines == LinesOf(file)
    ensures !Kept(file, 512) && pattern == Ones(LosingPoint(file, 512)) ==> |lines| == |LinesOf(file)| - 1
  {
    hide *;
    var reader := new LineReader(file, pattern);
    reader.NoBuffer();
    lines := reader.ReadAll();
    FirstOf(reader.Pending());
    LinesOfEmpty();
    ghost var last := LinesOf(reader.Pending());
    assert |last| <= 1 && lines == LinesOf(file)[..|LinesOf(file)| - |last|];
  }

  /** Where a search of getline's loop for the end of text's first line stands, that began with i0
      characters in the buffer: how large the buffer has become, and what has been read; more exactly if
      one byte is read at a time. */
  ghost predicate Searching(text: seq<byte>, i0: int, size0: nat, unread0: seq<byte>, answers0: seq<nat>,
                            i: int, size: nat, unread: seq<byte>, answers: seq<nat>) {
    var n, k := LineEnd(text), |answers0|;
    size0 <= size <= Max(size0, n + 512) && i0 <= i && |unread| <= |unread0| &&
    (unread == [] && unread0 != [] ==> |text| - n <= 511) &&
    (n < i0 ==> i == i0 && size == size0 && answers == answers0) &&
    (i0 == 1 && answers0 == Ones(k) && n < |text| && k >= n ==>
       i <= n + 1 && answers == Ones(k - (i - 1)) && size == if i > 1 then Max(size0, i - 1 + 512) else size0) &&
    (i0 == 1 && answers0 == Ones(k) && n < |text| && k == n - 1 && |text| - n <= 511 ==>
       (i <= n && answers == Ones(k - (i - 1))) || unread == [])
  }

  /** What holds when the first line of text has been found, or the file has ended. */
  ghost predicate Searched(text: seq<byte>, i0: int, size0: nat, unread0: seq<byte>, answers0: seq<nat>,
                           i: int, size: nat, unread: seq<byte>, answers: seq<nat>) {
    var n, k := LineEnd(text), |answers0|;
    size <= Max(size0, n + 512) && (unread == [] && unread0 != [] ==> |text| - n <= 511) &&
    (i0 == 1 && answers0 == Ones(k) && n < |text| && k >= n ==>
       i == n + 1 && answers == Ones(k - n) && (n == 0 ==> size == size0) && (n > 0 ==> size == Max(size0, n + 512))) &&
    (i0 == 1 && answers0 == Ones(k) && 1 <= n < |text| && k == n - 1 && |text| - n <= 511 ==> unread == [])
  }

  /** What a call of getline does to the buffer's size and the rest of the file, if text, pending before
      the call, has a newline. empty tells that nothing is buffered. */
  ghost predicate Called(text: seq<byte>, empty0: bool, c0: nat, unread0: seq<byte>, answers0: seq<nat>,
                         empty: bool, c: nat, unread: seq<byte>, answers: seq<nat>) {
    var n, k := LineEnd(text), |answers0|;
    n < |text| ==>
      c <= Max(c0, n + 512) && (unread0 == [] ==> unread == []) &&
      (unread == [] && unread0 != [] ==> (empty0 && |text| < c0) || |text| - n <= 511) &&
      (empty0 && answers0 == Ones(k) ==>
         (k > n ==> empty && answers == Ones(k - (n + 1)) && c == Max(c0, n + 512)) &&
         (k == 0 && |text| < c0 ==> unread == []) &&
         (k == n >= 1 && |text| - n <= 511 ==> unread == []))
  }

  lemma NothingCalled(text: seq<byte>, empty0: bool, c0: nat, unread0: seq<byte>, answers0: seq<nat>,
                      empty: bool, c: nat, unread: seq<byte>, answers: seq<nat>)
    requires text == []
    ensures Called(text, empty0, c0, unread0, answers0, empty, c, unread, answers)
  {
  }

  /** The first read of a call, if nothing is buffered, and the search. */
  lemma CallDone(text: seq<byte>, empty0: bool, c0: nat, unread0: seq<byte>, answers0: seq<nat>,
                 index1: int, unread1: seq<byte>, answers1: seq<nat>, at: int,
                 empty: bool, c: nat, unread: seq<byte>, answers: seq<nat>)
    requires c0 >= 512 && index1 > 0 && |text| == index1 + |unread1| && |unread| <= |unread1| <= |unread0|
    requires if empty0 then unread0 == text && |unread1| == |unread0| - Given(c0 - 1, |unread0|, answers0) && answers1 == Later(answers0)
             else unread1 == unread0 && answers1 == answers0
    requires Searched(text, index1, c0, unread1, answers1, at, c, unread, answers)
    requires LineEnd(text) < |text| && at == LineEnd(text) + 1 ==> empty
    ensures Called(text, empty0, c0, unread0, answers0, empty, c, unread, answers)
  {
    OnesLater(|answers0|, c0 - 1, |unread0|);
    hide LineEnd, Ones, Given, Later;
  }

  lemma SearchStarts(text: seq<byte>, i0: int, size0: nat, unread0: seq<byte>, answers0: seq<nat>)
    requires i0 > 0
    ensures Searching(text, i0, size0, unread0, answers0, i0, size0, unread0, answers0)
  {
    hide LineEnd, Ones;
  }

  lemma SearchOn(text: seq<byte>, i0: int, size0: nat, unread0: seq<byte>, answers0: seq<nat>,
                 i1: int, size1: nat, unread1: seq<byte>, answers1: seq<nat>,
                 i2: int, size2: nat, unread2: seq<byte>, answers2: seq<nat>)
    requires Searching(text, i0, size0, unread0, answers0, i1, size1, unread1, answers1) && 0 < i0 <= i1 <= LineEnd(text)
    requires |unread1| - |unread2| == Given(511, |unread1|, answers1) == i2 - i1 && answers2 == Later(answers1)
    requires size2 == Max(size1, i1 + 512) && i1 + |unread1| == |text|
    ensures Searching(text, i0, size0, unread0, answers0, i2, size2, unread2, answers2)
  {
    var n, k := LineEnd(text), |answers0|;
    if k >= i1 - 1 {
      OnesLater(k - (i1 - 1), 511, |unread1|);
    }
    hide LineEnd, Ones, Given, Later;
  }

  lemma SearchEnds(text: seq<byte>, i0: int, size0: nat, unread0: seq<byte>, answers0: seq<nat>,
                   i: int, size: nat, unread: seq<byte>, answers: seq<nat>)
    requires Searching(text, i0, size0, unread0, answers0, i, size, unread, answers) && i0 > 0
    requires (LineEnd(text) < |text| ==> i > LineEnd(text)) && i + |unread| == |text|
    ensures Searched(text, i0, size0, unread0, answers0, i, size, unread, answers)
  {
    hide LineEnd, Ones;
  }

  /** The first newline of what is buffered is the first newline of all. */
  lemma WholeLine(buffered: seq<byte>, unread: seq<byte>)
    ensures LineEnd(buffered) < |buffered| ==> LineEnd(buffered + unread) == LineEnd(buffered)
    ensures LineEnd(buffered) == |buffered| ==> LineEnd(buffered + unread) >= |buffered|
    ensures unread == [] ==> LineEnd(buffered + unread) == LineEnd(buffered)
  {
    LineEndPrefix(buffered, unread);
    if unread == [] {
      assert buffered + unread == buffered;
    }
  }

  lemma LinesOfEmpty()
    ensures LinesOf([]) == [] && LineEnd([]) == 0
  {
  }

  lemma LineEndHere(text: seq<byte>, pos: nat)
    requires pos <= |text|
    ensures pos == 0 ==> text[pos..] == text
    ensures pos < |text| && text[pos] != NEWLINE ==> LineEnd(text[pos..]) == 1 + LineEnd(text[pos + 1..])
    ensures pos == |text| || text[pos] == NEWLINE ==> LineEnd(text[pos..]) == 0
  {
    if pos < |text| {
      assert text[pos..][1..] == text[pos + 1..];
    }
  }

  /** What is left after the first line. */
  lemma FirstOf(text: seq<byte>)
    ensures text != [] && Terminated(text) ==> LineEnd(text) < |text| && Terminated(text[LineEnd(text) + 1..])
    ensures LineEnd(text) < |text| ==> LinesOf(text) == [text[..LineEnd(text)]] + LinesOf(text[LineEnd(text) + 1..])
    ensures text != [] && LineEnd(text) == |text| ==> LinesOf(text) == [text] && LinesOf([]) == []
  {
    RestTerminated(text, LineEnd(text));
    FirstLineOf(text);
  }

  lemma RestTerminated(text: seq<byte>, n: nat)
    requires n <= |text| && NEWLINE !in text[..n]
    ensures text != [] && Terminated(text) ==> n < |text| && Terminated(text[n + 1..])
  {
    if n == |text| && text != [] {
      assert text[..n][n - 1] == text[n - 1];
    }
  }

  lemma FirstLineOf(text: seq<byte>)
    ensures LineEnd(text) < |text| ==> LinesOf(text) == [text[..LineEnd(text)]] + LinesOf(text[LineEnd(text) + 1..])
    ensures text != [] && LineEnd(text) == |text| ==> LinesOf(text) == [text] && LinesOf([]) == []
  {
    hide LineEnd;
    assert text[..|text|] == text;
  }
}
