/** How a text is laid out on rows of a fixed width without an end: what the screen of
    kernel/src/tty.c is to show the last rows of. */
module Scrollback {
  import opened BitStream
  import opened Lines

  type Row = seq<nat>

  /** vga_entry(c, color). */
  function VgaEntry(c: byte, color: byte): nat {
    color * 256 + c
  }

  /** vga_color(fg, bg). */
  function VgaColor(fg: nat, bg: nat): byte
    requires fg < 16 && bg < 16
  {
    bg * 16 + fg
  }

  /** A cell: the character in the low byte, then four bits for the foreground, and four for the
      background; an A in the default colours is 0x0741. */
  lemma CellBits(c: byte, fg: nat, bg: nat)
    requires fg < 16 && bg < 16
    ensures var cell := VgaEntry(c, VgaColor(fg, bg));
            cell < 0x1_0000 && cell % 0x100 == c && cell / 0x100 % 0x10 == fg && cell / 0x1000 == bg
    ensures VgaEntry(65, VgaColor(7, 0)) == 0x0741
  {
  }

  /** The cells of a line, with blanks up to the width. */
  function Padded(line: seq<byte>, width: nat, color: byte): (row: Row)
    requires |line| <= width
    ensures |row| == width
  {
    seq(width, i requires 0 <= i < width => if i < |line| then VgaEntry(line[i], color) else VgaEntry(32, color))
  }

  /** A line is cut into full rows and a last one that is not full, if need be an empty one. */
  function Wrapped(line: seq<byte>, width: nat, color: byte): (rows: seq<Row>)
    requires width > 0
    ensures |rows| > 0 && forall i | 0 <= i < |rows| :: |rows[i]| == width
  {
    if |line| < width then [Padded(line, width, color)]
    else [Padded(line[..width], width, color)] + Wrapped(line[width..], width, color)
  }

  /** All lines, one below the other. */
  function Rows(text: seq<byte>, width: nat, color: byte): (rows: seq<Row>)
    requires width > 0
    ensures |rows| > 0 && forall i | 0 <= i < |rows| :: |rows[i]| == width
  {
    var n := LineEnd(text);
    if n == |text| then Wrapped(text, width, color)
    else Wrapped(text[..n], width, color) + Rows(text[n + 1..], width, color)
  }

  /** How much of the last row is filled. */
  function WrappedColumn(line: seq<byte>, width: nat): (c: nat)
    requires width > 0
    ensures c < width
  {
    if |line| < width then |line| else WrappedColumn(line[width..], width)
  }

  function Column(text: seq<byte>, width: nat): (c: nat)
    requires width > 0
    ensures c < width
  {
    var n := LineEnd(text);
    if n == |text| then WrappedColumn(text, width) else Column(text[n + 1..], width)
  }

  /** What one more character does: it goes to the first free cell, and a full row is followed by an
      empty one. */
  function Put(rows: seq<Row>, column: nat, cell: nat, width: nat, blank: nat): (r: seq<Row>)
    requires |rows| > 0 && column < width && |rows[|rows| - 1]| == width
  {
    var last: Row := rows[|rows| - 1][column := cell];
    rows[..|rows| - 1] + [last] + if column + 1 == width then [seq(width, i => blank)] else []
  }

  lemma {:induction false} WrappedPut(line: seq<byte>, c: byte, width: nat, color: byte)
    requires width > 0
    ensures Wrapped(line + [c], width, color) ==
            Put(Wrapped(line, width, color), WrappedColumn(line, width), VgaEntry(c, color), width, VgaEntry(32, color))
    ensures WrappedColumn(line + [c], width) ==
            if WrappedColumn(line, width) + 1 == width then 0 else WrappedColumn(line, width) + 1
    decreases |line|
  {
    hide VgaEntry;
    if |line| < width {
      PaddedPut(line, c, width, color);
      if |line| + 1 == width {
        assert (line + [c])[..width] == line + [c] && (line + [c])[width..] == [];
        assert Padded([], width, color) == seq(width, i => VgaEntry(32, color));
      }
    } else {
      assert (line + [c])[..width] == line[..width] && (line + [c])[width..] == line[width..] + [c];
      WrappedPut(line[width..], c, width, color);
      PutLater([Padded(line[..width], width, color)], Wrapped(line[width..], width, color), WrappedColumn(line, width),
               VgaEntry(c, color), width, VgaEntry(32, color));
    }
  }

  lemma PaddedPut(line: seq<byte>, c: byte, width: nat, color: byte)
    requires |line| < width
    ensures Padded(line + [c], width, color) == Padded(line, width, color)[|line| := VgaEntry(c, color)]
  {
  }

  lemma PutLater(before: seq<Row>, rows: seq<Row>, column: nat, cell: nat, width: nat, blank: nat)
    requires |rows| > 0 && column < width && |rows[|rows| - 1]| == width
    ensures |(before + rows)[|before + rows| - 1]| == width
    ensures before + Put(rows, column, cell, width, blank) == Put(before + rows, column, cell, width, blank)
  {
  }

  /** A printed character. */
  lemma {:induction false} RowsPut(text: seq<byte>, c: byte, width: nat, color: byte)
    requires width > 0 && c != NEWLINE
    ensures Rows(text + [c], width, color) ==
            Put(Rows(text, width, color), Column(text, width), VgaEntry(c, color), width, VgaEntry(32, color))
    ensures Column(text + [c], width) == if Column(text, width) + 1 == width then 0 else Column(text, width) + 1
    decreases |text|
  {
    hide VgaEntry, Wrapped, WrappedColumn;
    var n := LineEnd(text);
    LineEndAppend(text, c);
    if n == |text| {
      WrappedPut(text, c, width, color);
    } else {
      assert (text + [c])[..n] == text[..n] && (text + [c])[n + 1..] == text[n + 1..] + [c];
      RowsPut(text[n + 1..], c, width, color);
      PutLater(Wrapped(text[..n], width, color), Rows(text[n + 1..], width, color), Column(text, width), VgaEntry(c, color), width, VgaEntry(32, color));
    }
  }

  /** A newline. */
  lemma {:induction false} RowsNewline(text: seq<byte>, width: nat, color: byte)
    requires width > 0
    ensures Rows(text + [NEWLINE], width, color) == Rows(text, width, color) + [seq(width, i => VgaEntry(32, color))]
    ensures Column(text + [NEWLINE], width) == 0
    decreases |text|
  {
    hide VgaEntry;
    var n := LineEnd(text);
    LineEndAppend(text, NEWLINE);
    if n == |text| {
      assert (text + [NEWLINE])[..n] == text && (text + [NEWLINE])[n + 1..] == [];
      assert Rows([], width, color) == [Padded([], width, color)];
      assert Padded([], width, color) == seq(width, i => VgaEntry(32, color));
    } else {
      hide Wrapped, WrappedColumn;
      assert (text + [NEWLINE])[..n] == text[..n] && (text + [NEWLINE])[n + 1..] == text[n + 1..] + [NEWLINE];
      RowsNewline(text[n + 1..], width, color);
    }
  }

  lemma RowsEmpty(width: nat, color: byte)
    requires width > 0
    ensures Rows([], width, color) == [seq(width, i => VgaEntry(32, color))] && Column([], width) == 0
  {
    assert Padded([], width, color) == seq(width, i => VgaEntry(32, color));
  }
}
