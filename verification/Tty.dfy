/** The screen of kernel/src/tty.c: characters, newlines, scrolling and cursor motion. */
module Tty {
  import opened BitStream
  import opened Lines
  import opened Scrollback

  const VGA_DEFAULT_FG: nat := 7
  const VGA_DEFAULT_BG: nat := 0

  /** The place of column x in row y. */
  function Cell(y: nat, x: nat, width: nat): nat {
    y * width + x
  }

  lemma CellInside(y: nat, x: nat, width: nat, height: nat)
    requires y < height && x < width
    ensures Cell(y, x, width) < height * width
    ensures Cell(y + 1, x, width) == Cell(y, x, width) + width
  {
    assert (y + 1) * width <= height * width;
  }

  lemma CellUnique(y: nat, x: nat, y': nat, x': nat, width: nat)
    requires x < width && x' < width && Cell(y, x, width) == Cell(y', x', width)
    ensures y == y' && x == x'
  {
    RowsApart(y, x, y', width);
    RowsApart(y', x', y, width);
  }

  lemma RowsApart(y: nat, x: nat, y': nat, width: nat)
    requires x < width
    ensures y < y' ==> Cell(y, x, width) < y' * width
  {
    if y < y' {
      assert (y + 1) * width <= y' * width;
    }
  }

  /** Cell x of row k, blank below the last row. */
  function RowCell(rows: seq<Row>, k: nat, x: nat, blank: nat): nat {
    if k < |rows| && x < |rows[k]| then rows[k][x] else blank
  }

  /** How many rows have been scrolled away. */
  function Top(rows: seq<Row>, height: nat): nat {
    if |rows| > height then |rows| - height else 0
  }

  class Terminal {
    const width: nat
    const height: nat
    const buffer: array<nat>
    var row: nat
    var column: nat
    var fg: nat
    var bg: nat

    ghost predicate Shaped()
      reads this
    {
      width > 0 && height > 0 && buffer.Length == height * width && fg < 16 && bg < 16
    }

    /** The cursor is on the screen. */
    ghost predicate Inside()
      reads this
    {
      Shaped() && row < height && column < width
    }

    function At(y: nat, x: nat): nat
      reads buffer
    {
      if Cell(y, x, width) < buffer.Length then buffer[Cell(y, x, width)] else 0
    }

    ghost function Color(): byte
      reads this
      requires Shaped()
    {
      VgaColor(fg, bg)
    }

    /** The screen shows the last rows of the text, and the cursor is where the text ends. */
    ghost predicate Shows(text: seq<byte>)
      reads this, buffer
    {
      Inside() &&
      var rows, blank := Rows(text, width, Color()), VgaEntry(32, Color());
      column == Column(text, width) && row == |rows| - 1 - Top(rows, height) &&
      forall y: nat, x: nat | y < height && x < width :: At(y, x) == RowCell(rows, Top(rows, height) + y, x, blank)
    }

    /** terminal_initialize: a cleared screen in the default colours. */
    constructor (width: nat, height: nat)
      requires width > 0 && height > 0
      ensures fresh(buffer) && Shows([]) && this.width == width && this.height == height
    {
      this.width, this.height := width, height;
      buffer := new nat[height * width];
      row, column, fg, bg := 0, 0, VGA_DEFAULT_FG, VGA_DEFAULT_BG;
      new;
      Clear();
      RowsEmpty(width, Color());
    }

    /** Cell (y, x) is set. */
    method Set(y: nat, x: nat, cell: nat)
      requires Shaped() && y < height && x < width
      modifies buffer
      ensures forall v: nat, u: nat | v < height && u < width :: At(v, u) == if v == y && u == x then cell else old(At(v, u))
    {
      CellInside(y, x, width, height);
      buffer[Cell(y, x, width)] := cell;
      hide Cell;
      forall v: nat, u: nat | v < height && u < width
        ensures At(v, u) == if v == y && u == x then cell else old(At(v, u))
      {
        CellInside(v, u, width, height);
        if Cell(v, u, width) == Cell(y, x, width) {
          CellUnique(v, u, y, x, width);
        }
      }
    }

    /** terminal_clear. */
    method Clear()
      requires Shaped()
      modifies buffer
      ensures forall y: nat, x: nat | y < height && x < width :: At(y, x) == VgaEntry(32, VgaColor(VGA_DEFAULT_FG, VGA_DEFAULT_BG))
      ensures VgaEntry(32, VgaColor(VGA_DEFAULT_FG, VGA_DEFAULT_BG)) == 0x0720
    {
      assert VgaEntry(32, VgaColor(VGA_DEFAULT_FG, VGA_DEFAULT_BG)) == 0x0720;
      hide Cell, VgaEntry, At;
      for y := 0 to height
        invariant forall v: nat, u: nat | v < y && u < width :: At(v, u) == VgaEntry(32, VgaColor(VGA_DEFAULT_FG, VGA_DEFAULT_BG))
      {
        for x := 0 to width
          invariant forall v: nat, u: nat | u < width && (v < y || (v == y && u < x)) ::
                      At(v, u) == VgaEntry(32, VgaColor(VGA_DEFAULT_FG, VGA_DEFAULT_BG))
        {
          Set(y, x, VgaEntry(32, VgaColor(VGA_DEFAULT_FG, VGA_DEFAULT_BG)));
        }
      }
    }

    /** terminal_scroll_down: every row moves up by one, the last one becomes blank. */
    method ScrollDown()
      requires Shaped()
      modifies this`row, buffer
      ensures row == height - 1
      ensures forall y: nat, x: nat | y < height && x < width ::
                At(y, x) == if y < height - 1 then old(At(y + 1, x)) else VgaEntry(32, VgaColor(fg, bg))
    {
      hide Cell, VgaEntry, At;
      row := height - 1;
      for y := 0 to height - 1
        invariant row == height - 1
        invariant forall v: nat, u: nat | v < height && u < width :: At(v, u) == if v < y then old(At(v + 1, u)) else old(At(v, u))
      {
        for x := 0 to width
          invariant row == height - 1
          invariant forall v: nat, u: nat | v < height && u < width ::
                      At(v, u) == if v < y || (v == y && u < x) then old(At(v + 1, u)) else old(At(v, u))
        {
          Set(y, x, At(y + 1, x));
        }
      }
      for x := 0 to width
        invariant row == height - 1
        invariant forall v: nat, u: nat | v < height && u < width ::
                    At(v, u) == if v < height - 1 then old(At(v + 1, u)) else if u < x then VgaEntry(32, VgaColor(fg, bg)) else old(At(v, u))
      {
        Set(height - 1, x, VgaEntry(32, VgaColor(fg, bg)));
      }
    }

    /** The end of a row: on to the next one, which may have to be made by scrolling. */
    method NextRow()
      requires Inside()
      modifies this`row, this`column, buffer
      ensures Inside() && column == 0 && row == if old(row) + 1 < height then old(row) + 1 else height - 1
      ensures forall y: nat, x: nat | y < height && x < width ::
                At(y, x) == if old(row) + 1 < height then old(At(y, x))
                            else if y < height - 1 then old(At(y + 1, x)) else VgaEntry(32, VgaColor(fg, bg))
    {
      hide VgaEntry, At;
      column := 0;
      row := row + 1;
      if row >= height {
        ScrollDown();
      }
    }

    /** terminal_writechar for a newline. */
    method Newline(ghost text: seq<byte>)
      requires Inside()
      modifies this`row, this`column, buffer
      ensures Inside() && (old(Shows(text)) ==> Shows(text + [NEWLINE]))
    {
      hide VgaEntry, Rows, Column, At, RowCell;
      ghost var color := Color();
      ghost var rows := Rows(text, width, color);
      NextRow();
      RowsNewline(text, width, color);
      RowsNext(rows, height, [seq(width, i => VgaEntry(32, color))], width, VgaEntry(32, color));
    }

    /** terminal_writechar for a character that is printed. */
    method Print(c: byte, ghost text: seq<byte>)
      requires Inside() && c != NEWLINE
      modifies this`row, this`column, buffer
      ensures Inside() && (old(Shows(text)) ==> Shows(text + [c]))
    {
      hide VgaEntry, Rows, Column, Put, At, RowCell;
      ghost var color := Color();
      ghost var rows, shown := Rows(text, width, color), Shows(text);
      RowsPut(text, c, width, color);
      if shown {
        PutCells(rows, Column(text, width), VgaEntry(c, color), width, height, VgaEntry(32, color));
      }
      Set(row, column, VgaEntry(c, VgaColor(fg, bg)));
      if column + 1 >= width {
        NextRow();
      } else {
        column := column + 1;
      }
    }

    /** terminal_writechar for a NUL, a newline, or a character that is printed. */
    method WriteChar(c: byte, ghost text: seq<byte>)
      requires Inside() && c !in {8, 9, 27}
      modifies this`row, this`column, buffer
      ensures Inside()
      ensures old(Shows(text)) ==> Shows(if c == 0 then text else text + [c])
    {
      hide Shows;
      if c == 0 {
        return;
      }
      if c == NEWLINE {
        Newline(text);
      } else {
        Print(c, text);
      }
    }

    /** terminal_write. */
    method Write(chars: seq<byte>, ghost text: seq<byte>)
      requires Inside() && forall i | 0 <= i < |chars| :: chars[i] !in {8, 9, 27}
      modifies this`row, this`column, buffer
      ensures Inside()
      ensures old(Shows(text)) ==> Shows(text + WithoutNul(chars))
    {
      hide Shows;
      ghost var printed: seq<byte> := text;
      for i := 0 to |chars|
        invariant Inside()
        invariant printed == text + WithoutNul(chars[..i])
        invariant old(Shows(text)) ==> Shows(printed)
      {
        WriteChar(chars[i], printed);
        WithoutNulNext(chars, i);
        printed := if chars[i] == 0 then printed else printed + [chars[i]];
      }
      assert chars[..|chars|] == chars;
    }

    // ---------------------------------------------------------------------------- cursor

    /** The escape sequence D: left, through the rows, at most to the first cell. */
    method CursorLeft(num0: nat)
      requires Inside()
      modifies this`row, this`column
      ensures Inside()
      ensures Cell(row, column, width) == if num0 <= old(Cell(row, column, width)) then old(Cell(row, column, width)) - num0 else 0
    {
      var num := num0;
      hide Cell;
      CellZero(width);
      while num != 0
        invariant Inside() && 0 <= num <= num0
        invariant Cell(row, column, width) + (num0 - num) == old(Cell(row, column, width))
        decreases num
      {
        CellLeft(row, column, width);
        if column == 0 {
          if row == 0 {
            return;
          }
          column := width - 1;
          row := row - 1;
        } else {
          column := column - 1;
        }
        num := num - 1;
      }
    }

    /** The escape sequence C: right, through the rows, at most to the last cell. */
    method CursorRight(num0: nat)
      requires Inside()
      modifies this`row, this`column
      ensures Inside()
      ensures Cell(row, column, width) ==
              if old(Cell(row, column, width)) + num0 < height * width then old(Cell(row, column, width)) + num0 else height * width - 1
    {
      var num := num0;
      CellLast(width, height);
      CellInside(row, column, width, height);
      hide Cell;
      while num != 0
        invariant Inside() && 0 <= num <= num0
        invariant Cell(row, column, width) == old(Cell(row, column, width)) + (num0 - num) < height * width
        decreases num
      {
        if column == width - 1 {
          if row == height - 1 {
            return;
          }
          CellLeft(row + 1, 0, width);
          column := 0;
          row := row + 1;
        } else {
          CellLeft(row, column + 1, width);
          column := column + 1;
        }
        CellInside(row, column, width, height);
        num := num - 1;
      }
    }
  }

  lemma CellZero(width: nat)
    ensures Cell(0, 0, width) == 0
  {
  }

  lemma CellLast(width: nat, height: nat)
    requires width > 0 && height > 0
    ensures Cell(height - 1, width - 1, width) == height * width - 1
  {
    assert (height - 1) * width + width == height * width;
  }

  /** The cell before. */
  lemma CellLeft(y: nat, x: nat, width: nat)
    requires x < width
    ensures x > 0 ==> Cell(y, x - 1, width) + 1 == Cell(y, x, width)
    ensures x == 0 && y > 0 ==> Cell(y - 1, width - 1, width) + 1 == Cell(y, x, width)
    ensures x == 0 && y == 0 ==> Cell(y, x, width) == 0
  {
    if y > 0 {
      assert (y - 1) * width + width == y * width;
    }
  }

  /** NUL characters are not written. */
  function WithoutNul(s: seq<byte>): seq<byte> {
    if s == [] then [] else WithoutNul(s[..|s| - 1]) + if s[|s| - 1] == 0 then [] else [s[|s| - 1]]
  }

  lemma WithoutNulNext(s: seq<byte>, i: nat)
    requires i < |s|
    ensures WithoutNul(s[..i + 1]) == WithoutNul(s[..i]) + if s[i] == 0 then [] else [s[i]]
  {
    assert s[..i + 1][..i] == s[..i];
  }

  /** Adding blank rows below moves the window. */
  lemma RowsNext(rows: seq<Row>, height: nat, more: seq<Row>, width: nat, blank: nat)
    requires more == [seq(width, i => blank)] && height > 0
    ensures Top(rows + more, height) == if |rows| >= height then Top(rows, height) + 1 else Top(rows, height)
    ensures forall k: nat, x: nat | x < width :: RowCell(rows + more, k, x, blank) == RowCell(rows, k, x, blank)
    ensures forall k: nat, x: nat | k >= |rows| :: RowCell(rows, k, x, blank) == blank
  {
  }

  /** What Put changes, cell by cell. */
  lemma PutCells(rows: seq<Row>, column: nat, cell: nat, width: nat, height: nat, blank: nat)
    requires |rows| > 0 && column < width && |rows[|rows| - 1]| == width && height > 0
    ensures |Put(rows, column, cell, width, blank)| == |rows| + if column + 1 == width then 1 else 0
    ensures forall k: nat, x: nat | x < width ::
              RowCell(Put(rows, column, cell, width, blank), k, x, blank) ==
              if k == |rows| - 1 && x == column then cell else RowCell(rows, k, x, blank)
    ensures forall k: nat, x: nat | k >= |rows| :: RowCell(rows, k, x, blank) == blank
  {
  }
}
