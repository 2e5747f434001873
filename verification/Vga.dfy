/** The text console: an 80 by 25 cell array that scrolls in place, and the
    unbounded paper it is a window on. */
module Vga {
  import opened CString

  const WIDTH := 80
  const HEIGHT := 25

  /** A character and its colour attribute. */
  function Cell(c: Byte, color: Byte): int
  {
    c as int + 0x100 * (color as int)
  }

  // ---- Paper ----

  /** An ever-growing log of rows; `row` counts from the first row ever printed. */
  datatype Paper = Paper(log: seq<seq<int>>, row: nat, col: nat)

  function BlankRow(color: Byte): (r: seq<int>)
    ensures |r| == WIDTH
  {
    seq(WIDTH, _ => Cell(SPACE, color))
  }

  ghost predicate Good(p: Paper)
  {
    && |p.log| >= HEIGHT && p.col < WIDTH
    && Top(p) <= p.row < |p.log|
    && forall i :: 0 <= i < |p.log| ==> |p.log[i]| == WIDTH
  }

  /** The first row of the window. */
  function Top(p: Paper): int
  {
    |p.log| - HEIGHT
  }

  function Cleared(color: Byte): Paper
  {
    Paper(seq(HEIGHT, _ => BlankRow(color)), 0, 0)
  }

  function SetCell(p: Paper, x: int): Paper
    requires p.row < |p.log| && p.col < |p.log[p.row]|
  {
    p.(log := p.log[p.row := p.log[p.row][p.col := x]])
  }

  /** Where the character goes; the column may reach the width. */
  function Place(p: Paper, c: Byte, color: Byte): Paper
    requires Good(p)
  {
    if c == NEWLINE then p.(row := p.row + 1, col := 0)
    else if c == RETURN then p.(col := 0)
    else if c == TAB then p.(col := (p.col + 4) / 4 * 4)
    else if c == BACKSPACE then (if p.col > 0 then SetCell(p.(col := p.col - 1), Cell(SPACE, color)) else p)
    else SetCell(p, Cell(c, color)).(col := p.col + 1)
  }

  /** Printing past the right edge starts the next row; printing past the last
      row adds a blank one. */
  function Put(p: Paper, c: Byte, color: Byte): Paper
    requires Good(p)
  {
    var q := Place(p, c, color);
    var w := if q.col >= WIDTH then q.(row := q.row + 1, col := 0) else q;
    if w.row >= |w.log| then w.(log := w.log + [BlankRow(color)]) else w
  }

  /** Printing keeps the cursor on the window, never touches a row above the
      window, and adds at most one row, only when the cursor leaves the last. */
  lemma PutKeeps(p: Paper, c: Byte, color: Byte)
    requires Good(p)
    ensures Good(Put(p, c, color))
    ensures Top(p) <= Top(Put(p, c, color)) <= Top(p) + 1
    ensures Put(p, c, color).log[..Top(p)] == p.log[..Top(p)]
    ensures Top(Put(p, c, color)) == Top(p) + 1 ==>
              p.row == |p.log| - 1 && Put(p, c, color).log[|p.log|] == BlankRow(color) && Put(p, c, color).col == 0
  {
  }

  /** A character that is printed as itself. */
  predicate Plain(c: Byte)
  {
    c != NEWLINE && c != RETURN && c != TAB && c != BACKSPACE
  }

  ghost function PutAll(p: Paper, s: seq<Byte>, color: Byte): (q: Paper)
    requires Good(p)
    ensures Good(q)
    decreases s
  {
    if s == [] then p
    else
      PutKeeps(p, s[0], color);
      PutAll(Put(p, s[0], color), s[1..], color)
  }

  /** Rows above the window are never changed by printing. */
  lemma {:induction false} HistoryKept(p: Paper, s: seq<Byte>, color: Byte)
    requires Good(p)
    ensures Top(p) <= Top(PutAll(p, s, color)) <= Top(p) + |s|
    ensures PutAll(p, s, color).log[..Top(p)] == p.log[..Top(p)]
    decreases s
  {
    if s != [] {
      PutKeeps(p, s[0], color);
      var q := Put(p, s[0], color);
      HistoryKept(q, s[1..], color);
      assert PutAll(q, s[1..], color).log[..Top(p)] == PutAll(q, s[1..], color).log[..Top(q)][..Top(p)];
      assert q.log[..Top(q)][..Top(p)] == q.log[..Top(p)];
    }
  }

  // ---- The paper as a tape of cells ----

  /** The cursor's distance from the start of the paper. */
  function Position(p: Paper): int
  {
    p.row * WIDTH + p.col
  }

  function CellAt(p: Paper, k: int): int
    requires Good(p) && 0 <= k < |p.log| * WIDTH
  {
    p.log[k / WIDTH][k % WIDTH]
  }

  /** One plain character fills the cell under the cursor and moves on by one,
      whether or not that wraps or scrolls; no other cell changes. */
  lemma PlainPut(p: Paper, c: Byte, color: Byte)
    requires Good(p) && Plain(c)
    ensures var q := Put(p, c, color);
            && Good(q) && |p.log| <= |q.log|
            && Position(q) == Position(p) + 1
            && 0 <= Position(p) < |p.log| * WIDTH && CellAt(q, Position(p)) == Cell(c, color)
            && forall k :: 0 <= k < |p.log| * WIDTH && k != Position(p) ==> CellAt(q, k) == CellAt(p, k)
  {
    PutKeeps(p, c, color);
    var q := Put(p, c, color);
    forall k | 0 <= k < |p.log| * WIDTH
      ensures q.log[k / WIDTH][k % WIDTH] ==
              if k == Position(p) then Cell(c, color) else p.log[k / WIDTH][k % WIDTH]
    {
      assert k == k / WIDTH * WIDTH + k % WIDTH;
    }
  }

  /** The cell that a character changes, or -1, and what it puts there. */
  function Target(p: Paper, c: Byte): int
  {
    if c == 9 || c == 10 || c == 13 || (c == 8 && p.col == 0) then -1
    else if c == 8 then p.row * 80 + p.col - 1
    else p.row * 80 + p.col
  }

  function Filling(c: Byte, color: Byte): int
  {
    (if c == 8 then 32 else c as int) + 0x100 * (color as int)
  }

  /** Where the cursor goes, counted in cells of rows of eighty. */
  function Moved(p: Paper, c: Byte): int
  {
    if c == 10 then (p.row + 1) * 80
    else if c == 13 then p.row * 80
    else if c == 9 then (p.row * 80 + p.col) / 4 * 4 + 4
    else if c == 8 then p.row * 80 + (if p.col > 0 then p.col - 1 else 0)
    else p.row * 80 + p.col + 1
  }

  lemma PlacedCell(p: Paper, c: Byte, color: Byte, r: nat, j: nat)
    requires Good(p) && r < |p.log| && j < WIDTH
    ensures var q := Place(p, c, color);
            && |q.log| == |p.log| && |q.log[r]| == WIDTH
            && q.log[r][j] == if r * 80 + j == Target(p, c) then Filling(c, color) else p.log[r][j]
  {
  }

  lemma PutCell(p: Paper, c: Byte, color: Byte, k: nat)
    requires Good(p) && k < |p.log| * 80
    ensures var q := Put(p, c, color);
            && Good(q) && |p.log| <= |q.log|
            && CellAt(q, k) == if k == Target(p, c) then Filling(c, color) else CellAt(p, k)
  {
    PutKeeps(p, c, color);
    PlacedCell(p, c, color, k / 80, k % 80);
    assert Put(p, c, color).log[k / 80] == Place(p, c, color).log[k / 80];
    assert k / 80 * 80 + k % 80 == k;
  }

  /** Rows are eighty cells wide, so tab stops fall on the same columns in each. */
  lemma TabStop(row: nat, col: nat)
    ensures row * 80 + (col + 4) / 4 * 4 == (row * 80 + col) / 4 * 4 + 4
  {
    assert (row * 80 + col) / 4 == row * 20 + col / 4;
  }

  lemma PutCursor(p: Paper, c: Byte, color: Byte)
    requires Good(p)
    ensures var q := Put(p, c, color);
            && Good(q) && |p.log| <= |q.log| <= |p.log| + 1 && q.row * 80 + q.col == Moved(p, c)
            && (|q.log| == |p.log| + 1 ==> q.log[|p.log|] == BlankRow(color))
  {
    PutKeeps(p, c, color);
    TabStop(p.row, p.col);
    var w := Place(p, c, color);
    assert w.row * 80 + w.col == Moved(p, c);
  }

  /** Every character by its code: a newline goes to the start of the next row, a
      return to the start of its own, a tab to the next column divisible by four, a
      backspace blanks the cell before the cursor in its row; any other character
      fills the cell under the cursor. No other cell changes, and a row that is
      added is blank. */
  lemma PutByCode(p: Paper, c: Byte, color: Byte)
    requires Good(p)
    ensures var q := Put(p, c, color);
            && Good(q) && |p.log| <= |q.log| && q.row * 80 + q.col == Moved(p, c)
            && (forall k :: 0 <= k < |p.log| * 80 ==>
                              CellAt(q, k) == if k == Target(p, c) then Filling(c, color) else CellAt(p, k))
            && (forall k :: |p.log| * 80 <= k < |q.log| * 80 ==> CellAt(q, k) == 32 + 0x100 * (color as int))
  {
    PutCursor(p, c, color);
    var q := Put(p, c, color);
    forall k | 0 <= k < |p.log| * 80
      ensures CellAt(q, k) == if k == Target(p, c) then Filling(c, color) else CellAt(p, k)
    {
      PutCell(p, c, color, k);
    }
  }

  /** Texts one after another. */
  lemma {:induction false} PutAllOn(p: Paper, s: seq<Byte>, t: seq<Byte>, color: Byte)
    requires Good(p)
    ensures PutAll(p, s + t, color) == PutAll(PutAll(p, s, color), t, color)
    decreases s
  {
    if s == [] {
      assert s + t == t;
    } else {
      PutKeeps(p, s[0], color);
      PutAllOn(Put(p, s[0], color), s[1..], t, color);
      assert (s + t)[1..] == s[1..] + t;
    }
  }

  /** The tape up to the cursor. */
  ghost function Tape(p: Paper): (t: seq<int>)
    requires Good(p)
    ensures |t| == Position(p)
  {
    assert Position(p) < |p.log| * WIDTH;
    seq(Position(p), k requires 0 <= k < |p.log| * WIDTH => CellAt(p, k))
  }

  function Cells(s: seq<Byte>, color: Byte): seq<int>
  {
    if s == [] then [] else [Cell(s[0], color)] + Cells(s[1..], color)
  }

  lemma PlainTape(p: Paper, c: Byte, color: Byte)
    requires Good(p) && Plain(c)
    ensures Good(Put(p, c, color)) && Tape(Put(p, c, color)) == Tape(p) + [Cell(c, color)]
  {
    PlainPut(p, c, color);
    var q := Put(p, c, color);
    assert Position(p) < |p.log| * WIDTH;
    forall k | 0 <= k < Position(q)
      ensures Tape(q)[k] == (Tape(p) + [Cell(c, color)])[k]
    {
      assert Tape(q)[k] == CellAt(q, k);
    }
  }

  /** A plain text is laid on the tape from the cursor on, one cell a character,
      across line wraps and scrolls. */
  lemma {:induction false} PlainText(p: Paper, s: seq<Byte>, color: Byte)
    requires Good(p) && forall i :: 0 <= i < |s| ==> Plain(s[i])
    ensures Tape(PutAll(p, s, color)) == Tape(p) + Cells(s, color)
    decreases s
  {
    if s == [] {
      assert Tape(p) + [] == Tape(p);
    } else {
      PlainTape(p, s[0], color);
      PlainText(Put(p, s[0], color), s[1..], color);
      var first, rest := [Cell(s[0], color)], Cells(s[1..], color);
      assert Tape(p) + first + rest == Tape(p) + (first + rest);
    }
  }

  /** Printing a text puts its characters one after another, none left out. */
  lemma PutAllMore(p: Paper, s: seq<Byte>, c: Byte, color: Byte)
    requires Good(p)
    ensures PutAll(p, [], color) == p && PutAll(p, s + [c], color) == Put(PutAll(p, s, color), c, color)
  {
    var one := [c];
    PutAllOn(p, s, one, color);
    assert one[1..] == [];
  }

  /** A newline goes on from the next row and keeps what is written. */
  lemma NewlineTape(p: Paper, color: Byte)
    requires Good(p)
    ensures var q := PutAll(p, [10], color);
            && Position(q) == (p.row + 1) * 80 && Tape(q)[..Position(p)] == Tape(p)
  {
    PutByCode(p, 10, color);
    var one: seq<Byte> := [10];
    assert one[1..] == [];
    var q := PutAll(p, one, color);
    assert q == Put(p, 10, color);
    forall k | 0 <= k < Position(p)
      ensures Tape(q)[k] == Tape(p)[k]
    {
      assert Tape(q)[k] == CellAt(q, k) && Tape(p)[k] == CellAt(p, k);
    }
  }

  lemma SecondLine(q: Paper, t: seq<Byte>, color: Byte)
    requires Good(q) && forall i :: 0 <= i < |t| ==> Plain(t[i])
    ensures var u, start := PutAll(q, [10] + t, color), (q.row + 1) * 80;
            Position(u) == start + |t| && Tape(u)[..Position(q)] == Tape(q) && Tape(u)[start..] == Cells(t, color)
  {
    PutAllOn(q, [10], t, color);
    NewlineTape(q, color);
    PlainText(PutAll(q, [10], color), t, color);
    CellsLength(t, color);
  }

  /** A character that only fills its cell. */
  predicate Ordinary(c: Byte)
  {
    c != 8 && c != 9 && c != 10 && c != 13
  }

  /** Two lines of plain text: the first stands where the cursor was, the second at
      the start of the row after the first one's end, however often they wrap and
      scroll. */
  lemma TwoLines(p: Paper, s: seq<Byte>, t: seq<Byte>, color: Byte)
    requires Good(p)
    requires (forall i :: 0 <= i < |s| ==> Ordinary(s[i])) && forall i :: 0 <= i < |t| ==> Ordinary(t[i])
    ensures var q, u := PutAll(p, s, color), PutAll(p, s + ([10] + t), color);
            && Position(q) == Position(p) + |s| && Position(u) == (q.row + 1) * 80 + |t|
            && Tape(u)[..Position(q)] == Tape(p) + Cells(s, color)
            && Tape(u)[(q.row + 1) * 80..] == Cells(t, color)
  {
    PutAllOn(p, s, [10] + t, color);
    FirstLine(p, s, color);
    SecondLine(PutAll(p, s, color), t, color);
  }

  lemma FirstLine(p: Paper, s: seq<Byte>, color: Byte)
    requires Good(p) && forall i :: 0 <= i < |s| ==> Plain(s[i])
    ensures var q := PutAll(p, s, color);
            Position(q) == Position(p) + |s| && Tape(q) == Tape(p) + Cells(s, color)
  {
    PlainText(p, s, color);
    CellsLength(s, color);
    assert |Tape(PutAll(p, s, color))| == Position(PutAll(p, s, color));
  }

  lemma {:induction false} CellsLength(s: seq<Byte>, color: Byte)
    ensures |Cells(s, color)| == |s|
  {
    if s != [] {
      CellsLength(s[1..], color);
    }
  }

  // ---- The screen ----

  class Screen {
    /** The cells in memory, row after row. */
    const cells: array<int>
    var row: nat
    var col: nat
    var color: Byte
    ghost var paper: Paper

    ghost predicate Shows(p: Paper)
      requires Good(p) && cells.Length == WIDTH * HEIGHT
      reads cells
    {
      forall k :: 0 <= k < cells.Length ==> cells[k] == p.log[Top(p) + k / WIDTH][k % WIDTH]
    }

    /** The cells are the last 25 rows of the paper, the cursor its cursor. */
    ghost predicate Valid()
      reads this, cells
    {
      && cells.Length == WIDTH * HEIGHT && Good(paper)
      && Shows(paper) && row == paper.row - Top(paper) && col == paper.col
    }

    constructor (memory: array<int>)
      ensures cells == memory
    {
      cells := memory;
      row, col, color := 0, 0, 0x0F;
      paper := Paper([], 0, 0);
    }

    method VgaClear()
      requires cells.Length == WIDTH * HEIGHT
      modifies this, cells
      ensures Valid() && paper == Cleared(color) && color == old(color) && row == col == 0
      ensures forall k :: 0 <= k < 2000 ==> cells[k] == 32 + 0x100 * (color as int)
    {
      ClearCells();
      row, col := 0, 0;
      paper := Cleared(color);
    }

    method ClearCells()
      requires cells.Length == WIDTH * HEIGHT
      modifies cells
      ensures forall k :: 0 <= k < cells.Length ==> cells[k] == Cell(SPACE, color)
    {
      for y := 0 to HEIGHT
        invariant forall k :: 0 <= k < y * WIDTH ==> cells[k] == Cell(SPACE, color)
      {
        BlankCells(y * WIDTH);
      }
    }

    method SetColor(c: Byte)
      requires Valid()
      modifies this`color
      ensures Valid() && color == c && paper == old(paper)
    {
      color := c;
    }

    /** The two inner loops of vga_scroll. */
    method CopyRow(to: nat, from: nat)
      requires cells.Length == WIDTH * HEIGHT && to + WIDTH <= from && from + WIDTH <= cells.Length
      modifies cells
      ensures forall k :: to <= k < to + WIDTH ==> cells[k] == old(cells[k - to + from])
      ensures forall k :: 0 <= k < cells.Length && !(to <= k < to + WIDTH) ==> cells[k] == old(cells[k])
    {
      for x := 0 to WIDTH
        invariant forall k :: to <= k < to + x ==> cells[k] == old(cells[k - to + from])
        invariant forall k :: 0 <= k < cells.Length && !(to <= k < to + x) ==> cells[k] == old(cells[k])
      {
        cells[to + x] := cells[from + x];
      }
    }

    method BlankCells(from: nat)
      requires cells.Length == WIDTH * HEIGHT && from + WIDTH <= cells.Length
      modifies cells
      ensures forall k :: from <= k < from + WIDTH ==> cells[k] == Cell(SPACE, color)
      ensures forall k :: 0 <= k < cells.Length && !(from <= k < from + WIDTH) ==> cells[k] == old(cells[k])
    {
      for x := 0 to WIDTH
        invariant forall k :: from <= k < from + x ==> cells[k] == Cell(SPACE, color)
        invariant forall k :: 0 <= k < cells.Length && !(from <= k < from + x) ==> cells[k] == old(cells[k])
      {
        cells[from + x] := Cell(SPACE, color);
      }
    }

    /** Move every row up by one and blank the last. */
    method ScrollCells()
      requires cells.Length == WIDTH * HEIGHT
      modifies cells
      ensures forall k :: 0 <= k < WIDTH * (HEIGHT - 1) ==> cells[k] == old(cells[k + WIDTH])
      ensures forall k :: WIDTH * (HEIGHT - 1) <= k < cells.Length ==> cells[k] == Cell(SPACE, color)
    {
      ghost var was := cells[..];
      for y := 1 to HEIGHT
        invariant forall k :: 0 <= k < (y - 1) * WIDTH ==> cells[k] == was[k + WIDTH]
        invariant forall k :: (y - 1) * WIDTH <= k < cells.Length ==> cells[k] == was[k]
      {
        CopyRow((y - 1) * WIDTH, y * WIDTH);
      }
      BlankCells((HEIGHT - 1) * WIDTH);
    }

    /** Store a cell at the cursor. */
    method StoreCell(x: int)
      requires Valid()
      modifies cells, this`paper
      ensures Valid() && paper == SetCell(old(paper), x)
    {
      ghost var p := paper;
      cells[row * WIDTH + col] := x;
      paper := SetCell(p, x);
      forall k | 0 <= k < cells.Length
        ensures cells[k] == paper.log[Top(paper) + k / WIDTH][k % WIDTH]
      {
        assert k == k / WIDTH * WIDTH + k % WIDTH;
      }
    }

    method VgaPutchar(c: Byte)
      requires Valid()
      modifies this`row, this`col, this`paper, cells
      ensures Valid() && paper == Put(old(paper), c, color) && row < 25 && col < 80
    {
      PutKeeps(paper, c, color);
      ghost var q := Place(paper, c, color);
      PlaceChar(c);
      WrapAndScroll(q);
    }

    /** The cells and the cursor are those of `q`, whose cursor may have left the
        screen by one column or one row. */
    ghost predicate Placed(q: Paper)
      reads this, cells
    {
      && cells.Length == WIDTH * HEIGHT && |q.log| >= HEIGHT
      && (forall i :: 0 <= i < |q.log| ==> |q.log[i]| == WIDTH)
      && (forall k :: 0 <= k < cells.Length ==> cells[k] == q.log[Top(q) + k / WIDTH][k % WIDTH])
      && row == q.row - Top(q) && col == q.col <= WIDTH && row <= HEIGHT && (col == WIDTH ==> row < HEIGHT)
    }

    /** The first part of vga_putchar: store the character and move the cursor. */
    method PlaceChar(c: Byte)
      requires Valid()
      modifies this`row, this`col, this`paper, cells
      ensures Placed(Place(old(paper), c, color))
    {
      if c == NEWLINE {
        col := 0;
        row := row + 1;
      } else if c == RETURN {
        col := 0;
      } else if c == TAB {
        col := (col + 4) / 4 * 4;
      } else if c == BACKSPACE {
        if col > 0 {
          col := col - 1;
          paper := paper.(col := paper.col - 1);
          StoreCell(Cell(SPACE, color));
        }
      } else {
        StoreCell(Cell(c, color));
        col := col + 1;
      }
    }

    /** The end of vga_putchar: wrap past the right edge, scroll past the last row. */
    method WrapAndScroll(ghost q: Paper)
      requires Placed(q)
      modifies this`row, this`col, this`paper, cells
      ensures Valid()
      ensures var w := if q.col >= WIDTH then q.(row := q.row + 1, col := 0) else q;
              paper == if w.row >= |w.log| then w.(log := w.log + [BlankRow(color)]) else w
    {
      ghost var w := if q.col >= WIDTH then q.(row := q.row + 1, col := 0) else q;
      if col >= WIDTH {
        col := 0;
        row := row + 1;
      }
      if row >= HEIGHT {
        ScrollCells();
        row := HEIGHT - 1;
        paper := w.(log := w.log + [BlankRow(color)]);
        forall k | 0 <= k < cells.Length
          ensures cells[k] == paper.log[Top(paper) + k / WIDTH][k % WIDTH]
        {
          assert (k + WIDTH) / WIDTH == k / WIDTH + 1 && (k + WIDTH) % WIDTH == k % WIDTH;
        }
      } else {
        paper := w;
      }
    }

    method VgaPrint(str: array<Byte>, ghost s: seq<Byte>)
      requires Valid() && Holds(str, 0, s)
      modifies this`row, this`col, this`paper, cells
      ensures Valid() && paper == PutAll(old(paper), s, color)
    {
      var i := 0;
      assert s[0..] == s;
      while str[i] != NUL
        invariant 0 <= i <= |s| && Valid() && Holds(str, 0, s)
        invariant PutAll(paper, s[i..], color) == PutAll(old(paper), s, color)
        decreases |s| - i
      {
        HoldsAt(str, 0, s, i);
        assert s[i..][0] == str[i] && s[i..][1..] == s[i + 1..];
        VgaPutchar(str[i]);
        i := i + 1;
      }
      HoldsAt(str, 0, s, i);
    }

    /** A position off the screen is ignored. */
    method VgaSetCursor(r: nat, c: nat)
      requires Valid()
      modifies this`row, this`col, this`paper
      ensures Valid()
      ensures paper == if r < 25 && c < 80 then old(paper).(row := Top(old(paper)) + r, col := c) else old(paper)
    {
      if r < HEIGHT && c < WIDTH {
        row := r;
        col := c;
        paper := paper.(row := Top(paper) + r, col := c);
      }
    }
  }
}
