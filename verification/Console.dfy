/** The line reader's echo on the text console. */
module Console {
  import opened CString
  import opened Keyboard
  import opened Vga

  /** A backspace off the left edge takes the last cell off the tape. */
  lemma BackTape(p: Paper, color: Byte)
    requires Vga.Good(p) && p.col > 0
    ensures var q := Put(p, BACKSPACE, color);
            Vga.Good(q) && Position(q) == Position(p) - 1 && Tape(q) == Tape(p)[..Position(p) - 1]
  {
    PutKeeps(p, BACKSPACE, color);
    var q := Put(p, BACKSPACE, color);
    forall k | 0 <= k < Position(q)
      ensures Tape(q)[k] == Tape(p)[k]
    {
      BackCell(p, k, color);
    }
  }

  lemma BackCell(p: Paper, k: nat, color: Byte)
    requires Vga.Good(p) && p.col > 0 && k < Position(p) - 1
    ensures var q := Put(p, BACKSPACE, color);
            && Vga.Good(q) && k < |q.log| * WIDTH && k < |p.log| * WIDTH
            && CellAt(q, k) == CellAt(p, k)
  {
    PutKeeps(p, BACKSPACE, color);
    assert k == k / WIDTH * WIDTH + k % WIDTH;
  }

  lemma CellsMore(s: seq<Byte>, c: Byte, color: Byte)
    ensures Cells(s + [c], color) == Cells(s, color) + [Cell(c, color)]
    ensures |Cells(s, color)| == |s|
  {
    if s == [] {
      assert [c][1..] == [];
    } else {
      CellsMore(s[1..], c, color);
      assert (s + [c])[1..] == s[1..] + [c];
    }
  }

  /** The keystroke at `k`, if it erases a character, does not come when the
      line's end has just wrapped to the left edge. */
  ghost predicate RetraceableAt(p: Paper, s: seq<Byte>, k: nat)
    requires k < |s|
  {
    s[k] == BACKSPACE && Erased(s[..k]) != [] ==> (p.col + |Erased(s[..k])|) % WIDTH != 0
  }

  ghost predicate Retraceable(p: Paper, s: seq<Byte>)
  {
    forall k :: 0 <= k < |s| ==> RetraceableAt(p, s, k)
  }

  lemma RetraceableMore(p: Paper, s: seq<Byte>)
    requires s != []
    ensures Retraceable(p, s) <==> Retraceable(p, s[..|s| - 1]) && RetraceableAt(p, s, |s| - 1)
  {
    var init := s[..|s| - 1];
    forall k | 0 <= k < |init|
      ensures RetraceableAt(p, init, k) <==> RetraceableAt(p, s, k)
    {
      assert init[k] == s[k] && init[..k] == s[..k];
    }
  }

  lemma Column(x: int, r: int, c: int)
    requires 0 <= c < WIDTH && x == r * WIDTH + c
    ensures x % WIDTH == c
  {
  }

  /** Characters that the echo prints as themselves or takes back. */
  ghost predicate Simple(s: seq<Byte>)
  {
    forall i :: 0 <= i < |s| ==> Plain(s[i]) || s[i] == BACKSPACE
  }

  /** How far the cursor has drifted off the line's end. */
  function Drift(p: Paper, q: Paper, line: seq<Byte>): int
  {
    Position(q) - Position(p) - |line|
  }

  /** Where one more printed keystroke takes the cursor. */
  lemma DriftOne(p: Paper, q: Paper, line: seq<Byte>, c: Byte, color: Byte)
    requires Vga.Good(p) && Vga.Good(q) && (Plain(c) || (c == BACKSPACE && line != []))
    ensures var r := Put(q, c, color);
            && Vga.Good(r)
            && Drift(p, r, Press(line, c)) ==
               (if c == BACKSPACE && q.col == 0 then Drift(p, q, line) + 1 else Drift(p, q, line))
    ensures Drift(p, q, line) == 0 ==> q.col == (p.col + |line|) % WIDTH
  {
    PutKeeps(q, c, color);
    if Plain(c) {
      PlainPut(q, c, color);
    }
    if Drift(p, q, line) == 0 {
      Column(p.col + |line|, q.row - p.row, q.col);
    }
  }

  /** The same for a keystroke after others. */
  lemma DriftMore(p: Paper, init: seq<Byte>, c: Byte, color: Byte)
    requires Vga.Good(p) && (Plain(c) || c == BACKSPACE)
    requires Drift(p, PutAll(p, Echo(init), color), Erased(init)) >= 0
    ensures var before := Drift(p, PutAll(p, Echo(init), color), Erased(init));
            var after := Drift(p, PutAll(p, Echo(init + [c]), color), Erased(init + [c]));
            var erases := c == BACKSPACE && Erased(init) != [];
            && after >= 0
            && (after == 0 <==> before == 0 && (erases ==> (p.col + |Erased(init)|) % WIDTH != 0))
  {
    ErasedMore(init, c);
    if c != BACKSPACE || Erased(init) != [] {
      DriftOne(p, PutAll(p, Echo(init), color), Erased(init), c, color);
      PutAllMore(p, Echo(init), c, color);
    }
  }

  /** The cursor never falls behind the line's end, and stays there exactly as
      long as the keystrokes are retraceable. */
  lemma {:induction false} EchoDrifts(p: Paper, s: seq<Byte>, color: Byte)
    requires Vga.Good(p) && Simple(s)
    ensures var drift := Drift(p, PutAll(p, Echo(s), color), Erased(s));
            drift >= 0 && (drift == 0 <==> Retraceable(p, s))
  {
    if s != [] {
      var init, c := s[..|s| - 1], s[|s| - 1];
      assert s == init + [c];
      EchoDrifts(p, init, color);
      RetraceableMore(p, s);
      DriftMore(p, init, c, color);
    }
  }

  /** The line is on the tape after one more keystroke. */
  lemma ShownOne(p: Paper, q: Paper, line: seq<Byte>, c: Byte, color: Byte)
    requires Vga.Good(p) && Vga.Good(q) && Tape(q) == Tape(p) + Cells(line, color)
    requires Plain(c) || (c == BACKSPACE && line != [] && q.col > 0)
    ensures Vga.Good(Put(q, c, color)) && Tape(Put(q, c, color)) == Tape(p) + Cells(Press(line, c), color)
  {
    if Plain(c) {
      PlainTape(q, c, color);
      CellsMore(line, c, color);
      assert Tape(p) + Cells(line, color) + [Cell(c, color)] == Tape(p) + (Cells(line, color) + [Cell(c, color)]);
    } else {
      BackTape(q, color);
      var rest, last := line[..|line| - 1], line[|line| - 1];
      assert line == rest + [last];
      CellsMore(rest, last, color);
      assert Tape(q) == Tape(p) + Cells(rest, color) + [Cell(last, color)];
    }
  }

  lemma {:induction false} EchoOnTape(p: Paper, s: seq<Byte>, color: Byte)
    requires Vga.Good(p) && Simple(s) && Retraceable(p, s)
    ensures Tape(PutAll(p, Echo(s), color)) == Tape(p) + Cells(Erased(s), color)
  {
    if s == [] {
      assert Tape(p) + [] == Tape(p);
    } else {
      var init, c := s[..|s| - 1], s[|s| - 1];
      RetraceableMore(p, s);
      EchoOnTape(p, init, color);
      if c != BACKSPACE || Erased(init) != [] {
        var q := PutAll(p, Echo(init), color);
        EchoDrifts(p, init, color);
        DriftOne(p, q, Erased(init), c, color);
        assert RetraceableAt(p, s, |init|);
        ShownOne(p, q, Erased(init), c, color);
        PutAllMore(p, Echo(init), c, color);
      }
    }
  }

  /** The echo leaves exactly the line read on the screen, right of where the
      cursor was, if and only if no erasing backspace meets the left edge: there
      vga_putchar does not go back a row. */
  lemma EchoShowsLine(p: Paper, s: seq<Byte>, color: Byte)
    requires Vga.Good(p) && Simple(s)
    ensures Tape(PutAll(p, Echo(s), color)) == Tape(p) + Cells(Erased(s), color) <==> Retraceable(p, s)
  {
    EchoDrifts(p, s, color);
    if Retraceable(p, s) {
      EchoOnTape(p, s, color);
    } else {
      CellsMore(Erased(s), NUL, color);
      assert |Tape(PutAll(p, Echo(s), color))| > |Tape(p) + Cells(Erased(s), color)|;
    }
  }

  /** A line that stays short of the right edge is always shown as read. */
  lemma ShortIsRetraceable(p: Paper, s: seq<Byte>)
    requires Vga.Good(p) && forall k :: 0 <= k < |s| ==> p.col + |Erased(s[..k])| < WIDTH
    ensures Retraceable(p, s)
  {
    forall k | 0 <= k < |s|
      ensures RetraceableAt(p, s, k)
    {
      assert p.col + |Erased(s[..k])| < WIDTH;
    }
  }

  /** One that fills the row and is then taken back is not: the character in the
      last column stays on the screen. */
  lemma WrappedLineStays(p: Paper, color: Byte)
    requires Vga.Good(p) && p.col == WIDTH - 1
    ensures var s := [97, BACKSPACE];
            Erased(s) == [] && Tape(PutAll(p, Echo(s), color)) == Tape(p) + [Cell(97, color)]
  {
    var s: seq<Byte> := [97, BACKSPACE];
    ErasedMore([], 97);
    ErasedMore([97], BACKSPACE);
    assert [] + [97] == [97] && [97] + [BACKSPACE] == s;
    PutAllMore(p, [], 97, color);
    PutAllMore(p, [97], BACKSPACE, color);
    PlainTape(p, 97, color);
  }

  // ---- Tabs, on a blank screen ----

  /** Everything from the cursor on is blank, as on a cleared screen. */
  ghost predicate BlankAhead(p: Paper, color: Byte)
    requires Vga.Good(p)
  {
    forall i, j :: p.row <= i < |p.log| && 0 <= j < WIDTH && (i > p.row || j >= p.col) ==>
      p.log[i][j] == Cell(SPACE, color)
  }

  /** What a line read can contain: anything but newline and carriage return. */
  predicate Typable(c: Byte)
  {
    c != NEWLINE && c != RETURN
  }

  /** The column after a character printed at `col`. */
  function NextColumn(col: nat, c: Byte): nat
  {
    var next := if c == TAB then (col + 4) / 4 * 4 else col + 1;
    if next >= WIDTH then 0 else next
  }

  function ColumnAfter(col: nat, line: seq<Byte>): nat
  {
    if line == [] then col else NextColumn(ColumnAfter(col, line[..|line| - 1]), line[|line| - 1])
  }

  /** A backspace takes back one column, so not a tab that moved on by more, nor
      anything that ended in the last column. */
  predicate TakenBack(col: nat, c: Byte)
  {
    col + 1 < WIDTH && (c == TAB ==> col % 4 == 3)
  }

  /** The keystroke at `k`, if it erases a character, takes back exactly the column
      that character took. */
  ghost predicate UndoableAt(p: Paper, s: seq<Byte>, k: nat)
    requires k < |s|
  {
    var line := Erased(s[..k]);
    s[k] == BACKSPACE && line != [] ==> TakenBack(ColumnAfter(p.col, line[..|line| - 1]), line[|line| - 1])
  }

  lemma PutColumn(p: Paper, c: Byte, color: Byte)
    requires Vga.Good(p) && BlankAhead(p, color) && Typable(c) && c != BACKSPACE
    ensures var q := Put(p, c, color);
            Vga.Good(q) && BlankAhead(q, color) && q.col == NextColumn(p.col, c)
  {
    PutKeeps(p, c, color);
  }

  /** A backspace right after a character leaves the paper as it was before it
      exactly if it takes back the column. */
  lemma Undone(p: Paper, c: Byte, color: Byte)
    requires Vga.Good(p) && BlankAhead(p, color) && Typable(c) && c != BACKSPACE
    ensures Vga.Good(Put(p, c, color))
    ensures Put(Put(p, c, color), BACKSPACE, color) == p <==> TakenBack(p.col, c)
  {
    PutColumn(p, c, color);
    if TakenBack(p.col, c) {
      var q := Put(Put(p, c, color), BACKSPACE, color);
      assert q.log[p.row] == p.log[p.row];
      assert q.log == p.log;
    }
  }

  lemma {:induction false} ErasedTypable(s: seq<Byte>)
    requires forall i :: 0 <= i < |s| ==> Typable(s[i])
    ensures forall i :: 0 <= i < |Erased(s)| ==> Typable(Erased(s)[i]) && Erased(s)[i] != BACKSPACE
  {
    if s != [] {
      ErasedTypable(s[..|s| - 1]);
    }
  }

  lemma {:induction false} LineColumn(p: Paper, line: seq<Byte>, color: Byte)
    requires Vga.Good(p) && BlankAhead(p, color)
    requires forall i :: 0 <= i < |line| ==> Typable(line[i]) && line[i] != BACKSPACE
    ensures var q := PutAll(p, line, color);
            BlankAhead(q, color) && q.col == ColumnAfter(p.col, line)
  {
    if line != [] {
      var init, c := line[..|line| - 1], line[|line| - 1];
      LineColumn(p, init, color);
      PutAllMore(p, init, c, color);
      assert line == init + [c];
      PutColumn(PutAll(p, init, color), c, color);
    }
  }

  /** The echo of the first `k` keystrokes has printed what printing the line they
      make would have. */
  ghost predicate SameAt(p: Paper, s: seq<Byte>, k: nat, color: Byte)
    requires Vga.Good(p) && k <= |s|
  {
    PutAll(p, Echo(s[..k]), color) == PutAll(p, Erased(s[..k]), color)
  }

  /** One more keystroke keeps it so exactly if it can be undone. */
  lemma SameMore(p: Paper, s: seq<Byte>, k: nat, color: Byte)
    requires Vga.Good(p) && BlankAhead(p, color) && forall i :: 0 <= i < |s| ==> Typable(s[i])
    requires k < |s| && SameAt(p, s, k, color)
    ensures SameAt(p, s, k + 1, color) <==> UndoableAt(p, s, k)
  {
    var before, c, line := s[..k], s[k], Erased(s[..k]);
    assert s[..k + 1] == before + [c];
    ErasedMore(before, c);
    ErasedTypable(before);
    if c != BACKSPACE {
      PutAllMore(p, Echo(before), c, color);
      PutAllMore(p, line, c, color);
    } else if line != [] {
      var rest, last := line[..|line| - 1], line[|line| - 1];
      assert line == rest + [last];
      PutAllMore(p, Echo(before), BACKSPACE, color);
      PutAllMore(p, rest, last, color);
      LineColumn(p, rest, color);
      Undone(PutAll(p, rest, color), last, color);
    }
  }

  lemma {:induction false} SameUpTo(p: Paper, s: seq<Byte>, n: nat, color: Byte)
    requires Vga.Good(p) && BlankAhead(p, color) && n <= |s| && forall i :: 0 <= i < |s| ==> Typable(s[i])
    requires forall k :: 0 <= k < n ==> UndoableAt(p, s, k)
    ensures SameAt(p, s, n, color)
  {
    if n == 0 {
      assert s[..0] == [];
    } else {
      SameUpTo(p, s, n - 1, color);
      SameMore(p, s, n - 1, color);
    }
  }

  /** Tabs included, on a screen blank from the cursor on: the echo has at every
      keystroke printed what printing the line read so far would have, if and only
      if every erasing backspace takes back the column its character took. */
  lemma EchoPrintsLine(p: Paper, s: seq<Byte>, color: Byte)
    requires Vga.Good(p) && BlankAhead(p, color) && forall i :: 0 <= i < |s| ==> Typable(s[i])
    ensures (forall k :: 0 <= k <= |s| ==> SameAt(p, s, k, color)) <==> forall k :: 0 <= k < |s| ==> UndoableAt(p, s, k)
  {
    if forall k :: 0 <= k <= |s| ==> SameAt(p, s, k, color) {
      forall k | 0 <= k < |s|
        ensures UndoableAt(p, s, k)
      {
        assert SameAt(p, s, k, color) && SameAt(p, s, k + 1, color);
        SameMore(p, s, k, color);
      }
    }
    if forall k :: 0 <= k < |s| ==> UndoableAt(p, s, k) {
      forall k | 0 <= k <= |s|
        ensures SameAt(p, s, k, color)
      {
        SameUpTo(p, s, k, color);
      }
    }
  }

  /** A cleared screen is blank ahead. */
  lemma ClearedIsBlank(color: Byte)
    ensures Vga.Good(Cleared(color)) && BlankAhead(Cleared(color), color)
  {
  }

  /** A tab typed at the left edge and taken back leaves the cursor three columns
      from where it was. */
  lemma TabStays(color: Byte)
    ensures var p, s := Cleared(color), [TAB, BACKSPACE];
            Vga.Good(p) && Erased(s) == [] && PutAll(p, Echo(s), color).col == 3
  {
    var p: Paper, s: seq<Byte> := Cleared(color), [TAB, BACKSPACE];
    ClearedIsBlank(color);
    ErasedMore([], TAB);
    ErasedMore([TAB], BACKSPACE);
    assert [] + [TAB] == [TAB] && [TAB] + [BACKSPACE] == s;
    PutAllMore(p, [], TAB, color);
    PutAllMore(p, [TAB], BACKSPACE, color);
    PutColumn(p, TAB, color);
    PutKeeps(Put(p, TAB, color), BACKSPACE, color);
  }
}
