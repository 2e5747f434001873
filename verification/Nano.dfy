/** The editor's line buffers, edited in place. */
module Nano {
  import opened CString
  import opened Text
  import opened Editor
  import opened Blocks
  import opened HeapRuns
  import opened Heap
  import opened Ownership
  import opened NameTable
  import opened RamFs
  import opened Saves

  /** Shift the tail of a held string right by one and store `c` in the gap. */
  method InsertAt(a: array<Byte>, col: nat, c: Byte, ghost x: seq<Byte>)
    requires Holds(a, 0, x) && col <= |x| && |x| + 1 < a.Length && c != NUL
    modifies a
    ensures Holds(a, 0, x[..col] + [c] + x[col..])
  {
    var len := Strlen(a, 0, x);
    var i := len + 1;
    while i > col
      invariant col <= i <= len + 1
      invariant forall k :: 0 <= k < i && k < len ==> a[k] == x[k]
      invariant forall k :: i < k <= len ==> a[k] == x[k - 1]
      invariant if i == len + 1 then a[len] == NUL else a[len + 1] == NUL
    {
      a[i] := a[i - 1];
      i := i - 1;
    }
    a[col] := c;
    ghost var y := x[..col] + [c] + x[col..];
    assert forall k :: 0 <= k < |x| ==> x[k] != NUL;
    assert forall k :: 0 <= k < |y| ==> a[k] == y[k];
  }

  /** Shift the tail of a held string left over the character at `col`. */
  method DeleteAt(a: array<Byte>, col: nat, ghost x: seq<Byte>)
    requires Holds(a, 0, x) && col < |x|
    modifies a
    ensures Holds(a, 0, x[..col] + x[col + 1..])
  {
    var len := Strlen(a, 0, x);
    var i := col;
    while i < len
      invariant col <= i <= len
      invariant forall k :: 0 <= k < col || i <= k <= len ==> a[k] == old(a[k])
      invariant forall k :: col <= k < i ==> a[k] == old(a[k + 1])
    {
      a[i] := a[i + 1];
      i := i + 1;
    }
    ghost var y := x[..col] + x[col + 1..];
    forall k | 0 <= k < |y|
      ensures a[k] == y[k] && y[k] != NUL
    {
      if k < col {
        assert a[k] == old(a[k]) == x[k];
      } else {
        assert a[k] == old(a[k + 1]) == x[k + 1];
      }
    }
  }

  /** Copy the tail of a held string to another buffer and end the string there. */
  method CutLine(a: array<Byte>, col: nat, b: array<Byte>, ghost x: seq<Byte>)
    requires a != b && Holds(a, 0, x) && col <= |x| && |x| < b.Length
    modifies a, b
    ensures Holds(a, 0, x[..col]) && Holds(b, 0, x[col..])
  {
    HoldsSuffix(a, 0, x, col);
    Strcpy(b, 0, a, col, x[col..]);
    a[col] := NUL;
  }

  /** What one key saves. */
  ghost function SavedBy(s: State, c: Byte): seq<seq<Byte>>
  {
    if c == CTRL_S then [Join(s.lines)] else []
  }

  class LineEditor {
    const lines: seq<array<Byte>>
    var numLines: int
    var curLine: int
    var curCol: int
    ghost var state: State

    /** A hundred separate buffers of eighty bytes. */
    ghost predicate Buffers()
    {
      && |lines| == MAX_LINES
      && (forall i :: 0 <= i < |lines| ==> lines[i].Length == LINE_LEN)
      && (forall i, j :: 0 <= i < j < |lines| ==> lines[i] != lines[j])
    }

    /** The first buffers hold the given lines. */
    ghost predicate HoldLines(ls: seq<seq<Byte>>)
      requires Buffers() && |ls| <= MAX_LINES
      reads lines
    {
      forall i :: 0 <= i < |ls| ==> Holds(lines[i], 0, ls[i])
    }

    /** The buffers hold the abstract state; one fact to its users. */
    ghost predicate Valid()
      reads this, lines
    {
      var sound :=
        && Buffers() && Editor.Good(state) && Roomy(state)
        && numLines == |state.lines| && curLine == state.row && curCol == state.col
        && HoldLines(state.lines);
      sound
    }

    constructor (buffers: seq<array<Byte>>)
      ensures lines == buffers
    {
      lines := buffers;
      numLines, curLine, curCol := 1, 0, 0;
      state := State([[]], 0, 0);
    }

    // ---- One key ----

    method TypeBackspace()
      requires Valid()
      modifies this, lines
      ensures Valid() && state == Backspace(old(state))
    {
      KeySimulates(state, BACKSPACE);
      if curCol > 0 {
        curCol := curCol - 1;
        DeleteAt(lines[curLine], curCol, state.lines[curLine]);
        assert curCol + 1 == state.col;
        state := Backspace(state);
      } else if curLine > 0 {
        MergeLines();
      }
    }

    /** strcpy each line after `from` down to the buffer before it. */
    method ShiftUp(from: nat, n: nat, ghost ls: seq<seq<Byte>>)
      requires Buffers() && from < n == |ls| <= MAX_LINES
      requires forall k :: 0 <= k < n && k != from ==> Holds(lines[k], 0, ls[k])
      requires forall k :: 0 <= k < n ==> |ls[k]| < LINE_LEN
      modifies lines
      ensures forall k :: 0 <= k < from ==> Holds(lines[k], 0, ls[k])
      ensures forall k :: from <= k < n - 1 ==> Holds(lines[k], 0, ls[k + 1])
    {
      var i := from;
      while i < n - 1
        invariant from <= i <= n - 1
        invariant forall k :: 0 <= k < from ==> Holds(lines[k], 0, ls[k])
        invariant forall k :: from <= k < i ==> Holds(lines[k], 0, ls[k + 1])
        invariant forall k :: i < k < n ==> Holds(lines[k], 0, ls[k])
      {
        Strcpy(lines[i], 0, lines[i + 1], 0, ls[i + 1]);
        i := i + 1;
      }
    }

    /** strcpy each line from `from` on up to the buffer after it. */
    method ShiftDown(from: nat, n: nat, ghost ls: seq<seq<Byte>>)
      requires Buffers() && from <= n == |ls| < MAX_LINES && HoldLines(ls)
      requires forall k :: 0 <= k < n ==> |ls[k]| < LINE_LEN
      modifies lines
      ensures forall k :: 0 <= k < from ==> Holds(lines[k], 0, ls[k])
      ensures forall k :: from < k <= n ==> Holds(lines[k], 0, ls[k - 1])
    {
      var i := n;
      while i > from
        invariant from <= i <= n
        invariant forall k :: 0 <= k < i ==> Holds(lines[k], 0, ls[k])
        invariant forall k :: i < k <= n ==> Holds(lines[k], 0, ls[k - 1])
      {
        Strcpy(lines[i], 0, lines[i - 1], 0, ls[i - 1]);
        i := i - 1;
      }
    }

    /** Append the line at `r` to the one above and close the gap. */
    method MergeBuffers(r: nat, n: nat, ghost ls: seq<seq<Byte>>)
      requires Buffers() && 0 < r < n == |ls| <= MAX_LINES && HoldLines(ls)
      requires |ls[r - 1]| + |ls[r]| < LINE_LEN && forall k :: 0 <= k < n ==> |ls[k]| < LINE_LEN
      modifies lines
      ensures HoldLines(ls[..r - 1] + [ls[r - 1] + ls[r]] + ls[r + 1..])
    {
      Strcat(lines[r - 1], 0, ls[r - 1], lines[r], 0, ls[r]);
      ghost var merged := ls[r - 1 := ls[r - 1] + ls[r]];
      ShiftUp(r, n, merged);
      lines[n - 1][0] := NUL;
      ghost var after := ls[..r - 1] + [ls[r - 1] + ls[r]] + ls[r + 1..];
      forall k | 0 <= k < |after|
        ensures Holds(lines[k], 0, after[k])
      {
        assert k < r ==> after[k] == merged[k];
        assert k >= r ==> after[k] == merged[k + 1];
      }
    }

    /** The merge always fits: every line above has room for the cursor's. */
    method MergeLines()
      requires Valid() && curCol == 0 < curLine
      modifies this, lines
      ensures Valid() && state == Backspace(old(state))
    {
      MergeFits(state);
      curLine := curLine - 1;
      curCol := Strlen(lines[curLine], 0, state.lines[curLine]);
      MergeBuffers(curLine + 1, numLines, state.lines);
      numLines := numLines - 1;
      state := Backspace(state);
    }

    method TypeEnter(c: Byte)
      requires Valid() && IsEnter(c)
      modifies this, lines
      ensures Valid() && state == Enter(old(state))
    {
      KeySimulates(state, c);
      if numLines < MAX_LINES {
        SplitLine();
      }
    }

    /** Shift the lines below down and cut the line at `r` in two. */
    method SplitBuffers(r: nat, col: nat, n: nat, ghost ls: seq<seq<Byte>>)
      requires Buffers() && r < n == |ls| < MAX_LINES && HoldLines(ls) && col <= |ls[r]|
      requires forall k :: 0 <= k < n ==> |ls[k]| < LINE_LEN
      modifies lines
      ensures HoldLines(ls[..r] + [ls[r][..col], ls[r][col..]] + ls[r + 1..])
    {
      ShiftDown(r + 1, n, ls);
      CutLine(lines[r], col, lines[r + 1], ls[r]);
      ghost var after := ls[..r] + [ls[r][..col], ls[r][col..]] + ls[r + 1..];
      forall k | 0 <= k < |after|
        ensures Holds(lines[k], 0, after[k])
      {
        assert k < r ==> after[k] == ls[k];
        assert k > r + 1 ==> after[k] == ls[k - 1];
      }
    }

    method SplitLine()
      requires Valid() && numLines < MAX_LINES
      modifies this, lines
      ensures Valid() && state == Enter(old(state))
    {
      EnterGood(state);
      SplitBuffers(curLine, curCol, numLines, state.lines);
      numLines := numLines + 1;
      curLine := curLine + 1;
      curCol := 0;
      state := Enter(state);
    }

    method TypeCharacter(c: Byte)
      requires Valid() && Printable(c)
      modifies this, lines
      ensures Valid() && state == Insert(old(state), c)
    {
      InsertGood(state, c);
      var len := Strlen(lines[curLine], 0, state.lines[curLine]);
      if len < LINE_LEN - 1 {
        InsertAt(lines[curLine], curCol, c, state.lines[curLine]);
        curCol := curCol + 1;
        state := Insert(state, c);
      }
    }

    /** The editing keys, then the bounds checks. */
    method TypeKey(c: Byte)
      requires Valid()
      modifies this, lines
      ensures Valid() && state == Key(old(state), c)
    {
      if c == BACKSPACE {
        TypeBackspace();
      } else if c == NEWLINE || c == RETURN {
        TypeEnter(c);
      } else if c >= 32 && c < 127 {
        TypeCharacter(c);
      }
      ClampCursor();
    }

    /** The bounds checks after each key; in every reachable state they leave the
        cursor where it is. */
    method ClampCursor()
      requires Valid()
      modifies this`curLine, this`curCol
      ensures Valid() && curLine == old(curLine) && curCol == old(curCol)
    {
      curLine := if curLine < 0 then 0 else curLine;
      curLine := if curLine >= numLines then numLines - 1 else curLine;
      curCol := if curCol < 0 then 0 else curCol;
      var len := Strlen(lines[curLine], 0, state.lines[curLine]);
      curCol := if curCol > len then len else curCol;
    }

    // ---- Loading ----

    /** Empty every line buffer, as after their allocation. */
    method Clear()
      requires Buffers()
      modifies this, lines
      ensures Valid() && state == State([[]], 0, 0)
    {
      ClearLines();
      numLines, curLine, curCol := 1, 0, 0;
      state := State([[]], 0, 0);
    }

    method ClearLines()
      requires Buffers()
      modifies lines
      ensures forall k :: 0 <= k < MAX_LINES ==> Holds(lines[k], 0, [])
    {
      for i := 0 to MAX_LINES
        invariant forall k :: 0 <= k < i ==> Holds(lines[k], 0, [])
      {
        lines[i][0] := NUL;
      }
    }

    /** Copy a line of the text into a buffer, clipped to 79 characters. */
    method CopyLine(dst: array<Byte>, content: array<Byte>, off: nat, start: nat, end: nat, ghost t: seq<Byte>)
      requires dst != content && dst.Length == LINE_LEN && Holds(content, off, t) && start <= end <= |t|
      modifies dst
      ensures Holds(dst, 0, Clip(t[start..end]))
    {
      var len := end - start;
      if len >= LINE_LEN {
        len := LINE_LEN - 1;
      }
      HoldsSuffix(content, off, t, start);
      Strncpy(dst, 0, content, off + start, len, t[start..]);
      dst[len] := NUL;
      ghost var l := Clip(t[start..end]);
      forall k | 0 <= k < |l|
        ensures dst[k] == l[k] && l[k] != NUL
      {
        assert l[k] == t[start + k] == t[start..][k];
      }
    }

    /** One round of the load loop: copy the line at `p` and step past its newline. */
    method ParseLine(dst: array<Byte>, content: array<Byte>, off: nat, p: nat, ghost t: seq<Byte>)
      returns (next: nat, ghost line: seq<Byte>)
      requires dst != content && dst.Length == LINE_LEN && Holds(content, off, t) && p < |t|
      modifies dst
      ensures p < next <= |t| && Holds(dst, 0, line)
      ensures line == FirstLine(t[p..]) && t[next..] == AfterLine(t[p..])
    {
      ghost var rest := t[p..];
      line := FirstLine(rest);
      next := FindLineEnd(content, off, p, t);
      CopyLine(dst, content, off, p, next, t);
      assert rest[..LineEnd(rest)] == t[p..next];
      HoldsAt(content, off, t, next);
      assert next < |t| ==> content[off + next] == t[next] == rest[LineEnd(rest)];
      if content[off + next] == NEWLINE {
        next := next + 1;
      }
      assert t[next..] == AfterLine(rest);
    }

    /** One more line in the next buffer. */
    method AddLine(num: nat, content: array<Byte>, off: nat, p: nat, ghost t: seq<Byte>, ghost done: seq<seq<Byte>>)
      returns (next: nat, ghost line: seq<Byte>)
      requires Buffers() && content !in lines && Holds(content, off, t) && p < |t|
      requires num == |done| < MAX_LINES && HoldLines(done)
      modifies lines
      ensures p < next <= |t| && Holds(content, off, t) && HoldLines(done + [line])
      ensures line == FirstLine(t[p..]) && t[next..] == AfterLine(t[p..])
    {
      next, line := ParseLine(lines[num], content, off, p, t);
      forall k | 0 <= k < num
        ensures Holds(lines[k], 0, done[k])
      {
        assert lines[k] != lines[num];
        assert old(Holds(lines[k], 0, done[k]));
      }
      HoldMore(done, line);
    }

    lemma HoldMore(done: seq<seq<Byte>>, line: seq<Byte>)
      requires Buffers() && |done| < MAX_LINES && HoldLines(done) && Holds(lines[|done|], 0, line)
      ensures HoldLines(done + [line])
    {
    }

    method ParseLines(content: array<Byte>, off: nat, ghost t: seq<Byte>) returns (num: nat)
      requires Buffers() && content !in lines && Holds(content, off, t) && Holds(lines[0], 0, [])
      modifies lines
      ensures num == |Parsed(t, MAX_LINES)| <= MAX_LINES && HoldLines(Parsed(t, MAX_LINES))
      ensures num == 0 ==> Holds(lines[0], 0, [])
    {
      assert t[0..] == t;
      LinesCut();
      ghost var starts := PiecesStart(FirstLine, AfterLine, t, 0, MAX_LINES);
      num := ParseAll(content, off, t, Parsed(t, MAX_LINES), starts);
    }

    /** The load loop, which visits the starts of the lines in turn. */
    method ParseAll(
      content: array<Byte>, off: nat, ghost t: seq<Byte>, ghost ls: seq<seq<Byte>>, ghost starts: seq<nat>)
      returns (num: nat)
      requires Buffers() && content !in lines && Holds(content, off, t) && Holds(lines[0], 0, [])
      requires PiecesAt(FirstLine, AfterLine, t, 0, MAX_LINES, ls, starts)
      modifies lines
      ensures num == |ls| && HoldLines(ls)
      ensures num == 0 ==> Holds(lines[0], 0, [])
    {
      num := 0;
      var p := 0;
      while content[off + p] != NUL && num < MAX_LINES
        invariant num <= |ls| && p == starts[num] && p <= |t| && Holds(content, off, t)
        invariant HoldLines(ls[..num])
        invariant num == 0 ==> Holds(lines[0], 0, [])
        decreases MAX_LINES - num
      {
        HoldsAt(content, off, t, p);
        p := AddNext(num, content, off, p, t, ls, starts);
        num := num + 1;
      }
      HoldsAt(content, off, t, p);
      AllVisited(FirstLine, AfterLine, t, MAX_LINES, ls, starts, num);
      assert ls[..num] == ls;
    }

    /** One more line of those to be parsed. */
    method AddNext(
      num: nat, content: array<Byte>, off: nat, p: nat,
      ghost t: seq<Byte>, ghost ls: seq<seq<Byte>>, ghost starts: seq<nat>)
      returns (next: nat)
      requires Buffers() && content !in lines && Holds(content, off, t)
      requires PiecesAt(FirstLine, AfterLine, t, 0, MAX_LINES, ls, starts)
      requires num < |ls| && p == starts[num] && HoldLines(ls[..num])
      modifies lines
      ensures next == starts[num + 1] && next <= |t| && Holds(content, off, t) && HoldLines(ls[..num + 1])
    {
      ghost var line;
      assert FollowsAt(FirstLine, AfterLine, t, starts, ls, num);
      next, line := AddLine(num, content, off, p, t, ls[..num]);
      assert |t[next..]| == |t[starts[num + 1]..]|;
      assert ls[..num] + [line] == ls[..num + 1];
    }

    /** Fill cleared buffers from a loaded text. */
    method Load(content: array<Byte>, off: nat, ghost t: seq<Byte>)
      requires Valid() && state == State([[]], 0, 0) && content !in lines && Holds(content, off, t)
      modifies this, lines
      ensures Valid() && state == Opened(t)
    {
      assert Holds(lines[0], 0, []);
      assert NUL !in t;
      OpenedGood(t);
      numLines := ParseLines(content, off, t);
      state := Opened(t);
      if numLines == 0 {
        numLines := 1;
      }
    }

    // ---- Saving ----

    method TotalSize() returns (total: nat)
      requires Valid()
      ensures total == |Join(state.lines)| <= MAX_LINES * LINE_LEN
    {
      ghost var ls := state.lines;
      total := 0;
      var i := 0;
      while i < numLines
        invariant 0 <= i <= |ls| && total == |Join(ls[..i])|
      {
        var len := Strlen(lines[i], 0, ls[i]);
        assert ls[..i + 1] == ls[..i] + [ls[i]];
        JoinLast(ls[..i], ls[i]);
        total := total + len + 1;
        i := i + 1;
      }
      assert ls[..i] == ls;
      assert forall l :: l in ls ==> ValidLine(l);
      JoinSize(ls);
    }

    /** One round of the strcat loop. */
    method SaveLine(fs: FileSystem, p: nat, ghost b: Block, newline: array<Byte>, i: nat)
      requires Valid() && Apart(fs) && fs.Valid() && i < numLines && newline != fs.heap.mem
      requires b in fs.clients && p == b.Payload() && p + |Join(state.lines)| < b.End()
      requires Holds(fs.heap.mem, p, Join(state.lines[..i])) && Holds(newline, 0, [NEWLINE])
      modifies fs.heap.mem
      ensures Valid() && fs.Valid() && Holds(fs.heap.mem, p, Join(state.lines[..i + 1]))
      ensures forall k :: 0 <= k < fs.heap.mem.Length && !(p <= k < b.End()) ==> fs.heap.mem[k] == old(fs.heap.mem[k])
    {
      ghost var ls := state.lines;
      assert ls[..i + 1] == ls[..i] + [ls[i]];
      JoinLast(ls[..i], ls[i]);
      PrefixFits(ls, i + 1);
      fs.StoreString(b, p, Join(ls[..i]), lines[i], ls[i]);
      fs.StoreString(b, p, Join(ls[..i]) + ls[i], newline, [NEWLINE]);
    }

    /** The saved text: every line and a newline, built by repeated strcat. */
    method Save(fs: FileSystem, p: nat, ghost b: Block)
      requires Valid() && Apart(fs) && fs.Valid()
      requires b in fs.clients && p == b.Payload() && p + |Join(state.lines)| < b.End()
      modifies fs.heap.mem
      ensures Valid() && fs.Valid() && Holds(fs.heap.mem, p, Join(state.lines))
      ensures ClientsKept(fs.clients - {b}, old(fs.heap.mem[..]), fs.heap.mem[..])
    {
      ghost var m0 := fs.heap.mem[..];
      var newline := new Byte[2];
      newline[0], newline[1] := NEWLINE, NUL;
      fs.StoreByte(b, p, NUL);
      SaveLines(fs, p, b, newline);
      LiveBlock(fs.heap.blocks, b);
      StoreKeepsClients(fs.heap.blocks, fs.clients - {b}, b, m0, fs.heap.mem[..]);
    }

    /** The strcat loop. */
    method SaveLines(fs: FileSystem, p: nat, ghost b: Block, newline: array<Byte>)
      requires Valid() && Apart(fs) && fs.Valid() && newline != fs.heap.mem
      requires Holds(fs.heap.mem, p, []) && Holds(newline, 0, [NEWLINE])
      requires b in fs.clients && p == b.Payload() && p + |Join(state.lines)| < b.End()
      modifies fs.heap.mem
      ensures Valid() && fs.Valid() && Holds(fs.heap.mem, p, Join(state.lines))
      ensures forall k :: 0 <= k < fs.heap.mem.Length && !(p <= k < b.End()) ==> fs.heap.mem[k] == old(fs.heap.mem[k])
    {
      ghost var ls := state.lines;
      var i := 0;
      while i < numLines
        invariant 0 <= i <= |ls| && Valid() && fs.Valid()
        invariant Holds(fs.heap.mem, p, Join(ls[..i])) && Holds(newline, 0, [NEWLINE])
        invariant forall k :: 0 <= k < fs.heap.mem.Length && !(p <= k < b.End()) ==>
                                fs.heap.mem[k] == old(fs.heap.mem[k])
      {
        SaveLine(fs, p, b, newline, i);
        i := i + 1;
      }
      assert ls[..i] == ls;
    }

    lemma PrefixFits(ls: seq<seq<Byte>>, n: nat)
      requires n <= |ls|
      ensures |Join(ls[..n])| <= |Join(ls)|
    {
      JoinConcat(ls[..n], ls[n..]);
      assert ls == ls[..n] + ls[n..];
    }

    // ---- Files ----

    /** The line buffers are not the file system's memory. */
    ghost predicate Apart(fs: FileSystem)
    {
      fs.heap.mem !in lines && fs.names !in lines
    }

    /** What every round of the editor loop keeps; `f` is an open file or -1. */
    ghost predicate Steady(fs: FileSystem, f: int)
      reads this, lines, fs, fs.names, fs.entries, fs.heap, fs.heap.mem
    {
      Valid() && Apart(fs) && fs.Valid() && (f == -1 || fs.IsFile(f))
    }

    /** Ctrl+S: build the text in a heap buffer and write it to the file, if there
        is one. */
    method SaveTo(fs: FileSystem, f: int) returns (out: Saved)
      requires Steady(fs, f)
      modifies fs`slots, fs`held, fs`clients, fs`directoryWritten, fs.entries, fs.heap, fs.heap.mem
      ensures Steady(fs, f) && fs.clients == old(fs.clients)
      ensures ClientsKept(fs.clients, old(fs.heap.mem[..]), fs.heap.mem[..])
      ensures DiskOf(fs) == Saves.Save(old(DiskOf(fs)), f, Join(state.lines))
      ensures out == Answer(old(DiskOf(fs)), f, Join(state.lines))
      // The freed buffer leaves room for another of its size.
      ensures out != NoBuffer ==> !NoTextRoom(fs.heap.blocks, |Join(state.lines)|)
      ensures StoredBy(fs, f, Join(state.lines), out)
    {
      var total := TotalSize();
      out := SaveText(fs, f, total, Join(state.lines));
    }

    /** After a successful write the file holds the text. */
    ghost predicate StoredBy(fs: FileSystem, f: int, text: seq<Byte>, out: Saved)
      reads fs
    {
      out.Written? && out.r >= 0 ==> fs.IsFile(f) && fs.slots[f].body == Bytes(text) && out.r == |text|
    }

    /** The save of a text of known length. */
    method SaveText(fs: FileSystem, f: int, n: nat, ghost text: seq<Byte>) returns (out: Saved)
      requires Steady(fs, f)
      requires text == Join(state.lines) && 0 < n == |text| <= MAX_LINES * LINE_LEN
      modifies fs`slots, fs`held, fs`clients, fs`directoryWritten, fs.entries, fs.heap, fs.heap.mem
      ensures Steady(fs, f) && fs.clients == old(fs.clients)
      ensures ClientsKept(fs.clients, old(fs.heap.mem[..]), fs.heap.mem[..])
      ensures DiskOf(fs) == Saves.Save(old(DiskOf(fs)), f, text) && out == Answer(old(DiskOf(fs)), f, text)
      ensures out != NoBuffer ==> !NoTextRoom(fs.heap.blocks, |text|)
      ensures StoredBy(fs, f, text, out)
    {
      ghost var m0, d0 := fs.heap.mem[..], DiskOf(fs);
      var p;
      ghost var b;
      p, b := BorrowBuffer(fs, n);
      if p == NULL {
        return NoBuffer;
      }
      ghost var m1 := fs.heap.mem[..];
      Save(fs, p, b);
      ghost var m2 := fs.heap.mem[..];
      out := WriteAndFree(fs, f, n, p, b, text);
      ClientsKeptThrough(old(fs.clients), m1, m2, fs.heap.mem[..]);
      ClientsKeptThrough(old(fs.clients), m0, m1, fs.heap.mem[..]);
    }

    /** A heap buffer for `n` characters and a NUL. */
    method BorrowBuffer(fs: FileSystem, n: nat) returns (p: nat, ghost b: Block)
      requires fs.Valid() && n <= MAX_SIZE
      modifies fs`clients, fs.heap, fs.heap.mem
      ensures fs.Valid() && ClientsKept(old(fs.clients), old(fs.heap.mem[..]), fs.heap.mem[..])
      ensures p == NULL <==> NoTextRoom(old(fs.heap.blocks), n)
      ensures p == NULL ==> fs.clients == old(fs.clients) && DiskOf(fs) == old(DiskOf(fs))
      ensures p != NULL ==> && b !in old(fs.clients) && fs.clients == old(fs.clients) + {b}
                            && fs.clients - {b} == old(fs.clients)
                            && p == b.Payload() && p + n < b.End() && HoldsText(b, n)
                            && UsedBlocks(fs.heap.blocks) == UsedBlocks(old(fs.heap.blocks)) + {b}
      ensures p != NULL ==> b == BufferFor(old(DiskOf(fs)), n) && DiskOf(fs) == WithBuffer(old(DiskOf(fs)), n)
    {
      p, b := fs.Obtain(n + 1);
    }

    /** The block was given for `n` characters and a NUL. */
    ghost predicate HoldsText(b: Block, n: nat)
    {
      Total(n + 1) <= b.size
    }

    /** The rest of a save: write the text, if the file is there, and free the
        buffer. */
    method WriteAndFree(fs: FileSystem, f: int, ghost n: nat, p: nat, ghost b: Block, ghost text: seq<Byte>)
      returns (out: Saved)
      requires Steady(fs, f) && Holds(fs.heap.mem, p, text) && 0 < n == |text| <= MAX_LINES * LINE_LEN
      requires b in fs.clients && p == b.Payload() && p + |text| < b.End() && HoldsText(b, n)
      modifies fs`slots, fs`held, fs`clients, fs`directoryWritten, fs.entries, fs.heap, fs.heap.mem
      ensures Steady(fs, f) && fs.clients == old(fs.clients) - {b}
      ensures ClientsKept(fs.clients, old(fs.heap.mem[..]), fs.heap.mem[..])
      ensures DiskOf(fs) == WithoutBuffer(Write(old(DiskOf(fs)), f, text), b)
      ensures out == WriteAnswer(old(DiskOf(fs)), f, text)
      ensures !NoTextRoom(fs.heap.blocks, n) && StoredBy(fs, f, text, out)
    {
      ghost var m0 := fs.heap.mem[..];
      out := NoFile;
      if f != -1 {
        var r := WriteText(fs, f, p, b, text);
        out := Written(r);
      }
      ghost var m1 := fs.heap.mem[..];
      FreeBuffer(fs, p, b, n);
      ClientsKeptThrough(fs.clients, m0, m1, fs.heap.mem[..]);
    }

    /** Freeing a buffer leaves room for another of its size. */
    method FreeBuffer(fs: FileSystem, p: int, ghost b: Block, ghost n: nat)
      requires fs.Valid() && b in fs.clients && p == b.Payload() && HoldsText(b, n)
      modifies fs`clients, fs.heap, fs.heap.mem
      ensures fs.Valid() && fs.clients == old(fs.clients) - {b}
      ensures ClientsKept(fs.clients, old(fs.heap.mem[..]), fs.heap.mem[..])
      ensures UsedBlocks(fs.heap.blocks) == UsedBlocks(old(fs.heap.blocks)) - {b}
      ensures DiskOf(fs) == WithoutBuffer(old(DiskOf(fs)), b) && !NoTextRoom(fs.heap.blocks, n)
    {
      ghost var blocks := fs.heap.blocks;
      fs.ClientFree(p, b);
      fs.FreedBuffer(blocks, b, n + 1);
    }

    /** fs_write of the string in the buffer. */
    method WriteText(fs: FileSystem, f: nat, p: nat, ghost b: Block, ghost text: seq<Byte>) returns (r: int)
      requires fs.Valid() && fs.IsFile(f) && b in fs.clients && p == b.Payload() && p + |text| < b.End()
      requires Holds(fs.heap.mem, p, text) && 0 < |text| <= MAX_LINES * LINE_LEN
      modifies fs`slots, fs`held, fs`clients, fs`directoryWritten, fs.entries, fs.heap, fs.heap.mem
      ensures fs.Valid() && fs.IsFile(f) && fs.clients == old(fs.clients)
      ensures ClientsKept(fs.clients, old(fs.heap.mem[..]), fs.heap.mem[..])
      ensures DiskOf(fs) == Write(old(DiskOf(fs)), f, text) && Written(r) == WriteAnswer(old(DiskOf(fs)), f, text)
      ensures StoredBy(fs, f, text, Written(r))
    {
      var len := Strlen(fs.heap.mem, p, text);
      assert fs.heap.mem[p..p + len] == text;
      r := fs.FsWrite(f, fs.heap.mem, p, len, b);
    }

    /** Read a whole file into a heap buffer and terminate it. */
    method ReadInto(fs: FileSystem, f: nat, size: nat, p: nat, ghost b: Block) returns (ghost bytes: seq<Byte>)
      requires fs.Valid() && fs.IsFile(f) && 0 < size == fs.slots[f].body.Size()
      requires b in fs.clients && p == b.Payload() && p + size < b.End()
      modifies fs.heap.mem
      ensures fs.Valid() && |bytes| == size && Holds(fs.heap.mem, p, UpToNul(bytes))
      ensures fs.slots[f].body.Bytes? ==> bytes == fs.slots[f].body.content
      ensures forall k :: 0 <= k < fs.heap.mem.Length && !(p <= k < b.End()) ==> fs.heap.mem[k] == old(fs.heap.mem[k])
    {
      bytes := ReadAll(fs, f, size, p, b);
      ghost var m1 := fs.heap.mem[..];
      fs.StoreByte(b, p + size, NUL);
      SliceSame(m1, fs.heap.mem[..], p, size);
      assert fs.heap.mem[..][p..p + size] == fs.heap.mem[p..p + size];
      HoldsUpToNul(fs.heap.mem, p, bytes);
    }

    method ReadAll(fs: FileSystem, f: nat, size: nat, p: nat, ghost b: Block) returns (ghost bytes: seq<Byte>)
      requires fs.Valid() && fs.IsFile(f) && 0 < size == fs.slots[f].body.Size()
      requires b in fs.clients && p == b.Payload() && p + size < b.End()
      modifies fs.heap.mem
      ensures fs.Valid() && p + size < fs.heap.mem.Length && bytes == fs.heap.mem[..][p..p + size]
      ensures fs.slots[f].body.Bytes? ==> bytes == fs.slots[f].body.content
      ensures forall k :: 0 <= k < fs.heap.mem.Length && !(p <= k < b.End()) ==> fs.heap.mem[k] == old(fs.heap.mem[k])
    {
      LiveBlock(fs.heap.blocks, b);
      ghost var body := fs.slots[f].body;
      var r := fs.FsRead(f, fs.heap.mem, p, size, 0, b);
      bytes := fs.heap.mem[p..p + r];
      assert fs.heap.mem[..][p..p + r] == bytes;
      if body.Bytes? {
        assert body.content[0..r] == body.content;
      }
    }

    lemma SliceSame(m1: seq<Byte>, m2: seq<Byte>, p: nat, n: nat)
      requires p + n < |m1| == |m2| && forall k :: 0 <= k < |m1| && k != p + n ==> m2[k] == m1[k]
      ensures m2[p..p + n] == m1[p..p + n]
    {
    }

    /** Open a file: its text up to the first NUL, parsed into cleared buffers. A
        file that lost its data shows whatever bytes the buffer held. */
    method LoadFrom(fs: FileSystem, f: int) returns (size: nat, ghost bytes: seq<Byte>)
      requires Valid() && state == State([[]], 0, 0) && Apart(fs) && fs.Valid() && (f == -1 || fs.IsFile(f))
      modifies this, lines, fs`clients, fs.heap, fs.heap.mem
      ensures Valid() && fs.Valid() && fs.clients == old(fs.clients) && fs.heap.blocks == old(fs.heap.blocks)
      ensures ClientsKept(fs.clients, old(fs.heap.mem[..]), fs.heap.mem[..])
      ensures size == |bytes| == if f == -1 then 0 else fs.slots[f].body.Size()
      ensures f != -1 && fs.slots[f].body.Bytes? ==> bytes == fs.slots[f].body.content
      ensures state == if NoTextRoom(old(fs.heap.blocks), size) then State([[]], 0, 0) else Opened(UpToNul(bytes))
    {
      size := fs.FsGetSize(f);
      bytes := [];
      if size > 0 {
        bytes := LoadContent(fs, f, size);
      } else {
        OpenedEmpty();
      }
    }

    /** The part of loading that needs a buffer. */
    method LoadContent(fs: FileSystem, f: nat, size: nat) returns (ghost bytes: seq<Byte>)
      requires Valid() && state == State([[]], 0, 0) && Apart(fs) && fs.Valid() && fs.IsFile(f)
      requires 0 < size == fs.slots[f].body.Size()
      modifies this, lines, fs`clients, fs.heap, fs.heap.mem
      ensures Valid() && fs.Valid() && fs.clients == old(fs.clients) && fs.heap.blocks == old(fs.heap.blocks)
      ensures ClientsKept(fs.clients, old(fs.heap.mem[..]), fs.heap.mem[..])
      ensures |bytes| == size && (fs.slots[f].body.Bytes? ==> bytes == fs.slots[f].body.content)
      ensures state == if NoTextRoom(old(fs.heap.blocks), size) then State([[]], 0, 0) else Opened(UpToNul(bytes))
    {
      ghost var m0 := fs.heap.mem[..];
      fs.SizeBound(f);
      var p;
      ghost var b;
      p, b := BorrowBuffer(fs, size);
      if p == NULL {
        bytes := if fs.slots[f].body.Bytes? then fs.slots[f].body.content else seq(size, _ => NUL);
      } else {
        ghost var m1 := fs.heap.mem[..];
        bytes := ReadInto(fs, f, size, p, b);
        ParseAndFree(fs, p, b, UpToNul(bytes), m1);
        ClientsKeptThrough(old(fs.clients), m0, m1, fs.heap.mem[..]);
        assert UsedBlocks(fs.heap.blocks) == UsedBlocks(old(fs.heap.blocks));
        Canonical(fs.heap.blocks, old(fs.heap.blocks));
      }
    }

    /** Parse the text in a heap buffer and free the buffer. */
    method ParseAndFree(fs: FileSystem, p: nat, ghost b: Block, ghost t: seq<Byte>, ghost m1: seq<Byte>)
      requires Valid() && state == State([[]], 0, 0) && Apart(fs) && fs.Valid()
      requires b in fs.clients && p == b.Payload() && Holds(fs.heap.mem, p, t)
      requires |m1| == fs.heap.mem.Length
      requires forall k :: 0 <= k < |m1| && !(p <= k < b.End()) ==> fs.heap.mem[k] == m1[k]
      modifies this, lines, fs`clients, fs.heap, fs.heap.mem
      ensures Valid() && state == Opened(t) && fs.Valid() && fs.clients == old(fs.clients) - {b}
      ensures UsedBlocks(fs.heap.blocks) == UsedBlocks(old(fs.heap.blocks)) - {b}
      ensures ClientsKept(fs.clients, m1, fs.heap.mem[..])
    {
      Load(fs.heap.mem, p, t);
      ghost var m2 := fs.heap.mem[..];
      LiveBlock(fs.heap.blocks, b);
      StoreKeepsClients(fs.heap.blocks, fs.clients - {b}, b, m1, m2);
      fs.ClientFree(p, b);
      ClientsKeptThrough(fs.clients, m1, m2, fs.heap.mem[..]);
    }

    /** What one editor saves, another opens line for line. */
    method SaveAndReopen(fs: FileSystem, f: int, other: LineEditor) returns (out: Saved, size: nat)
      requires Steady(fs, f) && f != -1
      requires other != this && other.Valid() && other.state == State([[]], 0, 0) && other.Apart(fs)
      requires forall a :: a in lines ==> a !in other.lines
      modifies fs`slots, fs`held, fs`clients, fs`directoryWritten, fs.entries, fs.heap, fs.heap.mem, other, other.lines
      ensures fs.Valid() && other.Valid() && fs.clients == old(fs.clients)
      ensures out == Answer(old(DiskOf(fs)), f, Join(state.lines))
      ensures out.Written? && out.r >= 0 ==> size == out.r && other.state == State(state.lines, 0, 0)
    {
      ghost var ls := state.lines;
      assert forall l :: l in ls ==> ValidLine(l);
      out := SaveFile(fs, f);
      ghost var bytes;
      size, bytes := other.LoadFrom(fs, f);
      Reopened(ls);
    }

    /** A save, as far as its reader cares. */
    method SaveFile(fs: FileSystem, f: int) returns (out: Saved)
      requires Steady(fs, f) && f != -1
      modifies fs`slots, fs`held, fs`clients, fs`directoryWritten, fs.entries, fs.heap, fs.heap.mem
      ensures Steady(fs, f) && fs.clients == old(fs.clients)
      ensures out == Answer(old(DiskOf(fs)), f, Join(state.lines))
      ensures out.Written? && out.r >= 0 ==> !NoTextRoom(fs.heap.blocks, |Join(state.lines)|)
      ensures StoredBy(fs, f, Join(state.lines), out)
    {
      out := SaveTo(fs, f);
    }

    // ---- Sessions ----

    /** Between two moments the disk changed by the saves of `texts` alone, with
        the given answers; one fact to its users. */
    ghost predicate SavedSince(
        fs: FileSystem, f: int, m0: seq<Byte>, d0: Disk, texts: seq<seq<Byte>>, saves: seq<Saved>)
      reads fs, fs.heap, fs.heap.mem
    {
      var done :=
        ClientsKept(fs.clients, m0, fs.heap.mem[..]) && SaveAll(Track(d0, []), f, texts) == Track(DiskOf(fs), saves);
      done
    }

    /** One round of the editor loop. */
    method RunKey(fs: FileSystem, f: int, c: Byte) returns (running: bool, saved: seq<Saved>)
      requires Steady(fs, f)
      modifies this, lines, fs`slots, fs`held, fs`clients, fs`directoryWritten, fs.entries, fs.heap, fs.heap.mem
      ensures Steady(fs, f) && state == Key(old(state), c) && fs.clients == old(fs.clients)
      ensures running == (c != CTRL_X)
      ensures SavedSince(fs, f, old(fs.heap.mem[..]), old(DiskOf(fs)), SavedBy(old(state), c), saved)
    {
      running, saved := true, [];
      if c == CTRL_S {
        SavedOnce(Track(DiskOf(fs), []), f, Join(state.lines));
        var out := SaveTo(fs, f);
        saved := [out];
        assert [] + saved == saved;
      } else if c == CTRL_X {
        running := false;
      } else {
        TypeKey(c);
      }
    }

    /** A round after others: what is left of the session and what it has saved. */
    method RunNext(
      fs: FileSystem, f: int, c: Byte, ghost rest: seq<Byte>, ghost m0: seq<Byte>, ghost d0: Disk,
      ghost texts: seq<seq<Byte>>, ghost saves: seq<Saved>, ghost final: State, ghost all: seq<seq<Byte>>)
      returns (running: bool, saved: seq<Saved>, ghost text: seq<seq<Byte>>, ghost left: seq<Byte>)
      requires Steady(fs, f) && rest != [] && rest[0] == c && SavedSince(fs, f, m0, d0, texts, saves)
      requires Session(state, rest) == final && texts + SavedTexts(state, rest) == all
      modifies this, lines, fs`slots, fs`held, fs`clients, fs`directoryWritten, fs.entries, fs.heap, fs.heap.mem
      ensures Steady(fs, f) && fs.clients == old(fs.clients)
      ensures SavedSince(fs, f, m0, d0, texts + text, saves + saved)
      ensures left == if running then rest[1..] else []
      ensures Session(state, left) == final && texts + text + SavedTexts(state, left) == all
    {
      ghost var m1, d1 := fs.heap.mem[..], DiskOf(fs);
      text := SavedBy(state, c);
      if c != CTRL_X {
        SessionStep(state, rest);
      }
      running, saved := RunKey(fs, f, c);
      left := if running then rest[1..] else [];
      Assoc(texts, text, SavedTexts(state, left));
      ClientsKeptThrough(fs.clients, m0, m1, fs.heap.mem[..]);
      SavedThen(d0, f, texts, Track(d1, saves), text, Track(DiskOf(fs), saved));
    }

    lemma KeysFrom(keys: seq<Byte>, i: nat)
      requires i < |keys|
      ensures keys[i..] != [] && keys[i..][0] == keys[i] && keys[i..][1..] == keys[i + 1..]
    {
    }

    /** The editor loop: keys until Ctrl+X. */
    method RunKeys(fs: FileSystem, f: int, keys: seq<Byte>) returns (saves: seq<Saved>)
      requires Steady(fs, f)
      modifies this, lines, fs`slots, fs`held, fs`clients, fs`directoryWritten, fs.entries, fs.heap, fs.heap.mem
      ensures Steady(fs, f) && state == Session(old(state), keys) && fs.clients == old(fs.clients)
      ensures SavedSince(fs, f, old(fs.heap.mem[..]), old(DiskOf(fs)), SavedTexts(old(state), keys), saves)
    {
      saves := [];
      var i := 0;
      var running := true;
      ghost var m0, d0 := fs.heap.mem[..], DiskOf(fs);
      ghost var rest, texts, final, all := keys, [], Session(state, keys), SavedTexts(state, keys);
      while running && i < |keys|
        invariant 0 <= i <= |keys| && Steady(fs, f) && fs.clients == old(fs.clients)
        invariant rest == if running then keys[i..] else []
        invariant Session(state, rest) == final && texts + SavedTexts(state, rest) == all
        invariant SavedSince(fs, f, m0, d0, texts, saves)
        decreases |keys| - i, running
      {
        ghost var text, left;
        var saved;
        KeysFrom(keys, i);
        running, saved, text, left := RunNext(fs, f, keys[i], rest, m0, d0, texts, saves, final, all);
        texts, saves, rest := texts + text, saves + saved, left;
        i := i + 1;
      }
      assert texts + [] == texts;
    }

    /** The editor loop again: the disk and the answers follow from the disk at its
        start and what was saved; the used blocks differ by the file's alone. */
    method Run(fs: FileSystem, f: int, keys: seq<Byte>) returns (saves: seq<Saved>)
      requires Steady(fs, f)
      modifies this, lines, fs`slots, fs`held, fs`clients, fs`directoryWritten, fs.entries, fs.heap, fs.heap.mem
      ensures Steady(fs, f) && state == Session(old(state), keys) && fs.clients == old(fs.clients)
      ensures ClientsKept(fs.clients, old(fs.heap.mem[..]), fs.heap.mem[..])
      ensures Track(DiskOf(fs), saves) == SaveAll(Track(old(DiskOf(fs)), []), f, SavedTexts(old(state), keys))
      ensures OnlyFile(old(DiskOf(fs)), DiskOf(fs), f) && Exchanged(old(DiskOf(fs)), DiskOf(fs), f)
      ensures f != -1 ==> && |saves| == |SavedTexts(old(state), keys)|
                          && fs.slots[f].body == Shown(old(fs.slots)[f].body, SavedTexts(old(state), keys), saves)
    {
      SaveAllShows(DiskOf(fs), f, SavedTexts(state, keys));
      saves := RunKeys(fs, f, keys);
      ExchangedBy(old(DiskOf(fs)), DiskOf(fs), f, fs.clients, fs.leaked);
    }
  }
}
