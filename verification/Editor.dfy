/** The line editor as a state of lines and cursor, and the flat text it edits:
    what was typed before the cursor and the loaded text after it. */
module Editor {
  import opened CString
  import opened Text

  const MAX_LINES := 100
  const LINE_LEN := 80
  const CTRL_S: Byte := 19
  const CTRL_X: Byte := 24

  datatype State = State(lines: seq<seq<Byte>>, row: nat, col: nat)

  predicate Printable(c: Byte)
  {
    32 <= c < 127
  }

  predicate IsEnter(c: Byte)
  {
    c == NEWLINE || c == RETURN
  }

  predicate ValidLine(l: seq<Byte>)
  {
    |l| < LINE_LEN && NUL !in l && NEWLINE !in l
  }

  ghost predicate Good(s: State)
  {
    && 0 < |s.lines| <= MAX_LINES && s.row < |s.lines| && s.col <= |s.lines[s.row]|
    && forall i :: 0 <= i < |s.lines| ==> ValidLine(s.lines[i])
  }

  /** Every line above the cursor could take the text right of the cursor. */
  ghost predicate Roomy(s: State)
    requires Good(s)
  {
    forall i :: 0 <= i < s.row ==> |s.lines[i]| + |s.lines[s.row]| - s.col < LINE_LEN
  }

  // ---- What a key does to the lines ----

  function Backspace(s: State): State
    requires Good(s)
  {
    var l := s.lines[s.row];
    if s.col > 0 then
      State(s.lines[s.row := l[..s.col - 1] + l[s.col..]], s.row, s.col - 1)
    else if s.row > 0 then
      var above := s.lines[s.row - 1];
      State(s.lines[..s.row - 1] + [above + l] + s.lines[s.row + 1..], s.row - 1, |above|)
    else s
  }

  function Enter(s: State): State
    requires Good(s)
  {
    var l := s.lines[s.row];
    if |s.lines| < MAX_LINES then
      State(s.lines[..s.row] + [l[..s.col], l[s.col..]] + s.lines[s.row + 1..], s.row + 1, 0)
    else s
  }

  function Insert(s: State, c: Byte): State
    requires Good(s)
  {
    var l := s.lines[s.row];
    if |l| < LINE_LEN - 1 then
      State(s.lines[s.row := l[..s.col] + [c] + l[s.col..]], s.row, s.col + 1)
    else s
  }

  function Key(s: State, c: Byte): State
    requires Good(s)
  {
    if c == BACKSPACE then Backspace(s)
    else if IsEnter(c) then Enter(s)
    else if Printable(c) then Insert(s, c)
    else s
  }

  // ---- The flat text ----

  /** The lines after the cursor's, each led by the newline before it. */
  function Below(ls: seq<seq<Byte>>): seq<Byte>
  {
    if ls == [] then [] else [NEWLINE] + ls[0] + Below(ls[1..])
  }

  function Before(s: State): seq<Byte>
    requires Good(s)
  {
    Join(s.lines[..s.row]) + s.lines[s.row][..s.col]
  }

  function After(s: State): seq<Byte>
    requires Good(s)
  {
    s.lines[s.row][s.col..] + Below(s.lines[s.row + 1..])
  }

  function Newlines(t: seq<Byte>): nat
  {
    if t == [] then 0 else (if t[0] == NEWLINE then 1 else 0) + Newlines(t[1..])
  }

  /** How many characters follow the last newline. */
  function LastLineLength(t: seq<Byte>): nat
  {
    if t == [] || t[|t| - 1] == NEWLINE then 0 else 1 + LastLineLength(t[..|t| - 1])
  }

  /** Whether the text has room for a character at the seam of its two halves. */
  ghost predicate Accepts(typed: seq<Byte>, rest: seq<Byte>, c: Byte)
  {
    if IsEnter(c) then Newlines(typed) + Newlines(rest) + 1 < MAX_LINES
    else Printable(c) && LastLineLength(typed) + LineEnd(rest) < LINE_LEN - 1
  }

  /** A key on the typed text as a stack: characters push, Backspace pops. */
  ghost function Stroke(typed: seq<Byte>, rest: seq<Byte>, c: Byte): seq<Byte>
  {
    if c == BACKSPACE then (if typed == [] then [] else typed[..|typed| - 1])
    else if Accepts(typed, rest, c) then typed + [if IsEnter(c) then NEWLINE else c]
    else typed
  }

  lemma {:induction false} NewlinesConcat(a: seq<Byte>, b: seq<Byte>)
    ensures Newlines(a + b) == Newlines(a) + Newlines(b)
  {
    if a == [] {
      assert a + b == b;
    } else {
      NewlinesConcat(a[1..], b);
      assert (a + b)[1..] == a[1..] + b;
    }
  }

  lemma {:induction false} NoNewlines(t: seq<Byte>)
    requires NEWLINE !in t
    ensures Newlines(t) == 0
  {
    if t != [] {
      NoNewlines(t[1..]);
    }
  }

  lemma {:induction false} JoinNewlines(ls: seq<seq<Byte>>)
    requires forall i :: 0 <= i < |ls| ==> NEWLINE !in ls[i]
    ensures Newlines(Join(ls)) == |ls|
    ensures Join(ls) != [] ==> Join(ls)[|Join(ls)| - 1] == NEWLINE
  {
    if ls != [] {
      JoinNewlines(ls[1..]);
      NewlinesConcat(ls[0] + [NEWLINE], Join(ls[1..]));
      NewlinesConcat(ls[0], [NEWLINE]);
      NoNewlines(ls[0]);
      assert Newlines([NEWLINE]) == 1;
    }
  }

  lemma {:induction false} BelowNewlines(ls: seq<seq<Byte>>)
    requires forall i :: 0 <= i < |ls| ==> NEWLINE !in ls[i]
    ensures Newlines(Below(ls)) == |ls|
  {
    if ls != [] {
      BelowNewlines(ls[1..]);
      NewlinesConcat([NEWLINE] + ls[0], Below(ls[1..]));
      NewlinesConcat([NEWLINE], ls[0]);
      NoNewlines(ls[0]);
      assert Newlines([NEWLINE]) == 1;
    }
  }

  lemma {:induction false} LastLineIs(t: seq<Byte>, l: seq<Byte>)
    requires NEWLINE !in l && (t != [] ==> t[|t| - 1] == NEWLINE)
    ensures LastLineLength(t + l) == |l|
  {
    if l == [] {
      assert t + l == t;
    } else {
      var n := |l| - 1;
      assert (t + l)[..|t + l| - 1] == t + l[..n];
      assert (t + l)[|t + l| - 1] == l[n] && l[n] in l;
      LastLineIs(t, l[..n]);
    }
  }

  /** The flat text shows the row, the number of lines, and how long the two
      parts of the cursor's line are. */
  lemma FlatShape(s: State)
    requires Good(s)
    ensures Newlines(Before(s)) == s.row && Newlines(After(s)) == |s.lines| - s.row - 1
    ensures LastLineLength(Before(s)) == s.col && LineEnd(After(s)) == |s.lines[s.row]| - s.col
    ensures Before(s) == [] <==> s.row == 0 && s.col == 0
  {
    var l := s.lines[s.row];
    var above, left, right, below := s.lines[..s.row], l[..s.col], l[s.col..], s.lines[s.row + 1..];
    assert NEWLINE !in l;
    JoinNewlines(above);
    NewlinesConcat(Join(above), left);
    NoNewlines(left);
    LastLineIs(Join(above), left);
    BelowNewlines(below);
    NewlinesConcat(right, Below(below));
    NoNewlines(right);
    assert (right + Below(below))[..|right|] == right;
    LineEndIs(After(s), |right|);
  }

  // ---- Each key simulates a stroke on the flat text ----

  lemma InsertGood(s: State, c: Byte)
    requires Good(s) && Roomy(s) && Printable(c)
    ensures Good(Insert(s, c)) && Roomy(Insert(s, c))
  {
    var l := s.lines[s.row];
    if |l| < LINE_LEN - 1 {
      assert ValidLine(l[..s.col] + [c] + l[s.col..]);
    }
  }

  lemma InsertGrows(s: State, c: Byte)
    requires Good(s) && Roomy(s) && Printable(c) && |s.lines[s.row]| < LINE_LEN - 1
    ensures Good(Insert(s, c)) && After(Insert(s, c)) == After(s) && Before(Insert(s, c)) == Before(s) + [c]
  {
    InsertGood(s, c);
    var l, t := s.lines[s.row], Insert(s, c);
    var l' := t.lines[s.row];
    assert t.lines[..s.row] == s.lines[..s.row] && t.lines[s.row + 1..] == s.lines[s.row + 1..];
    assert l'[s.col + 1..] == l[s.col..] && l'[..s.col + 1] == l[..s.col] + [c];
    assert Join(s.lines[..s.row]) + (l[..s.col] + [c]) == Before(s) + [c];
  }

  lemma InsertSimulates(s: State, c: Byte)
    requires Good(s) && Roomy(s) && Printable(c)
    ensures var t := Insert(s, c);
            Good(t) && Roomy(t) && After(t) == After(s) && Before(t) == Stroke(Before(s), After(s), c)
  {
    FlatShape(s);
    InsertGood(s, c);
    if |s.lines[s.row]| < LINE_LEN - 1 {
      InsertGrows(s, c);
    }
  }

  lemma EnterGood(s: State)
    requires Good(s) && Roomy(s)
    ensures Good(Enter(s)) && Roomy(Enter(s))
  {
    var l, t := s.lines[s.row], Enter(s);
    if |s.lines| < MAX_LINES {
      assert ValidLine(l);
      assert ValidLine(l[..s.col]) && ValidLine(l[s.col..]);
      forall i | 0 <= i < |t.lines|
        ensures ValidLine(t.lines[i])
      {
        assert i < s.row ==> t.lines[i] == s.lines[i];
        assert i > s.row + 1 ==> t.lines[i] == s.lines[i - 1];
      }
    }
  }

  lemma EnterSplits(s: State)
    requires Good(s) && Roomy(s) && |s.lines| < MAX_LINES
    ensures Good(Enter(s)) && After(Enter(s)) == After(s) && Before(Enter(s)) == Before(s) + [NEWLINE]
  {
    EnterGood(s);
    var l, t := s.lines[s.row], Enter(s);
    assert t.lines[..t.row] == s.lines[..s.row] + [l[..s.col]];
    assert t.lines[t.row + 1..] == s.lines[s.row + 1..];
    assert t.lines[t.row][0..] == l[s.col..] && t.lines[t.row][..0] == [];
    JoinLast(s.lines[..s.row], l[..s.col]);
  }

  lemma EnterSimulates(s: State, c: Byte)
    requires Good(s) && Roomy(s) && IsEnter(c)
    ensures var t := Enter(s);
            Good(t) && Roomy(t) && After(t) == After(s) && Before(t) == Stroke(Before(s), After(s), c)
  {
    FlatShape(s);
    EnterGood(s);
    if |s.lines| < MAX_LINES {
      EnterSplits(s);
    }
  }

  lemma EraseSimulates(s: State)
    requires Good(s) && Roomy(s) && s.col > 0
    ensures var t := Backspace(s);
            Good(t) && Roomy(t) && After(t) == After(s) && Before(t) == Before(s)[..|Before(s)| - 1]
  {
    var l, t := s.lines[s.row], Backspace(s);
    var l' := t.lines[s.row];
    assert ValidLine(l);
    assert ValidLine(l');
    assert t.lines[..s.row] == s.lines[..s.row] && t.lines[s.row + 1..] == s.lines[s.row + 1..];
    assert l'[s.col - 1..] == l[s.col..] && l'[..s.col - 1] == l[..s.col][..s.col - 1];
  }

  lemma BackspaceSimulates(s: State)
    requires Good(s) && Roomy(s)
    ensures var t := Backspace(s);
            Good(t) && Roomy(t) && After(t) == After(s) && Before(t) == Stroke(Before(s), After(s), BACKSPACE)
  {
    FlatShape(s);
    if s.col > 0 {
      EraseSimulates(s);
    } else if s.row > 0 {
      MergeSimulates(s, s.lines[s.row - 1], s.lines[s.row]);
    }
  }

  /** A merge fits a line buffer, as do all lines. */
  lemma MergeFits(s: State)
    requires Good(s) && Roomy(s) && s.col == 0 < s.row
    ensures |s.lines[s.row - 1]| + |s.lines[s.row]| < LINE_LEN
    ensures forall i :: 0 <= i < |s.lines| ==> |s.lines[i]| < LINE_LEN
    ensures Good(Backspace(s)) && Roomy(Backspace(s)) && |Backspace(s).lines| == |s.lines| - 1
  {
    KeySimulates(s, BACKSPACE);
    assert forall i :: 0 <= i < |s.lines| ==> ValidLine(s.lines[i]);
  }

  lemma MergeSimulates(s: State, above: seq<Byte>, l: seq<Byte>)
    requires Good(s) && Roomy(s) && s.col == 0 < s.row && above == s.lines[s.row - 1] && l == s.lines[s.row]
    ensures var t := Backspace(s);
            Good(t) && Roomy(t) && After(t) == After(s) && Before(t) == Before(s)[..|Before(s)| - 1]
  {
    var t := Backspace(s);
    assert s.lines[..s.row] == s.lines[..s.row - 1] + [above];
    JoinLast(s.lines[..s.row - 1], above);
    assert t.lines[..t.row] == s.lines[..s.row - 1];
    assert t.lines[t.row + 1..] == s.lines[s.row + 1..];
    assert t.lines[t.row] == above + l;
    assert (above + l)[|above|..] == l && (above + l)[..|above|] == above;
    assert l[..0] == [] && l[0..] == l;
    assert ValidLine(l) && ValidLine(above);
    forall i | 0 <= i < |t.lines|
      ensures ValidLine(t.lines[i])
    {
      assert i < t.row ==> t.lines[i] == s.lines[i];
      assert i > t.row ==> t.lines[i] == s.lines[i + 1];
    }
  }

  lemma KeySimulates(s: State, c: Byte)
    requires Good(s) && Roomy(s)
    ensures var t := Key(s, c);
            Good(t) && Roomy(t) && After(t) == After(s) && Before(t) == Stroke(Before(s), After(s), c)
  {
    if c == BACKSPACE {
      BackspaceSimulates(s);
    } else if IsEnter(c) {
      EnterSimulates(s, c);
    } else if Printable(c) {
      InsertSimulates(s, c);
    }
  }

  /** Every key by its code: 32 to 126 insert on a line shorter than 79, 10 and 13
      start a line while there are fewer than 100, 8 takes back what is before the
      cursor; anything else changes nothing. */
  lemma KeyByCode(s: State, c: Byte)
    requires Good(s) && Roomy(s)
    ensures var t := Key(s, c);
            && Good(t) && After(t) == After(s)
            && (32 <= c <= 126 && |s.lines[s.row]| < 79 ==> Before(t) == Before(s) + [c])
            && ((c == 10 || c == 13) && |s.lines| < 100 ==> Before(t) == Before(s) + [10])
            && (c == 8 && Before(s) != [] ==> Before(t) == Before(s)[..|Before(s)| - 1])
            && (32 <= c <= 126 && |s.lines[s.row]| >= 79 ==> t == s)
            && ((c == 10 || c == 13) && |s.lines| >= 100 ==> t == s)
            && (c == 8 && Before(s) == [] ==> t == s)
            && (!(32 <= c <= 126) && c != 10 && c != 13 && c != 8 ==> t == s)
  {
    KeySimulates(s, c);
    FlatShape(s);
  }

  // ---- Whole sessions ----

  /** The state after the keys; Ctrl+X ends the session. */
  ghost function Session(s: State, keys: seq<Byte>): State
    requires Good(s) && Roomy(s)
    decreases keys
  {
    if keys == [] || keys[0] == CTRL_X then s
    else
      KeySimulates(s, keys[0]);
      Session(Key(s, keys[0]), keys[1..])
  }

  /** The texts written by Ctrl+S during a session. */
  ghost function SavedTexts(s: State, keys: seq<Byte>): seq<seq<Byte>>
    requires Good(s) && Roomy(s)
    decreases keys
  {
    if keys == [] || keys[0] == CTRL_X then []
    else
      KeySimulates(s, keys[0]);
      (if keys[0] == CTRL_S then [Join(s.lines)] else []) + SavedTexts(Key(s, keys[0]), keys[1..])
  }

  lemma SessionStep(s: State, keys: seq<Byte>)
    requires Good(s) && Roomy(s) && keys != [] && keys[0] != CTRL_X
    ensures var t := Key(s, keys[0]);
            && Good(t) && Roomy(t)
            && Session(s, keys) == Session(t, keys[1..])
            && SavedTexts(s, keys) == (if keys[0] == CTRL_S then [Join(s.lines)] else []) + SavedTexts(t, keys[1..])
  {
    KeySimulates(s, keys[0]);
  }

  /** A session goes on from where its first keys leave it, unless one of them is
      Ctrl+X. */
  lemma {:induction false} SessionOn(s: State, keys: seq<Byte>, later: seq<Byte>)
    requires Good(s) && Roomy(s) && CTRL_X !in keys
    ensures var t := Session(s, keys);
            && Good(t) && Roomy(t) && Session(s, keys + later) == Session(t, later)
            && SavedTexts(s, keys + later) == SavedTexts(s, keys) + SavedTexts(t, later)
    decreases keys
  {
    if keys == [] {
      assert keys + later == later;
    } else {
      assert keys[0] in keys && forall c :: c in keys[1..] ==> c in keys;
      SessionStep(s, keys);
      SessionOn(Key(s, keys[0]), keys[1..], later);
      assert (keys + later)[0] == keys[0] && (keys + later)[1..] == keys[1..] + later;
      SessionStep(s, keys + later);
    }
  }

  /** Key by key, by their codes: 24 ends the session, 19 saves the lines joined by
      newlines, and every other key edits. */
  lemma SessionByCode(s: State, keys: seq<Byte>, c: Byte, later: seq<Byte>)
    requires Good(s) && Roomy(s) && 24 !in keys
    ensures var t, texts := Session(s, keys), SavedTexts(s, keys);
            && Good(t) && Roomy(t)
            && (c == 24 ==> Session(s, keys + [c] + later) == t && SavedTexts(s, keys + [c] + later) == texts)
            && (c != 24 ==> Session(s, keys + [c]) == Key(t, c))
            && (c == 19 ==> SavedTexts(s, keys + [c]) == texts + [Join(t.lines)])
            && (c != 24 && c != 19 ==> SavedTexts(s, keys + [c]) == texts)
  {
    var one, t := [c], Session(s, keys);
    SessionOn(s, keys, one + later);
    SessionOn(s, keys, one);
    assert keys + one + later == keys + (one + later);
    assert one[0] == c && one[1..] == [];
    if c != CTRL_X {
      SessionStep(t, one);
    }
  }

  /** The typed text after the keys, replayed as a stack. */
  ghost function Replay(typed: seq<Byte>, rest: seq<Byte>, keys: seq<Byte>): seq<Byte>
    decreases keys
  {
    if keys == [] || keys[0] == CTRL_X then typed
    else Replay(Stroke(typed, rest, keys[0]), rest, keys[1..])
  }

  lemma {:induction false} SessionSimulates(s: State, keys: seq<Byte>)
    requires Good(s) && Roomy(s)
    ensures var t := Session(s, keys);
            Good(t) && Roomy(t) && After(t) == After(s) && Before(t) == Replay(Before(s), After(s), keys)
    decreases keys
  {
    if keys != [] && keys[0] != CTRL_X {
      KeySimulates(s, keys[0]);
      SessionSimulates(Key(s, keys[0]), keys[1..]);
    }
  }

  /** What the saves of a session write, told from the keystrokes alone: each
      Ctrl+S writes what is typed so far and the text as loaded. */
  ghost function SavesReplayed(typed: seq<Byte>, rest: seq<Byte>, keys: seq<Byte>): seq<seq<Byte>>
    decreases keys
  {
    if keys == [] || keys[0] == CTRL_X then []
    else
      (if keys[0] == CTRL_S then [typed + rest + [NEWLINE]] else [])
      + SavesReplayed(Stroke(typed, rest, keys[0]), rest, keys[1..])
  }

  /** The texts saved during a session are the keystrokes accepted so far,
      replayed as a stack, followed by the text after the cursor as loaded. */
  lemma {:induction false} SavesAreReplayed(s: State, keys: seq<Byte>)
    requires Good(s) && Roomy(s)
    ensures SavedTexts(s, keys) == SavesReplayed(Before(s), After(s), keys)
    decreases keys
  {
    if keys != [] && keys[0] != CTRL_X {
      SessionStep(s, keys);
      KeySimulates(s, keys[0]);
      TextIsJoin(s);
      SavesAreReplayed(Key(s, keys[0]), keys[1..]);
    }
  }

  // ---- The flat text determines the state ----

  lemma {:induction false} BelowIsJoin(ls: seq<seq<Byte>>)
    ensures Below(ls) + [NEWLINE] == [NEWLINE] + Join(ls)
  {
    if ls != [] {
      BelowIsJoin(ls[1..]);
      var head := [NEWLINE] + ls[0];
      assert head + Below(ls[1..]) + [NEWLINE] == head + ([NEWLINE] + Join(ls[1..]));
      assert head + ([NEWLINE] + Join(ls[1..])) == [NEWLINE] + (ls[0] + [NEWLINE] + Join(ls[1..]));
    }
  }

  lemma Regroup(a: seq<Byte>, p: seq<Byte>, q: seq<Byte>, b: seq<Byte>, n: seq<Byte>)
    ensures (a + p) + (q + b) + n == a + ((p + q) + (b + n))
  {
  }

  /** The lines joined by newlines are the typed text followed by the rest. */
  lemma TextIsJoin(s: State)
    requires Good(s)
    ensures Before(s) + After(s) + [NEWLINE] == Join(s.lines)
  {
    var l := s.lines[s.row];
    var above, below := Join(s.lines[..s.row]), s.lines[s.row + 1..];
    assert s.lines == s.lines[..s.row] + ([l] + below);
    JoinConcat(s.lines[..s.row], [l] + below);
    assert ([l] + below)[1..] == below;
    assert l[..s.col] + l[s.col..] == l;
    Regroup(above, l[..s.col], l[s.col..], Below(below), [NEWLINE]);
    BelowIsJoin(below);
    assert l + ([NEWLINE] + Join(below)) == l + [NEWLINE] + Join(below);
  }

  lemma FlatDetermines(s: State, t: State)
    requires Good(s) && Good(t) && Before(s) == Before(t) && After(s) == After(t)
    ensures s == t
  {
    FlatShape(s);
    FlatShape(t);
    TextIsJoin(s);
    TextIsJoin(t);
    assert forall l :: l in s.lines ==> ValidLine(l);
    assert forall l :: l in t.lines ==> ValidLine(l);
    LinesOfJoin(s.lines);
    LinesOfJoin(t.lines);
  }

  /** Backspace undoes every accepted key, newlines included. */
  lemma BackspaceUndoes(s: State, c: Byte)
    requires Good(s) && Roomy(s) && c != BACKSPACE && Accepts(Before(s), After(s), c)
    ensures Good(Key(s, c)) && Key(Key(s, c), BACKSPACE) == s
  {
    var t := Key(s, c);
    KeySimulates(s, c);
    KeySimulates(t, BACKSPACE);
    var x := if IsEnter(c) then NEWLINE else c;
    assert (Before(s) + [x])[..|Before(s)|] == Before(s);
    FlatDetermines(Key(t, BACKSPACE), s);
  }

  /** A refused key changes nothing. */
  lemma RefusedKey(s: State, c: Byte)
    requires Good(s) && Roomy(s) && c != BACKSPACE && !Accepts(Before(s), After(s), c)
    ensures Key(s, c) == s
  {
    KeySimulates(s, c);
    FlatDetermines(Key(s, c), s);
  }

  // ---- Loading ----

  /** The loader keeps at most 79 characters of a line. */
  function Clip(l: seq<Byte>): seq<Byte>
  {
    if |l| >= LINE_LEN then l[..LINE_LEN - 1] else l
  }

  /** The first line of a text, as far as it fits a line buffer. */
  ghost function FirstLine(t: seq<Byte>): seq<Byte>
  {
    Clip(t[..LineEnd(t)])
  }

  /** The first `n` lines of a text, clipped. */
  ghost function Parsed(t: seq<Byte>, n: nat): seq<seq<Byte>>
  {
    Pieces(FirstLine, AfterLine, t, n)
  }

  /** The state a loaded text opens in: cursor at the start, one line at least. */
  ghost function Opened(t: seq<Byte>): State
  {
    var ls := Parsed(t, MAX_LINES);
    State(if ls == [] then [[]] else ls, 0, 0)
  }

  /** The first `n` of some lines, clipped. */
  function ClipFirst(ls: seq<seq<Byte>>, n: nat): seq<seq<Byte>>
  {
    if ls == [] || n == 0 then [] else [Clip(ls[0])] + ClipFirst(ls[1..], n - 1)
  }

  lemma ClipCons(l: seq<Byte>, ls: seq<seq<Byte>>, n: nat)
    requires n > 0
    ensures ClipFirst([l] + ls, n) == [Clip(l)] + ClipFirst(ls, n - 1)
  {
    assert ([l] + ls)[1..] == ls;
  }

  lemma {:induction false} ParsedIsClipped(t: seq<Byte>, n: nat)
    ensures Parsed(t, n) == ClipFirst(Lines(t), n)
    decreases n
  {
    if t != [] && n != 0 {
      var line, rest := t[..LineEnd(t)], AfterLine(t);
      ParsedIsClipped(rest, n - 1);
      ClipCons(line, Lines(rest), n);
    }
  }

  lemma {:induction false} ClipFirstAt(ls: seq<seq<Byte>>, n: nat, i: nat)
    ensures |ClipFirst(ls, n)| == (if |ls| < n then |ls| else n)
    ensures i < |ls| && i < n ==> ClipFirst(ls, n)[i] == Clip(ls[i])
    decreases ls
  {
    if ls != [] && n != 0 {
      ClipFirstAt(ls[1..], n - 1, if i > 0 then i - 1 else 0);
    }
  }

  /** An opened text shows its first hundred lines, of each the first 79
      characters, with the cursor at the start; one empty line if there is none. */
  lemma OpenedLines(t: seq<Byte>, i: nat)
    requires i < |Lines(t)| && i < 100
    ensures var s, line := Opened(t), Lines(t)[i];
            && s.row == 0 && s.col == 0 && |s.lines| == (if |Lines(t)| < 100 then |Lines(t)| else 100)
            && s.lines[i] == (if |line| < 79 then line else line[..79])
    ensures Opened([]) == State([[]], 0, 0)
  {
    ParsedIsClipped(t, MAX_LINES);
    ClipFirstAt(Lines(t), MAX_LINES, i);
    ParsedIsClipped([], MAX_LINES);
  }

  lemma {:induction false} LinesClean(t: seq<Byte>)
    requires NUL !in t
    ensures forall l :: l in Lines(t) ==> NUL !in l && NEWLINE !in l
    decreases |t|
  {
    if t != [] {
      var line, rest := t[..LineEnd(t)], AfterLine(t);
      assert forall x :: x in rest ==> x in t;
      LinesClean(rest);
      assert forall x :: x in line ==> x in t;
      forall l | l in Lines(t)
        ensures NUL !in l && NEWLINE !in l
      {
        assert l == line || l in Lines(rest);
      }
    }
  }

  lemma {:induction false} ClippedGood(ls: seq<seq<Byte>>, n: nat)
    requires forall l :: l in ls ==> NUL !in l && NEWLINE !in l
    ensures |ClipFirst(ls, n)| <= n
    ensures forall l :: l in ClipFirst(ls, n) ==> ValidLine(l)
  {
    if ls != [] && n != 0 {
      ClippedGood(ls[1..], n - 1);
      assert ls[0] in ls;
      assert forall x :: x in Clip(ls[0]) ==> x in ls[0];
    }
  }

  lemma OpenedGood(t: seq<Byte>)
    requires NUL !in t
    ensures Good(Opened(t)) && Roomy(Opened(t)) && Before(Opened(t)) == []
  {
    LinesClean(t);
    ParsedIsClipped(t, MAX_LINES);
    ClippedGood(Lines(t), MAX_LINES);
    var s := Opened(t);
    assert s.lines[..0] == [] && s.lines[0][..0] == [];
    assert forall i :: 0 <= i < |Parsed(t, MAX_LINES)| ==> Parsed(t, MAX_LINES)[i] in Parsed(t, MAX_LINES);
  }

  /** At most `n` lines, none too long for a line buffer. */
  ghost predicate WithinLimits(ls: seq<seq<Byte>>, n: nat)
  {
    |ls| <= n && forall l :: l in ls ==> |l| < LINE_LEN
  }

  lemma {:induction false} ClippedSame(ls: seq<seq<Byte>>, n: nat)
    requires WithinLimits(ls, n)
    ensures ClipFirst(ls, n) == ls
  {
    if ls != [] {
      assert ls[0] in ls;
      ClippedSame(ls[1..], n - 1);
    }
  }

  /** Lines beyond the limits lose bytes. */
  lemma {:induction false} ClippedLoses(ls: seq<seq<Byte>>, n: nat)
    ensures |Join(ClipFirst(ls, n))| <= |Join(ls)|
    ensures !WithinLimits(ls, n) ==> |Join(ClipFirst(ls, n))| < |Join(ls)|
  {
    if ls != [] && n != 0 {
      ClippedLoses(ls[1..], n - 1);
      assert ClipFirst(ls, n)[1..] == ClipFirst(ls[1..], n - 1);
      assert ls == [ls[0]] + ls[1..];
    }
  }

  /** Loading then saving gives a nonempty text back, its last line terminated,
      exactly when the text keeps within the editor's limits. */
  lemma SaveOfLoad(t: seq<Byte>)
    requires t != []
    ensures Join(Opened(t).lines) == Ended(t) <==> WithinLimits(Lines(t), MAX_LINES)
  {
    ParsedIsClipped(t, MAX_LINES);
    ClippedLoses(Lines(t), MAX_LINES);
    JoinOfLines(t);
    if WithinLimits(Lines(t), MAX_LINES) {
      ClippedSame(Lines(t), MAX_LINES);
    }
  }

  /** Saving then loading gives back exactly the lines. */
  lemma LoadOfSave(ls: seq<seq<Byte>>)
    requires 0 < |ls| <= MAX_LINES && forall l :: l in ls ==> ValidLine(l)
    ensures Opened(Join(ls)) == State(ls, 0, 0)
  {
    LinesOfJoin(ls);
    ParsedIsClipped(Join(ls), MAX_LINES);
    ClippedSame(ls, MAX_LINES);
  }

  lemma OpenedEmpty()
    ensures Opened(UpToNul([])) == State([[]], 0, 0)
  {
    assert Parsed([], MAX_LINES) == [];
  }

  /** The same through a buffer read as a C string. */
  lemma Reopened(ls: seq<seq<Byte>>)
    requires 0 < |ls| <= MAX_LINES && forall l :: l in ls ==> ValidLine(l)
    ensures Opened(UpToNul(Join(ls))) == State(ls, 0, 0)
  {
    JoinClean(ls);
    UpToNulPrefix(Join(ls));
    LoadOfSave(ls);
  }

  lemma {:induction false} JoinClean(ls: seq<seq<Byte>>)
    requires forall l :: l in ls ==> NUL !in l
    ensures NUL !in Join(ls)
  {
    if ls != [] {
      assert ls[0] in ls;
      JoinClean(ls[1..]);
    }
  }

  lemma {:induction false} JoinSize(ls: seq<seq<Byte>>)
    requires forall l :: l in ls ==> |l| < LINE_LEN
    ensures |Join(ls)| <= LINE_LEN * |ls|
  {
    if ls != [] {
      JoinSize(ls[1..]);
    }
  }

  /** A whole session on a loaded text: the lines afterwards are the accepted
      keystrokes replayed as a stack, followed by the text as loaded; lines above
      the cursor still have room for a merge. */
  lemma SessionOnText(t: seq<Byte>, keys: seq<Byte>)
    requires NUL !in t
    ensures Good(Opened(t)) && Roomy(Opened(t))
    ensures var s := Session(Opened(t), keys);
            var rest := After(Opened(t));
            && Good(s) && Roomy(s)
            && Before(s) == Replay([], rest, keys) && After(s) == rest
            && Join(s.lines) == Replay([], rest, keys) + Join(Opened(t).lines)
  {
    OpenedGood(t);
    SessionSimulates(Opened(t), keys);
    var s, rest := Session(Opened(t), keys), After(Opened(t));
    TextIsJoin(Opened(t));
    TextIsJoin(s);
    assert [] + rest + [NEWLINE] == rest + [NEWLINE];
    assert Before(s) + rest + [NEWLINE] == Before(s) + (rest + [NEWLINE]);
  }
}
