/** The shell's tokenizer and the file lister's line scan, both of which write
    NULs into the buffer they walk. */
module Shell {
  import opened CString
  import opened Text
  import opened NameTable
  import opened RamFs

  predicate Separator(c: Byte)
  {
    c == SPACE || c == TAB
  }

  /** s[a..b] is a maximal run of characters other than space and tab. */
  ghost predicate IsWord(s: seq<Byte>, a: int, b: int)
  {
    && 0 <= a < b <= |s|
    && (forall k :: a <= k < b ==> !Separator(s[k]))
    && (a > 0 ==> Separator(s[a - 1]))
    && (b < |s| ==> Separator(s[b]))
  }

  /** The same by the characters' codes: 32 and 9 separate. */
  ghost predicate BetweenBlanks(s: seq<Byte>, a: int, b: int)
  {
    && 0 <= a < b <= |s|
    && (forall k :: a <= k < b ==> s[k] != 32 && s[k] != 9)
    && (a == 0 || s[a - 1] == 32 || s[a - 1] == 9)
    && (b == |s| || s[b] == 32 || s[b] == 9)
  }

  lemma WordIs(s: seq<Byte>, a: int, b: int)
    ensures IsWord(s, a, b) <==> BetweenBlanks(s, a, b)
  {
  }

  /** A word is fixed by where it starts. */
  lemma WordEnd(s: seq<Byte>, a: int, b: int, c: int)
    requires IsWord(s, a, b) && IsWord(s, a, c)
    ensures b == c
  {
  }

  lemma WordStart(s: seq<Byte>, a: int, b: int)
    requires IsWord(s, a, b)
    ensures !Separator(s[a]) && (a > 0 ==> Separator(s[a - 1]))
  {
  }

  /** The words recorded so far are all the words that start before `p`. */
  ghost predicate AllBefore(s: seq<Byte>, p: int, starts: seq<int>, ends: seq<int>)
    requires |starts| == |ends|
  {
    forall a, b :: IsWord(s, a, b) && a < p ==> exists k :: 0 <= k < |starts| && starts[k] == a && ends[k] == b
  }

  /** No word starts between a boundary and the next non-separator. */
  lemma SkipSeparators(s: seq<Byte>, p: int, q: int, starts: seq<int>, ends: seq<int>)
    requires |starts| == |ends| && 0 <= p <= q <= |s| && AllBefore(s, p, starts, ends)
    requires forall k :: p <= k < q ==> Separator(s[k])
    ensures AllBefore(s, q, starts, ends)
  {
    forall a, b | IsWord(s, a, b) && a < q
      ensures exists k :: 0 <= k < |starts| && starts[k] == a && ends[k] == b
    {
      WordStart(s, a, b);
    }
  }

  lemma AddWord(s: seq<Byte>, a: int, b: int, p: int, starts: seq<int>, ends: seq<int>)
    requires |starts| == |ends| && AllBefore(s, a, starts, ends) && IsWord(s, a, b)
    requires p == b || (b < |s| && p == b + 1)
    ensures AllBefore(s, p, starts + [a], ends + [b])
  {
    var starts', ends' := starts + [a], ends + [b];
    forall c, d | IsWord(s, c, d) && c < p
      ensures exists k :: 0 <= k < |starts'| && starts'[k] == c && ends'[k] == d
    {
      WordStart(s, c, d);
      if c < a {
        var k :| 0 <= k < |starts| && starts[k] == c && ends[k] == d;
        assert starts'[k] == c && ends'[k] == d;
      } else if c == a {
        WordEnd(s, a, b, d);
        assert starts'[|starts|] == c && ends'[|starts|] == d;
      }
    }
  }

  /** Each recorded word reads back as a NUL-terminated string. */
  ghost predicate Recorded(line: array<Byte>, s: seq<Byte>, starts: seq<int>, ends: seq<int>)
    reads line
  {
    && |starts| == |ends|
    && (forall k :: 0 <= k < |starts| ==> IsWord(s, starts[k], ends[k]))
    && (forall k :: 0 <= k < |starts| ==> Holds(line, starts[k], s[starts[k]..ends[k]]))
    && (forall j, k :: 0 <= j < k < |starts| ==> ends[j] < starts[k])
  }

  lemma WordsAre(line: array<Byte>, s: seq<Byte>, starts: seq<int>, ends: seq<int>)
    requires Recorded(line, s, starts, ends)
    ensures forall k :: 0 <= k < |starts| ==> BetweenBlanks(s, starts[k], ends[k])
  {
    forall k | 0 <= k < |starts|
      ensures BetweenBlanks(s, starts[k], ends[k])
    {
      WordIs(s, starts[k], ends[k]);
    }
  }

  /** The scan of one word from its first character, with the NUL stored over the
      separator that ends it. */
  method TakeWord(line: array<Byte>, start: nat, ghost s: seq<Byte>) returns (p: nat, ghost end: nat)
    requires start < |s| < line.Length && forall j :: 0 <= j < |s| ==> s[j] != NUL
    requires !Separator(s[start]) && (start > 0 ==> Separator(s[start - 1]))
    requires line[|s|] == NUL && forall j :: start <= j < |s| ==> line[j] == s[j]
    modifies line
    ensures start < end <= p <= |s| && IsWord(s, start, end) && p == (if end < |s| then end + 1 else end)
    ensures Holds(line, start, s[start..end])
    ensures forall j :: 0 <= j < line.Length && j != end ==> line[j] == old(line[j])
    ensures line[end] == NUL
  {
    p := start;
    while line[p] != NUL && line[p] != SPACE && line[p] != TAB
      invariant start <= p <= |s|
      invariant forall k :: start <= k < p ==> !Separator(s[k])
      invariant p < |s| ==> line[p] == s[p] && s[p] != NUL
      decreases |s| - p
    {
      p := p + 1;
    }
    end := p;
    if line[p] != NUL {
      line[p] := NUL;
      p := p + 1;
    }
    ghost var w := s[start..end];
    forall k | 0 <= k < |w|
      ensures line[start + k] == w[k] && w[k] != NUL
    {
      assert w[k] == s[start + k];
    }
  }

  /** The part of the line not yet scanned is as it was. */
  ghost predicate Ahead(line: array<Byte>, s: seq<Byte>, p: int)
    reads line
  {
    && 0 <= p <= |s| < line.Length && line[|s|] == NUL
    && (forall j :: p <= j < |s| ==> line[j] == s[j] && s[j] != NUL)
    && (p == 0 || p == |s| || Separator(s[p - 1]))
  }

  /** Only separators among the first `n` bytes have been overwritten, with NUL. */
  ghost predicate OnlyCut(before: seq<Byte>, after: seq<Byte>, n: nat)
  {
    && |before| == |after|
    && forall j :: 0 <= j < |before| ==>
         after[j] == before[j] || (j < n && Separator(before[j]) && after[j] == NUL)
  }

  lemma OnlyCutThrough(m0: seq<Byte>, m1: seq<Byte>, m2: seq<Byte>, n: nat)
    requires OnlyCut(m0, m1, n) && OnlyCut(m1, m2, n)
    ensures OnlyCut(m0, m2, n)
  {
  }

  /** How far the tokenizer has come: the words before `p` are recorded, the
      line from `p` on is untouched. */
  ghost predicate Progress(line: array<Byte>, s: seq<Byte>, p: int, starts: seq<int>, ends: seq<int>)
    reads line
  {
    && Ahead(line, s, p) && (forall j :: 0 <= j < |s| ==> s[j] != NUL)
    && Recorded(line, s, starts, ends) && AllBefore(s, p, starts, ends)
    && forall k :: 0 <= k < |ends| ==> ends[k] <= p && (ends[k] < p || p == |s|)
  }

  /** Take the word at `start` and add it to those recorded. */
  method RecordWord(line: array<Byte>, start: nat, ghost s: seq<Byte>, ghost starts: seq<int>, ghost ends: seq<int>)
    returns (p: nat, ghost end: nat)
    requires Progress(line, s, start, starts, ends)
    requires start < |s| && !Separator(s[start]) && (start > 0 ==> Separator(s[start - 1]))
    modifies line
    ensures start < p && Progress(line, s, p, starts + [start], ends + [end])
    ensures OnlyCut(old(line[..]), line[..], |s|)
  {
    p, end := TakeAnother(line, start, s, starts, ends);
    AddWord(s, start, end, p, starts, ends);
  }

  /** A word taken leaves those before it readable. */
  method TakeAnother(line: array<Byte>, start: nat, ghost s: seq<Byte>, ghost starts: seq<int>, ghost ends: seq<int>)
    returns (p: nat, ghost end: nat)
    requires Ahead(line, s, start) && Recorded(line, s, starts, ends) && forall j :: 0 <= j < |s| ==> s[j] != NUL
    requires start < |s| && !Separator(s[start]) && (start > 0 ==> Separator(s[start - 1]))
    requires forall k :: 0 <= k < |ends| ==> ends[k] < start
    modifies line
    ensures start < end <= p && IsWord(s, start, end) && p == (if end < |s| then end + 1 else end)
    ensures Ahead(line, s, p) && Recorded(line, s, starts + [start], ends + [end])
    ensures OnlyCut(old(line[..]), line[..], |s|)
  {
    p, end := TakeWord(line, start, s);
    forall k | 0 <= k < |starts|
      ensures Holds(line, starts[k], s[starts[k]..ends[k]])
    {
      assert IsWord(s, starts[k], ends[k]) && ends[k] < end;
      assert old(Holds(line, starts[k], s[starts[k]..ends[k]]));
      assert |s[starts[k]..ends[k]]| == ends[k] - starts[k];
    }
  }

  method SkipBlanks(line: array<Byte>, p: nat, ghost s: seq<Byte>, ghost starts: seq<int>, ghost ends: seq<int>)
    returns (q: nat)
    requires Progress(line, s, p, starts, ends)
    ensures p <= q && Progress(line, s, q, starts, ends) && (line[q] == NUL <==> q == |s|)
    ensures q < |s| ==> !Separator(s[q]) && (q > 0 ==> Separator(s[q - 1]))
  {
    q := p;
    while line[q] == SPACE || line[q] == TAB
      invariant p <= q <= |s| && forall k :: p <= k < q ==> Separator(s[k])
      invariant q < |s| ==> line[q] == s[q]
      decreases |s| - q
    {
      q := q + 1;
    }
    SkipSeparators(s, p, q, starts, ends);
  }

  method ParseArgs(line: array<Byte>, argv: array<int>, maxArgs: nat, ghost s: seq<Byte>)
    returns (argc: nat, ghost ends: seq<int>)
    requires Holds(line, 0, s) && maxArgs <= argv.Length
    modifies line, argv
    ensures argc == |ends| <= maxArgs
    // In order, words of the original line, each readable in the modified one.
    ensures Recorded(line, s, argv[..argc], ends)
    // Exactly the first ones: any other word comes after a full vector.
    ensures argc < maxArgs ==> AllBefore(s, |s|, argv[..argc], ends)
    ensures argc == maxArgs > 0 ==> AllBefore(s, ends[argc - 1], argv[..argc], ends)
    ensures OnlyCut(old(line[..]), line[..], |s|)
    // Words are what lies between spaces, tabs and the ends of the line.
    ensures forall k :: 0 <= k < argc ==> BetweenBlanks(s, argv[k], ends[k])
  {
    argc := 0;
    ends := [];
    var p := 0;
    ghost var starts: seq<int> := [];
    while line[p] != NUL && argc < maxArgs
      invariant argc == |ends| == |starts| <= maxArgs && argv[..argc] == starts
      invariant Progress(line, s, p, starts, ends)
      invariant OnlyCut(old(line[..]), line[..], |s|)
      decreases |s| - p
    {
      p := SkipBlanks(line, p, s, starts, ends);
      if line[p] == NUL {
        break;
      }
      argv[argc] := p;
      argc := argc + 1;
      ghost var start, end, m1 := p, 0, line[..];
      p, end := RecordWord(line, p, s, starts, ends);
      OnlyCutThrough(old(line[..]), m1, line[..], |s|);
      starts, ends := starts + [start], ends + [end];
    }
    WordsAre(line, s, starts, ends);
  }

  // ---- Listing files ----

  /** What each listed line opens. */
  ghost predicate OpensEach(slots: seq<Slot>, names: seq<seq<Byte>>, handles: seq<int>)
  {
    && |handles| == |names|
    && forall i :: 0 <= i < |names| ==>
         && (handles[i] == -1 <==> names[i] !in AsMap(slots))
         && (handles[i] != -1 ==>
               0 <= handles[i] < |slots| && slots[handles[i]].File? && slots[handles[i]].name == names[i])
  }

  lemma OpensMore(slots: seq<Slot>, names: seq<seq<Byte>>, handles: seq<int>, name: seq<Byte>, f: int)
    requires OpensEach(slots, names, handles)
    requires f == -1 <==> name !in AsMap(slots)
    requires f == -1 || (0 <= f < |slots| && slots[f].File? && slots[f].name == name)
    ensures OpensEach(slots, names + [name], handles + [f])
  {
  }

  lemma AllOpen(slots: seq<Slot>, names: seq<seq<Byte>>, handles: seq<int>)
    requires OpensEach(slots, names, handles) && forall l :: l in names ==> l in AsMap(slots)
    ensures forall i :: 0 <= i < |names| ==>
              0 <= handles[i] < |slots| && slots[handles[i]].File? && slots[handles[i]].name == names[i]
  {
  }

  /** One round of the scan: cut the line off with a NUL, open it, put the
      overwritten byte back and step past it. */
  method OpenLine(fs: FileSystem, buffer: array<Byte>, line: nat, ghost t: seq<Byte>)
    returns (next: nat, name: seq<Byte>, f: int)
    requires fs.TableOk() && buffer != fs.names && Holds(buffer, 0, t) && line < |t|
    modifies buffer
    ensures buffer[..] == old(buffer[..]) && Holds(buffer, 0, t)
    ensures line < next <= |t| && Lines(t[line..]) == [name] + Lines(t[next..])
    ensures f == -1 || (fs.IsFile(f) && fs.slots[f].name == name)
    ensures f == -1 <==> name !in AsMap(fs.slots)
  {
    ghost var rest := t[line..];
    var end := FindLineEnd(buffer, 0, line, t);
    name := buffer[line..end];
    assert name == rest[..LineEnd(rest)];
    HoldsAt(buffer, 0, t, end);
    var saved := buffer[end];
    buffer[end] := NUL;
    forall k | 0 <= k < |name|
      ensures buffer[line + k] == name[k] && name[k] != NUL
    {
      assert name[k] == t[line + k];
    }
    f := fs.FsOpen(buffer, line, name);
    buffer[end] := saved;
    next := if saved != NUL then end + 1 else end;
    assert buffer[..] == old(buffer[..]);
    assert t[next..] == AfterLine(rest);
  }

  /** The same, added to what was listed before. */
  method ListNext(
    fs: FileSystem, buffer: array<Byte>, line: nat,
    ghost t: seq<Byte>, ghost names: seq<seq<Byte>>, ghost handles: seq<int>)
    returns (next: nat, name: seq<Byte>, f: int)
    requires fs.TableOk() && buffer != fs.names && Holds(buffer, 0, t) && line < |t|
    requires OpensEach(fs.slots, names, handles)
    modifies buffer
    ensures buffer[..] == old(buffer[..]) && Holds(buffer, 0, t)
    ensures line < next <= |t| && names + Lines(t[line..]) == names + [name] + Lines(t[next..])
    ensures OpensEach(fs.slots, names + [name], handles + [f])
  {
    next, name, f := OpenLine(fs, buffer, line, t);
    Assoc(names, [name], Lines(t[next..]));
    OpensMore(fs.slots, names, handles, name, f);
  }

  /** The loop of cmd_ls over the listing. */
  method LsScan(fs: FileSystem, buffer: array<Byte>, ghost t: seq<Byte>)
    returns (names: seq<seq<Byte>>, handles: seq<int>)
    requires fs.TableOk() && buffer != fs.names && Holds(buffer, 0, t)
    modifies buffer
    ensures buffer[..] == old(buffer[..])
    ensures names == Lines(t) && OpensEach(fs.slots, names, handles)
  {
    names, handles := [], [];
    var line := 0;
    ghost var all, left := Lines(t), Lines(t);
    assert t[0..] == t;
    while buffer[line] != NUL
      invariant line <= |t| && buffer[..] == old(buffer[..]) && Holds(buffer, 0, t) && fs.TableOk()
      invariant left == Lines(t[line..]) && names + left == all && OpensEach(fs.slots, names, handles)
      decreases |t| - line
    {
      HoldsAt(buffer, 0, t, line);
      var name, f;
      line, name, f := ListNext(fs, buffer, line, t, names, handles);
      left := Lines(t[line..]);
      names, handles := names + [name], handles + [f];
    }
    HoldsAt(buffer, 0, t, line);
    assert left == [] && names + left == names;
  }

  /** The files a listing names are in the table. */
  lemma ListedInTable(slots: seq<Slot>, capacity: nat)
    requires capacity > 0
    ensures forall l :: l in Listed(slots, |slots|, capacity) ==> l in AsMap(slots)
  {
    var names := Listed(slots, |slots|, capacity);
    ListedFits(slots, |slots|, capacity);
    forall l | l in names
      ensures l in AsMap(slots)
    {
      NamesOf(slots, l);
    }
  }

  /** The listing has as many names as the map exactly when it has room for all. */
  lemma AllShown(slots: seq<Slot>, capacity: nat)
    requires Unique(slots)
    ensures |Listed(slots, |slots|, capacity)| == |AsMap(slots)| <==>
            AllNames(slots) == [] || |Join(AllNames(slots))| + 1 < capacity
  {
    assert slots[..|slots|] == slots;
    ListedCount(slots, |slots|, capacity);
    ListedAll(slots, |slots|, capacity);
    MapSize(slots);
  }

  const LS_BUFFER := 1024

  /** What the scan of a listing shows. The names are those of files exactly when
      no listed name has a newline; then each opens its own slot, and none of the
      table's files is missing exactly when all fit the buffer. */
  ghost predicate Shows(slots: seq<Slot>, total: nat, names: seq<seq<Byte>>, handles: seq<int>)
  {
    var listed := Listed(slots, |slots|, LS_BUFFER);
    && GreedyNames(slots, listed, 1024) && names == Lines(Join(listed)) && OpensEach(slots, names, handles)
    && (names == listed <==> forall l :: l in listed ==> NEWLINE !in l)
    && (names == listed ==>
          forall i :: 0 <= i < |names| ==>
            0 <= handles[i] < |slots| && slots[handles[i]].File? && slots[handles[i]].name == names[i])
    && (names == listed ==> (|names| == total <==> AllNames(slots) == [] || |Join(AllNames(slots))| + 1 < LS_BUFFER))
  }

  lemma ScanShows(slots: seq<Slot>, names: seq<seq<Byte>>, handles: seq<int>)
    requires Unique(slots)
    requires names == Lines(Join(Listed(slots, |slots|, LS_BUFFER))) && OpensEach(slots, names, handles)
    ensures Shows(slots, |AsMap(slots)|, names, handles)
  {
    AllShown(slots, LS_BUFFER);
    ListedIsGreedy(slots, Listed(slots, |slots|, LS_BUFFER), LS_BUFFER);
    LinesRecovered(Listed(slots, |slots|, LS_BUFFER));
    ListedInTable(slots, LS_BUFFER);
    if names == Listed(slots, |slots|, LS_BUFFER) {
      AllOpen(slots, names, handles);
    }
  }

  /** cmd_ls, with the total it prints. */
  method Ls(fs: FileSystem) returns (total: nat, names: seq<seq<Byte>>, handles: seq<int>)
    requires fs.TableOk()
    ensures total == |AsMap(fs.slots)| && Shows(fs.slots, total, names, handles)
  {
    total := fs.FsCount();
    names, handles := [], [];
    if total == 0 {
      NoneListed(fs.slots, MAX_FILES, LS_BUFFER);
    } else {
      var buffer := new Byte[LS_BUFFER];
      var count := fs.FsList(buffer, LS_BUFFER);
      names, handles := LsScan(fs, buffer, Join(Listed(fs.slots, MAX_FILES, LS_BUFFER)));
    }
    ScanShows(fs.slots, names, handles);
  }
}
