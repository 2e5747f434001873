/** The editor command as a whole: the file is created when missing, the line
    buffers are taken from the heap, the text is loaded, edited and saved, and the
    buffers are given back. */
module NanoCommand {
  import opened CString
  import opened Blocks
  import opened HeapRuns
  import opened Heap
  import opened NameTable
  import opened Ownership
  import opened RamFs
  import opened Saves
  import opened Editor
  import opened Nano

  /** A pointer is four bytes. */
  const PTR_SIZE := 4

  // ---- Borrowing the line buffers ----

  /** The blocks that the non-null pointers refer to, each to its own. */
  ghost predicate Borrowed(ptrs: seq<int>, mine: set<Block>)
  {
    && (forall p :: p in ptrs && p != NULL ==> PointedTo(p, mine))
    && (forall b :: b in mine ==> b.Payload() in ptrs)
    && (forall i, j :: 0 <= i < j < |ptrs| && ptrs[i] != NULL ==> ptrs[i] != ptrs[j])
  }

  ghost predicate PointedTo(p: int, mine: set<Block>)
  {
    exists b :: b in mine && b.Payload() == p
  }

  lemma BorrowMore(bs: seq<Block>, ptrs: seq<int>, mine: set<Block>, b: Block)
    requires Blocks.Good(bs) && mine <= UsedBlocks(bs) && b in UsedBlocks(bs) && b !in mine
    requires Borrowed(ptrs, mine)
    ensures Borrowed(ptrs + [b.Payload()], mine + {b})
  {
    var ptrs', mine' := ptrs + [b.Payload()], mine + {b};
    forall c | c in mine
      ensures c.Payload() != b.Payload()
    {
      if c.addr == b.addr {
        SameAddress(bs, b, c);
      }
    }
    forall p | p in ptrs' && p != NULL
      ensures PointedTo(p, mine')
    {
      if p in ptrs {
        assert PointedTo(p, mine);
      } else {
        assert b in mine';
      }
    }
    forall i, j | 0 <= i < j < |ptrs'| && ptrs'[i] != NULL
      ensures ptrs'[i] != ptrs'[j]
    {
      assert ptrs'[i] in ptrs && PointedTo(ptrs'[i], mine);
    }
  }

  lemma BorrowNone(ptrs: seq<int>, mine: set<Block>)
    requires Borrowed(ptrs, mine)
    ensures Borrowed(ptrs + [NULL], mine)
  {
    forall p | p in ptrs + [NULL] && p != NULL
      ensures PointedTo(p, mine)
    {
      assert p in ptrs;
    }
  }

  /** Giving back what the first pointer refers to. */
  lemma ReturnOne(bs: seq<Block>, ptrs: seq<int>, mine: set<Block>, b: Block)
    requires Blocks.Good(bs) && mine <= UsedBlocks(bs) && Borrowed(ptrs, mine)
    requires ptrs != [] && b in mine && b.Payload() == ptrs[0] && ptrs[0] != NULL
    ensures Borrowed(ptrs[1..], mine - {b})
  {
    forall p | p in ptrs[1..] && p != NULL
      ensures PointedTo(p, mine - {b})
    {
      assert p in ptrs && PointedTo(p, mine) && p != ptrs[0];
    }
    forall c | c in mine - {b}
      ensures c.Payload() in ptrs[1..]
    {
      if c.Payload() == ptrs[0] {
        SameAddress(bs, b, c);
      }
      assert ptrs == [ptrs[0]] + ptrs[1..];
    }
  }

  lemma ReturnNone(ptrs: seq<int>, mine: set<Block>)
    requires Borrowed(ptrs, mine) && ptrs != [] && ptrs[0] == NULL
    requires forall b :: b in mine ==> b.Payload() != NULL
    ensures Borrowed(ptrs[1..], mine)
  {
    assert ptrs == [ptrs[0]] + ptrs[1..];
    forall p | p in ptrs[1..] && p != NULL
      ensures PointedTo(p, mine)
    {
      assert p in ptrs;
    }
  }

  /** A refused allocation leaves the list as Alloc does. */
  lemma Refused(bs: seq<Block>, request: int)
    requires Blocks.Good(bs) && NoRoom(bs, request) && Total(request) > 0
    ensures Alloc(bs, Total(request)) == bs
  {
    FirstFitComplete(bs, Total(request));
  }

  /** One kmalloc more, refused or not. */
  method BorrowOne(fs: FileSystem, size: nat, ptrs: seq<int>, ghost mine: set<Block>)
    returns (more: seq<int>, ghost ours: set<Block>)
    requires fs.Valid() && 0 < size <= MAX_SIZE && mine <= fs.clients && Borrowed(ptrs, mine)
    modifies fs`clients, fs.heap, fs.heap.mem
    ensures fs.Valid() && |more| == |ptrs| + 1 && Borrowed(more, ours) && mine <= ours <= fs.clients
    ensures more[..|ptrs|] == ptrs && (more[|ptrs|] == NULL <==> NoRoom(old(fs.heap.blocks), size))
    ensures ours - mine !! old(fs.clients) && fs.clients == old(fs.clients) + (ours - mine)
    ensures fs.heap.blocks == Alloc(old(fs.heap.blocks), Total(size))
    ensures ClientsKept(old(fs.clients), old(fs.heap.mem[..]), fs.heap.mem[..])
  {
    TotalRoom(size);
    if NoRoom(fs.heap.blocks, size) {
      Refused(fs.heap.blocks, size);
    }
    var p;
    ghost var b;
    p, b := fs.Obtain(size);
    more, ours := ptrs + [p], mine;
    if p == NULL {
      BorrowNone(ptrs, mine);
    } else {
      BorrowMore(fs.heap.blocks, ptrs, mine, b);
      ours := mine + {b};
    }
  }

  /** The sizes kmalloc is asked for. */
  ghost function LineTotals(n: nat): seq<int>
  {
    seq(n, _ => Total(LINE_LEN))
  }

  lemma OneMoreLine(bs: seq<Block>, n: nat)
    ensures AllocAll(bs, LineTotals(n + 1)) == Alloc(AllocAll(bs, LineTotals(n)), Total(LINE_LEN))
  {
    assert LineTotals(n + 1) == LineTotals(n) + [Total(LINE_LEN)];
    FoldOn(Alloc, bs, LineTotals(n), [Total(LINE_LEN)]);
    FoldOne(Alloc, AllocAll(bs, LineTotals(n)), Total(LINE_LEN));
  }

  /** The next line buffer after `i` of them has room. */
  ghost predicate LineFits(bs: seq<Block>, i: nat)
  {
    !NoRoom(AllocAll(bs, LineTotals(i)), LINE_LEN)
  }

  /** A pointer is null exactly where its line has no room. */
  ghost predicate NullWhereFull(bs: seq<Block>, ptrs: seq<int>)
  {
    forall i :: 0 <= i < |ptrs| ==> (ptrs[i] == NULL <==> !LineFits(bs, i))
  }

  lemma NullMore(bs: seq<Block>, ptrs: seq<int>, more: seq<int>)
    requires NullWhereFull(bs, ptrs) && |more| == |ptrs| + 1 && more[..|ptrs|] == ptrs
    requires more[|ptrs|] == NULL <==> NoRoom(AllocAll(bs, LineTotals(|ptrs|)), LINE_LEN)
    ensures NullWhereFull(bs, more)
  {
    assert forall i :: 0 <= i < |ptrs| ==> more[i] == ptrs[i];
  }

  /** A hundred line buffers; which of them are refused is the heap's doing alone. */
  method BorrowLines(fs: FileSystem) returns (ptrs: seq<int>, ghost mine: set<Block>)
    requires fs.Valid()
    modifies fs`clients, fs.heap, fs.heap.mem
    ensures fs.Valid() && |ptrs| == MAX_LINES && Borrowed(ptrs, mine)
    ensures mine !! old(fs.clients) && fs.clients == old(fs.clients) + mine
    ensures NullWhereFull(old(fs.heap.blocks), ptrs)
    ensures fs.heap.blocks == AllocAll(old(fs.heap.blocks), LineTotals(MAX_LINES))
    ensures ClientsKept(old(fs.clients), old(fs.heap.mem[..]), fs.heap.mem[..])
  {
    ptrs, mine := [], {};
    var i := 0;
    ghost var m0, before, bs0 := fs.heap.mem[..], fs.clients, fs.heap.blocks;
    assert LineTotals(0) == [];
    while i < MAX_LINES
      invariant 0 <= i == |ptrs| <= MAX_LINES && fs.Valid() && Borrowed(ptrs, mine) && NullWhereFull(bs0, ptrs)
      invariant mine !! before && fs.clients == before + mine
      invariant fs.heap.blocks == AllocAll(bs0, LineTotals(i)) && ClientsKept(before, m0, fs.heap.mem[..])
    {
      ghost var m1 := fs.heap.mem[..];
      OneMoreLine(bs0, i);
      ghost var taken := ptrs;
      ptrs, mine := BorrowOne(fs, LINE_LEN, ptrs, mine);
      NullMore(bs0, taken, ptrs);
      FewerKept(fs.clients, before, m0, m1, fs.heap.mem[..]);
      i := i + 1;
    }
  }

  /** What is kept for all of `some` is kept for `fewer`. */
  lemma FewerKept(some: set<Block>, fewer: set<Block>, m0: seq<Byte>, m1: seq<Byte>, m2: seq<Byte>)
    requires fewer <= some && ClientsKept(fewer, m0, m1)
    requires ClientsKept(fewer, m1, m2) || ClientsKept(some, m1, m2)
    ensures ClientsKept(fewer, m0, m2)
  {
  }

  /** The cleanup loop: free every pointer that is not null. */
  method ReturnLines(fs: FileSystem, ptrs: seq<int>, ghost mine: set<Block>)
    requires fs.Valid() && Borrowed(ptrs, mine) && mine <= fs.clients
    modifies fs`clients, fs.heap, fs.heap.mem
    ensures fs.Valid() && fs.clients == old(fs.clients) - mine
    ensures ClientsKept(fs.clients, old(fs.heap.mem[..]), fs.heap.mem[..])
  {
    var i := 0;
    ghost var left, kept, m0 := mine, fs.clients - mine, fs.heap.mem[..];
    assert ptrs[0..] == ptrs;
    while i < |ptrs|
      invariant 0 <= i <= |ptrs| && fs.Valid() && Borrowed(ptrs[i..], left)
      invariant left !! kept && fs.clients == kept + left && ClientsKept(kept, m0, fs.heap.mem[..])
    {
      ghost var m1 := fs.heap.mem[..];
      assert ptrs[i..][1..] == ptrs[i + 1..];
      left := ReturnNext(fs, ptrs[i], ptrs[i..], left);
      FewerKept(fs.clients, kept, m0, m1, fs.heap.mem[..]);
      i := i + 1;
    }
    assert ptrs[i..] == [];
  }

  method ReturnNext(fs: FileSystem, p: int, ghost ptrs: seq<int>, ghost mine: set<Block>)
    returns (ghost left: set<Block>)
    requires fs.Valid() && Borrowed(ptrs, mine) && mine <= fs.clients && ptrs != [] && p == ptrs[0]
    modifies fs`clients, fs.heap, fs.heap.mem
    ensures fs.Valid() && Borrowed(ptrs[1..], left)
    ensures left <= mine && fs.clients == old(fs.clients) - (mine - left)
    ensures ClientsKept(fs.clients, old(fs.heap.mem[..]), fs.heap.mem[..])
  {
    if p != NULL {
      assert PointedTo(p, mine);
      ghost var b :| b in mine && b.Payload() == p;
      ReturnOne(fs.heap.blocks, ptrs, mine, b);
      fs.ClientFree(p, b);
      left := mine - {b};
    } else {
      ClientsNotNull(fs.heap.blocks, mine);
      ReturnNone(ptrs, mine);
      left := mine;
    }
  }

  lemma ClientsNotNull(bs: seq<Block>, mine: set<Block>)
    requires Tiles(bs) && mine <= UsedBlocks(bs)
    ensures forall b :: b in mine ==> b.Payload() != NULL
  {
    forall b | b in mine
      ensures b.Payload() != NULL
    {
      assert b in UsedBlocks(bs);
      LiveBlock(bs, b);
    }
  }

  // ---- When there is room for all of them ----

  lemma {:induction false} LinesRun(bs: seq<Block>, len: int, n: nat)
    requires Blocks.Good(bs) && HasRun(bs, len) && n * Total(LINE_LEN) + MIN_REST <= len
    ensures var after := AllocAll(bs, LineTotals(n));
            Blocks.Good(after) && HasRun(after, len - n * Total(LINE_LEN))
  {
    if n == 0 {
      assert LineTotals(0) == [];
    } else {
      LinesRun(bs, len, n - 1);
      OneMoreLine(bs, n - 1);
      RunSurvives(AllocAll(bs, LineTotals(n - 1)), len - (n - 1) * Total(LINE_LEN), Total(LINE_LEN));
    }
  }

  lemma LineHasRoom(bs: seq<Block>, len: int, i: nat)
    requires Blocks.Good(bs) && HasRun(bs, len) && (i + 1) * Total(LINE_LEN) + MIN_REST <= len
    ensures LineFits(bs, i)
  {
    LinesRun(bs, len, i);
    var rest := len - i * Total(LINE_LEN);
    var x :| FreeRun(AllocAll(bs, LineTotals(i)), x, rest);
    RunPrefix(AllocAll(bs, LineTotals(i)), x, rest, Total(LINE_LEN));
  }

  /** The bytes the buffers take, and what a split needs beyond them. */
  const SESSION_ROOM := 9640

  /** With that many free bytes in a row, wherever they are and however the rest
      of the heap is cut up, every buffer is granted and the session runs. */
  lemma RoomToEdit(bs: seq<Block>)
    requires Blocks.Good(bs) && HasRun(bs, SESSION_ROOM)
    ensures LinesFit(bs)
  {
    var total := Total(MAX_LINES * PTR_SIZE);
    RunSurvives(bs, SESSION_ROOM, total);
    FirstFitComplete(bs, total);
    AllHaveRoom(Alloc(bs, total), SESSION_ROOM - total);
  }

  lemma AllHaveRoom(bs: seq<Block>, len: int)
    requires Blocks.Good(bs) && HasRun(bs, len) && MAX_LINES * Total(LINE_LEN) + MIN_REST <= len
    ensures AllLinesFit(bs)
  {
    assert Total(LINE_LEN) == 92;
    forall i | 0 <= i < MAX_LINES
      ensures LineFits(bs, i)
    {
      LineHasRoom(bs, len, i);
    }
  }

  // ---- The command ----

  /** The heap after the buffers are taken: the array of pointers, then the lines. */
  ghost function WithLines(bs: seq<Block>): seq<Block>
  {
    AllocAll(Alloc(bs, Total(MAX_LINES * PTR_SIZE)), LineTotals(MAX_LINES))
  }

  /** There is room for the array of pointers and then for every line. */
  ghost predicate LinesFit(bs: seq<Block>)
  {
    !NoRoom(bs, MAX_LINES * PTR_SIZE) && AllLinesFit(Alloc(bs, Total(MAX_LINES * PTR_SIZE)))
  }

  ghost predicate AllLinesFit(bs: seq<Block>)
  {
    forall i :: 0 <= i < MAX_LINES ==> LineFits(bs, i)
  }

  /** After `i` blocks of 92 bytes there are as many free in a row. */
  ghost predicate RunAfter(bs: seq<Block>, i: nat)
  {
    HasRun(AllocAll(bs, seq(i, _ => 92)), 92)
  }

  ghost predicate RunsAfter(bs: seq<Block>)
  {
    forall i :: 0 <= i < 100 ==> RunAfter(bs, i)
  }

  lemma PointersTotal()
    ensures Total(MAX_LINES * PTR_SIZE) == 412
  {
  }

  lemma TotalsAre(i: nat)
    ensures LineTotals(i) == seq(i, _ => 92)
  {
  }

  lemma FitsAre(bs: seq<Block>)
    ensures AllLinesFit(bs) == RunsAfter(bs)
  {
    forall i: nat
      ensures LineFits(bs, i) == RunAfter(bs, i)
    {
      TotalsAre(i);
    }
  }

  /** The same in numbers: 400 bytes of pointers and a hundred times 80 of lines,
      each with a header of twelve. */
  lemma LinesByNumbers(bs: seq<Block>)
    ensures LinesFit(bs) <==> HasRun(bs, 412) && RunsAfter(Alloc(bs, 412))
    ensures WithLines(bs) == AllocAll(Alloc(bs, 412), seq(100, _ => 92))
  {
    PointersTotal();
    FitsAre(Alloc(bs, 412));
    TotalsAre(100);
  }

  /** What the editor shows of a file of the given bytes, which are read through a
      buffer if there is room for it. */
  ghost function Loaded(bs: seq<Block>, bytes: seq<Byte>): State
  {
    if NoTextRoom(bs, |bytes|) then State([[]], 0, 0) else Opened(UpToNul(bytes))
  }

  /** Load, edit and save, with the line buffers in hand. */
  method EditLines(ed: LineEditor, fs: FileSystem, f: int, keys: seq<Byte>)
    returns (saves: seq<Saved>, ghost bytes: seq<Byte>)
    requires ed.Buffers() && ed.Apart(fs) && fs.Valid() && (f == -1 || fs.IsFile(f))
    modifies ed, ed.lines, fs`slots, fs`held, fs`clients, fs`directoryWritten, fs.entries, fs.heap, fs.heap.mem
    ensures fs.Valid() && fs.clients == old(fs.clients)
    ensures ClientsKept(fs.clients, old(fs.heap.mem[..]), fs.heap.mem[..])
    ensures |bytes| == if f == -1 then 0 else old(fs.slots)[f].body.Size()
    ensures f != -1 && old(fs.slots)[f].body.Bytes? ==> bytes == old(fs.slots)[f].body.content
    ensures var loaded := Loaded(old(fs.heap.blocks), bytes);
            && Editor.Good(loaded) && Roomy(loaded) && ed.Valid() && ed.state == Session(loaded, keys)
            && Track(DiskOf(fs), saves) == SaveAll(Track(old(DiskOf(fs)), []), f, SavedTexts(loaded, keys))
    ensures OnlyFile(old(DiskOf(fs)), DiskOf(fs), f)
  {
    ed.Clear();
    ghost var m0 := fs.heap.mem[..];
    var size;
    size, bytes := ed.LoadFrom(fs, f);
    ghost var m1 := fs.heap.mem[..];
    saves := ed.Run(fs, f, keys);
    ClientsKeptThrough(fs.clients, m0, m1, fs.heap.mem[..]);
  }

  /** The command after the file has been opened. When a buffer is refused nothing
      is edited: without the array of pointers the command returns at once, and
      with a line missing only the borrowing and returning is modelled. Whatever
      happens, all that was borrowed is given back, other clients' bytes are as
      they were, and the used blocks differ by the file's block alone. */
  method Edit(ed: LineEditor, fs: FileSystem, f: int, keys: seq<Byte>)
    returns (ran: bool, saves: seq<Saved>, ghost bytes: seq<Byte>)
    requires ed.Buffers() && ed.Apart(fs) && fs.Valid() && (f == -1 || fs.IsFile(f))
    modifies ed, ed.lines, fs`slots, fs`held, fs`clients, fs`directoryWritten, fs.entries, fs.heap, fs.heap.mem
    ensures fs.Valid() && fs.clients == old(fs.clients)
    ensures ClientsKept(fs.clients, old(fs.heap.mem[..]), fs.heap.mem[..])
    ensures OnlyFile(old(DiskOf(fs)), DiskOf(fs), f) && Exchanged(old(DiskOf(fs)), DiskOf(fs), f)
    ensures (ran <==> LinesFit(old(fs.heap.blocks))) && (!ran ==> fs.slots == old(fs.slots) && saves == [])
    // The file's bytes, the session on them, and the saves on the heap as borrowed from.
    ensures ran ==> && |bytes| == (if f == -1 then 0 else old(fs.slots)[f].body.Size())
                    && (f != -1 && old(fs.slots)[f].body.Bytes? ==> bytes == old(fs.slots)[f].body.content)
    ensures ran ==> Edited(old(DiskOf(fs)), fs.slots, fs.held, f, bytes, keys, ed.state, saves)
  {
    ghost var m0, d0 := fs.heap.mem[..], DiskOf(fs);
    var p;
    ghost var b;
    ran, saves, bytes := false, [], [];
    TotalRoom(MAX_LINES * PTR_SIZE);
    p, b := fs.Obtain(MAX_LINES * PTR_SIZE);
    if p == NULL {
      OnlyFileSame(d0, f);
      ExchangedBy(d0, DiskOf(fs), f, fs.clients, fs.leaked);
      return;
    }
    ghost var m1 := fs.heap.mem[..];
    ran, saves, bytes := EditBorrowed(ed, fs, f, keys, d0, b);
    ghost var m2 := fs.heap.mem[..];
    fs.ClientFree(p, b);
    assert fs.clients == old(fs.clients);
    FewerKept(old(fs.clients) + {b}, old(fs.clients), m0, m1, m2);
    ClientsKeptThrough(fs.clients, m0, m2, fs.heap.mem[..]);
    ExchangedBy(d0, DiskOf(fs), f, fs.clients, fs.leaked);
  }

  /** The session as a function of the disk before it. */
  ghost predicate Edited(
      d: Disk, slots: seq<Slot>, held: seq<Holding>, f: int, bytes: seq<Byte>, keys: seq<Byte>,
      after: State, saves: seq<Saved>)
  {
    var bs := WithLines(d.blocks);
    var loaded := Loaded(bs, bytes);
    && Editor.Good(loaded) && Roomy(loaded) && after == Session(loaded, keys)
    && var t := SaveAll(Track(d.(blocks := bs), []), f, SavedTexts(loaded, keys));
       slots == t.disk.slots && held == t.disk.held && saves == t.answers
  }

  lemma OnlyFileSame(d: Disk, f: int)
    ensures OnlyFile(d, d, f)
  {
    if HasFile(d, f) {
      assert d.slots[f := d.slots[f]] == d.slots && d.held[f := d.held[f]] == d.held;
    }
  }

  /** The same with the array of pointers in hand. */
  method EditBorrowed(ed: LineEditor, fs: FileSystem, f: int, keys: seq<Byte>, ghost d0: Disk, ghost b: Block)
    returns (ran: bool, saves: seq<Saved>, ghost bytes: seq<Byte>)
    requires ed.Buffers() && ed.Apart(fs) && fs.Valid() && (f == -1 || fs.IsFile(f)) && b in fs.clients
    requires DiskOf(fs) == d0.(blocks := Alloc(d0.blocks, Total(MAX_LINES * PTR_SIZE)))
    modifies ed, ed.lines, fs`slots, fs`held, fs`clients, fs`directoryWritten, fs.entries, fs.heap, fs.heap.mem
    ensures fs.Valid() && fs.clients == old(fs.clients)
    ensures ClientsKept(fs.clients, old(fs.heap.mem[..]), fs.heap.mem[..])
    ensures OnlyFile(d0, DiskOf(fs), f) && (!ran ==> fs.slots == d0.slots && saves == [])
    ensures ran <==> AllLinesFit(old(fs.heap.blocks))
    ensures ran ==> && |bytes| == (if f == -1 then 0 else old(fs.slots)[f].body.Size())
                    && (f != -1 && old(fs.slots)[f].body.Bytes? ==> bytes == old(fs.slots)[f].body.content)
    ensures ran ==> Edited(d0, fs.slots, fs.held, f, bytes, keys, ed.state, saves)
  {
    ghost var m0 := fs.heap.mem[..];
    ran, saves, bytes := false, [], [];
    OnlyFileSame(d0, f);
    var ptrs;
    ghost var mine;
    ptrs, mine := BorrowLines(fs);
    ghost var m1 := fs.heap.mem[..];
    assert DiskOf(fs) == d0.(blocks := WithLines(d0.blocks));
    NoneRefused(old(fs.heap.blocks), ptrs);
    if NULL !in ptrs {
      ran := true;
      saves, bytes := EditLines(ed, fs, f, keys);
    }
    ghost var m2 := fs.heap.mem[..];
    ReturnLines(fs, ptrs, mine);
    assert fs.clients == old(fs.clients);
    FewerKept(old(fs.clients) + mine, fs.clients, m0, m1, m2);
    ClientsKeptThrough(fs.clients, m0, m2, fs.heap.mem[..]);
  }

  lemma NoneRefused(bs: seq<Block>, ptrs: seq<int>)
    requires |ptrs| == MAX_LINES && NullWhereFull(bs, ptrs)
    ensures NULL !in ptrs <==> AllLinesFit(bs)
  {
    if AllLinesFit(bs) {
      assert forall i :: 0 <= i < MAX_LINES ==> LineFits(bs, i);
    } else {
      var i :| 0 <= i < MAX_LINES && !LineFits(bs, i);
      assert ptrs[i] == NULL;
    }
  }

  /** cmd_nano on a named file. `made` is the disk once the file has been created,
      if it was missing and could be. */
  method CmdNano(ed: LineEditor, fs: FileSystem, name: array<Byte>, off: nat, ghost nm: seq<Byte>, keys: seq<Byte>)
    returns (f: int, ran: bool, saves: seq<Saved>, ghost bytes: seq<Byte>, ghost made: Disk)
    requires ed.Buffers() && ed.Apart(fs) && fs.Valid()
    requires Holds(name, off, nm) && name != fs.names && name != fs.heap.mem && name !in ed.lines
    modifies ed, ed.lines, fs`slots, fs`held, fs`clients, fs`directoryWritten
    modifies fs.names, fs.entries, fs.heap, fs.heap.mem
    ensures fs.Valid() && fs.clients == old(fs.clients)
    ensures ClientsKept(fs.clients, old(fs.heap.mem[..]), fs.heap.mem[..])
    ensures Opens(old(DiskOf(fs)), made, nm, f)
    ensures OnlyFile(made, DiskOf(fs), f) && Exchanged(made, DiskOf(fs), f)
    ensures (ran <==> LinesFit(made.blocks)) && (!ran ==> fs.slots == made.slots && saves == [])
    ensures ran ==> Edited(made, fs.slots, fs.held, f, bytes, keys, ed.state, saves)
    ensures ran && f != -1 && made.slots[f].body.Bytes? ==> bytes == made.slots[f].body.content
    ensures ran && f == -1 ==> bytes == []
  {
    var found := fs.FsFind(name, off, nm);
    if found < 0 {
      var _ := fs.FsCreate(name, off, nm);
    }
    f := fs.FsOpen(name, off, nm);
    made := DiskOf(fs);
    ran, saves, bytes := Edit(ed, fs, f, keys);
  }

  /** The file is opened, or -1; it has been created empty if it was missing, its
      name is valid and the table was not full. */
  ghost predicate Opens(before: Disk, made: Disk, nm: seq<Byte>, f: int)
  {
    && made.blocks == before.blocks && made.held == before.held
    && (if nm in AsMap(before.slots) then made == before
        else exists r :: Creates(before.slots, made.slots, true, nm, false, r))
    && (f == -1 <==> nm !in AsMap(made.slots))
    && (f != -1 ==> HasFile(made, f) && made.slots[f].name == nm)
  }
}
