/** Runs from start-up in which the file system or its lister falls short: a
    failed overwrite that loses a file's data, an append after it, a removed
    directory that leaves a block behind, a name that is listed as two, and a full
    table that is not listed whole. */
module FsLimits {
  import opened CString
  import opened Text
  import opened Blocks
  import opened HeapRuns
  import opened Heap
  import opened NameTable
  import opened Ownership
  import opened RamFs
  import opened Shell

  /** A block of another client, as large as leaves room for one small file. */
  const FILLER := Block(HEAP_START, HEAP_SIZE - 28, true)
  const LAST := Block(HEAP_END - 28, 28, true)

  lemma FitsFirst(bs: seq<Block>, i: nat, total: int)
    requires i < |bs| && Fits(bs[i], total) && forall k :: 0 <= k < i ==> !Fits(bs[k], total)
    ensures FirstFit(bs, total) == i
  {
  }

  lemma NoneFits(bs: seq<Block>, total: int)
    requires forall b :: b in bs ==> !Fits(b, total)
    ensures FirstFit(bs, total) == |bs|
  {
  }

  lemma Totals()
    ensures Total(HEAP_SIZE - 40) == HEAP_SIZE - 28 && Total(1) == Total(8) == 20 && Total(9) == 28 && Total(100) == 116
  {
  }

  /** After a request that leaves 28 bytes, a small file takes exactly those. */
  lemma Filled()
    ensures Alloc(FRESH_HEAP, HEAP_SIZE - 28) == [FILLER, LAST.(used := false)]
    ensures FirstFit(FRESH_HEAP, HEAP_SIZE - 28) == 0
    ensures FirstFit([FILLER, LAST.(used := false)], 20) == 1
    ensures Alloc([FILLER, LAST.(used := false)], 20) == [FILLER, LAST]
    ensures FirstFitBlock([FILLER, LAST.(used := false)], 20) == LAST
  {
    FitsFirst(FRESH_HEAP, 0, HEAP_SIZE - 28);
    FitsFirst([FILLER, LAST.(used := false)], 1, 20);
  }

  /** An overwrite can fail after the old data is gone, on a heap two allocations
      away from the fresh one: the file's block is the last 28 bytes, and even
      once it is free there is no room for 100 bytes. */
  lemma OverwriteCanLose()
    ensures var bs := Run(FRESH_HEAP, [Malloc(HEAP_SIZE - 28), Malloc(20)]);
            && bs == [FILLER, LAST] && Without(bs, Owns(LAST)) == [FILLER, LAST.(used := false)]
            && NoRoom(Without(bs, Owns(LAST)), 100)
  {
    Filled();
    FoldTwo(Exec, FRESH_HEAP, Malloc(HEAP_SIZE - 28), Malloc(20));
    var bs, freed := [FILLER, LAST], [FILLER, LAST.(used := false)];
    assert Good(bs) && Good(freed);
    assert bs[1] in bs;
    assert UsedBlocks(freed) == UsedBlocks(bs) - {LAST};
    WithoutIs(bs, freed, Owns(LAST));
    FirstFitComplete(freed, Total(100));
    Totals();
    NoneFits(freed, Total(100));
  }

  /** An empty file system on a fresh heap that nobody else uses. */
  method Boot() returns (fs: FileSystem)
    ensures fresh(fs) && fresh(fs.names) && fresh(fs.entries) && fresh(fs.heap) && fresh(fs.heap.mem)
    ensures fs.Valid() && fs.heap.blocks == FRESH_HEAP && fs.clients == {} && fs.leaked == {}
    ensures AsMap(fs.slots) == map[] && fs.held == seq(MAX_FILES, _ => Nothing)
  {
    var memory := new Byte[HEAP_END];
    var heap := new KernelHeap(memory);
    heap.MemoryInit();
    fs := new FileSystem(heap);
    fs.FsInit();
    InitialGood();
  }

  /** The name "a". */
  method NameA() returns (name: array<Byte>)
    ensures fresh(name) && Holds(name, 0, [97])
  {
    name := new Byte[2];
    name[0], name[1] := 97, NUL;
  }

  /** The only file, or the only directory. */
  ghost predicate OnlyEntry(fs: FileSystem, f: int, name: seq<Byte>, directory: bool, body: Body)
    reads fs
  {
    && 0 <= f < |fs.slots| && fs.slots[f] == File(name, directory, body)
    && AsMap(fs.slots) == map[name := FileInfo(directory, body)]
  }

  /** Open what has just been created. */
  method OpenOnly(fs: FileSystem, name: array<Byte>, ghost nm: seq<Byte>, ghost directory: bool) returns (f: int)
    requires fs.Valid() && Holds(name, 0, nm) && AsMap(fs.slots) == map[nm := FileInfo(directory, Bytes([]))]
    ensures OnlyEntry(fs, f, nm, directory, Bytes([])) && fs.IsFile(f)
  {
    f := fs.FsOpen(name, 0, nm);
    FileAt(fs.slots, f);
  }

  method MakeFile(fs: FileSystem, name: array<Byte>, ghost nm: seq<Byte>) returns (f: int)
    requires fs.Valid() && AsMap(fs.slots) == map[]
    requires name != fs.names && Holds(name, 0, nm) && ValidName(nm)
    modifies fs`slots, fs.names, fs.entries
    ensures fs.Valid() && fs.IsFile(f) && OnlyEntry(fs, f, nm, false, Bytes([]))
    ensures FirstEmpty(old(fs.slots)) < |old(fs.slots)|
    ensures fs.slots == old(fs.slots)[FirstEmpty(old(fs.slots)) := File(nm, false, Bytes([]))]
  {
    var _ := fs.FsCreate(name, 0, nm);
    f := OpenOnly(fs, name, nm, false);
  }

  method MakeDirectory(fs: FileSystem, name: array<Byte>, ghost nm: seq<Byte>) returns (f: int)
    requires fs.Valid() && AsMap(fs.slots) == map[]
    requires name != fs.names && Holds(name, 0, nm) && ValidName(nm)
    modifies fs`slots, fs.names, fs.entries
    ensures fs.Valid() && fs.IsFile(f) && OnlyEntry(fs, f, nm, true, Bytes([]))
  {
    var _ := fs.FsMkdir(name, 0, nm);
    f := OpenOnly(fs, name, nm, true);
  }

  lemma RoomFor(bs: seq<Block>, request: int)
    requires Good(bs) && Total(request) > 0 && FirstFit(bs, Total(request)) < |bs|
    ensures !NoRoom(bs, request)
  {
    FirstFitComplete(bs, Total(request));
  }

  // ---- A failed overwrite ----

  /** A file on a heap with room for little more: another client holds all but 28
      bytes. */
  method AlmostFull() returns (fs: FileSystem, f: nat)
    ensures fresh(fs) && fresh(fs.names) && fresh(fs.entries) && fresh(fs.heap) && fresh(fs.heap.mem)
    ensures fs.Valid() && fs.IsFile(f) && fs.held[f] == Nothing && fs.slots[f].body == Bytes([])
    ensures fs.heap.blocks == [FILLER, LAST.(used := false)]
  {
    fs := Boot();
    Totals();
    Filled();
    RoomFor(FRESH_HEAP, HEAP_SIZE - 40);
    var _, _ := fs.Obtain(HEAP_SIZE - 40);
    var name := NameA();
    f := MakeFile(fs, name, [97]);
  }

  /** Eight bytes, then a hundred, with room for the first only. */
  method WriteTwice(fs: FileSystem, f: nat, data: array<Byte>) returns (first: int, second: int, ghost between: Body)
    requires fs.Valid() && fs.IsFile(f) && fs.held[f] == Nothing
    requires fs.heap.blocks == [FILLER, LAST.(used := false)]
    requires data != fs.heap.mem && data.Length == 100 && data[0..8] == seq(8, _ => 0)
    modifies fs`slots, fs`held, fs`clients, fs`directoryWritten, fs.entries, fs.heap, fs.heap.mem
    ensures fs.Valid() && fs.IsFile(f) && fs.heap.blocks == [FILLER, LAST.(used := false)]
    ensures first == 8 && between == Bytes(seq(8, _ => 0))
    ensures second == -3 && fs.slots[f].body == Lost(8)
  {
    Totals();
    Filled();
    OverwriteCanLose();
    RoomFor(fs.heap.blocks, 8);
    first := fs.FsWrite(f, data, 0, 8, NO_BLOCK);
    between := fs.slots[f].body;
    second := fs.FsWrite(f, data, 0, 100, NO_BLOCK);
  }

  /** The file is given eight bytes, and then a hundred. The last call answers -3,
      the size field still says eight, and the bytes are gone. */
  method LoseContents() returns (first: int, second: int, size: nat, ghost between: Body, ghost after: Body)
    ensures first == 8 && between == Bytes(seq(8, _ => 0))
    ensures second == -3 && size == 8 && after == Lost(8)
  {
    var fs, f := AlmostFull();
    var data := new Byte[100](_ => 0);
    assert data[0..8] == seq(8, _ => 0);
    first, second, between := WriteTwice(fs, f, data);
    after := fs.slots[f].body;
    size := fs.FsGetSize(f);
  }

  /** One byte appended to a file that says it has eight, with room for nine. */
  method AppendOne(fs: FileSystem, f: nat, data: array<Byte>) returns (appended: int)
    requires fs.Valid() && fs.IsFile(f) && fs.slots[f].body == Lost(8)
    requires fs.heap.blocks == [FILLER, LAST.(used := false)]
    requires data != fs.heap.mem && data.Length == 100
    modifies fs`slots, fs`held, fs`clients, fs`directoryWritten, fs.entries, fs.heap, fs.heap.mem
    ensures fs.Valid() && fs.IsFile(f) && appended == 1
    ensures fs.slots[f].body.Bytes? && |fs.slots[f].body.content| == 9 && fs.slots[f].body.content[8] == old(data[0])
  {
    Totals();
    FitsFirst([FILLER, LAST.(used := false)], 1, 28);
    RoomFor(fs.heap.blocks, 9);
    ghost var added := data[0..1];
    appended := fs.FsAppend(f, data, 0, 1, NO_BLOCK);
    assert fs.slots[f].body.content[8..][0] == added[0];
  }

  /** After the loss an append succeeds, and the file has nine bytes, of which
      eight were never written to it. */
  method AppendAfterLoss() returns (appended: int, size: nat, ghost after: Body)
    ensures appended == 1 && size == 9 && after.Bytes? && |after.content| == 9 && after.content[8] == 0
  {
    var fs, f := AlmostFull();
    var data := new Byte[100](_ => 0);
    assert data[0..8] == seq(8, _ => 0);
    var _, _, _ := WriteTwice(fs, f, data);
    appended := AppendOne(fs, f, data);
    after := fs.slots[f].body;
    size := fs.FsGetSize(f);
  }

  // ---- A removed directory ----

  /** One byte for a directory. */
  method WriteOne(fs: FileSystem, f: nat) returns (wrote: int)
    requires fs.Valid() && fs.IsFile(f) && fs.held[f] == Nothing && fs.heap.blocks == FRESH_HEAP
    modifies fs`slots, fs`held, fs`clients, fs`directoryWritten, fs.entries, fs.heap, fs.heap.mem
    ensures fs.Valid() && fs.clients == old(fs.clients) && wrote == 1
    ensures fs.slots == old(fs.slots)[f := old(fs.slots)[f].(body := Bytes([0]))] && fs.heap.usedMemory == 20
  {
    Totals();
    OneSmallBlock();
    RoomFor(FRESH_HEAP, 1);
    var data := new Byte[1](_ => 0);
    assert data[0..1] == [0];
    wrote := fs.FsWrite(f, data, 0, 1, NO_BLOCK);
  }

  lemma OneSmallBlock()
    ensures FirstFit(FRESH_HEAP, 20) == 0 && Sum(Alloc(FRESH_HEAP, 20), true) == 20
  {
    FitsFirst(FRESH_HEAP, 0, 20);
    var bs := [Block(HEAP_START, 20, true), Block(HEAP_START + 20, HEAP_SIZE - 20, false)];
    assert Alloc(FRESH_HEAP, 20) == bs;
    assert bs[..1] == [bs[0]] && bs[..1][..0] == [];
    assert Sum(bs[..1], true) == 20;
  }

  /** A directory with one byte in it, on a heap used by nobody else. */
  method WrittenDirectory(name: array<Byte>, ghost nm: seq<Byte>) returns (fs: FileSystem, wrote: int)
    requires Holds(name, 0, nm) && ValidName(nm)
    ensures fresh(fs) && fresh(fs.names) && fresh(fs.entries) && fresh(fs.heap) && fresh(fs.heap.mem)
    ensures fs.Valid() && fs.clients == {} && fs.heap.usedMemory == 20 && wrote == 1
    ensures AsMap(fs.slots) == map[nm := FileInfo(true, Bytes([0]))]
  {
    fs := Boot();
    var f := MakeDirectory(fs, name, nm);
    ChangeBody(fs.slots, f, Bytes([0]));
    wrote := WriteOne(fs, f);
  }

  method RemoveOnly(fs: FileSystem, name: array<Byte>, ghost nm: seq<Byte>, ghost body: Body) returns (removed: int)
    requires fs.Valid() && Holds(name, 0, nm) && AsMap(fs.slots) == map[nm := FileInfo(true, body)]
    modifies fs`slots, fs`held, fs`leaked, fs.names, fs.entries
    ensures fs.Valid() && removed == 0 && AsMap(fs.slots) == map[]
  {
    removed := fs.FsRmdir(name, 0, nm);
  }

  /** The directory is removed: no file is left and no client holds anything, yet
      20 bytes stay in use for good. */
  method LeakDirectory() returns (wrote: int, removed: int, files: nat, used: int, ghost owned: set<Block>)
    ensures wrote == 1 && removed == 0
    ensures files == 0 && owned == {} && used == 20
  {
    var name := NameA();
    var fs;
    fs, wrote := WrittenDirectory(name, [97]);
    removed := RemoveOnly(fs, name, [97], Bytes([0]));
    files := fs.FsCount();
    used := fs.heap.usedMemory;
    owned := fs.clients;
  }

  // ---- The lister ----

  lemma NoFiles(slots: seq<Slot>)
    requires Unique(slots) && AsMap(slots) == map[]
    ensures forall i :: 0 <= i < |slots| ==> slots[i] == Empty
    ensures |slots| > 0 ==> FirstEmpty(slots) == 0
  {
    forall i | 0 <= i < |slots|
      ensures slots[i] == Empty
    {
      if slots[i].File? {
        FileAt(slots, i);
      }
    }
  }

  lemma {:induction false} ListedOne(slots: seq<Slot>, n: nat, capacity: nat)
    requires 0 < n <= |slots| && slots[0].File? && |slots[0].name| + 2 < capacity
    requires forall i :: 1 <= i < n ==> slots[i] == Empty
    ensures Listed(slots, n, capacity) == [slots[0].name]
  {
    if n > 1 {
      ListedOne(slots, n - 1, capacity);
    } else {
      assert Listed(slots, 0, capacity) == [];
    }
  }

  /** "a", a newline, "b". */
  method NewlineName() returns (name: array<Byte>)
    ensures fresh(name) && Holds(name, 0, [97, NEWLINE, 98])
  {
    name := new Byte[4];
    name[0], name[1], name[2], name[3] := 97, NEWLINE, 98, NUL;
  }

  /** The only file has a newline in its name: two names are listed, and neither
      opens. */
  method ListNewline() returns (total: nat, names: seq<seq<Byte>>, handles: seq<int>)
    ensures total == 1 && names == [[97], [98]] && handles == [-1, -1]
  {
    var fs := Boot();
    NoFiles(fs.slots);
    var name := NewlineName();
    ghost var nm: seq<Byte> := [97, NEWLINE, 98];
    var _ := MakeFile(fs, name, nm);
    ListedOne(fs.slots, MAX_FILES, LS_BUFFER);
    NewlineSplits();
    total, names, handles := Ls(fs);
    NoneOpens(fs.slots, nm, names, handles);
  }

  lemma NoneOpens(slots: seq<Slot>, nm: seq<Byte>, names: seq<seq<Byte>>, handles: seq<int>)
    requires OpensEach(slots, names, handles) && names == [[97], [98]] && |nm| == 3
    requires forall name :: name in AsMap(slots) ==> name == nm
    ensures handles == [-1, -1]
  {
    assert |names[0]| == 1 && |names[1]| == 1;
  }

  /** 64 different names of 31 characters. */
  function LongName(i: nat): (name: seq<Byte>)
    requires i < MAX_FILES
    ensures |name| == MAX_NAME - 1 && name[0] == 65 + i
  {
    [65 + i] + seq(MAX_NAME - 2, _ => 97)
  }

  method MakeLongName(i: nat) returns (name: array<Byte>)
    requires i < MAX_FILES
    ensures fresh(name) && Holds(name, 0, LongName(i))
  {
    name := new Byte[MAX_NAME](k => if k == 0 then 65 + i else if k < MAX_NAME - 1 then 97 else NUL);
  }

  /** The first `n` slots hold files of those names, the others are empty. */
  ghost predicate FilledTo(slots: seq<Slot>, n: nat)
  {
    && |slots| == MAX_FILES && n <= MAX_FILES
    && (forall i :: 0 <= i < n ==> slots[i] == File(LongName(i), false, Bytes([])))
    && forall i :: n <= i < MAX_FILES ==> slots[i] == Empty
  }

  lemma NextSlot(slots: seq<Slot>, n: nat)
    requires FilledTo(slots, n) && Unique(slots) && n < MAX_FILES
    ensures FirstEmpty(slots) == n && LongName(n) !in AsMap(slots) && |AsMap(slots)| < MAX_FILES
  {
    NamesOf(slots, LongName(n));
    MapSize(slots);
    FullTable(slots);
    assert slots[n] == Empty;
  }

  method FillTable(fs: FileSystem)
    requires fs.Valid() && FilledTo(fs.slots, 0)
    modifies fs`slots, fs.names, fs.entries
    ensures fs.Valid() && FilledTo(fs.slots, MAX_FILES)
  {
    var i := 0;
    while i < MAX_FILES
      invariant 0 <= i <= MAX_FILES && fs.Valid() && FilledTo(fs.slots, i)
    {
      var name := MakeLongName(i);
      NextSlot(fs.slots, i);
      var _ := fs.FsCreate(name, 0, LongName(i));
      i := i + 1;
    }
  }

  lemma {:induction false} LongNames(slots: seq<Slot>, n: nat)
    requires n <= |slots| == MAX_FILES && forall i :: 0 <= i < n ==> slots[i] == File(LongName(i), false, Bytes([]))
    ensures |Join(AllNames(slots[..n]))| == MAX_NAME * n
    ensures n > 0 ==> AllNames(slots[..n]) != []
  {
    if n > 0 {
      LongNames(slots, n - 1);
      assert slots[..n][..n - 1] == slots[..n - 1];
      JoinLast(AllNames(slots[..n - 1]), LongName(n - 1));
    }
  }

  lemma OverflowShown(slots: seq<Slot>, names: seq<seq<Byte>>, handles: seq<int>)
    requires FilledTo(slots, MAX_FILES) && Unique(slots) && Shows(slots, |AsMap(slots)|, names, handles)
    ensures |AsMap(slots)| == MAX_FILES && |names| < MAX_FILES
  {
    MapSize(slots);
    FullTable(slots);
    assert slots[..MAX_FILES] == slots;
    LongNames(slots, MAX_FILES);
    NoNewlines(slots);
    ListedCount(slots, MAX_FILES, LS_BUFFER);
  }

  lemma NoNewlines(slots: seq<Slot>)
    requires FilledTo(slots, MAX_FILES)
    ensures forall l :: l in Listed(slots, MAX_FILES, LS_BUFFER) ==> NEWLINE !in l
  {
    ListedFits(slots, MAX_FILES, LS_BUFFER);
    forall l | l in Listed(slots, MAX_FILES, LS_BUFFER)
      ensures NEWLINE !in l
    {
      var i :| 0 <= i < MAX_FILES && slots[i].File? && slots[i].name == l;
    }
  }

  /** A full table of such names: the lister prints a total of 64 below fewer
      names. */
  method ListOverflow() returns (total: nat, names: seq<seq<Byte>>, handles: seq<int>)
    ensures total == 64 && |names| < 64
  {
    var fs := Boot();
    NoFiles(fs.slots);
    FillTable(fs);
    total, names, handles := Ls(fs);
    OverflowShown(fs.slots, names, handles);
  }
}
