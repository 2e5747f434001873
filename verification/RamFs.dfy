/** The RAM file system: a table of 64 slots whose file data are heap blocks. */
module RamFs {
  import opened CString
  import opened Text
  import opened Blocks
  import opened HeapRuns
  import opened Heap
  import opened NameTable
  import opened Ownership

  const FLAG_FREE := 0
  const FLAG_USED := 1
  const FLAG_DIRECTORY := 4

  /** The fields of a table entry besides its name. */
  datatype Entry = Entry(data: int, size: nat, flags: nat)

  /** flags & FS_FLAG_USED */
  predicate InUse(e: Entry)
  {
    e.flags % 2 == 1
  }

  /** flags & FS_FLAG_DIRECTORY */
  predicate IsDirectory(e: Entry)
  {
    e.flags / 4 % 2 == 1
  }

  /** A table entry agrees with the slot it stands for and the block it owns. */
  predicate EntryOk(e: Entry, s: Slot, h: Holding)
  {
    match s
    case Empty => e == Entry(NULL, 0, FLAG_FREE) && h.Nothing?
    case File(_, directory, body) =>
      && e.flags == FLAG_USED + (if directory then FLAG_DIRECTORY else 0)
      && e.size == body.Size() <= MAX_SIZE
      && (h.Owns? ==> e.data == h.block.Payload() && body.Bytes? && e.size > 0)
      && (h.Nothing? ==> e.data == NULL && (body == Bytes([]) || (body.Lost? && e.size > 0)))
  }

  predicate EntriesOk(es: seq<Entry>, slots: seq<Slot>, held: seq<Holding>)
  {
    |es| == |slots| == |held| && forall i :: 0 <= i < |es| ==> EntryOk(es[i], slots[i], held[i])
  }

  ghost predicate Stores(m: seq<Byte>, d: int, content: seq<Byte>)
  {
    0 <= d && d + |content| <= |m| && forall k :: 0 <= k < |content| ==> m[d + k] == content[k]
  }

  lemma StoredSlice(m: seq<Byte>, d: int, content: seq<Byte>, offset: nat, n: nat)
    requires Stores(m, d, content) && offset + n <= |content|
    ensures m[d + offset..d + offset + n] == content[offset..offset + n]
  {
    assert forall k :: 0 <= k < |content| ==> content[k] == m[d..d + |content|][k];
    assert content == m[d..d + |content|];
  }

  /** The block is what some request for at least `n` bytes was given. */
  ghost predicate AllocatedFor(b: Block, n: nat)
  {
    exists request :: n <= request <= MAX_SIZE && Total(request) <= b.size
  }

  /** An owned block has room for the file's content and stores it. */
  ghost predicate BytesOk(m: seq<Byte>, s: Slot, h: Holding)
  {
    h.Owns? ==> && s.File? && s.body.Bytes? && |s.body.content| + HEADER <= h.block.size
                && AllocatedFor(h.block, |s.body.content|)
                && Stores(m, h.block.Payload(), s.body.content)
  }

  /** What was stored in a block fits again once the block is free. */
  lemma FitsAgain(before: seq<Block>, h: Holding, length: nat, size: nat)
    requires Good(before) && h.Owns? && h.block in UsedBlocks(before)
    requires AllocatedFor(h.block, length) && size <= length
    ensures !NoRoom(Without(before, h), size)
  {
    var request :| length <= request <= MAX_SIZE && Total(request) <= h.block.size;
    TotalMonotone(size, request);
    FreeRemovesOne(before, h.block);
    FreedHasRoom(before, Without(before, h), h.block, size);
  }

  ghost predicate AllBytes(m: seq<Byte>, slots: seq<Slot>, held: seq<Holding>)
  {
    |slots| == |held| && forall i :: 0 <= i < |slots| ==> BytesOk(m, slots[i], held[i])
  }

  /** Every live block has exactly one owner. */
  ghost predicate Owners(bs: seq<Block>, held: seq<Holding>, clients: set<Block>, leaked: set<Block>)
  {
    && Distinct(held)
    && UsedBlocks(bs) == HeldBlocks(held) + clients + leaked
    && HeldBlocks(held) !! clients && HeldBlocks(held) !! leaked && clients !! leaked
  }

  /** A slot gives its block up, to a client or to nobody. */
  lemma GiveUp(bs: seq<Block>, held: seq<Holding>, clients: set<Block>, leaked: set<Block>, f: nat)
    requires Owners(bs, held, clients, leaked) && f < |held|
    ensures Owners(bs, held[f := Nothing], clients + BlockSet(held[f]), leaked)
    ensures Owners(bs, held[f := Nothing], clients, leaked + BlockSet(held[f]))
  {
    HeldChange(held, f, Nothing);
    if held[f].Owns? {
      assert held[f] in held;
      assert held[f].block in HeldBlocks(held);
    }
  }

  /** A slot without a block takes one over from a client. */
  lemma TakeOver(bs: seq<Block>, held: seq<Holding>, clients: set<Block>, leaked: set<Block>, f: nat, b: Block)
    requires Owners(bs, held, clients, leaked) && f < |held| && held[f].Nothing? && b in clients
    ensures Owners(bs, held[f := Owns(b)], clients - {b}, leaked)
  {
    HeldChange(held, f, Owns(b));
  }

  /** When only one slot's block changes, so do the used blocks. */
  lemma UsedExchange(
      before: seq<Block>, after: seq<Block>, held: seq<Holding>, now: seq<Holding>, f: nat,
      clients: set<Block>, leaked: set<Block>)
    requires Owners(before, held, clients, leaked) && Owners(after, now, clients, leaked)
    requires f < |held| == |now| && now == held[f := now[f]]
    ensures UsedBlocks(after) == UsedBlocks(before) - BlockSet(held[f]) + BlockSet(now[f])
  {
    var none := held[f := Nothing];
    assert held == none[f := held[f]] && now == none[f := now[f]];
    HeldChange(held, f, Nothing);
    HeldApart(held, f);
    HeldApart(now, f);
    assert now[f := Nothing] == none;
    HeldChange(now, f, Nothing);
  }

  /** A slot's block is held by that slot. */
  lemma HeldApart(held: seq<Holding>, f: nat)
    requires f < |held|
    ensures BlockSet(held[f]) <= HeldBlocks(held)
  {
    assert held[f] in held;
  }

  lemma EntriesChange(es: seq<Entry>, slots: seq<Slot>, held: seq<Holding>, f: nat, e: Entry, s: Slot, h: Holding)
    requires EntriesOk(es, slots, held) && f < |es| && EntryOk(e, s, h)
    ensures EntriesOk(es[f := e], slots[f := s], held[f := h])
  {
  }

  /** Contents survive any step that leaves the bytes of live blocks alone. */
  lemma BytesSurvive(bs: seq<Block>, slots: seq<Slot>, held: seq<Holding>, m0: seq<Byte>, m1: seq<Byte>)
    requires AllBytes(m0, slots, held) && HeldBlocks(held) <= UsedBlocks(bs)
    requires |m0| == |m1| && forall k :: 0 <= k < |m0| && Kept(bs, k) ==> m1[k] == m0[k]
    ensures AllBytes(m1, slots, held)
  {
    forall i | 0 <= i < |slots|
      ensures BytesOk(m1, slots[i], held[i])
    {
      assert BytesOk(m0, slots[i], held[i]);
      if held[i].Owns? {
        var b, content := held[i].block, slots[i].body.content;
        assert held[i] in held && b in UsedBlocks(bs);
        forall k | 0 <= k < |content|
          ensures m1[b.Payload() + k] == content[k]
        {
          assert Kept(bs, b.Payload() + k);
          assert m0[b.Payload() + k] == content[k];
        }
      }
    }
  }

  lemma BytesChange(m: seq<Byte>, slots: seq<Slot>, held: seq<Holding>, i: nat, s: Slot, h: Holding)
    requires AllBytes(m, slots, held) && i < |slots| && BytesOk(m, s, h)
    ensures AllBytes(m, slots[i := s], held[i := h])
  {
    var slots', held' := slots[i := s], held[i := h];
    forall k | 0 <= k < |slots'|
      ensures BytesOk(m, slots'[k], held'[k])
    {
      assert BytesOk(m, slots[k], held[k]);
    }
  }

  /** A body whose block has been freed without touching the size field. */
  function Dropped(body: Body): Body
  {
    if body == Bytes([]) then body else Lost(body.Size())
  }

  /** Each used slot's name stands terminated in its own 32-byte field. */
  ghost predicate NamesOk(names: array<Byte>, slots: seq<Slot>)
    reads names
  {
    forall i :: 0 <= i < |slots| && slots[i].File? ==> Holds(names, MAX_NAME * i, slots[i].name)
  }

  /** Names stay in place when only a file's data change. */
  lemma NamesStay(names: array<Byte>, slots: seq<Slot>, f: nat, body: Body)
    requires NamesOk(names, slots) && f < |slots| && slots[f].File?
    ensures NamesOk(names, slots[f := slots[f].(body := body)])
  {
    var after := slots[f := slots[f].(body := body)];
    forall i | 0 <= i < |after| && after[i].File?
      ensures Holds(names, MAX_NAME * i, after[i].name)
    {
      assert after[i].name == slots[i].name;
    }
  }

  /** The heap without the block a slot holds. */
  ghost function Without(bs: seq<Block>, h: Holding): seq<Block>
  {
    if h.Owns? then Free(bs, h.block.addr) else bs
  }

  lemma WithoutIs(before: seq<Block>, after: seq<Block>, h: Holding)
    requires Good(before) && Good(after) && BlockSet(h) <= UsedBlocks(before)
    requires UsedBlocks(after) == UsedBlocks(before) - BlockSet(h)
    ensures after == Without(before, h)
  {
    if h.Owns? {
      assert h.block in BlockSet(h);
      FreedIs(before, after, h.block);
    } else {
      Canonical(before, after);
    }
  }

  /** A call on an open file. */
  datatype FileOp = Put(bytes: seq<Byte>) | Add(bytes: seq<Byte>) | Clear

  /** What is known of a file's bytes: how many leading bytes were lost, and the
      bytes after them. */
  datatype View = View(unknown: nat, known: seq<Byte>)

  function ViewOf(body: Body): View
  {
    if body.Bytes? then View(0, body.content) else View(body.lost, [])
  }

  /** A body is one of those a view allows; without unknown bytes there is one. */
  ghost predicate Seen(body: Body, v: View)
  {
    && body.Size() == v.unknown + |v.known|
    && (v.unknown == 0 ==> body == Bytes(v.known))
    && (if body.Bytes? then body.content[v.unknown..] == v.known else v.known == [])
  }

  /** A call's effect, given what it answered: overwrite, concatenate, clear, or
      an overwrite that ran out of memory. */
  function Applied(v: View, op: FileOp, result: int): View
  {
    match op
    case Put(bytes) =>
      if result >= 0 then View(0, bytes) else if result == -3 then View(v.unknown + |v.known|, []) else v
    case Add(bytes) => if result >= 0 then v.(known := v.known + bytes) else v
    case Clear => View(0, [])
  }

  function Replayed(v: View, ops: seq<FileOp>, results: seq<int>): View
    requires |ops| == |results|
  {
    if ops == [] then v
    else
      var n := |ops| - 1;
      Applied(Replayed(v, ops[..n], results[..n]), ops[n], results[n])
  }

  /** What decides the answers: the heap, the file's block and its size. */
  datatype Stock = Stock(blocks: seq<Block>, held: Holding, size: nat)

  ghost function Outcome(st: Stock, op: FileOp): int
  {
    match op
    case Put(bytes) =>
      if |bytes| > MAX_SIZE then -2
      else if bytes != [] && NoRoom(Without(st.blocks, st.held), |bytes|) then -3
      else |bytes|
    case Add(bytes) =>
      if |bytes| == 0 then -1
      else if st.size + |bytes| > MAX_SIZE then -2
      else if NoGrowth(st.blocks, st.size, |bytes|) then -3
      else |bytes|
    case Clear => 0
  }

  ghost function NextStock(st: Stock, op: FileOp, result: int): Stock
  {
    var freed := Without(st.blocks, st.held);
    match op
    case Put(bytes) =>
      if result > 0 then Stock(Alloc(freed, Total(|bytes|)), Owns(FirstFitBlock(freed, Total(|bytes|))), |bytes|)
      else if result == -2 then st
      else Stock(freed, Nothing, if result == 0 then 0 else st.size)
    case Add(bytes) =>
      if result < 0 then st else Grown(st, |bytes|)
    case Clear => Stock(freed, Nothing, 0)
  }

  /** No room for a file of `size` bytes to get `more`. */
  ghost predicate NoGrowth(bs: seq<Block>, size: nat, more: nat)
  {
    NoRoom(bs, size + more)
  }

  /** After an append of `more` bytes. */
  ghost function Grown(st: Stock, more: nat): Stock
  {
    GrownTo(st, st.size + more)
  }

  /** The sum worked out beforehand. */
  lemma GrowthIs(st: Stock, more: nat, n: nat)
    requires n == st.size + more
    ensures NoGrowth(st.blocks, st.size, more) == NoRoom(st.blocks, n) && Grown(st, more) == GrownTo(st, n)
  {
    RoomForSum(st.blocks, st.size, more, n);
    GrowsToSum(st, more, n);
  }

  lemma RoomForSum(bs: seq<Block>, size: nat, more: nat, n: nat)
    requires n == size + more
    ensures NoGrowth(bs, size, more) == NoRoom(bs, n)
  {
  }

  lemma GrowsToSum(st: Stock, more: nat, n: nat)
    requires n == st.size + more
    ensures Grown(st, more) == GrownTo(st, n)
  {
  }

  /** What an append takes, in numbers: a block for the whole new content, found
      while the old one is still held. */
  lemma AppendTakes(st: Stock, more: nat, total: int)
    requires Good(st.blocks) && BlockSet(st.held) <= UsedBlocks(st.blocks)
    requires 0 < more && st.size + more <= 65536 && total == (st.size + more + 7) / 8 * 8 + 12
    ensures && (NoGrowth(st.blocks, st.size, more) <==> !HasRun(st.blocks, total))
            && (HasRun(st.blocks, total) ==>
                  var next := Grown(st, more);
                  && next.size == st.size + more && next.held.Owns? && LowestFront(st.blocks, next.held.block, total)
                  && UsedBlocks(next.blocks) == UsedBlocks(st.blocks) - BlockSet(st.held) + {next.held.block})
  {
    var n := st.size + more;
    GrowthIs(st, more, n);
    TotalFor(n, total);
    if HasRun(st.blocks, total) {
      GrownTakes(st, n, total);
    }
  }

  lemma TotalFor(n: nat, total: int)
    requires 0 < n <= MAX_SIZE && total == (n + 7) / 8 * 8 + 12
    ensures total == Total(n) && 20 <= total && total % 4 == 0
  {
    TotalIs(n);
    TotalRoom(n);
  }

  lemma GrownTakes(st: Stock, n: nat, total: int)
    requires Good(st.blocks) && BlockSet(st.held) <= UsedBlocks(st.blocks)
    requires total == Total(n) && 20 <= total && total % 4 == 0 && HasRun(st.blocks, total)
    ensures var next := GrownTo(st, n);
            && next.size == n && next.held.Owns? && LowestFront(st.blocks, next.held.block, total)
            && UsedBlocks(next.blocks) == UsedBlocks(st.blocks) - BlockSet(st.held) + {next.held.block}
  {
    var i := FirstFit(st.blocks, total);
    FirstFitComplete(st.blocks, total);
    FirstFitIsLowest(st.blocks, total);
    TakeKeeps(st.blocks, i, total);
    var taken := Alloc(st.blocks, total);
    assert taken[i] == FirstFitBlock(st.blocks, total);
    if st.held.Owns? {
      assert st.held.block in BlockSet(st.held);
      FreeRemovesOne(taken, st.held.block);
    }
  }

  /** After an append that makes the file `n` bytes long: the new block is found
      while the old one is still held. */
  ghost function GrownTo(st: Stock, n: nat): Stock
  {
    Stock(Without(Alloc(st.blocks, Total(n)), st.held), Owns(FirstFitBlock(st.blocks, Total(n))), n)
  }

  ghost function StockAfter(st: Stock, ops: seq<FileOp>): Stock
  {
    if ops == [] then st
    else
      var n := |ops| - 1;
      var before := StockAfter(st, ops[..n]);
      NextStock(before, ops[n], Outcome(before, ops[n]))
  }

  /** The answers to a history of calls. */
  ghost function Outcomes(st: Stock, ops: seq<FileOp>): (results: seq<int>)
    ensures |results| == |ops|
  {
    if ops == [] then []
    else
      var n := |ops| - 1;
      Outcomes(st, ops[..n]) + [Outcome(StockAfter(st, ops[..n]), ops[n])]
  }

  lemma OutcomesMore(st: Stock, ops: seq<FileOp>, n: nat)
    requires n < |ops|
    ensures var before := StockAfter(st, ops[..n]);
            && StockAfter(st, ops[..n + 1]) == NextStock(before, ops[n], Outcome(before, ops[n]))
            && Outcomes(st, ops[..n + 1]) == Outcomes(st, ops[..n]) + [Outcome(before, ops[n])]
  {
    assert ops[..n + 1][..n] == ops[..n];
  }

  /** No overwrite has failed for lack of memory. */
  predicate NoneLost(ops: seq<FileOp>, results: seq<int>)
    requires |ops| == |results|
  {
    forall i :: 0 <= i < |ops| && ops[i].Put? ==> results[i] != -3
  }

  /** The bytes left by the successful calls on a file that held `start`. */
  function Rewritten(start: seq<Byte>, ops: seq<FileOp>, results: seq<int>): seq<Byte>
    requires |ops| == |results|
  {
    if ops == [] then start
    else
      var n := |ops| - 1;
      var before := Rewritten(start, ops[..n], results[..n]);
      match ops[n]
      case Put(bytes) => if results[n] >= 0 then bytes else before
      case Add(bytes) => if results[n] >= 0 then before + bytes else before
      case Clear => []
  }

  /** Nothing is unknown as long as no overwrite has run out of memory. */
  lemma {:induction false} NothingUnknown(start: seq<Byte>, ops: seq<FileOp>, results: seq<int>)
    requires |ops| == |results| && NoneLost(ops, results)
    ensures Replayed(View(0, start), ops, results) == View(0, Rewritten(start, ops, results))
  {
    if ops != [] {
      var n := |ops| - 1;
      assert forall i :: 0 <= i < n ==> ops[..n][i] == ops[i] && results[..n][i] == results[i];
      NothingUnknown(start, ops[..n], results[..n]);
    }
  }

  lemma {:induction false} ReplayedFrom(v: View, ops: seq<FileOp>, results: seq<int>, j: nat)
    requires |ops| == |results| && j <= |ops|
    ensures Replayed(v, ops, results) == Replayed(Replayed(v, ops[..j], results[..j]), ops[j..], results[j..])
    decreases |ops|
  {
    if j == |ops| {
      assert ops[..j] == ops && results[..j] == results;
    } else {
      var n := |ops| - 1;
      ReplayedFrom(v, ops[..n], results[..n], j);
      assert ops[..n][..j] == ops[..j] && results[..n][..j] == results[..j];
      assert ops[j..][..n - j] == ops[..n][j..] && results[j..][..n - j] == results[..n][j..];
    }
  }

  /** After a successful overwrite or a clear, with no loss since, the file holds
      what the later calls made of those bytes, whatever was lost before. */
  lemma SinceOverwrite(v: View, ops: seq<FileOp>, results: seq<int>, j: nat)
    requires |ops| == |results| && j < |ops| && !ops[j].Add? && (ops[j].Put? ==> results[j] >= 0)
    requires NoneLost(ops[j + 1..], results[j + 1..])
    ensures var start := if ops[j].Put? then ops[j].bytes else [];
            Replayed(v, ops, results) == View(0, Rewritten(start, ops[j + 1..], results[j + 1..]))
  {
    ReplayedFrom(v, ops, results, j + 1);
    var start := if ops[j].Put? then ops[j].bytes else [];
    assert ops[..j + 1][..j] == ops[..j] && results[..j + 1][..j] == results[..j];
    assert Replayed(v, ops[..j + 1], results[..j + 1]) == View(0, start);
    NothingUnknown(start, ops[j + 1..], results[j + 1..]);
  }

  /** The payloads of other clients' blocks are as they were. */
  ghost predicate ClientsKept(clients: set<Block>, m0: seq<Byte>, m1: seq<Byte>)
  {
    && |m0| == |m1|
    && forall b, k :: b in clients && b.Payload() <= k < b.End() && 0 <= k < |m0| ==> m1[k] == m0[k]
  }

  lemma KeptKeepsClients(bs: seq<Block>, clients: set<Block>, m0: seq<Byte>, m1: seq<Byte>)
    requires clients <= UsedBlocks(bs) && |m0| == |m1|
    requires forall k :: 0 <= k < |m0| && Kept(bs, k) ==> m1[k] == m0[k]
    ensures ClientsKept(clients, m0, m1)
  {
    forall b, k | b in clients && b.Payload() <= k < b.End() && 0 <= k < |m0|
      ensures m1[k] == m0[k]
    {
      assert b in UsedBlocks(bs);
      assert Kept(bs, k);
    }
  }

  /** Filling one block keeps the payloads of all others. */
  lemma StoreKeepsClients(bs: seq<Block>, clients: set<Block>, b: Block, m0: seq<Byte>, m1: seq<Byte>)
    requires Tiles(bs) && clients <= UsedBlocks(bs) && b in bs && b !in clients && |m0| == |m1|
    requires forall k :: 0 <= k < |m0| && !(b.Payload() <= k < b.End()) ==> m1[k] == m0[k]
    ensures ClientsKept(clients, m0, m1)
  {
    forall c, k | c in clients && c.Payload() <= k < c.End() && 0 <= k < |m0|
      ensures m1[k] == m0[k]
    {
      PayloadsDisjoint(bs, c, b);
    }
  }

  lemma ClientsKeptThrough(clients: set<Block>, m0: seq<Byte>, m1: seq<Byte>, m2: seq<Byte>)
    requires ClientsKept(clients, m0, m1) && ClientsKept(clients, m1, m2)
    ensures ClientsKept(clients, m0, m2)
  {
  }

  /** A fresh buffer holding the given bytes. */
  method Buffered(bytes: seq<Byte>) returns (a: array<Byte>)
    ensures fresh(a) && a.Length == |bytes| && a[0..|bytes|] == bytes
  {
    a := new Byte[|bytes|](k requires 0 <= k < |bytes| => bytes[k]);
  }

  class FileSystem {
    const heap: KernelHeap
    /** The name fields, side by side, 32 bytes each. */
    const names: array<Byte>
    const entries: array<Entry>
    ghost var slots: seq<Slot>
    ghost var held: seq<Holding>
    /** Live blocks of other heap clients. */
    ghost var clients: set<Block>
    /** Live blocks that nothing refers to any more. */
    ghost var leaked: set<Block>
    /** Whether a directory has ever been given data. */
    ghost var directoryWritten: bool

    ghost predicate Shape()
      reads this, names, entries
    {
      && names.Length == MAX_FILES * MAX_NAME && entries.Length == MAX_FILES && |slots| == |held| == MAX_FILES
      && names != heap.mem
    }

    ghost predicate TableOk()
      reads this, names, entries
    {
      && Shape()
      && Unique(slots)
      && EntriesOk(entries[..], slots, held)
      && NamesOk(names, slots)
    }

    ghost predicate DirectoriesEmpty()
      requires |slots| == |held| == MAX_FILES
      reads this
    {
      forall i :: 0 <= i < MAX_FILES && slots[i].File? && slots[i].directory ==> held[i].Nothing?
    }

    /** The invariant. Its clauses are bound to a name, so that a method that only
        passes it on proves it as one fact and not clause by clause. */
    ghost predicate Valid()
      reads this, names, entries, heap, heap.mem
    {
      var sound :=
        && heap.Valid()
        && TableOk()
        && AllBytes(heap.mem[..], slots, held)
        && Owners(heap.blocks, held, clients, leaked)
        && (!directoryWritten ==> leaked == {} && DirectoriesEmpty());
      sound
    }

    ghost predicate IsFile(f: int)
      reads this
    {
      0 <= f < |slots| && slots[f].File?
    }

    constructor (h: KernelHeap)
      ensures heap == h && fresh(names) && fresh(entries)
      ensures names.Length == MAX_FILES * MAX_NAME && entries.Length == MAX_FILES
    {
      heap := h;
      names := new Byte[MAX_FILES * MAX_NAME];
      entries := new Entry[MAX_FILES];
      slots, held, clients, leaked, directoryWritten := [], [], {}, {}, false;
    }

    method FsInit()
      requires heap.Valid() && names != heap.mem
      requires names.Length == MAX_FILES * MAX_NAME && entries.Length == MAX_FILES
      modifies this, names, entries
      ensures Valid() && AsMap(slots) == map[] && held == seq(MAX_FILES, _ => Nothing)
      ensures clients == UsedBlocks(heap.blocks) && leaked == {} && !directoryWritten
    {
      for i := 0 to MAX_FILES
        invariant forall k :: 0 <= k < i ==> entries[k] == Entry(NULL, 0, FLAG_FREE)
      {
        names[MAX_NAME * i] := NUL;
        entries[i] := Entry(NULL, 0, FLAG_FREE);
      }
      slots, held := seq(MAX_FILES, _ => Empty), seq(MAX_FILES, _ => Nothing);
      clients, leaked, directoryWritten := UsedBlocks(heap.blocks), {}, false;
      assert HeldBlocks(held) == {};
      EmptyMap(slots);
    }

    lemma {:induction false} EmptyMap(s: seq<Slot>)
      requires forall i :: 0 <= i < |s| ==> s[i] == Empty
      ensures AsMap(s) == map[]
    {
      if s != [] {
        EmptyMap(s[..|s| - 1]);
      }
    }

    // ---- Names ----

    method FsFind(name: array<Byte>, off: nat, ghost nm: seq<Byte>) returns (r: int)
      requires TableOk() && Holds(name, off, nm)
      ensures r == -1 || (IsFile(r) && slots[r].name == nm)
      ensures r == -1 <==> nm !in AsMap(slots)
    {
      var i := 0;
      while i < MAX_FILES
        invariant 0 <= i <= MAX_FILES
        invariant forall k :: 0 <= k < i && slots[k].File? ==> slots[k].name != nm
      {
        assert EntryOk(entries[..][i], slots[i], held[i]);
        if InUse(entries[i]) {
          var c := Strcmp(names, MAX_NAME * i, slots[i].name, name, off, nm);
          if c == 0 {
            FileAt(slots, i);
            return i;
          }
        }
        i := i + 1;
      }
      NamesOf(slots, nm);
      return -1;
    }

    method FsFindFree() returns (r: int)
      requires TableOk()
      ensures r == if FirstEmpty(slots) < MAX_FILES then FirstEmpty(slots) else -1
      ensures r == -1 <==> |AsMap(slots)| == 64
    {
      MapSize(slots);
      FullTable(slots);
      var i := 0;
      while i < MAX_FILES
        invariant 0 <= i <= MAX_FILES
        invariant forall k :: 0 <= k < i ==> slots[k].File?
      {
        assert EntryOk(entries[..][i], slots[i], held[i]);
        if !InUse(entries[i]) {
          assert FirstEmpty(slots) == i;
          return i;
        }
        i := i + 1;
      }
      return -1;
    }

    method FsCount() returns (count: nat)
      requires TableOk()
      ensures count == |AsMap(slots)|
    {
      count := 0;
      var i := 0;
      while i < MAX_FILES
        invariant 0 <= i <= MAX_FILES
        invariant count == CountFiles(slots[..i])
      {
        assert EntryOk(entries[..][i], slots[i], held[i]);
        assert slots[..i + 1][..i] == slots[..i];
        if InUse(entries[i]) {
          count := count + 1;
        }
        i := i + 1;
      }
      assert slots[..MAX_FILES] == slots;
      MapSize(slots);
    }

    /** Creating a file or a directory; the two differ in the flags they set. */
    method MakeEntry(name: array?<Byte>, off: nat, ghost nm: seq<Byte>, directory: bool) returns (r: int)
      requires Valid() && (name != null ==> name != names && Holds(name, off, nm))
      modifies this`slots, names, entries
      ensures Valid()
      ensures Creates(old(slots), slots, name != null, nm, directory, r)
    {
      if name == null {
        return -1;
      }
      var len := Strlen(name, off, nm);
      NoNul(name, off, nm);
      if len == 0 || len >= MAX_NAME {
        return -1;
      }
      var found := FsFind(name, off, nm);
      if found >= 0 {
        return -2;
      }
      var slot := FsFindFree();
      if slot < 0 {
        return -3;
      }
      FillSlot(slot, name, off, nm, directory);
      return 0;
    }

    /** strncpy of 31 characters, which may write a 32nd byte, then the last byte
        of the field: all within the field, the name terminated. */
    method StoreName(slot: nat, name: array<Byte>, off: nat, ghost nm: seq<Byte>)
      requires slot < MAX_FILES && names.Length == MAX_FILES * MAX_NAME
      requires name != names && Holds(name, off, nm) && |nm| < MAX_NAME
      modifies names
      ensures Holds(names, MAX_NAME * slot, nm)
      ensures forall k :: 0 <= k < names.Length && !(MAX_NAME * slot <= k < MAX_NAME * slot + MAX_NAME) ==>
                            names[k] == old(names[k])
    {
      Strncpy(names, MAX_NAME * slot, name, off, MAX_NAME - 1, nm);
      names[MAX_NAME * slot + MAX_NAME - 1] := NUL;
    }

    method FillSlot(slot: int, name: array<Byte>, off: nat, ghost nm: seq<Byte>, directory: bool)
      requires Valid() && name != names && Holds(name, off, nm)
      requires 0 <= slot < MAX_FILES && slots[slot].Empty? && ValidName(nm) && nm !in AsMap(slots)
      modifies this`slots, names, entries
      ensures Valid()
      ensures slots == old(slots)[slot := File(nm, directory, Bytes([]))]
      ensures AsMap(slots) == AsMap(old(slots))[nm := FileInfo(directory, Bytes([]))]
    {
      ghost var f := File(nm, directory, Bytes([]));
      assert EntryOk(entries[..][slot], slots[slot], held[slot]);
      AddFile(slots, slot, f);
      BytesChange(heap.mem[..], slots, held, slot, f, Nothing);
      assert held[slot := Nothing] == held;
      NameSlot(slot, name, off, nm, f);
      ghost var e := Entry(NULL, 0, FLAG_USED + if directory then FLAG_DIRECTORY else 0);
      EntriesChange(entries[..], slots, held, slot, e, f, Nothing);
      entries[slot] := Entry(NULL, 0, FLAG_USED + if directory then FLAG_DIRECTORY else 0);
      assert entries[..] == old(entries[..])[slot := e];
      slots := slots[slot := f];
    }

    /** The name is stored for the file that is to fill an empty slot. */
    method NameSlot(slot: nat, name: array<Byte>, off: nat, ghost nm: seq<Byte>, ghost f: Slot)
      requires slot < MAX_FILES == |slots| && names.Length == MAX_FILES * MAX_NAME && NamesOk(names, slots)
      requires Unique(slots) && name != names && Holds(name, off, nm) && |nm| < MAX_NAME && f.File? && f.name == nm
      modifies names
      ensures NamesOk(names, slots[slot := f])
    {
      StoreName(slot, name, off, nm);
      forall i | 0 <= i < MAX_FILES && i != slot && slots[i].File?
        ensures Holds(names, MAX_NAME * i, slots[i].name)
      {
        assert |slots[i].name| < MAX_NAME && old(Holds(names, MAX_NAME * i, slots[i].name));
      }
    }

    lemma NoNul(a: array<Byte>, off: nat, x: seq<Byte>)
      requires Holds(a, off, x)
      ensures NUL !in x
    {
    }

    method FsCreate(name: array?<Byte>, off: nat, ghost nm: seq<Byte>) returns (r: int)
      requires Valid() && (name != null ==> name != names && Holds(name, off, nm))
      modifies this`slots, names, entries
      ensures Valid()
      ensures Creates(old(slots), slots, name != null, nm, false, r)
    {
      r := MakeEntry(name, off, nm, false);
    }

    method FsMkdir(name: array?<Byte>, off: nat, ghost nm: seq<Byte>) returns (r: int)
      requires Valid() && (name != null ==> name != names && Holds(name, off, nm))
      modifies this`slots, names, entries
      ensures Valid()
      ensures Creates(old(slots), slots, name != null, nm, true, r)
    {
      r := MakeEntry(name, off, nm, true);
    }

    /** The slot of an open file, or -1 for a null handle. */
    method FsOpen(name: array<Byte>, off: nat, ghost nm: seq<Byte>) returns (f: int)
      requires TableOk() && Holds(name, off, nm)
      ensures f == -1 || (IsFile(f) && slots[f].name == nm)
      ensures f == -1 <==> nm !in AsMap(slots)
    {
      f := FsFind(name, off, nm);
    }

    // ---- Heap blocks ----

    /** kmalloc on behalf of anybody: the new block belongs to a client. */
    method Obtain(size: nat) returns (p: int, ghost b: Block)
      requires Valid() && size <= MAX_REQUEST
      modifies this`clients, heap, heap.mem
      ensures Valid()
      ensures p == NULL <==> size == 0 || NoRoom(old(heap.blocks), size)
      ensures p == NULL ==> clients == old(clients) && heap.blocks == old(heap.blocks)
      ensures p == NULL ==> forall k :: 0 <= k < heap.mem.Length ==> heap.mem[k] == old(heap.mem[k])
      ensures p != NULL ==> && b !in old(clients) && clients == old(clients) + {b}
                            && p == b.Payload() && p + size <= b.End() <= HEAP_END && HEAP_START <= b.addr
                            && UsedBlocks(heap.blocks) == UsedBlocks(old(heap.blocks)) + {b}
      ensures p != NULL ==> && b == FirstFitBlock(old(heap.blocks), Total(size))
                            && heap.blocks == Alloc(old(heap.blocks), Total(size))
      ensures p != NULL ==> Total(size) <= b.size
      ensures ClientsKept(old(clients), old(heap.mem[..]), heap.mem[..])
    {
      ghost var m0 := heap.mem[..];
      p, b := heap.Kmalloc(size);
      if p != NULL {
        assert b !in UsedBlocks(old(heap.blocks));
        clients := clients + {b};
        LiveBlock(heap.blocks, b);
      }
      BytesSurvive(heap.blocks, slots, held, m0, heap.mem[..]);
      KeptKeepsClients(heap.blocks, old(clients), m0, heap.mem[..]);
    }

    /** kfree by a client of a block of its own. */
    method ClientFree(p: int, ghost b: Block)
      requires Valid() && b in clients && p == b.Payload()
      modifies this`clients, heap, heap.mem
      ensures Valid() && clients == old(clients) - {b}
      ensures UsedBlocks(heap.blocks) == UsedBlocks(old(heap.blocks)) - {b}
      ensures heap.blocks == Free(old(heap.blocks), b.addr)
      ensures ClientsKept(clients, old(heap.mem[..]), heap.mem[..])
    {
      ghost var m0 := heap.mem[..];
      LiveBlock(heap.blocks, b);
      heap.Kfree(p, b);
      FreedIs(old(heap.blocks), heap.blocks, b);
      assert HeldBlocks(held) + clients + leaked - {b} == HeldBlocks(held) + (clients - {b}) + leaked;
      clients := clients - {b};
      BytesSurvive(heap.blocks, slots, held, m0, heap.mem[..]);
      KeptKeepsClients(heap.blocks, clients, m0, heap.mem[..]);
    }

    /** A block just freed leaves room for what it was large enough for. */
    lemma FreedBuffer(before: seq<Block>, b: Block, size: nat)
      requires Valid() && Good(before) && b in UsedBlocks(before)
      requires UsedBlocks(heap.blocks) == UsedBlocks(before) - {b} && Total(size) <= b.size
      ensures !NoRoom(heap.blocks, size)
    {
      FreedHasRoom(before, heap.blocks, b, size);
    }

    /** A client fills part of a block of its own. */
    method Store(ghost b: Block, d: nat, src: array<Byte>, s: nat, n: nat)
      requires Valid() && b in clients && b.Payload() <= d && d + n <= b.End() && s + n <= src.Length
      requires src == heap.mem ==> s + n <= b.addr || b.End() <= s
      modifies heap.mem
      ensures Valid() && ClientsKept(clients - {b}, old(heap.mem[..]), heap.mem[..])
      ensures d + n <= heap.mem.Length && forall k :: d <= k < d + n ==> heap.mem[k] == old(src[k - d + s])
      ensures forall k :: 0 <= k < heap.mem.Length && !(d <= k < d + n) ==> heap.mem[k] == old(heap.mem[k])
    {
      ghost var m0 := heap.mem[..];
      CopyIntoPayload(heap.mem, heap.blocks, b, d, src, s, n);
      StoreApart(heap.blocks, slots, held, b, m0, heap.mem[..]);
      StoreKeepsClients(heap.blocks, clients - {b}, b, m0, heap.mem[..]);
    }

    /** A client stores a byte in a block of its own. */
    method StoreByte(ghost b: Block, d: nat, c: Byte)
      requires Valid() && b in clients && b.Payload() <= d < b.End()
      modifies heap.mem
      ensures Valid()
      ensures d < heap.mem.Length && heap.mem[d] == c
      ensures forall k :: 0 <= k < heap.mem.Length && k != d ==> heap.mem[k] == old(heap.mem[k])
    {
      ghost var m0 := heap.mem[..];
      StoreInPayload(heap.mem, heap.blocks, b, d, c);
      StoreApart(heap.blocks, slots, held, b, m0, heap.mem[..]);
    }

    /** strcat onto a string in a client's block. */
    method StoreString(ghost b: Block, d: nat, ghost y: seq<Byte>, src: array<Byte>, ghost x: seq<Byte>)
      requires Valid() && b in clients && b.Payload() <= d && d + |y| + |x| < b.End()
      requires src != heap.mem && Holds(heap.mem, d, y) && Holds(src, 0, x)
      modifies heap.mem
      ensures Valid()
      ensures Holds(heap.mem, d, y + x)
      ensures forall k :: 0 <= k < heap.mem.Length && !(d <= k <= d + |y| + |x|) ==> heap.mem[k] == old(heap.mem[k])
    {
      ghost var m0 := heap.mem[..];
      LiveBlock(heap.blocks, b);
      StrcatInPayload(heap.mem, heap.blocks, b, d, y, src, x);
      StoreApart(heap.blocks, slots, held, b, m0, heap.mem[..]);
    }

    /** Contents survive a write to a block the file system does not own. */
    lemma StoreApart(bs: seq<Block>, s: seq<Slot>, hs: seq<Holding>, b: Block, m0: seq<Byte>, m1: seq<Byte>)
      requires Tiles(bs) && AllBytes(m0, s, hs) && HeldBlocks(hs) <= UsedBlocks(bs)
      requires b in UsedBlocks(bs) && b !in HeldBlocks(hs) && |m0| == |m1|
      requires forall k :: 0 <= k < |m0| && !(b.Payload() <= k < b.End()) ==> m1[k] == m0[k]
      ensures AllBytes(m1, s, hs)
    {
      forall i | 0 <= i < |s|
        ensures BytesOk(m1, s[i], hs[i])
      {
        assert BytesOk(m0, s[i], hs[i]);
        if hs[i].Owns? {
          assert hs[i] in hs && hs[i].block in HeldBlocks(hs);
          PayloadsDisjoint(bs, hs[i].block, b);
        }
      }
    }

    /** Forget a file's data pointer without touching the size field; the block
        it held, if any, passes to the caller. */
    method Disown(f: nat)
      requires Valid() && IsFile(f)
      modifies this`slots, this`held, this`clients, entries
      ensures Valid()
      ensures slots == old(slots)[f := old(slots)[f].(body := Dropped(old(slots)[f].body))]
      ensures held == old(held)[f := Nothing] && clients == old(clients) + BlockSet(old(held)[f])
    {
      assert EntryOk(entries[..][f], slots[f], held[f]);
      assert BytesOk(heap.mem[..], slots[f], held[f]);
      ghost var s := slots[f].(body := Dropped(slots[f].body));
      ghost var e := entries[f].(data := NULL);
      GiveUp(heap.blocks, held, clients, leaked, f);
      ChangeBody(slots, f, s.body);
      NamesStay(names, slots, f, s.body);
      BytesChange(heap.mem[..], slots, held, f, s, Nothing);
      EntriesChange(entries[..], slots, held, f, e, s, Nothing);
      clients := clients + BlockSet(held[f]);
      slots, held := slots[f := s], held[f := Nothing];
      entries[f] := entries[f].(data := NULL);
      assert entries[..] == old(entries[..])[f := e];
    }

    lemma HeldIsLive(bs: seq<Block>, f: nat)
      requires Tiles(bs) && Owners(bs, held, clients, leaked) && f < |held| && held[f].Owns?
      ensures held[f].block in UsedBlocks(bs) && held[f].block in HeldBlocks(held)
      ensures HEAP_START <= held[f].block.addr && held[f].block.size >= 20 && held[f].block.End() <= HEAP_END
    {
      assert held[f] in held;
      assert held[f].block in HeldBlocks(held);
      assert held[f].block in UsedBlocks(bs);
      LiveBlock(bs, held[f].block);
    }

    /** Free a file's data, if any, leaving its size field as it is. */
    method DropData(f: nat)
      requires Valid() && IsFile(f)
      modifies this`slots, this`held, this`clients, entries, heap, heap.mem
      ensures Valid()
      ensures slots == old(slots)[f := old(slots)[f].(body := Dropped(old(slots)[f].body))]
      ensures held == old(held)[f := Nothing] && clients == old(clients)
      ensures heap.blocks == Without(old(heap.blocks), old(held)[f])
      ensures ClientsKept(clients, old(heap.mem[..]), heap.mem[..])
    {
      assert EntryOk(entries[..][f], slots[f], held[f]);
      if held[f].Owns? {
        HeldIsLive(heap.blocks, f);
      }
      var p := entries[f].data;
      ghost var h := held[f];
      Disown(f);
      if p != NULL {
        ClientFree(p, h.block);
      }
      WithoutIs(old(heap.blocks), heap.blocks, h);
    }

    /** Give a file new data: the caller's block becomes the file's. */
    method Adopt(f: nat, p: int, size: nat, ghost b: Block, ghost content: seq<Byte>)
      requires Valid() && IsFile(f) && held[f].Nothing?
      requires b in clients && p == b.Payload() && 0 < size == |content| <= MAX_SIZE && size + HEADER <= b.size
      requires AllocatedFor(b, size) && Stores(heap.mem[..], p, content)
      modifies this`slots, this`held, this`clients, this`directoryWritten, entries
      ensures Valid()
      ensures slots == old(slots)[f := old(slots)[f].(body := Bytes(content))]
      ensures held == old(held)[f := Owns(b)] && clients == old(clients) - {b}
      ensures directoryWritten == (old(directoryWritten) || old(slots)[f].directory)
    {
      assert EntryOk(entries[..][f], slots[f], held[f]);
      ghost var s := slots[f].(body := Bytes(content));
      ghost var e := entries[f].(data := p, size := size);
      TakeOver(heap.blocks, held, clients, leaked, f, b);
      ChangeBody(slots, f, s.body);
      NamesStay(names, slots, f, s.body);
      BytesChange(heap.mem[..], slots, held, f, s, Owns(b));
      EntriesChange(entries[..], slots, held, f, e, s, Owns(b));
      directoryWritten := directoryWritten || slots[f].directory;
      clients := clients - {b};
      slots, held := slots[f := s], held[f := Owns(b)];
      entries[f] := entries[f].(data := p, size := size);
      assert entries[..] == old(entries[..])[f := e];
    }

    /** Set the size of a file without data to zero. */
    method SetEmpty(f: nat)
      requires Valid() && IsFile(f) && held[f].Nothing?
      modifies this`slots, entries
      ensures Valid()
      ensures slots == old(slots)[f := old(slots)[f].(body := Bytes([]))]
    {
      assert EntryOk(entries[..][f], slots[f], held[f]);
      ghost var s := slots[f].(body := Bytes([]));
      ChangeBody(slots, f, s.body);
      NamesStay(names, slots, f, s.body);
      BytesChange(heap.mem[..], slots, held, f, s, Nothing);
      ghost var e := entries[f].(size := 0);
      EntriesChange(entries[..], slots, held, f, e, s, Nothing);
      assert held[f := Nothing] == held;
      slots := slots[f := s];
      entries[f] := entries[f].(size := 0);
      assert entries[..] == old(entries[..])[f := e];
    }

    // ---- Contents ----

    lemma SizeBound(f: int)
      requires Valid() && IsFile(f)
      ensures slots[f].body.Size() <= MAX_SIZE
    {
      assert EntryOk(entries[..][f], slots[f], held[f]);
    }

    method FsGetSize(f: int) returns (n: nat)
      requires Valid() && (f == -1 || IsFile(f))
      ensures n == if f == -1 then 0 else slots[f].body.Size()
    {
      if f == -1 {
        return 0;
      }
      assert EntryOk(entries[..][f], slots[f], held[f]);
      return entries[f].size;
    }

    /** Where a caller's bytes may lie: outside the heap, or in a block of its own. */
    ghost predicate InReach(a: array<Byte>, off: nat, n: nat, owner: Block)
      reads this
    {
      && off + n <= a.Length
      && (a == heap.mem ==> owner in clients && owner.Payload() <= off && off + n <= owner.End())
    }

    /** A memcpy out of the heap; the two cases are the two ways its target can
        be out of the file system's way. */
    method CopyTo(buffer: array<Byte>, off: nat, d: nat, n: nat, ghost owner: Block)
      requires Valid() && d + n <= heap.mem.Length && buffer != names && InReach(buffer, off, n, owner)
      requires buffer == heap.mem ==> d + n <= owner.addr || owner.End() <= d
      modifies buffer
      ensures Valid() && buffer[off..off + n] == old(heap.mem[d..d + n])
      ensures forall k :: 0 <= k < buffer.Length && !(off <= k < off + n) ==> buffer[k] == old(buffer[k])
    {
      ghost var m0 := heap.mem[..];
      if buffer == heap.mem {
        Store(owner, off, buffer, d, n);
      } else {
        Memcpy(buffer, off, heap.mem, d, n);
      }
      CopiedSlice(m0, buffer[..], d, off, n);
      assert buffer[..][off..off + n] == buffer[off..off + n];
    }

    lemma CopiedSlice(m0: seq<Byte>, m1: seq<Byte>, s: nat, d: nat, n: nat)
      requires s + n <= |m0| && d + n <= |m1| && forall k :: d <= k < d + n ==> m1[k] == m0[k - d + s]
      ensures m1[d..d + n] == m0[s..s + n]
    {
      var x, y := m1[d..d + n], m0[s..s + n];
      forall k | 0 <= k < n
        ensures x[k] == y[k]
      {
        assert m1[d + k] == m0[d + k - d + s];
      }
    }

    /** Copy part of a file's data out. */
    method CopyOut(f: nat, buffer: array<Byte>, off: nat, offset: nat, n: nat, ghost owner: Block)
      requires Valid() && IsFile(f) && entries[f].data != NULL
      requires offset + n <= entries[f].size && buffer != names && InReach(buffer, off, n, owner)
      modifies buffer
      ensures Valid() && held[f].Owns? && slots[f].body.Bytes? && offset + n <= |slots[f].body.content|
      ensures buffer[off..off + n] == slots[f].body.content[offset..offset + n]
      ensures forall k :: 0 <= k < buffer.Length && !(off <= k < off + n) ==> buffer[k] == old(buffer[k])
    {
      assert EntryOk(entries[..][f], slots[f], held[f]);
      assert BytesOk(heap.mem[..], slots[f], held[f]);
      HeldIsLive(heap.blocks, f);
      StoredSlice(heap.mem[..], entries[f].data, slots[f].body.content, offset, n);
      if buffer == heap.mem {
        PayloadsDisjoint(heap.blocks, held[f].block, owner);
      }
      CopyTo(buffer, off, entries[f].data + offset, n, owner);
    }

    /** How many bytes a read gives. */
    ghost function Readable(length: nat, size: nat, offset: nat): nat
    {
      if offset >= length then 0 else if size < length - offset then size else length - offset
    }

    method FsRead(f: int, buffer: array?<Byte>, off: nat, size: nat, offset: nat, ghost owner: Block) returns (r: int)
      requires Valid() && (f == -1 || IsFile(f))
      requires buffer != null && f != -1 ==>
                 buffer != names && InReach(buffer, off, Readable(slots[f].body.Size(), size, offset), owner)
      modifies if buffer == null then {} else {buffer}
      ensures Valid() && r >= -1
      ensures r == -1 <==> f == -1 || buffer == null
      ensures r >= 0 ==> r == Readable(slots[f].body.Size(), size, offset)
      // As much as was asked for and lies between the offset and the end.
      ensures r >= 0 ==> && (r == 0 <==> size == 0 || offset >= slots[f].body.Size())
                         && (r > 0 ==> r <= size && offset + r <= slots[f].body.Size())
                         && (r > 0 ==> r == size || offset + r == slots[f].body.Size())
      // The matching slice, when the file has its data.
      ensures r > 0 && slots[f].body.Bytes? ==>
                off + r <= buffer.Length && buffer[off..off + r] == slots[f].body.content[offset..offset + r]
      ensures r >= 0 && slots[f].body.Lost? ==> buffer[..] == old(buffer[..])
      ensures buffer != null ==>
                forall k :: 0 <= k < buffer.Length && !(off <= k < off + r) ==> buffer[k] == old(buffer[k])
    {
      if f == -1 || buffer == null {
        return -1;
      }
      assert EntryOk(entries[..][f], slots[f], held[f]);
      if held[f].Owns? {
        HeldIsLive(heap.blocks, f);
      }
      if offset >= entries[f].size {
        return 0;
      }
      var available := entries[f].size - offset;
      var toRead := if size < available then size else available;
      if entries[f].data != NULL {
        CopyOut(f, buffer, off, offset, toRead, owner);
      }
      return toRead;
    }

    /** A caller's bytes outlast any step that keeps the clients' payloads. */
    lemma SourceKept(kept: set<Block>, a: array<Byte>, off: nat, size: nat, owner: Block, m0: seq<Byte>, was: seq<Byte>)
      requires off + size <= a.Length && |m0| == heap.mem.Length && ClientsKept(kept, m0, heap.mem[..])
      requires if a == heap.mem then owner in kept && owner.Payload() <= off && off + size <= owner.End()
                                     && was == m0[off..off + size]
               else was == a[off..off + size]
      ensures a[off..off + size] == was
    {
      if a == heap.mem {
        forall k | off <= k < off + size
          ensures heap.mem[..][k] == m0[k]
        {
        }
      }
    }

    /** Copy a caller's bytes into another block. */
    method StoreData(ghost b: Block, d: nat, src: array<Byte>, off: nat, size: nat, ghost owner: Block)
      requires Valid() && b in clients && b.Payload() <= d && d + size <= b.End() && InReach(src, off, size, owner)
      requires src == heap.mem ==> owner != b
      modifies heap.mem
      ensures Valid() && ClientsKept(clients - {b}, old(heap.mem[..]), heap.mem[..])
      ensures Stores(heap.mem[..], d, old(src[off..off + size]))
      ensures forall k :: 0 <= k < heap.mem.Length && !(d <= k < d + size) ==> heap.mem[k] == old(heap.mem[k])
    {
      if src == heap.mem {
        PayloadsDisjoint(heap.blocks, owner, b);
      }
      Store(b, d, src, off, size);
    }

    /** Allocate, copy and attach: what fs_write does after dropping old data. */
    method Fill(f: nat, src: array<Byte>, off: nat, size: nat, ghost owner: Block) returns (p: int)
      requires Valid() && IsFile(f) && held[f].Nothing? && 0 < size <= MAX_SIZE && InReach(src, off, size, owner)
      modifies this`slots, this`held, this`clients, this`directoryWritten, entries, heap, heap.mem
      ensures Valid() && clients == old(clients)
      ensures ClientsKept(clients, old(heap.mem[..]), heap.mem[..])
      ensures p == NULL <==> NoRoom(old(heap.blocks), size)
      ensures p == NULL ==> slots == old(slots) && held == old(held) && heap.blocks == old(heap.blocks)
      ensures p != NULL ==> slots == old(slots)[f := old(slots)[f].(body := Bytes(old(src[off..off + size])))]
      ensures p != NULL ==> held == old(held)[f := Owns(FirstFitBlock(old(heap.blocks), Total(size)))]
      ensures p != NULL ==> heap.blocks == Alloc(old(heap.blocks), Total(size))
      ensures directoryWritten ==> old(directoryWritten) || (IsFile(f) && old(slots)[f].directory)
    {
      ghost var content, m0 := src[off..off + size], heap.mem[..];
      ghost var b;
      p, b := Obtain(size);
      ghost var m1 := heap.mem[..];
      if p != NULL {
        SourceKept(old(clients), src, off, size, owner, m0, content);
        assert clients - {b} == old(clients);
        Install(f, p, src, off, size, owner, b);
        ClientsKeptThrough(old(clients), m0, m1, heap.mem[..]);
      }
    }

    /** Copy the caller's bytes into the new block and attach it. */
    method Install(f: nat, p: nat, src: array<Byte>, off: nat, size: nat, ghost owner: Block, ghost b: Block)
      requires Valid() && IsFile(f) && held[f].Nothing? && 0 < size <= MAX_SIZE && InReach(src, off, size, owner)
      requires b in clients && (src == heap.mem ==> owner != b) && p == b.Payload() && p + size <= b.End()
      requires AllocatedFor(b, size)
      modifies this`slots, this`held, this`clients, this`directoryWritten, entries, heap.mem
      ensures Valid() && clients == old(clients) - {b}
      ensures ClientsKept(clients, old(heap.mem[..]), heap.mem[..])
      ensures slots == old(slots)[f := old(slots)[f].(body := Bytes(old(src[off..off + size])))]
      ensures held == old(held)[f := Owns(b)]
      ensures directoryWritten ==> old(directoryWritten) || old(slots)[f].directory
    {
      ghost var content := src[off..off + size];
      StoreData(b, p, src, off, size, owner);
      Adopt(f, p, size, b, content);
    }

    lemma RoomForShorter(f: nat, size: nat)
      requires Valid() && IsFile(f)
      ensures slots[f].body.Bytes? && 0 < size <= |slots[f].body.content| ==>
                !NoRoom(Without(heap.blocks, held[f]), size)
      ensures held[f].Owns? && Total(size) <= held[f].block.size ==> !NoRoom(Without(heap.blocks, held[f]), size)
    {
      assert EntryOk(entries[..][f], slots[f], held[f]);
      assert BytesOk(heap.mem[..], slots[f], held[f]);
      if held[f].Owns? && Total(size) <= held[f].block.size {
        HeldIsLive(heap.blocks, f);
        FreeRemovesOne(heap.blocks, held[f].block);
        FreedHasRoom(heap.blocks, Without(heap.blocks, held[f]), held[f].block, size);
      }
      if held[f].Owns? && size <= slots[f].body.Size() {
        HeldIsLive(heap.blocks, f);
        FitsAgain(heap.blocks, held[f], slots[f].body.Size(), size);
      }
    }

    method FsWrite(f: int, data: array?<Byte>, off: nat, size: nat, ghost owner: Block) returns (r: int)
      requires Valid() && (f == -1 || IsFile(f))
      requires data != null && size <= MAX_SIZE ==> InReach(data, off, size, owner)
      modifies this`slots, this`held, this`clients, this`directoryWritten, entries, heap, heap.mem
      ensures Valid() && clients == old(clients)
      ensures ClientsKept(clients, old(heap.mem[..]), heap.mem[..])
      ensures directoryWritten ==> old(directoryWritten) || (IsFile(f) && old(slots)[f].directory)
      ensures f != -1 ==> |held| == |old(held)| && held == old(held)[f := held[f]]
      ensures r == -1 <==> f == -1 || data == null
      ensures r == -2 <==> f != -1 && data != null && size > 65536
      ensures r == -3 <==> && f != -1 && data != null && 0 < size <= 65536
                           && NoRoom(Without(old(heap.blocks), old(held)[f]), size)
      ensures r < 0 ==> r in {-1, -2, -3}
      ensures r in {-1, -2} ==> slots == old(slots) && held == old(held) && heap.blocks == old(heap.blocks)
      // Success overwrites; running out of memory has already lost the old data.
      ensures r >= 0 ==> && r == size
                         && slots == old(slots)[f := old(slots)[f].(body := Bytes(old(data[off..off + size])))]
      ensures r == -3 ==> slots == old(slots)[f := old(slots)[f].(body := Dropped(old(slots)[f].body))]
      ensures r == -3 ==> (slots == old(slots) <==> old(slots)[f].body.Lost? || old(slots)[f].body == Bytes([]))
      ensures r == -3 ==> && |slots| == |old(slots)| && IsFile(f)
                          && slots[f].body.Size() == old(slots)[f].body.Size()
                          && (slots[f].body.Bytes? ==> slots[f].body.content == [])
      // An overwrite that its old block could hold never runs out of memory, and
      // one no longer than the file is such.
      ensures f != -1 && old(held)[f].Owns? && Total(size) <= old(held)[f].block.size ==> r != -3
      ensures f != -1 && old(slots)[f].body.Bytes? && size <= |old(slots)[f].body.content| ==> r != -3
      // The old block is freed first, then the new one is the lowest that fits.
      ensures r !in {-1, -2} ==>
                var freed := Without(old(heap.blocks), old(held)[f]);
                && heap.blocks == (if r > 0 then Alloc(freed, Total(size)) else freed)
                && held[f] == (if r > 0 then Owns(FirstFitBlock(freed, Total(size))) else Nothing)
    {
      if f == -1 || data == null {
        return -1;
      }
      if size > MAX_SIZE {
        return -2;
      }
      RoomForShorter(f, size);
      r := Overwrite(f, data, off, size, owner);
    }

    /** The part of fs_write after its argument checks. */
    method Overwrite(f: nat, data: array<Byte>, off: nat, size: nat, ghost owner: Block) returns (r: int)
      requires Valid() && IsFile(f) && size <= MAX_SIZE && InReach(data, off, size, owner)
      modifies this`slots, this`held, this`clients, this`directoryWritten, entries, heap, heap.mem
      ensures Valid() && clients == old(clients)
      ensures ClientsKept(clients, old(heap.mem[..]), heap.mem[..])
      ensures directoryWritten ==> old(directoryWritten) || (IsFile(f) && old(slots)[f].directory)
      ensures |held| == |old(held)| && held == old(held)[f := held[f]]
      ensures heap.blocks == if r > 0 then Alloc(Without(old(heap.blocks), old(held)[f]), Total(size))
                             else Without(old(heap.blocks), old(held)[f])
      ensures held[f] == if r > 0 then Owns(FirstFitBlock(Without(old(heap.blocks), old(held)[f]), Total(size)))
                         else Nothing
      ensures r == -3 <==> 0 < size && NoRoom(Without(old(heap.blocks), old(held)[f]), size)
      ensures r == -3 || r == size
      ensures r == size ==> slots == old(slots)[f := old(slots)[f].(body := Bytes(old(data[off..off + size])))]
      ensures r == -3 ==> slots == old(slots)[f := old(slots)[f].(body := Dropped(old(slots)[f].body))]
    {
      ghost var content, m0 := data[off..off + size], heap.mem[..];
      DropData(f);
      ghost var m1 := heap.mem[..];
      SourceKept(clients, data, off, size, owner, m0, content);
      if size > 0 {
        var p := Fill(f, data, off, size, owner);
        ClientsKeptThrough(clients, m0, m1, heap.mem[..]);
        if p == NULL {
          return -3;
        }
      } else {
        SetEmpty(f);
      }
      return size;
    }

    /** The bytes kept by an append: the file's content, or as many arbitrary
        bytes as a file that lost its data still claims to have. */
    ghost predicate Extends(before: Body, added: seq<Byte>, after: Body)
    {
      && after.Bytes? && |after.content| == before.Size() + |added|
      && after.content[before.Size()..] == added
      && (before.Bytes? ==> after.content == before.content + added)
    }

    ghost function StockOf(f: nat): Stock
      requires f < |slots| && f < |held| && slots[f].File?
      reads this, heap
    {
      Stock(heap.blocks, held[f], slots[f].body.Size())
    }

    lemma NoWrap(x: nat)
      requires x < WORD
      ensures x % WORD == x
    {
    }

    /** The size check sees the sum modulo 2^32. It is right exactly when the sum
        does not wrap. */
    lemma AppendCheck(fileSize: nat, size: nat)
      requires fileSize <= MAX_SIZE && size < WORD
      ensures ((fileSize + size) % WORD <= MAX_SIZE <==> fileSize + size <= MAX_SIZE) <==> fileSize + size < WORD
    {
      if fileSize + size >= WORD {
        assert (fileSize + size) % WORD == fileSize + size - WORD;
      }
    }

    method FsAppend(f: int, data: array?<Byte>, off: nat, size: nat, ghost owner: Block) returns (r: int)
      requires Valid() && (f == -1 || IsFile(f))
      requires f != -1 ==> slots[f].body.Size() + size < WORD
      requires f != -1 && data != null && slots[f].body.Size() + size <= MAX_SIZE ==> InReach(data, off, size, owner)
      modifies this`slots, this`held, this`clients, this`directoryWritten, entries, heap, heap.mem
      ensures Valid() && clients == old(clients)
      ensures ClientsKept(clients, old(heap.mem[..]), heap.mem[..])
      ensures directoryWritten ==> old(directoryWritten) || (IsFile(f) && old(slots)[f].directory)
      ensures f != -1 ==> |held| == |old(held)| && held == old(held)[f := held[f]]
      ensures r == -1 <==> f == -1 || data == null || size == 0
      ensures r == -2 <==> f != -1 && data != null && size > 0 && old(slots)[f].body.Size() + size > 65536
      ensures r == -3 <==> && f != -1 && data != null && size > 0 && old(slots)[f].body.Size() + size <= 65536
                           && NoGrowth(old(heap.blocks), old(slots)[f].body.Size(), size)
      ensures r < 0 ==> && r in {-1, -2, -3}
                        && slots == old(slots) && held == old(held) && heap.blocks == old(heap.blocks)
      ensures r >= 0 ==> && r == size && IsFile(f)
                         && Extends(old(slots)[f].body, old(data[off..off + size]), slots[f].body)
                         && slots == old(slots)[f := old(slots)[f].(body := slots[f].body)]
      ensures r >= 0 ==> StockOf(f) == Grown(old(StockOf(f)), size)
    {
      if f == -1 || data == null || size == 0 {
        return -1;
      }
      assert EntryOk(entries[..][f], slots[f], held[f]);
      var newSize := (entries[f].size + size) % WORD;
      NoWrap(entries[f].size + size);
      if newSize > MAX_SIZE {
        return -2;
      }
      GrowthIs(StockOf(f), size, newSize);
      r := Extend(f, data, off, size, newSize, owner);
    }

    /** The part of fs_append after its argument checks. */
    method Extend(f: nat, data: array<Byte>, off: nat, size: nat, newSize: nat, ghost owner: Block) returns (r: int)
      requires Valid() && IsFile(f) && 0 < size && newSize == slots[f].body.Size() + size <= MAX_SIZE
      requires InReach(data, off, size, owner)
      modifies this`slots, this`held, this`clients, this`directoryWritten, entries, heap, heap.mem
      ensures Valid() && clients == old(clients)
      ensures ClientsKept(clients, old(heap.mem[..]), heap.mem[..])
      ensures directoryWritten ==> old(directoryWritten) || (IsFile(f) && old(slots)[f].directory)
      ensures |held| == |old(held)| && held == old(held)[f := held[f]]
      ensures r == -3 <==> NoRoom(old(heap.blocks), newSize)
      ensures r == -3 || r == size
      ensures r == -3 ==> slots == old(slots) && held == old(held) && heap.blocks == old(heap.blocks)
      ensures r == size ==> && IsFile(f)
                            && Extends(old(slots)[f].body, old(data[off..off + size]), slots[f].body)
                            && slots == old(slots)[f := old(slots)[f].(body := slots[f].body)]
      ensures r == size ==> StockOf(f) == GrownTo(old(StockOf(f)), newSize)
    {
      var p;
      ghost var b, content;
      p, b, content := Assemble(f, data, off, size, newSize, owner);
      ghost var m1 := heap.mem[..];
      if p == NULL {
        return -3;
      }
      ReplaceData(f, p, newSize, b, content);
      ClientsKeptThrough(clients, old(heap.mem[..]), m1, heap.mem[..]);
      return size;
    }

    /** Free the old data and attach the new block. */
    method ReplaceData(f: nat, p: int, size: nat, ghost b: Block, ghost content: seq<Byte>)
      requires Valid() && IsFile(f)
      requires b in clients && p == b.Payload() && 0 < size == |content| <= MAX_SIZE && size + HEADER <= b.size
      requires AllocatedFor(b, size) && Stores(heap.mem[..], p, content)
      modifies this`slots, this`held, this`clients, this`directoryWritten, entries, heap, heap.mem
      ensures Valid()
      ensures ClientsKept(old(clients), old(heap.mem[..]), heap.mem[..])
      ensures directoryWritten ==> old(directoryWritten) || (IsFile(f) && old(slots)[f].directory)
      ensures held == old(held)[f := Owns(b)] && heap.blocks == Without(old(heap.blocks), old(held)[f])
      ensures slots == old(slots)[f := old(slots)[f].(body := Bytes(content))] && clients == old(clients) - {b}
    {
      ghost var m0 := heap.mem[..];
      DropData(f);
      StoresKept(clients, b, m0, heap.mem[..], content);
      Adopt(f, p, size, b, content);
    }

    lemma StoresKept(clients: set<Block>, b: Block, m0: seq<Byte>, m1: seq<Byte>, content: seq<Byte>)
      requires Stores(m0, b.Payload(), content) && ClientsKept(clients, m0, m1)
      requires b in clients && |content| + HEADER <= b.size
      ensures Stores(m1, b.Payload(), content)
    {
      forall k | 0 <= k < |content|
        ensures m1[b.Payload() + k] == content[k]
      {
        assert b.Payload() + k < b.End();
      }
    }

    /** Build the longer content in a new block: the old bytes, then the added ones. */
    method Assemble(f: nat, data: array<Byte>, off: nat, size: nat, newSize: nat, ghost owner: Block)
      returns (p: int, ghost b: Block, ghost content: seq<Byte>)
      requires Valid() && IsFile(f) && 0 < size && newSize == slots[f].body.Size() + size <= MAX_SIZE
      requires InReach(data, off, size, owner)
      modifies this`clients, heap, heap.mem
      ensures Valid()
      ensures ClientsKept(old(clients), old(heap.mem[..]), heap.mem[..])
      ensures p == NULL <==> NoRoom(old(heap.blocks), newSize)
      ensures p == NULL ==> clients == old(clients) && heap.blocks == old(heap.blocks)
      ensures p != NULL ==> b !in old(clients) && clients == old(clients) + {b}
      ensures p != NULL ==> p == b.Payload() && newSize + HEADER <= b.size && AllocatedFor(b, newSize)
      ensures p != NULL ==> && b == FirstFitBlock(old(heap.blocks), Total(newSize))
                            && heap.blocks == Alloc(old(heap.blocks), Total(newSize))
      ensures p != NULL ==> && Extends(slots[f].body, old(data[off..off + size]), Bytes(content))
                            && Stores(heap.mem[..], p, content)
    {
      assert EntryOk(entries[..][f], slots[f], held[f]);
      ghost var added := data[off..off + size];
      content := added;
      ghost var m0 := heap.mem[..];
      p, b := Obtain(newSize);
      ghost var m1 := heap.mem[..];
      if p != NULL {
        SourceKept(old(clients), data, off, size, owner, m0, added);
        assert clients - {b} == old(clients);
        content := Concatenate(f, p, entries[f].size, data, off, size, owner, b);
        ClientsKeptThrough(old(clients), m0, m1, heap.mem[..]);
      }
    }

    /** The two copies of fs_append. */
    method Concatenate(
      f: nat, p: int, oldSize: nat, data: array<Byte>, off: nat, size: nat, ghost owner: Block, ghost b: Block)
      returns (ghost content: seq<Byte>)
      requires Valid() && IsFile(f) && oldSize == slots[f].body.Size() && InReach(data, off, size, owner)
      requires b in clients && (data == heap.mem ==> owner != b) && p == b.Payload()
      requires HEAP_START <= b.addr && p + oldSize + size <= b.End() <= HEAP_END
      modifies heap.mem
      ensures Valid() && ClientsKept(clients - {b}, old(heap.mem[..]), heap.mem[..])
      ensures Extends(slots[f].body, old(data[off..off + size]), Bytes(content))
      ensures Stores(heap.mem[..], p, content)
    {
      ghost var added, m1 := data[off..off + size], heap.mem[..];
      ghost var front := CopyOld(f, p, oldSize, b);
      ghost var m2 := heap.mem[..];
      SourceKept(clients - {b}, data, off, size, owner, m1, added);
      StoreData(b, p + oldSize, data, off, size, owner);
      content := front + added;
      StoredInTwo(m2, heap.mem[..], p, front, added);
      ClientsKeptThrough(clients - {b}, m1, m2, heap.mem[..]);
    }

    lemma StoredInTwo(m: seq<Byte>, n: seq<Byte>, p: int, front: seq<Byte>, added: seq<Byte>)
      requires Stores(m, p, front) && Stores(n, p + |front|, added)
      requires |m| == |n| && forall k :: 0 <= k < p + |front| ==> n[k] == m[k]
      ensures Stores(n, p, front + added)
    {
      var all := front + added;
      forall k | 0 <= k < |all|
        ensures n[p + k] == all[k]
      {
        assert k >= |front| ==> n[p + |front| + (k - |front|)] == added[k - |front|];
      }
    }

    /** Copy a file's present data to the front of a new block. */
    method CopyOld(f: nat, p: nat, oldSize: nat, ghost b: Block) returns (ghost front: seq<Byte>)
      requires Valid() && IsFile(f) && oldSize == slots[f].body.Size()
      requires b in clients && p == b.Payload() && HEAP_START <= b.addr && p + oldSize <= b.End() <= HEAP_END
      modifies heap.mem
      ensures Valid() && ClientsKept(clients - {b}, old(heap.mem[..]), heap.mem[..])
      ensures |front| == oldSize && (slots[f].body.Bytes? ==> front == slots[f].body.content)
      ensures Stores(heap.mem[..], p, front)
      ensures forall k :: 0 <= k < heap.mem.Length && !(p <= k < p + oldSize) ==> heap.mem[k] == old(heap.mem[k])
    {
      ghost var m0 := heap.mem[..];
      CopyHeld(f, p, oldSize, b);
      front := heap.mem[p..p + oldSize];
      SliceStored(heap.mem[..], p, front);
      LiveBlock(heap.blocks, b);
      StoreKeepsClients(heap.blocks, clients - {b}, b, m0, heap.mem[..]);
    }

    /** The copy itself, for a file that has data. */
    method CopyHeld(f: nat, p: nat, oldSize: nat, ghost b: Block)
      requires Valid() && IsFile(f) && oldSize == slots[f].body.Size()
      requires b in clients && p == b.Payload() && p + oldSize <= b.End() <= HEAP_END
      modifies heap.mem
      ensures Valid() && p + oldSize <= heap.mem.Length
      ensures slots[f].body.Bytes? ==> heap.mem[p..p + oldSize] == slots[f].body.content
      ensures forall k :: 0 <= k < heap.mem.Length && !(p <= k < p + oldSize) ==> heap.mem[k] == old(heap.mem[k])
    {
      assert EntryOk(entries[..][f], slots[f], held[f]);
      if held[f].Owns? {
        HeldIsLive(heap.blocks, f);
      }
      if entries[f].data != NULL && entries[f].size > 0 {
        CopyOut(f, heap.mem, p, 0, entries[f].size, b);
        assert slots[f].body.content[0..oldSize] == slots[f].body.content;
      }
    }

    lemma SliceStored(m: seq<Byte>, p: int, content: seq<Byte>)
      requires 0 <= p && p + |content| <= |m| && m[p..p + |content|] == content
      ensures Stores(m, p, content)
    {
      forall k | 0 <= k < |content|
        ensures m[p + k] == content[k]
      {
        assert m[p..p + |content|][k] == content[k];
      }
    }

    method FsTruncate(f: int) returns (r: int)
      requires Valid() && (f == -1 || IsFile(f))
      modifies this`slots, this`held, this`clients, entries, heap, heap.mem
      ensures Valid() && clients == old(clients)
      ensures ClientsKept(clients, old(heap.mem[..]), heap.mem[..])
      ensures r == if f == -1 then -1 else 0
      ensures f == -1 ==> slots == old(slots) && held == old(held) && heap.blocks == old(heap.blocks)
      ensures f != -1 ==> && slots == old(slots)[f := old(slots)[f].(body := Bytes([]))]
                          && held == old(held)[f := Nothing]
                          && heap.blocks == Without(old(heap.blocks), old(held)[f])
    {
      if f == -1 {
        return -1;
      }
      DropData(f);
      SetEmpty(f);
      return 0;
    }

    /** One operation from a history, with its own source buffer. */
    method Apply(f: nat, op: FileOp, ghost v: View) returns (r: int)
      requires Valid() && IsFile(f) && (!op.Clear? ==> |op.bytes| + MAX_SIZE < WORD)
      requires Seen(slots[f].body, v)
      modifies this`slots, this`held, this`clients, this`directoryWritten, entries, heap, heap.mem
      ensures Valid() && clients == old(clients)
      ensures ClientsKept(clients, old(heap.mem[..]), heap.mem[..])
      ensures IsFile(f) && slots == old(slots)[f := old(slots)[f].(body := slots[f].body)]
      ensures Seen(slots[f].body, Applied(v, op, r))
      ensures r == Outcome(old(StockOf(f)), op) && StockOf(f) == NextStock(old(StockOf(f)), op, r)
    {
      SizeBound(f);
      match op {
        case Put(bytes) =>
          r := ApplyPut(f, bytes, v);
        case Add(bytes) =>
          r := ApplyAdd(f, bytes, v);
        case Clear =>
          r := FsTruncate(f);
      }
    }

    method ApplyPut(f: nat, bytes: seq<Byte>, ghost v: View) returns (r: int)
      requires Valid() && IsFile(f) && Seen(slots[f].body, v)
      modifies this`slots, this`held, this`clients, this`directoryWritten, entries, heap, heap.mem
      ensures Valid() && clients == old(clients)
      ensures ClientsKept(clients, old(heap.mem[..]), heap.mem[..])
      ensures IsFile(f) && slots == old(slots)[f := old(slots)[f].(body := slots[f].body)]
      ensures Seen(slots[f].body, Applied(v, Put(bytes), r))
      ensures r == Outcome(old(StockOf(f)), Put(bytes)) && StockOf(f) == NextStock(old(StockOf(f)), Put(bytes), r)
    {
      assert EntryOk(entries[..][f], slots[f], held[f]);
      var a := Buffered(bytes);
      r := FsWrite(f, a, 0, |bytes|, NO_BLOCK);
    }

    method ApplyAdd(f: nat, bytes: seq<Byte>, ghost v: View) returns (r: int)
      requires Valid() && IsFile(f) && slots[f].body.Size() + |bytes| < WORD && Seen(slots[f].body, v)
      modifies this`slots, this`held, this`clients, this`directoryWritten, entries, heap, heap.mem
      ensures Valid() && clients == old(clients)
      ensures ClientsKept(clients, old(heap.mem[..]), heap.mem[..])
      ensures IsFile(f) && slots == old(slots)[f := old(slots)[f].(body := slots[f].body)]
      ensures Seen(slots[f].body, Applied(v, Add(bytes), r))
      ensures r == Outcome(old(StockOf(f)), Add(bytes)) && StockOf(f) == NextStock(old(StockOf(f)), Add(bytes), r)
    {
      var a := Buffered(bytes);
      ghost var before := slots[f].body;
      r := AppendAll(f, a, bytes);
      if r >= 0 {
        SeenMore(before, v, bytes, slots[f].body);
      }
    }

    /** An append from a buffer of its own, with what decides its answer. */
    method AppendAll(f: nat, a: array<Byte>, ghost bytes: seq<Byte>) returns (r: int)
      requires Valid() && IsFile(f) && slots[f].body.Size() + |bytes| < WORD
      requires a != heap.mem && a.Length == |bytes| && a[0..|bytes|] == bytes
      modifies this`slots, this`held, this`clients, this`directoryWritten, entries, heap, heap.mem
      ensures Valid() && clients == old(clients)
      ensures ClientsKept(clients, old(heap.mem[..]), heap.mem[..])
      ensures IsFile(f) && slots == old(slots)[f := old(slots)[f].(body := slots[f].body)]
      ensures if r >= 0 then Extends(old(slots)[f].body, bytes, slots[f].body) else slots == old(slots)
      ensures r == Outcome(old(StockOf(f)), Add(bytes)) && StockOf(f) == NextStock(old(StockOf(f)), Add(bytes), r)
    {
      ghost var st := StockOf(f);
      r := FsAppend(f, a, 0, a.Length, NO_BLOCK);
      AddAnswered(st, bytes, r);
    }

    lemma AddAnswered(st: Stock, bytes: seq<Byte>, r: int)
      requires r == -1 <==> |bytes| == 0
      requires r == -2 <==> |bytes| > 0 && st.size + |bytes| > MAX_SIZE
      requires r == -3 <==> |bytes| > 0 && st.size + |bytes| <= MAX_SIZE && NoGrowth(st.blocks, st.size, |bytes|)
      requires r < 0 ==> r in {-1, -2, -3}
      requires r >= 0 ==> r == |bytes|
      ensures r == Outcome(st, Add(bytes))
    {
    }

    lemma SeenMore(before: Body, v: View, added: seq<Byte>, after: Body)
      requires Seen(before, v) && Extends(before, added, after)
      ensures Seen(after, v.(known := v.known + added))
    {
      var n := before.Size();
      assert after.content == after.content[..n] + added;
      assert after.content[v.unknown..] == after.content[v.unknown..n] + added;
    }

    /** How far a history has come: `i` operations, since the file was `before`
        and the heap's bytes were `m0`; one fact to its users, as `Valid` is. */
    ghost predicate Told(
        f: nat, ops: seq<FileOp>, i: nat, st: Stock, m0: seq<Byte>, before: seq<Slot>, results: seq<int>)
      reads this, names, entries, heap, heap.mem
    {
      var told :=
        && Valid() && IsFile(f) && i <= |ops| && ClientsKept(clients, m0, heap.mem[..])
        && f < |before| && before[f].File? && slots == before[f := before[f].(body := slots[f].body)]
        && results == Outcomes(st, ops[..i]) && StockOf(f) == StockAfter(st, ops[..i])
        && Seen(slots[f].body, Replayed(ViewOf(before[f].body), ops[..i], results));
      told
    }

    lemma ToldNothing(f: nat, ops: seq<FileOp>)
      requires Valid() && IsFile(f)
      ensures Told(f, ops, 0, StockOf(f), heap.mem[..], slots, [])
    {
      assert EntryOk(entries[..][f], slots[f], held[f]);
      assert ops[..0] == [];
    }

    lemma ToldAll(f: nat, ops: seq<FileOp>, st: Stock, m0: seq<Byte>, before: seq<Slot>, results: seq<int>)
      requires Told(f, ops, |ops|, st, m0, before, results)
      ensures Valid() && IsFile(f) && ClientsKept(clients, m0, heap.mem[..])
      ensures f < |before| && slots == before[f := before[f].(body := slots[f].body)]
      ensures results == Outcomes(st, ops) && StockOf(f) == StockAfter(st, ops)
      ensures before[f].File? && Seen(slots[f].body, Replayed(ViewOf(before[f].body), ops, results))
    {
      assert ops[..|ops|] == ops;
    }

    /** One more operation of a history. */
    method ApplyNext(
      f: nat, ops: seq<FileOp>, i: nat,
      ghost st: Stock, ghost m0: seq<Byte>, ghost before: seq<Slot>, results: seq<int>)
      returns (more: seq<int>)
      requires Told(f, ops, i, st, m0, before, results)
      requires i < |ops| && (!ops[i].Clear? ==> |ops[i].bytes| + MAX_SIZE < WORD)
      modifies this`slots, this`held, this`clients, this`directoryWritten, entries, heap, heap.mem
      ensures Told(f, ops, i + 1, st, m0, before, more) && clients == old(clients)
    {
      ghost var v, m1 := Replayed(ViewOf(before[f].body), ops[..i], results), heap.mem[..];
      OutcomesMore(st, ops, i);
      var r := Apply(f, ops[i], v);
      ClientsKeptThrough(clients, m0, m1, heap.mem[..]);
      more := results + [r];
      assert ops[..i + 1][..i] == ops[..i] && more[..i] == results;
    }

    /** Any history of operations on one file, failed overwrites included. The
        answers, too, follow from where it started. */
    method History(f: nat, ops: seq<FileOp>) returns (results: seq<int>)
      requires Valid() && IsFile(f)
      requires forall op :: op in ops && !op.Clear? ==> |op.bytes| + MAX_SIZE < WORD
      modifies this`slots, this`held, this`clients, this`directoryWritten, entries, heap, heap.mem
      ensures Valid() && clients == old(clients)
      ensures ClientsKept(clients, old(heap.mem[..]), heap.mem[..])
      ensures IsFile(f) && slots == old(slots)[f := old(slots)[f].(body := slots[f].body)]
      ensures results == Outcomes(old(StockOf(f)), ops) && StockOf(f) == StockAfter(old(StockOf(f)), ops)
      ensures Seen(slots[f].body, Replayed(ViewOf(old(slots)[f].body), ops, results))
    {
      results := [];
      var i := 0;
      ghost var st, m0, before := StockOf(f), heap.mem[..], slots;
      ToldNothing(f, ops);
      while i < |ops|
        invariant 0 <= i <= |ops| && Told(f, ops, i, st, m0, before, results) && clients == old(clients)
      {
        results := ApplyNext(f, ops, i, st, m0, before, results);
        i := i + 1;
      }
      ToldAll(f, ops, st, m0, before, results);
    }

    // ---- Listing ----

    /** Write the name of slot `i` and a newline after the listing so far. */
    method ListLine(buffer: array<Byte>, i: nat, pos: nat, len: nat, ghost text: seq<Byte>)
      requires TableOk() && buffer != names && i < MAX_FILES && slots[i].File? && len == |slots[i].name|
      requires Holds(buffer, 0, text) && pos == |text| && pos + len + 2 < buffer.Length
      modifies buffer
      ensures Holds(buffer, 0, text + slots[i].name + [NEWLINE])
      ensures forall k :: pos + len + 2 <= k < buffer.Length ==> buffer[k] == old(buffer[k])
    {
      ghost var name := slots[i].name;
      Strcpy(buffer, pos, names, MAX_NAME * i, name);
      buffer[pos + len] := NEWLINE;
      buffer[pos + len + 1] := NUL;
      ghost var all := text + name + [NEWLINE];
      forall k | 0 <= k < |all|
        ensures buffer[k] == all[k] && all[k] != NUL
      {
        if pos <= k < pos + len {
          assert buffer[pos + (k - pos)] == name[k - pos] && name[k - pos] != NUL;
        }
      }
    }

    /** The listing never touches the buffer at or beyond its size. */
    method FsList(buffer: array?<Byte>, bufferSize: nat) returns (count: int)
      requires TableOk()
      requires buffer != null ==> buffer != names && bufferSize <= buffer.Length
      modifies if buffer == null then {} else {buffer}
      ensures count >= -1 && (count == -1 <==> buffer == null || bufferSize == 0)
      ensures count >= 0 ==> && count == |Listed(slots, MAX_FILES, bufferSize)|
                             && Holds(buffer, 0, Join(Listed(slots, MAX_FILES, bufferSize)))
                             && |Join(Listed(slots, MAX_FILES, bufferSize))| < bufferSize
                             && GreedyNames(slots, Listed(slots, MAX_FILES, bufferSize), bufferSize)
      ensures buffer != null ==> forall k :: bufferSize <= k < buffer.Length ==> buffer[k] == old(buffer[k])
    {
      if buffer == null || bufferSize == 0 {
        return -1;
      }
      ListedIsGreedy(slots, Listed(slots, MAX_FILES, bufferSize), bufferSize);
      count := ListNames(buffer, bufferSize);
    }

    /** The part of fs_list after its argument check. */
    method ListNames(buffer: array<Byte>, bufferSize: nat) returns (count: nat)
      requires TableOk() && buffer != names && 0 < bufferSize <= buffer.Length
      modifies buffer
      ensures count == |Listed(slots, MAX_FILES, bufferSize)|
      ensures Holds(buffer, 0, Join(Listed(slots, MAX_FILES, bufferSize)))
      ensures |Join(Listed(slots, MAX_FILES, bufferSize))| < bufferSize
      ensures forall k :: bufferSize <= k < buffer.Length ==> buffer[k] == old(buffer[k])
    {
      buffer[0] := NUL;
      var pos := 0;
      count := 0;
      var i := 0;
      ghost var listed: seq<seq<Byte>> := [];
      while i < MAX_FILES
        invariant 0 <= i <= MAX_FILES && TableOk() && listed == Listed(slots, i, bufferSize)
        invariant count == |listed| && pos == |Join(listed)| < bufferSize && Holds(buffer, 0, Join(listed))
        invariant forall k :: bufferSize <= k < buffer.Length ==> buffer[k] == old(buffer[k])
      {
        assert EntryOk(entries[..][i], slots[i], held[i]);
        if InUse(entries[i]) {
          ghost var name := slots[i].name;
          var len := Strlen(names, MAX_NAME * i, name);
          if pos + len + 2 < bufferSize {
            ListLine(buffer, i, pos, len, Join(listed));
            pos := pos + len + 1;
            count := count + 1;
            JoinLast(listed, name);
            listed := listed + [name];
          }
        }
        i := i + 1;
      }
    }

    // ---- Removal ----

    method ClearName(f: nat)
      requires names.Length == MAX_FILES * MAX_NAME && |slots| == MAX_FILES && f < MAX_FILES
      requires NamesOk(names, slots) && Unique(slots)
      modifies names
      ensures NamesOk(names, slots[f := Empty])
    {
      names[MAX_NAME * f] := NUL;
      forall i | 0 <= i < MAX_FILES && i != f && slots[i].File?
        ensures Holds(names, MAX_NAME * i, slots[i].name)
      {
        assert |slots[i].name| < MAX_NAME && old(Holds(names, MAX_NAME * i, slots[i].name));
      }
    }

    /** Clear a table entry; a block it still refers to is owned by nobody then. */
    method ClearEntry(f: nat)
      requires Valid() && IsFile(f) && (held[f].Owns? ==> slots[f].directory)
      modifies this`slots, this`held, this`leaked, names, entries
      ensures Valid()
      ensures slots == old(slots)[f := Empty]
      ensures held == old(held)[f := Nothing] && leaked == old(leaked) + BlockSet(old(held)[f])
    {
      assert EntryOk(entries[..][f], slots[f], held[f]);
      GiveUp(heap.blocks, held, clients, leaked, f);
      RemoveFile(slots, f);
      BytesChange(heap.mem[..], slots, held, f, Empty, Nothing);
      EntriesChange(entries[..], slots, held, f, Entry(NULL, 0, FLAG_FREE), Empty, Nothing);
      ClearName(f);
      entries[f] := Entry(NULL, 0, FLAG_FREE);
      assert entries[..] == old(entries[..])[f := Entry(NULL, 0, FLAG_FREE)];
      leaked := leaked + BlockSet(held[f]);
      slots, held := slots[f := Empty], held[f := Nothing];
    }

    /** Free a file's data and clear its slot. */
    method Discard(f: nat)
      requires Valid() && IsFile(f)
      modifies this`slots, this`held, this`clients, this`leaked, names, entries, heap, heap.mem
      ensures Valid() && clients == old(clients) && leaked == old(leaked)
      ensures slots == old(slots)[f := Empty] && held == old(held)[f := Nothing]
      ensures heap.blocks == Without(old(heap.blocks), old(held)[f])
      ensures ClientsKept(clients, old(heap.mem[..]), heap.mem[..])
    {
      DropData(f);
      ClearEntry(f);
    }

    method FsDelete(name: array<Byte>, off: nat, ghost nm: seq<Byte>) returns (r: int)
      requires Valid() && Holds(name, off, nm)
      modifies this`slots, this`held, this`clients, this`leaked, names, entries, heap, heap.mem
      ensures Valid() && clients == old(clients) && leaked == old(leaked)
      ensures r == if nm in AsMap(old(slots)) then 0 else -1
      ensures r == -1 ==> slots == old(slots) && held == old(held) && heap.blocks == old(heap.blocks)
      ensures r == 0 ==> && AsMap(slots) == AsMap(old(slots)) - {nm}
                         && var f := SlotOf(old(slots), nm);
                            && slots == old(slots)[f := Empty] && held == old(held)[f := Nothing]
                            && heap.blocks == Without(old(heap.blocks), old(held)[f])
      ensures ClientsKept(clients, old(heap.mem[..]), heap.mem[..])
    {
      var idx := FsFind(name, off, nm);
      if idx < 0 {
        return -1;
      }
      RemoveFile(slots, idx);
      Discard(idx);
      return 0;
    }

    /** Removing a directory never frees its data: the block leaks exactly when
        the directory holds one. */
    method FsRmdir(name: array<Byte>, off: nat, ghost nm: seq<Byte>) returns (r: int)
      requires Valid() && Holds(name, off, nm)
      modifies this`slots, this`held, this`leaked, names, entries
      ensures Valid()
      ensures r == -1 <==> nm !in AsMap(old(slots))
      ensures r == -2 <==> nm in AsMap(old(slots)) && !AsMap(old(slots))[nm].directory
      ensures r != 0 ==> r in {-1, -2} && slots == old(slots) && held == old(held) && leaked == old(leaked)
      ensures r == 0 ==> && AsMap(slots) == AsMap(old(slots)) - {nm}
                         && var f := SlotOf(old(slots), nm);
                            && slots == old(slots)[f := Empty] && held == old(held)[f := Nothing]
                            && leaked == old(leaked) + BlockSet(old(held)[f])
      ensures r == 0 ==> var body := AsMap(old(slots))[nm].body;
                         leaked == old(leaked) <==> body.Lost? || body == Bytes([])
    {
      var idx := FsFind(name, off, nm);
      if idx < 0 {
        return -1;
      }
      FileAt(slots, idx);
      RemoveFile(slots, idx);
      assert EntryOk(entries[..][idx], slots[idx], held[idx]);
      if !IsDirectory(entries[idx]) {
        return -2;
      }
      if held[idx].Owns? {
        HeldIsLive(heap.blocks, idx);
      }
      ClearEntry(idx);
      return 0;
    }

    /** What the table holds for each slot: flag 1 for a file in use and 4 more for a
        directory, the size, and the name terminated in its own 32 bytes. */
    lemma EntryFields(i: nat)
      requires TableOk() && i < 64
      ensures slots[i].Empty? ==> entries[i] == Entry(0, 0, 0)
      ensures slots[i].File? ==> && entries[i].flags == (if slots[i].directory then 5 else 1)
                                 && entries[i].size == slots[i].body.Size() <= 65536
                                 && 32 * i + |slots[i].name| < names.Length
                                 && names[32 * i..32 * i + |slots[i].name|] == slots[i].name
                                 && 0 < |slots[i].name| < 32 && names[32 * i + |slots[i].name|] == 0
    {
      assert EntryOk(entries[..][i], slots[i], held[i]);
      if slots[i].File? {
        assert Holds(names, MAX_NAME * i, slots[i].name);
      }
    }

    /** Distinct slots point to distinct live blocks with room for their sizes. */
    lemma DataPointers(i: nat, j: nat)
      requires Valid() && i < j < MAX_FILES && entries[i].data != NULL && entries[j].data != NULL
      ensures held[i].Owns? && held[i].block in UsedBlocks(heap.blocks)
      ensures held[i].block.Payload() == entries[i].data && entries[i].data + entries[i].size <= held[i].block.End()
      ensures held[j].Owns? && (held[i].block.End() <= held[j].block.addr || held[j].block.End() <= held[i].block.addr)
    {
      assert EntryOk(entries[..][i], slots[i], held[i]) && EntryOk(entries[..][j], slots[j], held[j]);
      assert BytesOk(heap.mem[..], slots[i], held[i]);
      HeldIsLive(heap.blocks, i);
      HeldIsLive(heap.blocks, j);
      PayloadsDisjoint(heap.blocks, held[i].block, held[j].block);
    }

    /** The counter splits by owner; while no directory has been written the file
        system's share is exactly its files' blocks, so nothing leaks. */
    lemma Accounting()
      requires Valid()
      ensures heap.usedMemory == HeldBytes(held) + SumSet(clients) + SumSet(leaked)
      ensures !directoryWritten ==> heap.usedMemory == HeldBytes(held) + SumSet(clients)
    {
      CounterByOwner(heap.blocks, held, clients, leaked);
    }
  }
}
