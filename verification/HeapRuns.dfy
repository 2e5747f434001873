/** What holds of the heap over whole runs of calls: the layout is canonical,
    frees commute, an allocation is undone by its free, and first fit fails
    only when no stretch of free bytes is long enough. */
module HeapRuns {
  import opened Blocks

  /** The heap after memory_init: one free block. */
  const FRESH_HEAP: seq<Block> := [Block(HEAP_START, HEAP_SIZE, false)]

  /** Steps taken one after another. */
  ghost function Fold<S, C>(step: (S, C) -> S, s: S, cs: seq<C>): S
    decreases cs
  {
    if cs == [] then s else Fold(step, step(s, cs[0]), cs[1..])
  }

  lemma FoldOne<S, C>(step: (S, C) -> S, s: S, c: C)
    ensures Fold(step, s, [c]) == step(s, c)
  {
    var one: seq<C> := [c];
    assert one[1..] == [];
  }

  lemma FoldTwo<S, C>(step: (S, C) -> S, s: S, c: C, d: C)
    ensures Fold(step, s, [c, d]) == step(step(s, c), d)
  {
    var two: seq<C> := [c, d];
    assert two[1..] == [d];
    FoldOne(step, step(s, c), d);
  }

  lemma {:induction false} FoldOn<S, C>(step: (S, C) -> S, s: S, cs: seq<C>, later: seq<C>)
    ensures Fold(step, s, cs + later) == Fold(step, Fold(step, s, cs), later)
    decreases cs
  {
    if cs == [] {
      assert cs + later == later;
    } else {
      FoldOn(step, step(s, cs[0]), cs[1..], later);
      assert (cs + later)[1..] == cs[1..] + later;
    }
  }

  // ---- The block list is determined by the used blocks ----

  /** A free block of a good list reaches at least as far as a free block that
      starts at the same address in a list with the same used blocks. */
  lemma FreeReaches(bs: seq<Block>, cs: seq<Block>, n: nat)
    requires Good(bs) && Good(cs) && UsedBlocks(bs) == UsedBlocks(cs)
    requires n < |bs| && n < |cs| && bs[n].addr == cs[n].addr
    requires !bs[n].used && !cs[n].used
    ensures bs[n].End() >= cs[n].End()
  {
    Layout(cs);
    assert TileAt(bs, n);
    if n + 1 < |bs| {
      assert NotBothFree(bs, n) && TileAt(bs, n + 1);
      assert bs[n + 1] in UsedBlocks(bs);
      var j :| 0 <= j < |cs| && cs[j] == bs[n + 1];
      assert TileAt(cs, j) && TileAt(cs, n);
    }
  }

  lemma UsedSame(bs: seq<Block>, cs: seq<Block>, n: nat)
    requires Good(bs) && Good(cs) && UsedBlocks(bs) == UsedBlocks(cs)
    requires n < |bs| && n < |cs| && bs[n].addr == cs[n].addr
    requires bs[n].used
    ensures bs[n] == cs[n]
  {
    Layout(cs);
    assert bs[n] in UsedBlocks(cs);
    var j :| 0 <= j < |cs| && cs[j] == bs[n];
    assert TileAt(cs, j) && TileAt(cs, n);
  }

  lemma SameBlock(bs: seq<Block>, cs: seq<Block>, n: nat)
    requires Good(bs) && Good(cs) && UsedBlocks(bs) == UsedBlocks(cs)
    requires n < |bs| && n < |cs| && bs[n].addr == cs[n].addr
    ensures bs[n] == cs[n]
  {
    if bs[n].used {
      UsedSame(bs, cs, n);
    } else if cs[n].used {
      UsedSame(cs, bs, n);
    } else {
      FreeReaches(bs, cs, n);
      FreeReaches(cs, bs, n);
    }
  }

  lemma {:induction false} SamePrefix(bs: seq<Block>, cs: seq<Block>, n: nat)
    requires Good(bs) && Good(cs) && UsedBlocks(bs) == UsedBlocks(cs)
    requires n <= |bs|
    ensures n <= |cs| && bs[..n] == cs[..n]
  {
    if n > 0 {
      SamePrefix(bs, cs, n - 1);
      if n > 1 {
        assert TileAt(bs, n - 2) && TileAt(cs, n - 2) && TileAt(bs, n - 1);
        assert bs[..n - 1][n - 2] == cs[..n - 1][n - 2];
        InRegion(bs, n - 1);
      }
      SameBlock(bs, cs, n - 1);
    }
  }

  /** Two good lists with the same used blocks are the same list. */
  lemma Canonical(bs: seq<Block>, cs: seq<Block>)
    requires Good(bs) && Good(cs) && UsedBlocks(bs) == UsedBlocks(cs)
    ensures bs == cs
  {
    SamePrefix(bs, cs, |bs|);
    SamePrefix(cs, bs, |cs|);
  }

  // ---- Freeing by address, in any order ----

  /** The index of the block that starts at `addr`. */
  ghost function IndexOf(bs: seq<Block>, addr: int): (i: nat)
    ensures i <= |bs|
    ensures i < |bs| ==> bs[i].addr == addr
    ensures i == |bs| ==> forall b :: b in bs ==> b.addr != addr
  {
    if j: nat :| j < |bs| && bs[j].addr == addr then j else |bs|
  }

  ghost predicate IsLive(bs: seq<Block>, addr: int)
  {
    var i := IndexOf(bs, addr);
    i < |bs| && bs[i].used
  }

  /** A free of a live block; a second free of it is ignored. */
  ghost function Free(bs: seq<Block>, addr: int): seq<Block>
  {
    if IsLive(bs, addr) then FreeAt(bs, IndexOf(bs, addr)) else bs
  }

  lemma SameAddress(bs: seq<Block>, b: Block, c: Block)
    requires Good(bs) && b in bs && c in bs && b.addr == c.addr
    ensures b == c
  {
    var i :| 0 <= i < |bs| && bs[i] == b;
    var j :| 0 <= j < |bs| && bs[j] == c;
    Layout(bs);
    assert TileAt(bs, i) && TileAt(bs, j);
  }

  lemma FreeRemoves(bs: seq<Block>, addr: int)
    requires Good(bs)
    ensures Good(Free(bs, addr))
    ensures UsedBlocks(Free(bs, addr)) == set b | b in UsedBlocks(bs) && b.addr != addr
  {
    var i := IndexOf(bs, addr);
    if i < |bs| {
      forall b | b in bs && b.addr == addr
        ensures b == bs[i]
      {
        SameAddress(bs, b, bs[i]);
      }
      if bs[i].used {
        FreeKeeps(bs, i);
      }
    }
  }

  lemma FreeRemovesOne(bs: seq<Block>, b: Block)
    requires Good(bs) && b in UsedBlocks(bs)
    ensures Good(Free(bs, b.addr)) && UsedBlocks(Free(bs, b.addr)) == UsedBlocks(bs) - {b}
  {
    FreeRemoves(bs, b.addr);
    forall c | c in UsedBlocks(bs) && c.addr == b.addr
      ensures c == b
    {
      SameAddress(bs, b, c);
    }
  }

  /** A call that keeps the layout and takes exactly `b` out of use can only
      have produced this list. */
  lemma FreedIs(before: seq<Block>, after: seq<Block>, b: Block)
    requires Good(before) && Good(after) && b in UsedBlocks(before)
    requires UsedBlocks(after) == UsedBlocks(before) - {b}
    ensures after == Free(before, b.addr)
  {
    FreeRemovesOne(before, b);
    Canonical(after, Free(before, b.addr));
  }

  ghost function FreeAll(bs: seq<Block>, addrs: seq<int>): seq<Block>
    decreases addrs
  {
    if addrs == [] then bs else FreeAll(Free(bs, addrs[0]), addrs[1..])
  }

  lemma {:induction false} FreeAllRemoves(bs: seq<Block>, addrs: seq<int>)
    requires Good(bs)
    ensures Good(FreeAll(bs, addrs))
    ensures UsedBlocks(FreeAll(bs, addrs)) == set b | b in UsedBlocks(bs) && b.addr !in addrs
    decreases addrs
  {
    if addrs != [] {
      FreeRemoves(bs, addrs[0]);
      FreeAllRemoves(Free(bs, addrs[0]), addrs[1..]);
      assert addrs == [addrs[0]] + addrs[1..];
    }
  }

  /** Freeing the same pointers in two orders gives the same heap. */
  lemma FreeInAnyOrder(bs: seq<Block>, first: seq<int>, second: seq<int>)
    requires Good(bs)
    requires forall a :: a in first <==> a in second
    ensures FreeAll(bs, first) == FreeAll(bs, second)
  {
    FreeAllRemoves(bs, first);
    FreeAllRemoves(bs, second);
    Canonical(FreeAll(bs, first), FreeAll(bs, second));
  }

  /** Freeing every live pointer leaves the one 4 MB block of a fresh heap. */
  lemma FreeEverything(bs: seq<Block>, addrs: seq<int>)
    requires Good(bs)
    requires forall b :: b in UsedBlocks(bs) ==> b.addr in addrs
    ensures FreeAll(bs, addrs) == FRESH_HEAP
  {
    FreeAllRemoves(bs, addrs);
    InitialGood();
    assert UsedBlocks(FreeAll(bs, addrs)) == {};
    Canonical(FreeAll(bs, addrs), FRESH_HEAP);
  }

  lemma InitialGood()
    ensures Good(FRESH_HEAP) && UsedBlocks(FRESH_HEAP) == {} && Sum(FRESH_HEAP, true) == 0
  {
    assert FRESH_HEAP[..0] == [];
  }

  /** An allocation followed by its free restores the list, whether or not the
      allocation cut a block in two. */
  lemma AllocThenFree(bs: seq<Block>, total: int)
    requires Good(bs) && 20 <= total && total % 4 == 0
    requires FirstFit(bs, total) < |bs|
    ensures FreeAt(Alloc(bs, total), FirstFit(bs, total)) == bs
  {
    var i := FirstFit(bs, total);
    TakeKeeps(bs, i, total);
    FreeKeeps(Alloc(bs, total), i);
    Canonical(FreeAt(Alloc(bs, total), i), bs);
  }

  // ---- Borrowing several blocks and returning them ----

  /** Allocations one after another; those without room are skipped. */
  ghost function AllocAll(bs: seq<Block>, totals: seq<int>): seq<Block>
  {
    Fold(Alloc, bs, totals)
  }

  /** The block addresses those allocations hand out. */
  ghost function Granted(bs: seq<Block>, totals: seq<int>): seq<int>
    decreases totals
  {
    if totals == [] then []
    else if FirstFit(bs, totals[0]) == |bs| then Granted(bs, totals[1..])
    else [FirstFitBlock(bs, totals[0]).addr] + Granted(Alloc(bs, totals[0]), totals[1..])
  }

  ghost predicate BlockTotals(totals: seq<int>)
  {
    forall i :: 0 <= i < |totals| ==> 20 <= totals[i] && totals[i] % 4 == 0
  }

  /** The granted addresses are those of the blocks that came into use. */
  lemma {:induction false} GrantedAreNew(bs: seq<Block>, totals: seq<int>)
    requires Good(bs) && BlockTotals(totals)
    ensures var after := AllocAll(bs, totals);
            && Good(after) && UsedBlocks(bs) <= UsedBlocks(after)
            && (forall c :: c in UsedBlocks(after) ==> (c.addr in Granted(bs, totals) <==> c !in UsedBlocks(bs)))
            && (forall a :: a in Granted(bs, totals) ==> exists c :: c in UsedBlocks(after) && c.addr == a)
    decreases totals
  {
    if totals != [] {
      var i := FirstFit(bs, totals[0]);
      if i == |bs| {
        GrantedAreNew(bs, totals[1..]);
      } else {
        TakeKeeps(bs, i, totals[0]);
        var next := Alloc(bs, totals[0]);
        var b := next[i];
        GrantedAreNew(next, totals[1..]);
        assert b in UsedBlocks(AllocAll(next, totals[1..]));
        forall c | c in UsedBlocks(AllocAll(next, totals[1..]))
          ensures c.addr in Granted(bs, totals) <==> c !in UsedBlocks(bs)
        {
          if c.addr == b.addr {
            SameAddress(AllocAll(next, totals[1..]), b, c);
          }
        }
      }
    }
  }

  /** While blocks are borrowed, other blocks may be freed and allocated, as a
      file's block is by a save. Once the borrowed ones are given back, in any
      order, the used blocks differ from those before by that exchange alone. */
  lemma BorrowUseReturn(
      bs: seq<Block>, totals: seq<int>, mid: seq<Block>, gone: set<Block>, come: set<Block>, order: seq<int>)
    requires Good(bs) && Good(mid) && BlockTotals(totals)
    requires gone <= UsedBlocks(bs) && come !! UsedBlocks(AllocAll(bs, totals)) - gone
    requires UsedBlocks(mid) == UsedBlocks(AllocAll(bs, totals)) - gone + come
    requires forall a :: a in order <==> a in Granted(bs, totals)
    ensures Good(FreeAll(mid, order)) && UsedBlocks(FreeAll(mid, order)) == UsedBlocks(bs) - gone + come
  {
    GrantedAreNew(bs, totals);
    FreeAllRemoves(mid, order);
    Returned(UsedBlocks(bs), UsedBlocks(AllocAll(bs, totals)), mid, gone, come, order);
  }

  /** What is left when the blocks that came into use between `before` and
      `after` are freed by their addresses. */
  lemma Returned(
      before: set<Block>, after: set<Block>, mid: seq<Block>, gone: set<Block>, come: set<Block>, order: seq<int>)
    requires Good(mid) && UsedBlocks(mid) == after - gone + come
    requires gone <= before <= after && come !! after - gone
    requires forall c :: c in after ==> (c.addr in order <==> c !in before)
    requires forall a :: a in order ==> exists c :: c in after && c.addr == a
    ensures (set b | b in UsedBlocks(mid) && b.addr !in order) == before - gone + come
  {
    forall b | b in come
      ensures b.addr !in order
    {
      if b.addr in order {
        var g :| g in after && g.addr == b.addr;
        assert g in UsedBlocks(mid) && b in UsedBlocks(mid);
        SameAddress(mid, b, g);
      }
    }
  }

  /** Blocks borrowed one after another and all given back, in any order and
      however often, leave the heap exactly as it was. */
  lemma BorrowAndReturn(bs: seq<Block>, totals: seq<int>, order: seq<int>)
    requires Good(bs) && BlockTotals(totals)
    requires forall a :: a in order <==> a in Granted(bs, totals)
    ensures FreeAll(AllocAll(bs, totals), order) == bs
  {
    var after := AllocAll(bs, totals);
    GrantedAreNew(bs, totals);
    BorrowUseReturn(bs, totals, after, {}, {}, order);
    Canonical(FreeAll(after, order), bs);
  }

  /** A call that keeps the layout and puts exactly the first-fit block in use
      can only have produced the list of Alloc. */
  lemma AllocatedIs(before: seq<Block>, after: seq<Block>, total: int)
    requires Good(before) && Good(after) && 20 <= total && total % 4 == 0
    requires FirstFit(before, total) < |before|
    requires UsedBlocks(after) == UsedBlocks(before) + {FirstFitBlock(before, total)}
    ensures after == Alloc(before, total)
  {
    TakeKeeps(before, FirstFit(before, total), total);
    Canonical(after, Alloc(before, total));
  }

  // ---- First fit is complete ----

  ghost predicate FreeByte(bs: seq<Block>, a: int)
  {
    exists b :: b in bs && !b.used && b.addr <= a < b.End()
  }

  /** All `len` bytes from `x` lie in free blocks. */
  ghost predicate FreeRun(bs: seq<Block>, x: int, len: int)
  {
    forall a :: x <= a < x + len ==> FreeByte(bs, a)
  }

  ghost predicate HasRun(bs: seq<Block>, len: int)
  {
    exists x :: FreeRun(bs, x, len)
  }

  /** A run of free bytes lies inside one free block. */
  lemma {:induction false} RunInOneBlock(bs: seq<Block>, x: int, len: nat) returns (i: nat)
    requires Good(bs) && len > 0 && FreeRun(bs, x, len)
    ensures i < |bs| && !bs[i].used && bs[i].addr <= x && x + len <= bs[i].End()
    decreases len
  {
    assert FreeByte(bs, x + len - 1);
    var b :| b in bs && !b.used && b.addr <= x + len - 1 < b.End();
    i :| 0 <= i < |bs| && bs[i] == b;
    if len > 1 {
      var j := RunInOneBlock(bs, x, len - 1);
      Layout(bs);
      assert TileAt(bs, i) && TileAt(bs, j);
      assert j + 1 < |bs| ==> NotBothFree(bs, j) && TileAt(bs, j + 1);
    }
  }

  /** First fit answers "none" exactly when no stretch of free bytes in the
      heap, however it came about, is `total` long. */
  lemma FirstFitComplete(bs: seq<Block>, total: int)
    requires Good(bs) && total > 0
    ensures FirstFit(bs, total) == |bs| <==> !HasRun(bs, total)
  {
    var i := FirstFit(bs, total);
    if i < |bs| {
      forall a | bs[i].addr <= a < bs[i].addr + total
        ensures FreeByte(bs, a)
      {
        assert bs[i] in bs;
      }
      assert FreeRun(bs, bs[i].addr, total);
    } else if HasRun(bs, total) {
      var x :| FreeRun(bs, x, total);
      var j := RunInOneBlock(bs, x, total);
      assert Fits(bs[j], total);
    }
  }

  lemma FreeBlockRun(bs: seq<Block>, b: Block, len: int)
    requires b in bs && !b.used && len <= b.size
    ensures HasRun(bs, len)
  {
    forall a | b.addr <= a < b.addr + len
      ensures FreeByte(bs, a)
    {
    }
    assert FreeRun(bs, b.addr, len);
  }

  /** Taking a block leaves the other blocks and the rest of its own. */
  lemma TakeLeaves(bs: seq<Block>, i: nat, total: int)
    requires i < |bs|
    ensures forall j :: 0 <= j < |bs| && j != i ==> bs[j] in Take(bs, i, total)
    ensures bs[i].size >= total + MIN_REST ==>
              Block(bs[i].addr + total, bs[i].size - total, false) in Take(bs, i, total)
  {
    var after := Take(bs, i, total);
    var shift := if bs[i].size >= total + MIN_REST then 1 else 0;
    forall j | 0 <= j < |bs| && j != i
      ensures bs[j] in after
    {
      assert after[if j < i then j else j + shift] == bs[j];
    }
    if shift == 1 {
      assert after[i + 1] == Block(bs[i].addr + total, bs[i].size - total, false);
    }
  }

  /** An allocation costs a long stretch of free bytes no more than its own size,
      wherever first fit places it. */
  lemma RunSurvives(bs: seq<Block>, len: int, total: int)
    requires Good(bs) && HasRun(bs, len) && 20 <= total && total % 4 == 0 && total + MIN_REST <= len
    ensures FirstFit(bs, total) < |bs|
    ensures Good(Alloc(bs, total)) && HasRun(Alloc(bs, total), len - total)
  {
    var x :| FreeRun(bs, x, len);
    var j := RunInOneBlock(bs, x, len);
    assert Fits(bs[j], total);
    var i := FirstFit(bs, total);
    TakeKeeps(bs, i, total);
    TakeLeaves(bs, i, total);
    var left := if i == j then Block(bs[i].addr + total, bs[i].size - total, false) else bs[j];
    FreeBlockRun(Alloc(bs, total), left, len - total);
  }

  /** First fit takes from the lowest free block that is large enough. */
  lemma FirstFitIsLowest(bs: seq<Block>, total: int)
    requires Good(bs) && FirstFit(bs, total) < |bs|
    ensures LowestFront(bs, FirstFitBlock(bs, total), total)
  {
    var i := FirstFit(bs, total);
    forall c | c in bs && !c.used && c.size >= total
      ensures bs[i].addr <= c.addr
    {
      var j :| 0 <= j < |bs| && bs[j] == c;
      assert Fits(bs[j], total);
      Layout(bs);
      assert TileAt(bs, i) && TileAt(bs, j);
    }
    assert bs[i] in bs && FrontOf(bs[i], FirstFitBlock(bs, total), total);
  }

  // ---- Reachable lists ----

  datatype Call = Malloc(total: int) | FreeCall(addr: int)

  ghost function Exec(bs: seq<Block>, call: Call): seq<Block>
  {
    match call
    case Malloc(total) => Alloc(bs, total)
    case FreeCall(addr) => Free(bs, addr)
  }

  ghost function Run(bs: seq<Block>, calls: seq<Call>): seq<Block>
  {
    Fold(Exec, bs, calls)
  }

  /** Sizes kmalloc asks for. */
  ghost predicate Proper(c: Call)
  {
    c.Malloc? ==> c.total >= 20 && c.total % 4 == 0
  }

  lemma ExecGood(bs: seq<Block>, c: Call)
    requires Good(bs) && Proper(c)
    ensures Good(Exec(bs, c))
  {
    match c {
      case Malloc(total) =>
        if FirstFit(bs, total) < |bs| {
          TakeKeeps(bs, FirstFit(bs, total), total);
        }
      case FreeCall(addr) =>
        FreeRemoves(bs, addr);
    }
  }

  /** Every list reached from a good one, such as a fresh heap, is good, and its
      used and free bytes make up the 4 MB. */
  lemma {:induction false} RunGood(bs: seq<Block>, calls: seq<Call>)
    requires Good(bs) && forall i :: 0 <= i < |calls| ==> Proper(calls[i])
    ensures Good(Run(bs, calls))
    ensures Sum(Run(bs, calls), true) + Sum(Run(bs, calls), false) == HEAP_SIZE
    decreases calls
  {
    if calls == [] {
      Conservation(bs);
    } else {
      ExecGood(bs, calls[0]);
      RunGood(Exec(bs, calls[0]), calls[1..]);
    }
  }

  /** Two runs that leave the same blocks in use leave the same heap, and go on
      alike whatever is called later. */
  lemma HistoryForgotten(calls: seq<Call>, others: seq<Call>, later: seq<Call>)
    requires forall i :: 0 <= i < |calls| ==> Proper(calls[i])
    requires forall i :: 0 <= i < |others| ==> Proper(others[i])
    requires UsedBlocks(Run(FRESH_HEAP, calls)) == UsedBlocks(Run(FRESH_HEAP, others))
    ensures Run(FRESH_HEAP, calls + later) == Run(FRESH_HEAP, others + later)
  {
    InitialGood();
    RunGood(FRESH_HEAP, calls);
    RunGood(FRESH_HEAP, others);
    Canonical(Run(FRESH_HEAP, calls), Run(FRESH_HEAP, others));
    FoldOn(Exec, FRESH_HEAP, calls, later);
    FoldOn(Exec, FRESH_HEAP, others, later);
  }

  // ---- A freed block leaves room ----

  /** Some block holds the heap byte at `a`. */
  lemma {:induction false} BlockWith(bs: seq<Block>, i: nat, a: int) returns (j: nat)
    requires Tiles(bs) && i < |bs| && bs[i].addr <= a < HEAP_END
    ensures j < |bs| && bs[j].addr <= a < bs[j].End()
    decreases |bs| - i
  {
    assert TileAt(bs, i);
    if a < bs[i].End() {
      j := i;
    } else {
      j := BlockWith(bs, i + 1, a);
    }
  }

  lemma UsedApart(bs: seq<Block>, b: Block, c: Block)
    requires Tiles(bs) && b in UsedBlocks(bs) && c in UsedBlocks(bs)
    ensures b == c || c.End() <= b.addr || b.End() <= c.addr
    ensures HEAP_START <= b.addr && b.End() <= HEAP_END
  {
    var i :| 0 <= i < |bs| && bs[i] == b;
    var k :| 0 <= k < |bs| && bs[k] == c;
    Layout(bs);
  }

  /** All bytes of a freed block are free. */
  lemma FreedRun(before: seq<Block>, after: seq<Block>, b: Block)
    requires Good(before) && Good(after) && b in UsedBlocks(before)
    requires UsedBlocks(after) == UsedBlocks(before) - {b}
    ensures FreeRun(after, b.addr, b.size)
  {
    forall c | c in UsedBlocks(after)
      ensures c.End() <= b.addr || b.End() <= c.addr
    {
      UsedApart(before, b, c);
    }
    UsedApart(before, b, b);
    forall a | b.addr <= a < b.addr + b.size
      ensures FreeByte(after, a)
    {
      var j := BlockWith(after, 0, a);
      assert after[j] in after;
    }
  }
}
