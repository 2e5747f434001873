/** The heap as a list of blocks: the layout every allocator call keeps, what
    one call does to the list, and why the list is fixed by the used blocks. */
module Blocks {
  const NULL := 0
  const HEAP_START := 0x200000
  const HEAP_SIZE := 0x400000
  const HEAP_END := HEAP_START + HEAP_SIZE
  /** size_t (4), bool (1, padded to 4), pointer (4) */
  const HEADER := 12
  /** A remainder shorter than this stays with the block it was found in. */
  const MIN_REST := HEADER + 16

  datatype Block = Block(addr: int, size: int, used: bool)
  {
    function End(): int { addr + size }
    function Payload(): int { addr + HEADER }
  }

  const NO_BLOCK := Block(NULL, 0, false)

  function Next(bs: seq<Block>, i: nat, last: int): int
  {
    if i + 1 < |bs| then bs[i + 1].addr else last
  }

  predicate TileAt(bs: seq<Block>, i: nat)
    requires i < |bs|
  {
    bs[i].size >= 20 && bs[i].End() == Next(bs, i, HEAP_END)
  }

  /** The blocks tile the heap region, each big enough for a header and a
      smallest payload. */
  ghost predicate Tiles(bs: seq<Block>)
  {
    |bs| > 0 && bs[0].addr == HEAP_START && forall i :: 0 <= i < |bs| ==> TileAt(bs, i)
  }

  predicate NotBothFree(bs: seq<Block>, i: nat)
    requires i + 1 < |bs|
  {
    bs[i].used || bs[i + 1].used
  }

  /** No two neighbours are both free. */
  ghost predicate Coalesced(bs: seq<Block>)
  {
    forall i :: 0 <= i < |bs| - 1 ==> NotBothFree(bs, i)
  }

  /** Every size is a multiple of four bytes. */
  ghost predicate Aligned(bs: seq<Block>)
  {
    forall i :: 0 <= i < |bs| ==> bs[i].size % 4 == 0
  }

  ghost predicate Good(bs: seq<Block>)
  {
    Tiles(bs) && Coalesced(bs) && Aligned(bs)
  }

  ghost function UsedBlocks(bs: seq<Block>): set<Block>
  {
    set b | b in bs && b.used
  }

  function Sum(bs: seq<Block>, used: bool): int
  {
    if bs == [] then 0 else Sum(bs[..|bs| - 1], used) + (if bs[|bs| - 1].used == used then bs[|bs| - 1].size else 0)
  }

  // ---- Order of addresses ----

  lemma {:induction false} Ordered(bs: seq<Block>, i: nat, j: nat)
    requires Tiles(bs) && i < j < |bs|
    ensures bs[i].End() <= bs[j].addr
    decreases j
  {
    assert TileAt(bs, i) && TileAt(bs, j - 1);
    if i < j - 1 {
      Ordered(bs, i, j - 1);
    }
  }

  lemma InRegion(bs: seq<Block>, i: nat)
    requires Tiles(bs) && i < |bs|
    ensures HEAP_START <= bs[i].addr && bs[i].End() <= HEAP_END
    ensures 0x20_0000 <= bs[i].addr && bs[i].addr + bs[i].size <= 0x60_0000
  {
    assert TileAt(bs, 0) && TileAt(bs, i) && TileAt(bs, |bs| - 1);
    if 0 < i {
      Ordered(bs, 0, i);
    }
    if i < |bs| - 1 {
      Ordered(bs, i, |bs| - 1);
    }
  }

  /** Block addresses, and so the pointers handed out, are multiples of four. */
  lemma {:induction false} AddressAligned(bs: seq<Block>, i: nat)
    requires Tiles(bs) && Aligned(bs) && i < |bs|
    ensures bs[i].addr % 4 == 0
  {
    if 0 < i {
      AddressAligned(bs, i - 1);
      assert TileAt(bs, i - 1);
    }
  }

  /** Everything the order of addresses gives, for all pairs at once. */
  lemma Layout(bs: seq<Block>)
    requires Tiles(bs)
    ensures forall i :: 0 <= i < |bs| ==> HEAP_START <= bs[i].addr && bs[i].End() <= HEAP_END
    ensures forall i, j :: 0 <= i < j < |bs| ==> bs[i].End() <= bs[j].addr
  {
    forall i | 0 <= i < |bs|
      ensures HEAP_START <= bs[i].addr && bs[i].End() <= HEAP_END
    {
      InRegion(bs, i);
    }
    forall i, j | 0 <= i < j < |bs|
      ensures bs[i].End() <= bs[j].addr
    {
      Ordered(bs, i, j);
    }
  }

  /** Payloads of live allocations are disjoint from each other and from every
      block's header. */
  lemma PayloadsApart(bs: seq<Block>, b: Block, c: Block, k: int)
    requires Tiles(bs) && b in bs && c in bs
    requires b.Payload() <= k < b.End()
    ensures c.addr <= k < c.End() ==> c == b
    ensures !(c.addr <= k < c.Payload())
    ensures HEAP_START <= k < HEAP_END
  {
    Layout(bs);
    var i :| 0 <= i < |bs| && bs[i] == c;
    assert TileAt(bs, i);
  }

  // ---- Sums of sizes ----

  lemma {:induction false} SumConcat(a: seq<Block>, b: seq<Block>, used: bool)
    ensures Sum(a + b, used) == Sum(a, used) + Sum(b, used)
  {
    if b == [] {
      assert a + b == a;
    } else {
      SumConcat(a, b[..|b| - 1], used);
      assert (a + b)[..|a + b| - 1] == a + b[..|b| - 1];
    }
  }

  /** The sum splits around the blocks from `i` up to `j`. */
  lemma SumAround(bs: seq<Block>, i: nat, j: nat, mid: seq<Block>, used: bool)
    requires i <= j <= |bs|
    ensures Sum(bs[..i] + mid + bs[j..], used) == Sum(bs, used) - Sum(bs[i..j], used) + Sum(mid, used)
  {
    SumConcat(bs[..i] + mid, bs[j..], used);
    SumConcat(bs[..i], mid, used);
    SumConcat(bs[..i] + bs[i..j], bs[j..], used);
    SumConcat(bs[..i], bs[i..j], used);
    assert bs == bs[..i] + bs[i..j] + bs[j..];
  }

  /** Used and free bytes add up to the whole heap. */
  lemma {:induction false} SumsTile(bs: seq<Block>, n: nat)
    requires Tiles(bs) && 0 < n <= |bs|
    ensures Sum(bs[..n], true) + Sum(bs[..n], false) == bs[n - 1].End() - HEAP_START
  {
    assert bs[..n][..n - 1] == bs[..n - 1];
    if n == 1 {
      assert bs[..0] == [];
    } else {
      SumsTile(bs, n - 1);
      assert TileAt(bs, n - 2);
    }
  }

  lemma {:induction false} SumNonNegative(bs: seq<Block>, used: bool)
    requires forall b :: b in bs ==> b.size >= 0
    ensures Sum(bs, used) >= 0
  {
    if bs != [] {
      SumNonNegative(bs[..|bs| - 1], used);
    }
  }

  /** Conservation: the counter the kernel keeps and the free blocks' sizes
      always make up the 4 MB, so the counter stays within 32 bits. */
  lemma Conservation(bs: seq<Block>)
    requires Tiles(bs)
    ensures Sum(bs, true) + Sum(bs, false) == HEAP_SIZE
    ensures 0 <= Sum(bs, true) <= HEAP_SIZE
  {
    SumsTile(bs, |bs|);
    assert TileAt(bs, |bs| - 1);
    forall b | b in bs
      ensures b.size >= 0
    {
      var i :| 0 <= i < |bs| && bs[i] == b;
      assert TileAt(bs, i);
    }
    assert bs[..|bs|] == bs;
    SumNonNegative(bs, true);
    SumNonNegative(bs, false);
  }

  // ---- The list operations of the allocator ----

  predicate Fits(b: Block, total: int)
  {
    !b.used && b.size >= total
  }

  /** The index of the first free block of at least `total` bytes. */
  function FirstFit(bs: seq<Block>, total: int): (i: nat)
    ensures i <= |bs|
    ensures i < |bs| ==> Fits(bs[i], total)
    ensures forall j :: 0 <= j < i ==> !Fits(bs[j], total)
  {
    if bs == [] then 0 else if Fits(bs[0], total) then 0 else 1 + FirstFit(bs[1..], total)
  }

  /** Cut the free block at `i` after its first `total` bytes. */
  function Split(bs: seq<Block>, i: nat, total: int): seq<Block>
    requires i < |bs|
  {
    bs[..i] + [Block(bs[i].addr, total, false), Block(bs[i].addr + total, bs[i].size - total, false)] + bs[i + 1..]
  }

  /** Join the block at `i` with the one after it. */
  function Merge(bs: seq<Block>, i: nat): seq<Block>
    requires i + 1 < |bs|
  {
    bs[..i] + [Block(bs[i].addr, bs[i].size + bs[i + 1].size, false)] + bs[i + 2..]
  }

  function Mark(bs: seq<Block>, i: nat, used: bool): seq<Block>
    requires i < |bs|
  {
    bs[i := bs[i].(used := used)]
  }

  /** Hand out the free block at `i`, cut to size when the rest is worth keeping. */
  function Take(bs: seq<Block>, i: nat, total: int): seq<Block>
    requires i < |bs|
  {
    Mark(if bs[i].size >= total + MIN_REST then Split(bs, i, total) else bs, i, true)
  }

  function Alloc(bs: seq<Block>, total: int): seq<Block>
  {
    var i := FirstFit(bs, total);
    if i == |bs| then bs else Take(bs, i, total)
  }

  /** The block an allocation hands out: the lowest that fits, cut to size when
      the rest is worth keeping. */
  function FirstFitBlock(bs: seq<Block>, total: int): Block
  {
    var i := FirstFit(bs, total);
    if i == |bs| then NO_BLOCK
    else Block(bs[i].addr, if bs[i].size >= total + MIN_REST then total else bs[i].size, true)
  }

  /** `b` is the front of the free block `hole`; a rest of 28 bytes or more, room
      for a header and 16 bytes, is cut off. */
  predicate FrontOf(hole: Block, b: Block, total: int)
  {
    && !hole.used && hole.size >= total && b.used && b.addr == hole.addr
    && b.size == (if hole.size >= total + 28 then total else hole.size)
  }

  /** `b` is cut from the lowest free block of at least `total` bytes. */
  ghost predicate LowestFront(bs: seq<Block>, b: Block, total: int)
  {
    exists hole :: hole in bs && FrontOf(hole, b, total)
                   && forall c :: c in bs && !c.used && c.size >= total ==> hole.addr <= c.addr
  }

  function MergeNext(bs: seq<Block>, i: nat): seq<Block>
    requires i < |bs|
  {
    if i + 1 < |bs| && !bs[i + 1].used then Merge(bs, i) else bs
  }

  function MergePrevious(bs: seq<Block>, i: nat): seq<Block>
    requires i < |bs|
  {
    if 0 < i && !bs[i - 1].used then Merge(bs, i - 1) else bs
  }

  function FreeAt(bs: seq<Block>, i: nat): seq<Block>
    requires i < |bs|
  {
    MergePrevious(MergeNext(Mark(bs, i, false), i), i)
  }

  // ---- What each list operation keeps ----

  lemma SplitTiles(bs: seq<Block>, i: nat, total: int)
    requires Tiles(bs) && i < |bs|
    requires 20 <= total <= bs[i].size - 20
    ensures Tiles(Split(bs, i, total))
  {
    var cut := Split(bs, i, total);
    forall k | 0 <= k < |cut|
      ensures TileAt(cut, k)
    {
      assert TileAt(bs, if k <= i then k else k - 1);
    }
  }

  lemma SplitKeeps(bs: seq<Block>, i: nat, total: int)
    requires i < |bs| && !bs[i].used
    ensures UsedBlocks(Split(bs, i, total)) == UsedBlocks(bs)
    ensures Sum(Split(bs, i, total), true) == Sum(bs, true)
  {
    var mid := [Block(bs[i].addr, total, false), Block(bs[i].addr + total, bs[i].size - total, false)];
    UsedAround(bs, i, i + 1, mid);
    SumAround(bs, i, i + 1, mid, true);
    SumSingle(bs, i);
    NoneUsed(mid);
  }

  lemma NoneUsed(mid: seq<Block>)
    requires forall b :: b in mid ==> !b.used
    ensures Sum(mid, true) == 0
  {
    if mid != [] {
      assert mid[|mid| - 1] in mid;
      NoneUsed(mid[..|mid| - 1]);
    }
  }

  lemma SplitAligned(bs: seq<Block>, i: nat, total: int)
    requires Aligned(bs) && i < |bs| && total % 4 == 0
    ensures Aligned(Split(bs, i, total))
  {
  }

  lemma MergeAligned(bs: seq<Block>, i: int)
    requires Aligned(bs)
    ensures 0 <= i && i + 1 < |bs| ==> Aligned(Merge(bs, i))
  {
  }

  lemma SumSingle(bs: seq<Block>, i: nat)
    requires i < |bs|
    ensures Sum(bs[i..i + 1], true) == if bs[i].used then bs[i].size else 0
  {
    assert bs[i..i + 1] == [bs[i]];
    assert [bs[i]][..0] == [];
  }

  /** Replacing blocks `i` to `j` by free ones only removes their used blocks. */
  lemma UsedAround(bs: seq<Block>, i: nat, j: nat, mid: seq<Block>)
    requires i <= j <= |bs|
    requires forall b :: b in mid ==> !b.used
    requires forall k :: i <= k < j ==> !bs[k].used
    ensures UsedBlocks(bs[..i] + mid + bs[j..]) == UsedBlocks(bs)
  {
    var after := bs[..i] + mid + bs[j..];
    forall b | b in bs && b.used
      ensures b in after
    {
      var k :| 0 <= k < |bs| && bs[k] == b;
      if k < i {
        assert after[k] == b;
      } else {
        assert after[k - j + i + |mid|] == b;
      }
    }
  }

  lemma MergeTiles(bs: seq<Block>, i: nat)
    requires Tiles(bs) && i + 1 < |bs|
    ensures Tiles(Merge(bs, i))
  {
    var one := Merge(bs, i);
    forall k | 0 <= k < |one|
      ensures TileAt(one, k)
    {
      assert TileAt(bs, k) && TileAt(bs, k + 1);
    }
  }

  lemma MergeKeeps(bs: seq<Block>, i: nat)
    requires Tiles(bs) && i + 1 < |bs| && !bs[i].used && !bs[i + 1].used
    ensures Tiles(Merge(bs, i))
    ensures UsedBlocks(Merge(bs, i)) == UsedBlocks(bs)
    ensures Sum(Merge(bs, i), true) == Sum(bs, true)
  {
    MergeTiles(bs, i);
    var mid := [Block(bs[i].addr, bs[i].size + bs[i + 1].size, false)];
    UsedAround(bs, i, i + 2, mid);
    SumAround(bs, i, i + 2, mid, true);
    assert bs[i..i + 2] == [bs[i], bs[i + 1]];
    assert [bs[i], bs[i + 1]][..1] == [bs[i]] && [bs[i]][..0] == [];
    assert mid[..0] == [];
  }

  lemma MarkTiles(bs: seq<Block>, i: nat, used: bool)
    requires Tiles(bs) && i < |bs|
    ensures Tiles(Mark(bs, i, used))
  {
    var after := Mark(bs, i, used);
    forall k | 0 <= k < |after|
      ensures TileAt(after, k)
    {
      assert TileAt(bs, k);
    }
  }

  lemma MarkSum(bs: seq<Block>, i: nat, used: bool)
    requires i < |bs| && bs[i].used != used
    ensures Sum(Mark(bs, i, used), true) == Sum(bs, true) + (if used then bs[i].size else -bs[i].size)
  {
    var mid := [bs[i].(used := used)];
    assert Mark(bs, i, used) == bs[..i] + mid + bs[i + 1..];
    SumAround(bs, i, i + 1, mid, true);
    SumSingle(bs, i);
    assert mid[..0] == [];
  }

  lemma MarkUsed(bs: seq<Block>, i: nat, used: bool)
    requires Tiles(bs) && i < |bs| && bs[i].used != used
    ensures UsedBlocks(Mark(bs, i, used)) ==
            if used then UsedBlocks(bs) + {bs[i].(used := true)} else UsedBlocks(bs) - {bs[i]}
  {
    var after := Mark(bs, i, used);
    Layout(bs);
    forall k | 0 <= k < |bs| && k != i
      ensures after[k] == bs[k] && bs[k] != bs[i]
    {
      assert TileAt(bs, k) && TileAt(bs, i);
    }
    forall b: Block
      ensures b in after <==> (b in bs && b != bs[i]) || b == after[i]
    {
      if b in bs && b != bs[i] {
        var k :| 0 <= k < |bs| && bs[k] == b;
        assert after[k] == b;
      }
    }
  }

  /** Allocating leaves no two free neighbours. */
  lemma TakeCoalesced(bs: seq<Block>, i: nat, total: int)
    requires Coalesced(bs) && i < |bs| && !bs[i].used
    ensures Coalesced(Take(bs, i, total))
  {
    var after := Take(bs, i, total);
    forall k | 0 <= k < |after| - 1
      ensures NotBothFree(after, k)
    {
      if k != i {
        assert NotBothFree(bs, if k < i || |after| == |bs| then k else k - 1);
      }
    }
  }

  /** Taking the free block at `i`: one block becomes used, starting where the
      free block did; the layout holds again. */
  lemma TakeKeeps(bs: seq<Block>, i: nat, total: int)
    requires Good(bs) && i < |bs| && Fits(bs[i], total)
    requires 20 <= total && total % 4 == 0
    ensures var after := Take(bs, i, total);
            && Good(after) && i < |after|
            && after[i].used && after[i].addr == bs[i].addr && total <= after[i].size < total + MIN_REST
            && after[i].size == (if bs[i].size >= total + 28 then total else bs[i].size)
            && after[i] !in bs
            && UsedBlocks(after) == UsedBlocks(bs) + {after[i]}
            && Sum(after, true) == Sum(bs, true) + after[i].size
  {
    var cut := if bs[i].size >= total + MIN_REST then Split(bs, i, total) else bs;
    if bs[i].size >= total + MIN_REST {
      SplitTiles(bs, i, total);
      SplitKeeps(bs, i, total);
      SplitAligned(bs, i, total);
    }
    MarkTiles(cut, i, true);
    MarkUsed(cut, i, true);
    MarkSum(cut, i, true);
    TakeCoalesced(bs, i, total);
    NotPresent(bs, i, Take(bs, i, total)[i]);
  }

  /** Only the block at `i` starts where it does. */
  lemma NotPresent(bs: seq<Block>, i: nat, b: Block)
    requires Tiles(bs) && i < |bs| && b.addr == bs[i].addr && b != bs[i]
    ensures b !in bs
  {
    Layout(bs);
    forall k | 0 <= k < |bs|
      ensures bs[k] != b
    {
      assert TileAt(bs, k) && TileAt(bs, i);
    }
  }

  /** Freeing the used block at `i` removes exactly that block from the used
      ones and restores the layout, whatever its neighbours are. */
  lemma FreeKeeps(bs: seq<Block>, i: nat)
    requires Good(bs) && i < |bs| && bs[i].used
    ensures Good(FreeAt(bs, i))
    ensures UsedBlocks(FreeAt(bs, i)) == UsedBlocks(bs) - {bs[i]}
    ensures Sum(FreeAt(bs, i), true) == Sum(bs, true) - bs[i].size
  {
    var one := Mark(bs, i, false);
    MarkTiles(bs, i, false);
    MarkUsed(bs, i, false);
    MarkSum(bs, i, false);
    MergeNextKeeps(one, i);
    MergePreviousKeeps(MergeNext(one, i), i);
    FreeCoalesced(bs, i);
  }

  lemma MergeNextKeeps(bs: seq<Block>, i: nat)
    requires Tiles(bs) && Aligned(bs) && i < |bs| && !bs[i].used
    ensures var after := MergeNext(bs, i);
            && Tiles(after) && Aligned(after) && i < |after| && !after[i].used
            && UsedBlocks(after) == UsedBlocks(bs) && Sum(after, true) == Sum(bs, true)
  {
    if i + 1 < |bs| && !bs[i + 1].used {
      MergeKeeps(bs, i);
      MergeAligned(bs, i);
    }
  }

  lemma MergePreviousKeeps(bs: seq<Block>, i: nat)
    requires Tiles(bs) && Aligned(bs) && i < |bs| && !bs[i].used
    ensures var after := MergePrevious(bs, i);
            && Tiles(after) && Aligned(after)
            && UsedBlocks(after) == UsedBlocks(bs) && Sum(after, true) == Sum(bs, true)
  {
    if 0 < i && !bs[i - 1].used {
      MergeKeeps(bs, i - 1);
      MergeAligned(bs, i - 1);
    }
  }

  /** After the join with the next block only the pair before `i` may be free. */
  lemma NextCoalesced(bs: seq<Block>, i: nat)
    requires Coalesced(bs) && i < |bs|
    ensures var two := MergeNext(Mark(bs, i, false), i);
            && i < |two| && !two[i].used && (0 < i ==> two[i - 1] == bs[i - 1])
            && forall k :: 0 <= k < |two| - 1 && k != i - 1 ==> NotBothFree(two, k)
  {
    var two := MergeNext(Mark(bs, i, false), i);
    forall k | 0 <= k < |two| - 1 && k != i - 1
      ensures NotBothFree(two, k)
    {
      assert NotBothFree(bs, if k < i || |two| == |bs| then k else k + 1);
    }
  }

  /** Freeing leaves no two free neighbours. */
  lemma FreeCoalesced(bs: seq<Block>, i: nat)
    requires Coalesced(bs) && i < |bs|
    ensures Coalesced(FreeAt(bs, i))
  {
    var two := MergeNext(Mark(bs, i, false), i);
    NextCoalesced(bs, i);
    var after := MergePrevious(two, i);
    forall k | 0 <= k < |after| - 1
      ensures NotBothFree(after, k)
    {
      if |after| == |two| {
        assert k != i - 1 ==> NotBothFree(two, k);
      } else {
        assert NotBothFree(two, if k < i - 1 then k else k + 1);
      }
    }
  }
}
