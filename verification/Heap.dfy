/** The kernel heap: block headers stored as bytes in physical memory, linked
    through their next fields, and the calls that update them in place. */
module Heap {
  import opened CString
  import opened Blocks
  import opened HeapRuns

  /** The largest request whose rounding and header still fit 32 bits. */
  const MAX_REQUEST := 0xFFFF_FFF0

  /** The block size kmalloc looks for, in 32-bit arithmetic. */
  function Total(request: int): int
  {
    ((request + 7) % WORD / 8 * 8 + HEADER) % WORD
  }

  /** The sum by cases: `k` whole units of eight, then the header, then the wrap. */
  lemma TotalByUnits(request: int, t: int, k: int)
    requires 0 <= request < WORD
    requires t == if request + 7 < WORD then request + 7 else request + 7 - WORD
    requires 8 * k <= t < 8 * k + 8
    ensures Total(request) == if 8 * k + HEADER < WORD then 8 * k + HEADER else 8 * k + HEADER - WORD
  {
    assert (request + 7) % WORD == t;
    assert t / 8 == k;
  }

  lemma Fours(total: int, q: int)
    requires total == 4 * q
    ensures total % 4 == 0
  {
  }

  /** The cases without division or remainder. */
  lemma RoomByUnits(request: int, t: int, k: int, total: int)
    requires 0 < request < WORD
    requires t == if request + 7 < WORD then request + 7 else request + 7 - WORD
    requires 8 * k <= t < 8 * k + 8
    requires total == if 8 * k + HEADER < WORD then 8 * k + HEADER else 8 * k + HEADER - WORD
    ensures request + HEADER <= total <==> request <= MAX_REQUEST
    ensures request <= MAX_REQUEST ==> 20 <= total < request + HEADER + 8
    ensures request > MAX_REQUEST ==> total == if request <= 0xFFFF_FFF8 then 4 else 12
    ensures total % 4 == 0
  {
    Fours(total, if 8 * k + HEADER < WORD then 2 * k + 3 else 2 * k + 3 - 0x4000_0000);
  }

  /** The 32-bit rounding leaves room for the request exactly up to
      MAX_REQUEST; beyond it the sum wraps to 4 or 12 bytes. */
  lemma TotalRoom(request: int)
    requires 0 < request < WORD
    ensures request + HEADER <= Total(request) <==> request <= MAX_REQUEST
    ensures request <= MAX_REQUEST ==> 20 <= Total(request) < request + HEADER + 8
    ensures request > MAX_REQUEST ==> Total(request) == if request <= 0xFFFF_FFF8 then 4 else 12
    ensures Total(request) % 4 == 0
  {
    var t := if request + 7 < WORD then request + 7 else request + 7 - WORD;
    var k := t / 8;
    TotalByUnits(request, t, k);
    RoomByUnits(request, t, k, Total(request));
  }

  /** In range nothing wraps: the request rounded up to eights, and twelve bytes. */
  lemma TotalIs(request: int)
    requires 0 <= request <= MAX_REQUEST
    ensures Total(request) == (request + 7) / 8 * 8 + 12
  {
    TotalByUnits(request, request + 7, (request + 7) / 8);
  }

  datatype Header = Header(size: int, used: bool, next: int)

  function Word(m: array<Byte>, o: int): int
    requires 0 <= o <= m.Length - 4
    reads m
  {
    m[o] as int + 0x100 * (m[o + 1] as int) + 0x1_0000 * (m[o + 2] as int) + 0x100_0000 * (m[o + 3] as int)
  }

  /** Four bytes, least significant first, make up the number. */
  predicate LittleEndian(v: int, b0: int, b1: int, b2: int, b3: int)
  {
    v == b0 + 0x100 * b1 + 0x1_0000 * b2 + 0x100_0000 * b3
  }

  /** The struct at `addr`: size at offset 0, used at 4, next at 8. */
  function HeaderAt(m: array<Byte>, addr: int): Header
    requires 0 <= addr <= m.Length - HEADER
    reads m
  {
    Header(Word(m, addr), m[addr + 4] != 0, Word(m, addr + 8))
  }

  method PutWord(m: array<Byte>, o: int, v: int)
    requires 0 <= o <= m.Length - 4 && 0 <= v < WORD
    modifies m
    ensures Word(m, o) == v
    ensures m[o] == v % 0x100 && m[o + 1] == v / 0x100 % 0x100
    ensures m[o + 2] == v / 0x1_0000 % 0x100 && m[o + 3] == v / 0x100_0000
    ensures forall k :: 0 <= k < m.Length && !(o <= k < o + 4) ==> m[k] == old(m[k])
  {
    var v1 := v / 0x100;
    var v2 := v1 / 0x100;
    var v3 := v2 / 0x100;
    m[o], m[o + 1], m[o + 2], m[o + 3] := v % 0x100, v1 % 0x100, v2 % 0x100, v3;
  }

  method PutSize(m: array<Byte>, addr: int, size: int)
    requires 0 <= addr <= m.Length - HEADER && 0 <= size < WORD
    modifies m
    ensures HeaderAt(m, addr) == old(HeaderAt(m, addr)).(size := size)
    ensures forall k :: 0 <= k < m.Length && !(addr <= k < addr + HEADER) ==> m[k] == old(m[k])
    ensures forall b :: 0 <= b <= m.Length - HEADER && (b <= addr - HEADER || addr + HEADER <= b) ==>
                          HeaderAt(m, b) == old(HeaderAt(m, b))
  {
    PutWord(m, addr, size);
  }

  method PutUsed(m: array<Byte>, addr: int, used: bool)
    requires 0 <= addr <= m.Length - HEADER
    modifies m
    ensures HeaderAt(m, addr) == old(HeaderAt(m, addr)).(used := used)
    ensures forall k :: 0 <= k < m.Length && !(addr <= k < addr + HEADER) ==> m[k] == old(m[k])
    ensures forall b :: 0 <= b <= m.Length - HEADER && (b <= addr - HEADER || addr + HEADER <= b) ==>
                          HeaderAt(m, b) == old(HeaderAt(m, b))
  {
    m[addr + 4] := if used then 1 else 0;
  }

  method PutNext(m: array<Byte>, addr: int, next: int)
    requires 0 <= addr <= m.Length - HEADER && 0 <= next < WORD
    modifies m
    ensures HeaderAt(m, addr) == old(HeaderAt(m, addr)).(next := next)
    ensures forall k :: 0 <= k < m.Length && !(addr <= k < addr + HEADER) ==> m[k] == old(m[k])
    ensures forall b :: 0 <= b <= m.Length - HEADER && (b <= addr - HEADER || addr + HEADER <= b) ==>
                          HeaderAt(m, b) == old(HeaderAt(m, b))
  {
    PutWord(m, addr + 8, next);
  }

  /** Where a block reaches and what follows it. */
  method PutSpan(m: array<Byte>, addr: int, size: int, next: int)
    requires 0 <= addr <= m.Length - HEADER && 0 <= size < WORD && 0 <= next < WORD
    modifies m
    ensures HeaderAt(m, addr) == Header(size, old(HeaderAt(m, addr)).used, next)
    ensures forall k :: 0 <= k < m.Length && !(addr <= k < addr + HEADER) ==> m[k] == old(m[k])
    ensures forall b :: 0 <= b <= m.Length - HEADER && (b <= addr - HEADER || addr + HEADER <= b) ==>
                          HeaderAt(m, b) == old(HeaderAt(m, b))
  {
    PutSize(m, addr, size);
    PutNext(m, addr, next);
  }

  method PutHeader(m: array<Byte>, addr: int, size: int, used: bool, next: int)
    requires 0 <= addr <= m.Length - HEADER && 0 <= size < WORD && 0 <= next < WORD
    modifies m
    ensures HeaderAt(m, addr) == Header(size, used, next)
    ensures forall k :: 0 <= k < m.Length && !(addr <= k < addr + HEADER) ==> m[k] == old(m[k])
    ensures forall b :: 0 <= b <= m.Length - HEADER && (b <= addr - HEADER || addr + HEADER <= b) ==>
                          HeaderAt(m, b) == old(HeaderAt(m, b))
  {
    PutUsed(m, addr, used);
    PutSpan(m, addr, size, next);
  }

  /** Forward byte copy; source and destination may share a buffer when they do
      not overlap or the destination lies lower. */
  method Memcpy(dst: array<Byte>, d: nat, src: array<Byte>, s: nat, n: nat)
    requires d + n <= dst.Length && s + n <= src.Length
    requires dst == src ==> d <= s || s + n <= d
    modifies dst
    ensures forall k :: d <= k < d + n ==> dst[k] == old(src[k - d + s])
    ensures forall k :: 0 <= k < dst.Length && !(d <= k < d + n) ==> dst[k] == old(dst[k])
  {
    var i := 0;
    while i < n
      invariant 0 <= i <= n
      invariant forall k :: d <= k < d + i ==> dst[k] == old(src[k - d + s])
      invariant forall k :: 0 <= k < dst.Length && !(d <= k < d + i) ==> dst[k] == old(dst[k])
    {
      dst[d + i] := src[s + i];
      i := i + 1;
    }
  }

  /** Copy within one memory, correct whatever the overlap. */
  method Memmove(m: array<Byte>, d: nat, s: nat, n: nat)
    requires d + n <= m.Length && s + n <= m.Length
    modifies m
    ensures forall k :: d <= k < d + n ==> m[k] == old(m[k - d + s])
    ensures forall k :: 0 <= k < m.Length && !(d <= k < d + n) ==> m[k] == old(m[k])
  {
    if d < s {
      Memcpy(m, d, m, s, n);
    } else {
      var i := n;
      while i > 0
        invariant 0 <= i <= n
        invariant forall k :: d + i <= k < d + n ==> m[k] == old(m[k - d + s])
        invariant forall k :: 0 <= k < m.Length && !(d + i <= k < d + n) ==> m[k] == old(m[k])
      {
        i := i - 1;
        m[d + i] := m[s + i];
      }
    }
  }

  ghost predicate LinkAt(m: array<Byte>, bs: seq<Block>, i: nat)
    requires i < |bs|
    reads m
  {
    && 0 <= bs[i].addr <= m.Length - HEADER
    && HeaderAt(m, bs[i].addr) == Header(bs[i].size, bs[i].used, Next(bs, i, NULL))
  }

  /** Following next from the first block visits exactly the list `bs`. */
  ghost predicate Linked(m: array<Byte>, bs: seq<Block>)
    reads m
  {
    forall i :: 0 <= i < |bs| ==> LinkAt(m, bs, i)
  }

  /** Only the two halves of a cut block and their links differ. */
  lemma SplitLinks(bs: seq<Block>, i: nat, total: int, k: nat)
    requires i < |bs| && k < |bs| + 1
    ensures var cut, j := Split(bs, i, total), if k <= i then k else k - 1;
            && |cut| == |bs| + 1
            && (k != i && k != i + 1 ==> cut[k] == bs[j])
            && (k != i ==> Next(cut, k, NULL) == Next(bs, j, NULL))
            && (k == i ==> cut[k] == Block(bs[i].addr, total, false) && Next(cut, k, NULL) == bs[i].addr + total)
            && (k == i + 1 ==> cut[k] == Block(bs[i].addr + total, bs[i].size - total, false))
  {
  }

  /** Only the joined block and its link differ. */
  lemma MergeLinks(bs: seq<Block>, i: nat, k: nat)
    requires i + 1 < |bs| && k < |bs| - 1
    ensures var one, j := Merge(bs, i), if k <= i then k else k + 1;
            && |one| == |bs| - 1
            && (k != i ==> one[k] == bs[j] && Next(one, k, NULL) == Next(bs, j, NULL))
            && (k == i ==> one[k] == Block(bs[i].addr, bs[i].size + bs[i + 1].size, false)
                           && Next(one, k, NULL) == Next(bs, i + 1, NULL))
  {
  }

  /** The stores of kmalloc that cut the free block at index `i` in two. */
  method CutInPlace(m: array<Byte>, ghost bs: seq<Block>, ghost i: nat, block: int, total: int)
    requires m.Length >= HEAP_END && Tiles(bs) && Linked(m, bs)
    requires i < |bs| && block == bs[i].addr && !bs[i].used && 20 <= total <= bs[i].size - MIN_REST
    modifies m
    ensures Linked(m, Split(bs, i, total))
    ensures forall k |
              0 <= k < m.Length && !(block <= k < block + HEADER) && !(block + total <= k < block + total + HEADER) ::
              m[k] == old(m[k])
  {
    Layout(bs);
    assert LinkAt(m, bs, i) && TileAt(bs, i);
    var found := HeaderAt(m, block);
    var rest := block + total;
    PutHeader(m, rest, found.size - total, false, found.next);
    forall k | 0 <= k < |bs|
      ensures LinkAt(m, bs, k)
    {
      assert old(LinkAt(m, bs, k)) && TileAt(bs, k);
    }
    ShrinkFront(m, bs, i, block, total);
  }

  /** The last two stores of the cut: the front block ends at its new neighbour. */
  method ShrinkFront(m: array<Byte>, ghost bs: seq<Block>, ghost i: nat, block: int, total: int)
    requires m.Length >= HEAP_END && Tiles(bs) && Linked(m, bs)
    requires i < |bs| && block == bs[i].addr && !bs[i].used && 20 <= total <= bs[i].size - MIN_REST
    requires 0 <= block && block + total <= m.Length - HEADER
    requires HeaderAt(m, block + total) == Header(bs[i].size - total, false, Next(bs, i, NULL))
    modifies m
    ensures Linked(m, Split(bs, i, total))
    ensures forall k :: 0 <= k < m.Length && !(block <= k < block + HEADER) ==> m[k] == old(m[k])
  {
    Layout(bs);
    assert LinkAt(m, bs, i) && TileAt(bs, i);
    PutSpan(m, block, total, block + total);
    ghost var cut := Split(bs, i, total);
    forall k | 0 <= k < |cut|
      ensures LinkAt(m, cut, k)
    {
      SplitLinks(bs, i, total, k);
      ghost var j := if k <= i then k else k - 1;
      assert old(LinkAt(m, bs, j)) && TileAt(bs, j);
    }
  }

  /** The stores of kfree that join the block at index `i` with the next one. */
  method JoinInPlace(m: array<Byte>, ghost bs: seq<Block>, ghost i: nat, block: int, following: int)
    requires m.Length >= HEAP_END && Tiles(bs) && Linked(m, bs)
    requires i + 1 < |bs| && block == bs[i].addr && following == bs[i + 1].addr && !bs[i].used && !bs[i + 1].used
    modifies m
    ensures Linked(m, Merge(bs, i))
    ensures forall k :: 0 <= k < m.Length && !(block <= k < block + HEADER) ==> m[k] == old(m[k])
  {
    Layout(bs);
    assert LinkAt(m, bs, i) && TileAt(bs, i);
    assert LinkAt(m, bs, i + 1) && TileAt(bs, i + 1);
    var h, f := HeaderAt(m, block), HeaderAt(m, following);
    PutSpan(m, block, h.size + f.size, f.next);
    ghost var one := Merge(bs, i);
    forall k | 0 <= k < |one|
      ensures LinkAt(m, one, k)
    {
      MergeLinks(bs, i, k);
      ghost var j := if k <= i then k else k + 1;
      assert old(LinkAt(m, bs, j)) && TileAt(bs, j);
    }
  }

  method MarkInPlace(m: array<Byte>, ghost bs: seq<Block>, ghost i: nat, block: int, used: bool)
    requires m.Length >= HEAP_END && Tiles(bs) && Linked(m, bs)
    requires i < |bs| && block == bs[i].addr
    modifies m
    ensures Linked(m, Mark(bs, i, used))
    ensures forall k :: 0 <= k < m.Length && !(block <= k < block + HEADER) ==> m[k] == old(m[k])
  {
    Layout(bs);
    assert LinkAt(m, bs, i) && TileAt(bs, i);
    PutUsed(m, block, used);
    ghost var marked := Mark(bs, i, used);
    forall k | 0 <= k < |marked|
      ensures LinkAt(m, marked, k)
    {
      assert old(LinkAt(m, bs, k)) && TileAt(bs, k);
    }
  }

  /** Bytes that belong to somebody: a live payload, or memory outside the heap. */
  ghost predicate Kept(bs: seq<Block>, k: int)
  {
    k < HEAP_START || HEAP_END <= k || exists b :: b in UsedBlocks(bs) && b.Payload() <= k < b.End()
  }

  /** Kept bytes lie outside every header. */
  lemma KeptApart(bs: seq<Block>)
    requires Tiles(bs)
    ensures forall c, k :: c in bs && Kept(bs, k) ==> !(c.addr <= k < c.Payload())
  {
    Layout(bs);
    forall c, k | c in bs && Kept(bs, k)
      ensures !(c.addr <= k < c.Payload())
    {
      var i :| 0 <= i < |bs| && bs[i] == c;
      assert TileAt(bs, i);
      if HEAP_START <= k < HEAP_END {
        var b :| b in UsedBlocks(bs) && b.Payload() <= k < b.End();
        PayloadsApart(bs, b, c, k);
      }
    }
  }

  lemma PayloadsDisjoint(bs: seq<Block>, b: Block, c: Block)
    requires Tiles(bs) && b in bs && c in bs && b != c
    ensures b.End() <= c.addr || c.End() <= b.addr
  {
    Layout(bs);
  }

  /** Two live blocks lie apart, inside the region, and freeing one keeps the
      other's bytes. */
  lemma LiveApart(bs: seq<Block>, was: Block, now: Block)
    requires Good(bs) && was in UsedBlocks(bs) && now in UsedBlocks(bs) && was != now
    ensures was.End() <= now.addr || now.End() <= was.addr
    ensures HEAP_START <= was.addr && was.size >= 20 && was.End() <= HEAP_END
    ensures HEAP_START <= now.addr && now.size >= 20 && now.End() <= HEAP_END
    ensures forall k :: was.Payload() <= k < was.End() ==> Kept(bs, k)
  {
    LiveBlock(bs, was);
    LiveBlock(bs, now);
    PayloadsDisjoint(bs, was, now);
  }

  /** memcpy into the payload of a live block: no header is disturbed. */
  method CopyIntoPayload(m: array<Byte>, ghost bs: seq<Block>, ghost b: Block, d: nat, src: array<Byte>, s: nat, n: nat)
    requires m.Length >= HEAP_END && Tiles(bs) && Linked(m, bs) && b in bs
    requires b.Payload() <= d && d + n <= b.End() && s + n <= src.Length
    requires m == src ==> d <= s || s + n <= d
    modifies m
    ensures Linked(m, bs)
    ensures d + n <= m.Length && forall k :: d <= k < d + n ==> m[k] == old(src[k - d + s])
    ensures forall k :: 0 <= k < m.Length && !(d <= k < d + n) ==> m[k] == old(m[k])
  {
    Layout(bs);
    ghost var j :| 0 <= j < |bs| && bs[j] == b;
    Memcpy(m, d, src, s, n);
    forall i | 0 <= i < |bs|
      ensures LinkAt(m, bs, i)
    {
      assert old(LinkAt(m, bs, i)) && TileAt(bs, i) && TileAt(bs, j);
    }
  }

  /** A byte stored in the payload of a live block. */
  method StoreInPayload(m: array<Byte>, ghost bs: seq<Block>, ghost b: Block, d: nat, c: Byte)
    requires m.Length >= HEAP_END && Tiles(bs) && Linked(m, bs) && b in bs && b.Payload() <= d < b.End()
    modifies m
    ensures Linked(m, bs)
    ensures d < m.Length && m[d] == c && forall k :: 0 <= k < m.Length && k != d ==> m[k] == old(m[k])
  {
    Layout(bs);
    ghost var j :| 0 <= j < |bs| && bs[j] == b;
    m[d] := c;
    forall i | 0 <= i < |bs|
      ensures LinkAt(m, bs, i)
    {
      assert old(LinkAt(m, bs, i)) && TileAt(bs, i) && TileAt(bs, j);
    }
  }

  /** strcat within the payload of a live block. */
  method StrcatInPayload(
    m: array<Byte>, ghost bs: seq<Block>, ghost b: Block,
    d: nat, ghost y: seq<Byte>, src: array<Byte>, ghost x: seq<Byte>)
    requires m.Length >= HEAP_END && Tiles(bs) && Linked(m, bs) && b in bs
    requires b.Payload() <= d && d + |y| + |x| < b.End() <= m.Length
    requires m != src && Holds(m, d, y) && Holds(src, 0, x)
    modifies m
    ensures Linked(m, bs)
    ensures Holds(m, d, y + x)
    ensures forall k :: 0 <= k < m.Length && !(d <= k <= d + |y| + |x|) ==> m[k] == old(m[k])
  {
    Layout(bs);
    ghost var j :| 0 <= j < |bs| && bs[j] == b;
    Strcat(m, d, y, src, 0, x);
    forall i | 0 <= i < |bs|
      ensures LinkAt(m, bs, i)
    {
      assert old(LinkAt(m, bs, i)) && TileAt(bs, i) && TileAt(bs, j);
    }
  }

  /** The headers an allocation writes lie outside everybody's bytes. */
  lemma TakeKept(bs: seq<Block>, i: nat, total: int)
    requires Good(bs) && i < |bs| && Fits(bs[i], total) && 20 <= total && total % 4 == 0
    ensures HEAP_START <= bs[i].addr && bs[i].End() <= HEAP_END
    ensures forall k :: Kept(Take(bs, i, total), k) ==>
              && !(bs[i].addr <= k < bs[i].Payload())
              && (bs[i].size >= total + MIN_REST ==> !(bs[i].addr + total <= k < bs[i].addr + total + HEADER))
  {
    var after := Take(bs, i, total);
    TakeKeeps(bs, i, total);
    KeptApart(after);
    InRegion(bs, i);
    assert after[i] in after;
    if bs[i].size >= total + MIN_REST {
      SplitLinks(bs, i, total, i + 1);
      assert after[i + 1] in after;
    }
  }

  /** The headers a free writes lie outside everybody's bytes. */
  lemma FreeKept(bs: seq<Block>, i: nat)
    requires Good(bs) && i < |bs| && bs[i].used
    ensures forall k :: Kept(FreeAt(bs, i), k) ==>
              && !(bs[i].addr <= k < bs[i].Payload())
              && (0 < i ==> !(bs[i - 1].addr <= k < bs[i - 1].Payload()))
  {
    FreeKeeps(bs, i);
    KeptApart(bs);
    forall k | Kept(FreeAt(bs, i), k)
      ensures Kept(bs, k)
    {
    }
    assert bs[i] in bs && (0 < i ==> bs[i - 1] in bs);
  }

  lemma IndexIs(bs: seq<Block>, i: nat)
    requires Tiles(bs) && i < |bs|
    ensures IndexOf(bs, bs[i].addr) == i
  {
    var j := IndexOf(bs, bs[i].addr);
    Layout(bs);
    assert bs[i] in bs;
    assert TileAt(bs, i) && TileAt(bs, j);
  }

  lemma LiveBlock(bs: seq<Block>, b: Block)
    requires Tiles(bs) && b in bs
    ensures IndexOf(bs, b.addr) < |bs| && bs[IndexOf(bs, b.addr)] == b
    ensures HEAP_START <= b.addr && b.size >= 20 && b.End() <= HEAP_END
  {
    var i :| 0 <= i < |bs| && bs[i] == b;
    IndexIs(bs, i);
    InRegion(bs, i);
    assert TileAt(bs, i);
  }

  ghost predicate CopiedBytes(before: seq<Byte>, after: seq<Byte>, from: int, to: int, n: int)
  {
    && 0 <= from && from + n <= |before| && 0 <= to && to + n <= |after|
    && forall k :: to <= k < to + n ==> after[k] == before[k - to + from]
  }

  /** Bytes untouched up to a copy arrive where the copy puts them. */
  lemma CopyThrough(bs: seq<Block>, b: Block, m0: seq<Byte>, m1: seq<Byte>, m2: seq<Byte>, to: int)
    requires forall k :: b.Payload() <= k < b.End() ==> Kept(bs, k)
    requires |m0| == |m1| && forall k :: 0 <= k < |m0| && Kept(bs, k) ==> m1[k] == m0[k]
    requires CopiedBytes(m1, m2, b.Payload(), to, b.size - HEADER)
    ensures CopiedBytes(m0, m2, b.Payload(), to, b.size - HEADER)
  {
    forall k | to <= k < to + b.size - HEADER
      ensures m2[k] == m0[k - to + b.Payload()]
    {
      assert Kept(bs, k - to + b.Payload());
    }
  }

  /** Bytes copied into a live block outlast a call that respects it. */
  lemma CopyKept(bs: seq<Block>, b: Block, m0: seq<Byte>, m1: seq<Byte>, m2: seq<Byte>, from: int, n: int)
    requires b in UsedBlocks(bs) && n <= b.size - HEADER
    requires CopiedBytes(m0, m1, from, b.Payload(), n)
    requires |m1| == |m2| && forall k :: 0 <= k < |m1| && Kept(bs, k) ==> m2[k] == m1[k]
    ensures CopiedBytes(m0, m2, from, b.Payload(), n)
  {
    forall k | b.Payload() <= k < b.Payload() + n
      ensures m2[k] == m0[k - b.Payload() + from]
    {
      assert Kept(bs, k);
    }
  }

  /** No stretch of free bytes can hold the request and its header. */
  ghost predicate NoRoom(bs: seq<Block>, request: int)
  {
    !HasRun(bs, Total(request))
  }

  /** Once a block that could hold the request is freed, there is room for it. */
  lemma FreedHasRoom(before: seq<Block>, after: seq<Block>, b: Block, request: int)
    requires Good(before) && Good(after) && b in UsedBlocks(before)
    requires UsedBlocks(after) == UsedBlocks(before) - {b}
    requires Total(request) <= b.size
    ensures !NoRoom(after, request)
  {
    FreedRun(before, after, b);
    RunPrefix(after, b.addr, b.size, Total(request));
  }

  lemma RunPrefix(bs: seq<Block>, x: int, len: int, n: int)
    requires FreeRun(bs, x, len) && n <= len
    ensures FreeRun(bs, x, n)
  {
  }

  /** A smaller request needs no larger block. */
  lemma TotalMonotone(n: nat, m: nat)
    requires n <= m <= MAX_REQUEST
    ensures Total(n) <= Total(m)
  {
    var k, l := (n + 7) / 8, (m + 7) / 8;
    TotalByUnits(n, n + 7, k);
    TotalByUnits(m, m + 7, l);
    UnitsMonotone(n + 7, k, m + 7, l);
  }

  lemma UnitsMonotone(t: int, k: int, u: int, l: int)
    requires t <= u && 8 * k <= t && u < 8 * l + 8
    ensures k <= l
  {
  }

  /** What kmalloc finds for a request in range. */
  lemma Finds(bs: seq<Block>, request: int, total: int)
    requires Good(bs) && 0 < request <= MAX_REQUEST && total == Total(request)
    ensures request + HEADER <= total && 20 <= total && total % 4 == 0
    ensures FirstFit(bs, total) == |bs| <==> NoRoom(bs, request)
    ensures NoRoom(bs, request) <==> !HasRun(bs, (request + 7) / 8 * 8 + 12)
    ensures FirstFit(bs, total) < |bs| ==>
              LowestFront(bs, FirstFitBlock(bs, total), (request + 7) / 8 * 8 + 12)
  {
    TotalRoom(request);
    TotalIs(request);
    FirstFitComplete(bs, total);
    if FirstFit(bs, total) < |bs| {
      FirstFitIsLowest(bs, total);
    }
  }

  class KernelHeap {
    const mem: array<Byte>
    var heapStart: int
    var totalMemory: int
    var usedMemory: int
    ghost var blocks: seq<Block>

    ghost predicate Valid()
      reads this, mem
    {
      && mem.Length >= HEAP_END
      && heapStart == HEAP_START
      && totalMemory == HEAP_SIZE
      && Good(blocks)
      && Linked(mem, blocks)
      && usedMemory == Sum(blocks, true)
    }

    constructor (memory: array<Byte>)
      ensures mem == memory
    {
      mem := memory;
      heapStart, totalMemory, usedMemory := NULL, 0, 0;
      blocks := [];
    }

    /** The header of every block: its size, its flag and the next address, at
        offsets 0, 4 and 8, least significant byte first. */
    lemma HeaderBytes(i: nat)
      requires Valid() && i < |blocks|
      ensures var a, next := blocks[i].addr, if i + 1 < |blocks| then blocks[i + 1].addr else 0;
              && 0 <= a && a + 12 <= mem.Length
              && LittleEndian(blocks[i].size, mem[a], mem[a + 1], mem[a + 2], mem[a + 3])
              && (blocks[i].used <==> mem[a + 4] != 0)
              && LittleEndian(next, mem[a + 8], mem[a + 9], mem[a + 10], mem[a + 11])
    {
      assert LinkAt(mem, blocks, i);
    }

    method MemoryInit()
      requires mem.Length >= HEAP_END
      modifies this, mem
      ensures Valid() && blocks == FRESH_HEAP && usedMemory == 0
      // One free block of 4 MB at the 2 MB mark, with no next.
      ensures blocks == [Block(0x20_0000, 0x40_0000, false)] && heapStart == 0x20_0000
      ensures forall k :: 0 <= k < mem.Length && !(HEAP_START <= k < HEAP_END) ==> mem[k] == old(mem[k])
    {
      heapStart := HEAP_START;
      PutHeader(mem, heapStart, HEAP_SIZE, false, NULL);
      totalMemory := HEAP_SIZE;
      usedMemory := 0;
      blocks := FRESH_HEAP;
      InitialGood();
    }

    /** What the kernel reports as free is exactly the free blocks' bytes. */
    method MemoryGetFree() returns (free: int)
      requires Valid()
      ensures free == Sum(blocks, false) && 0 <= free <= HEAP_SIZE
      ensures free == 0x40_0000 - usedMemory
    {
      Conservation(blocks);
      free := totalMemory - usedMemory;
    }

    /** The scan of kmalloc: walk the list to the first block that fits. */
    method Scan(total: int) returns (block: int)
      requires Valid()
      ensures block == if FirstFit(blocks, total) < |blocks| then blocks[FirstFit(blocks, total)].addr else NULL
    {
      Layout(blocks);
      block := heapStart;
      ghost var i := 0;
      while block != NULL
        invariant i <= FirstFit(blocks, total)
        invariant block == if i < |blocks| then blocks[i].addr else NULL
        decreases |blocks| - i
      {
        assert LinkAt(mem, blocks, i);
        var h := HeaderAt(mem, block);
        if !h.used && h.size >= total {
          return;
        }
        assert !Fits(blocks[i], total);
        i := i + 1;
        block := h.next;
      }
    }

    method Kmalloc(request: nat) returns (p: int, ghost b: Block)
      requires Valid() && request <= MAX_REQUEST
      modifies this, mem
      ensures Valid()
      ensures p == NULL <==> request == 0 || NoRoom(old(blocks), request)
      ensures p == NULL ==> blocks == old(blocks) && forall k :: 0 <= k < mem.Length ==> mem[k] == old(mem[k])
      // The front of the lowest free block that fits; nothing else changes hands.
      ensures p != NULL ==> b == FirstFitBlock(old(blocks), Total(request))
      ensures p != NULL ==> p == b.Payload() && p + request <= b.End()
      ensures p != NULL ==> b !in old(blocks) && UsedBlocks(blocks) == UsedBlocks(old(blocks)) + {b}
      // The same in numbers: eights and a header of twelve bytes.
      ensures p == 0 <==> request == 0 || !HasRun(old(blocks), (request + 7) / 8 * 8 + 12)
      ensures p != 0 ==> p == b.addr + 12 && LowestFront(old(blocks), b, (request + 7) / 8 * 8 + 12)
      ensures p != NULL ==> blocks == Alloc(old(blocks), Total(request))
      ensures forall k :: 0 <= k < mem.Length && Kept(blocks, k) ==> mem[k] == old(mem[k])
    {
      b := NO_BLOCK;
      if request == 0 {
        return NULL, b;
      }
      var size := (request + 7) % WORD / 8 * 8;
      var total := (size + HEADER) % WORD;
      Finds(blocks, request, total);
      var block := Scan(total);
      ghost var i := FirstFit(blocks, total);
      if i < |blocks| {
        InRegion(blocks, i);
      }
      if block == NULL {
        return NULL, b;
      }
      TakeKeeps(blocks, i, total);
      b := FirstFitBlock(blocks, total);
      Hand(block, total, i);
      return block + HEADER, b;
    }

    /** The tail of kmalloc, once a fitting block is found: cut it when the rest
        is worth keeping, mark it and count it. */
    method Hand(block: int, total: int, ghost i: nat)
      requires Valid()
      requires i < |blocks| && blocks[i].addr == block && Fits(blocks[i], total)
      requires 20 <= total && total % 4 == 0
      modifies this, mem
      ensures Valid()
      ensures blocks == Take(old(blocks), i, total)
      ensures forall k :: 0 <= k < mem.Length && Kept(blocks, k) ==> mem[k] == old(mem[k])
    {
      TakeKeeps(blocks, i, total);
      TakeKept(blocks, i, total);
      ghost var cut := blocks;
      assert LinkAt(mem, blocks, i) && TileAt(blocks, i);
      var found := HeaderAt(mem, block);
      if found.size >= total + MIN_REST {
        SplitTiles(blocks, i, total);
        CutInPlace(mem, blocks, i, block, total);
        cut := Split(blocks, i, total);
      }
      MarkInPlace(mem, cut, i, block, true);
      assert LinkAt(mem, Take(blocks, i, total), i);
      var h := HeaderAt(mem, block);
      blocks := Take(blocks, i, total);
      usedMemory := usedMemory + h.size;
    }

    /** The walk of kfree to the block linked to `block`, if there is one. */
    method Previous(ghost bs: seq<Block>, ghost i: nat, block: int) returns (prev: int)
      requires mem.Length >= HEAP_END && heapStart == HEAP_START
      requires Tiles(bs) && Linked(mem, bs) && i < |bs| && block == bs[i].addr
      ensures prev == if 0 < i then bs[i - 1].addr else NULL
    {
      Layout(bs);
      assert forall k :: 0 <= k < |bs| ==> bs[k].addr == block ==> k == i by {
        forall k | 0 <= k < |bs| && bs[k].addr == block
          ensures k == i
        {
          assert TileAt(bs, k) && TileAt(bs, i);
        }
      }
      prev := heapStart;
      ghost var j := 0;
      assert LinkAt(mem, bs, 0);
      while prev != NULL && HeaderAt(mem, prev).next != block
        invariant j <= |bs| && prev == if j < |bs| then bs[j].addr else NULL
        invariant j < |bs| ==> 0 <= prev <= mem.Length - HEADER && HeaderAt(mem, prev).next == Next(bs, j, NULL)
        invariant 0 < i ==> j < i
        decreases |bs| - j
      {
        prev := HeaderAt(mem, prev).next;
        j := j + 1;
        assert j < |bs| ==> LinkAt(mem, bs, j);
      }
    }

    /** `b` is the block whose payload `p` points to. */
    method Kfree(p: int, ghost b: Block)
      requires Valid()
      requires p != NULL ==> b in blocks && p == b.Payload()
      modifies this, mem
      ensures Valid()
      ensures UsedBlocks(blocks) == UsedBlocks(old(blocks)) - (if p == NULL then {} else {b})
      // Freeing NULL or a free block changes nothing at all.
      ensures p == NULL || !b.used ==> blocks == old(blocks) && usedMemory == old(usedMemory)
      ensures p == NULL || !b.used ==> forall k :: 0 <= k < mem.Length ==> mem[k] == old(mem[k])
      ensures forall k :: 0 <= k < mem.Length && Kept(blocks, k) ==> mem[k] == old(mem[k])
    {
      if p == NULL {
        return;
      }
      var block := p - HEADER;
      ghost var i := IndexOf(blocks, block);
      LiveBlock(blocks, b);
      assert LinkAt(mem, blocks, i);
      if HeaderAt(mem, block).used {
        usedMemory := usedMemory - HeaderAt(mem, block).size;
        Release(block, i);
      }
    }

    /** The rest of kfree: unmark, then join with a free block on either side. */
    method Release(block: int, ghost i: nat)
      requires mem.Length >= HEAP_END && heapStart == HEAP_START && Good(blocks) && Linked(mem, blocks)
      requires i < |blocks| && block == blocks[i].addr && blocks[i].used
      modifies mem, this`blocks
      ensures blocks == FreeAt(old(blocks), i)
      ensures UsedBlocks(blocks) == UsedBlocks(old(blocks)) - {old(blocks)[i]}
      ensures Good(blocks) && Linked(mem, blocks) && Sum(blocks, true) == Sum(old(blocks), true) - old(blocks)[i].size
      ensures forall k :: 0 <= k < mem.Length && Kept(blocks, k) ==> mem[k] == old(mem[k])
    {
      FreeKeeps(blocks, i);
      FreeKept(blocks, i);
      MarkTiles(blocks, i, false);
      MarkInPlace(mem, blocks, i, block, false);
      blocks := Mark(blocks, i, false);
      JoinNext(block, i);
      JoinPrevious(block, i);
    }

    method JoinNext(block: int, ghost i: nat)
      requires mem.Length >= HEAP_END && Tiles(blocks) && Linked(mem, blocks)
      requires i < |blocks| && block == blocks[i].addr && !blocks[i].used
      modifies mem, this`blocks
      ensures blocks == MergeNext(old(blocks), i)
      ensures Tiles(blocks) && Linked(mem, blocks) && i < |blocks| && block == blocks[i].addr && !blocks[i].used
      ensures forall k :: 0 <= k < mem.Length && !(block <= k < block + HEADER) ==> mem[k] == old(mem[k])
    {
      Layout(blocks);
      assert LinkAt(mem, blocks, i);
      var following := HeaderAt(mem, block).next;
      assert following != NULL ==> LinkAt(mem, blocks, i + 1);
      if following != NULL && !HeaderAt(mem, following).used {
        JoinInPlace(mem, blocks, i, block, following);
        MergeKeeps(blocks, i);
        blocks := Merge(blocks, i);
      }
    }

    method JoinPrevious(block: int, ghost i: nat)
      requires mem.Length >= HEAP_END && heapStart == HEAP_START && Tiles(blocks) && Linked(mem, blocks)
      requires i < |blocks| && block == blocks[i].addr && !blocks[i].used
      modifies mem, this`blocks
      ensures blocks == MergePrevious(old(blocks), i)
      ensures Linked(mem, blocks)
      ensures forall k |
                0 <= k < mem.Length && !(0 < i && old(blocks)[i - 1].addr <= k < old(blocks)[i - 1].Payload()) ::
                mem[k] == old(mem[k])
    {
      Layout(blocks);
      var prev := Previous(blocks, i, block);
      assert 0 < i ==> LinkAt(mem, blocks, i - 1);
      if prev != NULL && !HeaderAt(mem, prev).used {
        JoinInPlace(mem, blocks, i - 1, prev, block);
        blocks := Merge(blocks, i - 1);
      }
    }

    /** The tail of krealloc: copy the old payload over and free the old block. */
    method Relocate(p: int, q: int, oldSize: int, ghost was: Block, ghost now: Block)
      requires Valid() && was in UsedBlocks(blocks) && now in UsedBlocks(blocks) && was != now
      requires p == was.Payload() && q == now.Payload() && 0 <= oldSize == was.size - HEADER <= now.size - HEADER
      modifies this, mem
      ensures Valid()
      ensures UsedBlocks(blocks) == UsedBlocks(old(blocks)) - {was}
      ensures CopiedBytes(old(mem[..]), mem[..], p, q, oldSize)
      ensures forall k :: 0 <= k < mem.Length && Kept(blocks, k) && !(q <= k < now.End()) ==> mem[k] == old(mem[k])
    {
      LiveApart(blocks, was, now);
      CopyIntoPayload(mem, blocks, now, q, mem, p, oldSize);
      ghost var copied := mem[..];
      Kfree(p, was);
      CopyKept(blocks, now, old(mem[..]), copied, mem[..], p, oldSize);
    }

    /** The part of krealloc that needs a bigger block. */
    method Grow(p: int, request: nat, oldSize: int, ghost was: Block) returns (q: int, ghost now: Block)
      requires Valid() && 0 < request <= MAX_REQUEST
      requires was in UsedBlocks(blocks) && p == was.Payload() && 0 <= oldSize == was.size - HEADER < request
      modifies this, mem
      ensures Valid()
      ensures q == NULL <==> NoRoom(old(blocks), request)
      ensures q == NULL ==> blocks == old(blocks) && forall k :: 0 <= k < mem.Length ==> mem[k] == old(mem[k])
      ensures q != NULL ==> now == FirstFitBlock(old(blocks), Total(request))
      ensures q != NULL ==> q == now.Payload() && q + request <= now.End()
      ensures q != NULL ==> now !in old(blocks) && UsedBlocks(blocks) == UsedBlocks(old(blocks)) - {was} + {now}
      ensures q != NULL ==> CopiedBytes(old(mem[..]), mem[..], p, q, oldSize)
      ensures q != NULL ==> forall k :: 0 <= k < mem.Length && Kept(blocks, k) && !(q <= k < now.End()) ==>
                                          mem[k] == old(mem[k])
      ensures q != p
    {
      LiveBlock(blocks, was);
      q, now := Kmalloc(request);
      if q != NULL {
        ghost var mid, bytes := blocks, mem[..];
        LiveApart(mid, was, now);
        Relocate(p, q, oldSize, was, now);
        CopyThrough(mid, was, old(mem[..]), bytes, mem[..], q);
      }
    }

    method Krealloc(p: int, request: nat, ghost was: Block) returns (q: int, ghost now: Block)
      requires Valid() && request <= MAX_REQUEST
      requires p != NULL ==> was in UsedBlocks(blocks) && p == was.Payload()
      modifies this, mem
      ensures Valid()
      ensures p == NULL && request == 0 ==> q == NULL
      ensures p != NULL && request == 0 ==> q == NULL && UsedBlocks(blocks) == UsedBlocks(old(blocks)) - {was}
      // A request that fits the block changes nothing.
      ensures p != NULL && 0 < request <= was.size - 12 ==> q == p && blocks == old(blocks)
      // Otherwise a new block is needed: it fails, or the block moves with all its bytes.
      ensures request > 0 && (p == NULL || request > was.size - HEADER) ==>
                && (q == NULL <==> NoRoom(old(blocks), request))
                && (q != NULL ==> && now == FirstFitBlock(old(blocks), Total(request)) && now !in old(blocks)
                                  && q == now.Payload() && q + request <= now.End()
                                  && UsedBlocks(blocks) ==
                                     UsedBlocks(old(blocks)) - (if p == NULL then {} else {was}) + {now})
      ensures p != NULL && request > was.size - HEADER && q != NULL ==>
                CopiedBytes(old(mem[..]), mem[..], p, q, was.size - HEADER)
      // A call that returns the pointer it was given, or fails, changes nothing.
      ensures request > 0 && (q == NULL || q == p) ==>
                blocks == old(blocks) && forall k :: 0 <= k < mem.Length ==> mem[k] == old(mem[k])
      // Bytes that belong to anyone else stay as they were.
      ensures forall k :: 0 <= k < mem.Length && Kept(blocks, k) && (q == NULL || !(q <= k < now.End())) ==>
                            mem[k] == old(mem[k])
    {
      now := was;
      if p == NULL {
        q, now := Kmalloc(request);
        return;
      }
      LiveBlock(blocks, was);
      if request == 0 {
        Kfree(p, was);
        return NULL, now;
      }
      var oldBlock := p - HEADER;
      assert LinkAt(mem, blocks, IndexOf(blocks, oldBlock));
      var oldSize := HeaderAt(mem, oldBlock).size - HEADER;
      if request <= oldSize {
        return p, now;
      }
      q, now := Grow(p, request, oldSize, was);
    }
  }
}
