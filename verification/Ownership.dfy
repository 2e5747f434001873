/** Who owns the live blocks: the file system's slots, other clients of the heap,
    or nobody any more. */
module Ownership {
  import opened Blocks

  /** What a file slot holds of the heap. */
  datatype Holding = Nothing | Owns(block: Block)

  /** The block a slot holds, if any. */
  function BlockSet(h: Holding): set<Block>
  {
    if h.Owns? then {h.block} else {}
  }

  ghost predicate Distinct(held: seq<Holding>)
  {
    forall i, j :: 0 <= i < j < |held| && held[i].Owns? && held[j].Owns? ==> held[i].block != held[j].block
  }

  ghost function HeldBlocks(held: seq<Holding>): set<Block>
  {
    set h | h in held && h.Owns? :: h.block
  }

  /** The bytes the slots' blocks take, slot by slot. */
  function HeldBytes(held: seq<Holding>): int
  {
    if held == [] then 0
    else HeldBytes(held[..|held| - 1]) + (if held[|held| - 1].Owns? then held[|held| - 1].block.size else 0)
  }

  ghost function SumSet(s: set<Block>): int
  {
    if s == {} then 0 else
      var b :| b in s;
      b.size + SumSet(s - {b})
  }

  lemma {:induction false} SumSetRemove(s: set<Block>, b: Block)
    requires b in s
    ensures SumSet(s) == b.size + SumSet(s - {b})
  {
    var c :| c in s && SumSet(s) == c.size + SumSet(s - {c});
    if c != b {
      SumSetRemove(s - {c}, b);
      SumSetRemove(s - {b}, c);
      assert s - {c} - {b} == s - {b} - {c};
    }
  }

  lemma {:induction false} SumSetUnion(s: set<Block>, t: set<Block>)
    requires s !! t
    ensures SumSet(s + t) == SumSet(s) + SumSet(t)
    decreases t
  {
    if t == {} {
      assert s + t == s;
    } else {
      var b :| b in t;
      SumSetRemove(t, b);
      SumSetRemove(s + t, b);
      SumSetUnion(s, t - {b});
      assert s + t - {b} == s + (t - {b});
    }
  }

  /** The kernel's counter is the sum over the set of used blocks. */
  lemma {:induction false} CounterIsSum(bs: seq<Block>, n: nat)
    requires Tiles(bs) && n <= |bs|
    ensures Sum(bs[..n], true) == SumSet(UsedBlocks(bs[..n]))
  {
    if n == 0 {
      assert UsedBlocks(bs[..0]) == {};
    } else {
      CounterIsSum(bs, n - 1);
      var b := bs[n - 1];
      assert bs[..n][..n - 1] == bs[..n - 1];
      if b.used {
        Layout(bs);
        forall k | 0 <= k < n - 1
          ensures bs[k] != b
        {
          assert TileAt(bs, k);
        }
        assert UsedBlocks(bs[..n]) - {b} == UsedBlocks(bs[..n - 1]) by {
          assert forall c :: c in bs[..n] <==> c in bs[..n - 1] || c == b;
        }
        assert b in bs[..n];
        SumSetRemove(UsedBlocks(bs[..n]), b);
      } else {
        assert forall c :: c in bs[..n] <==> c in bs[..n - 1] || c == b;
        assert UsedBlocks(bs[..n]) == UsedBlocks(bs[..n - 1]);
      }
    }
  }

  lemma {:induction false} HeldIsSum(held: seq<Holding>)
    requires Distinct(held)
    ensures HeldBytes(held) == SumSet(HeldBlocks(held))
  {
    if held != [] {
      var init, last := held[..|held| - 1], held[|held| - 1];
      HeldIsSum(init);
      assert forall h :: h in held <==> h in init || h == last;
      if last.Owns? {
        assert HeldBlocks(held) - {last.block} == HeldBlocks(init);
        assert last in held;
        SumSetRemove(HeldBlocks(held), last.block);
      } else {
        assert HeldBlocks(held) == HeldBlocks(init);
      }
    }
  }

  /** When every live block has one owner, the counter splits by owner. */
  lemma CounterByOwner(bs: seq<Block>, held: seq<Holding>, clients: set<Block>, leaked: set<Block>)
    requires Tiles(bs) && Distinct(held)
    requires UsedBlocks(bs) == HeldBlocks(held) + clients + leaked
    requires HeldBlocks(held) !! clients && HeldBlocks(held) !! leaked && clients !! leaked
    ensures Sum(bs, true) == HeldBytes(held) + SumSet(clients) + SumSet(leaked)
  {
    CounterIsSum(bs, |bs|);
    assert bs[..|bs|] == bs;
    HeldIsSum(held);
    SumSetUnion(HeldBlocks(held), clients);
    SumSetUnion(HeldBlocks(held) + clients, leaked);
  }

  lemma HeldChange(held: seq<Holding>, i: nat, h: Holding)
    requires Distinct(held) && i < |held|
    requires h.Owns? ==> h.block !in HeldBlocks(held)
    ensures Distinct(held[i := h])
    ensures HeldBlocks(held[i := h]) ==
            HeldBlocks(held) - BlockSet(held[i]) + BlockSet(h)
  {
    var after := held[i := h];
    forall k | 0 <= k < |held| && k != i && held[k].Owns?
      ensures held[k].block in HeldBlocks(held) && held[k].block in HeldBlocks(after)
      ensures held[i].Owns? ==> held[k].block != held[i].block
    {
      assert held[k] in held && after[k] in after;
    }
    assert after[i] in after;
    forall b | b in HeldBlocks(held) && !(held[i].Owns? && b == held[i].block)
      ensures b in HeldBlocks(after)
    {
      var k :| 0 <= k < |held| && held[k] == Owns(b);
    }
    forall b | b in HeldBlocks(after) && !(h.Owns? && b == h.block)
      ensures b in HeldBlocks(held) && !(held[i].Owns? && b == held[i].block)
    {
      var k :| 0 <= k < |after| && after[k] == Owns(b);
    }
  }
}
