/** The file table as a finite map: slots holding named files, and the map from
    names to files they stand for. */
module NameTable {
  import opened CString
  import opened Text

  const MAX_FILES := 64
  const MAX_NAME := 32
  const MAX_SIZE := 64 * 1024

  /** What a file holds. `Lost(n)` is a file whose size still says n after its
      data was freed and the replacement could not be allocated. */
  datatype Body = Bytes(content: seq<Byte>) | Lost(lost: nat)
  {
    function Size(): nat
    {
      if Bytes? then |content| else lost
    }
  }

  datatype Slot = Empty | File(name: seq<Byte>, directory: bool, body: Body)

  datatype FileInfo = FileInfo(directory: bool, body: Body)

  predicate ValidName(name: seq<Byte>)
  {
    0 < |name| < MAX_NAME && NUL !in name
  }

  /** Names in use are valid and no two slots share one. */
  ghost predicate Unique(slots: seq<Slot>)
  {
    && (forall i :: 0 <= i < |slots| && slots[i].File? ==> ValidName(slots[i].name))
    && (forall i, j :: 0 <= i < j < |slots| && slots[i].File? && slots[j].File? ==> slots[i].name != slots[j].name)
  }

  /** The map a table stands for. */
  function AsMap(slots: seq<Slot>): map<seq<Byte>, FileInfo>
  {
    if slots == [] then map[]
    else
      var last := slots[|slots| - 1];
      var m := AsMap(slots[..|slots| - 1]);
      if last.File? then m[last.name := FileInfo(last.directory, last.body)] else m
  }

  function CountFiles(slots: seq<Slot>): nat
  {
    if slots == [] then 0
    else CountFiles(slots[..|slots| - 1]) + (if slots[|slots| - 1].File? then 1 else 0)
  }

  /** The names of the map are those of the used slots. */
  lemma {:induction false} NamesOf(slots: seq<Slot>, name: seq<Byte>)
    ensures name in AsMap(slots) <==> exists i :: 0 <= i < |slots| && slots[i].File? && slots[i].name == name
  {
    if slots != [] {
      var init, last := slots[..|slots| - 1], slots[|slots| - 1];
      NamesOf(init, name);
      if name in AsMap(init) {
        var i :| 0 <= i < |init| && init[i].File? && init[i].name == name;
        assert slots[i] == init[i];
      }
      forall i | 0 <= i < |slots| && slots[i].File? && slots[i].name == name
        ensures name in AsMap(slots)
      {
        assert i < |init| ==> init[i] == slots[i];
      }
      if last.File? && last.name == name {
        assert slots[|slots| - 1].File?;
      }
    }
  }

  lemma UniquePrefix(slots: seq<Slot>)
    requires Unique(slots) && slots != []
    ensures Unique(slots[..|slots| - 1])
  {
  }

  /** Each used slot is the map's entry for its name. */
  lemma {:induction false} FileAt(slots: seq<Slot>, i: nat)
    requires Unique(slots) && i < |slots| && slots[i].File?
    ensures slots[i].name in AsMap(slots)
    ensures AsMap(slots)[slots[i].name] == FileInfo(slots[i].directory, slots[i].body)
  {
    var n := |slots| - 1;
    UniquePrefix(slots);
    if i < n {
      FileAt(slots[..n], i);
    }
  }

  /** The slot a name is in. */
  ghost function SlotOf(slots: seq<Slot>, name: seq<Byte>): (i: nat)
    requires name in AsMap(slots)
    ensures i < |slots| && slots[i].File? && slots[i].name == name
  {
    NamesOf(slots, name);
    var i :| 0 <= i < |slots| && slots[i].File? && slots[i].name == name;
    i
  }

  /** A map that agrees with `n` except at `name` is `n` updated there. */
  lemma UpdatedAt(m: map<seq<Byte>, FileInfo>, n: map<seq<Byte>, FileInfo>, name: seq<Byte>)
    requires m - {name} == n - {name} && name in m
    ensures m == n[name := m[name]]
  {
    forall k | k != name
      ensures k in m <==> k in n
      ensures k in m ==> m[k] == n[k]
    {
      assert k in m <==> k in m - {name};
      assert k in n <==> k in n - {name};
      assert k in m ==> (m - {name})[k] == m[k];
      assert k in n ==> (n - {name})[k] == n[k];
    }
  }

  /** Filling a slot whose name is not in use adds one entry. */
  lemma AddFile(slots: seq<Slot>, i: nat, f: Slot)
    requires Unique(slots) && i < |slots| && slots[i].Empty?
    requires f.File? && ValidName(f.name) && f.name !in AsMap(slots)
    ensures Unique(slots[i := f])
    ensures AsMap(slots[i := f]) == AsMap(slots)[f.name := FileInfo(f.directory, f.body)]
  {
    forall k | 0 <= k < |slots| && slots[k].File?
      ensures slots[k].name != f.name
    {
      NamesOf(slots, f.name);
    }
    var after := slots[i := f];
    FileAt(after, i);
    Elsewhere(slots, i, f, f.name);
    UpdatedAt(AsMap(after), AsMap(slots), f.name);
  }

  /** Emptying a slot removes exactly its name. */
  lemma RemoveFile(slots: seq<Slot>, i: nat)
    requires Unique(slots) && i < |slots| && slots[i].File?
    ensures Unique(slots[i := Empty])
    ensures AsMap(slots[i := Empty]) == AsMap(slots) - {slots[i].name}
    ensures slots[i].name in AsMap(slots) && SlotOf(slots, slots[i].name) == i
  {
    FileAt(slots, i);
    var after := slots[i := Empty];
    NamesOf(after, slots[i].name);
    Elsewhere(slots, i, Empty, slots[i].name);
  }

  /** Replacing a file's body changes exactly its entry. */
  lemma ChangeBody(slots: seq<Slot>, i: nat, body: Body)
    requires Unique(slots) && i < |slots| && slots[i].File?
    ensures Unique(slots[i := slots[i].(body := body)])
    ensures AsMap(slots[i := slots[i].(body := body)]) ==
            AsMap(slots)[slots[i].name := FileInfo(slots[i].directory, body)]
  {
    var after := slots[i := slots[i].(body := body)];
    FileAt(after, i);
    Elsewhere(slots, i, slots[i].(body := body), slots[i].name);
    UpdatedAt(AsMap(after), AsMap(slots), slots[i].name);
  }

  /** A change at slot `i` that concerns only `name` leaves other names alone. */
  lemma Elsewhere(slots: seq<Slot>, i: nat, s: Slot, name: seq<Byte>)
    requires Unique(slots) && i < |slots| && Unique(slots[i := s])
    requires slots[i].File? ==> slots[i].name == name
    requires s.File? ==> s.name == name
    ensures AsMap(slots[i := s]) - {name} == AsMap(slots) - {name}
  {
    var after := slots[i := s];
    var m, n := AsMap(after) - {name}, AsMap(slots) - {name};
    forall other | other != name
      ensures other in m <==> other in n
      ensures other in m && other in n ==> m[other] == n[other]
    {
      NamesOf(slots, other);
      NamesOf(after, other);
      if other in n {
        var k :| 0 <= k < |slots| && slots[k].File? && slots[k].name == other;
        assert after[k] == slots[k];
        FileAt(slots, k);
        FileAt(after, k);
      }
      if other in m {
        var k :| 0 <= k < |after| && after[k].File? && after[k].name == other;
        assert slots[k] == after[k];
      }
    }
  }

  /** The map has as many entries as the table has used slots. */
  lemma {:induction false} MapSize(slots: seq<Slot>)
    requires Unique(slots)
    ensures |AsMap(slots)| == CountFiles(slots) <= |slots|
  {
    if slots != [] {
      var n := |slots| - 1;
      UniquePrefix(slots);
      MapSize(slots[..n]);
      if slots[n].File? {
        NamesOf(slots[..n], slots[n].name);
      }
    }
  }

  /** The map is full exactly when no slot is empty. */
  lemma {:induction false} FullTable(slots: seq<Slot>)
    ensures CountFiles(slots) <= |slots|
    ensures CountFiles(slots) == |slots| <==> forall i :: 0 <= i < |slots| ==> slots[i].File?
  {
    if slots != [] {
      var n := |slots| - 1;
      FullTable(slots[..n]);
      assert forall i :: 0 <= i < n ==> slots[..n][i] == slots[i];
      assert CountFiles(slots) == |slots| ==> forall i :: 0 <= i < n ==> slots[..n][i].File?;
    }
  }

  /** The lowest empty slot, or the table's length. */
  function FirstEmpty(slots: seq<Slot>): (i: nat)
    ensures i <= |slots|
    ensures i < |slots| ==> slots[i].Empty?
    ensures forall k :: 0 <= k < i ==> slots[k].File?
  {
    if slots == [] || slots[0].Empty? then 0 else 1 + FirstEmpty(slots[1..])
  }

  /** What creating a file or directory answers and leaves behind. */
  ghost predicate Creates(before: seq<Slot>, after: seq<Slot>, given: bool, name: seq<Byte>, directory: bool, r: int)
  {
    var valid := given && 0 < |name| < 32 && NUL !in name;
    && (r == -1 <==> !valid)
    && (r == -2 <==> valid && name in AsMap(before))
    && (r == -3 <==> valid && name !in AsMap(before) && |AsMap(before)| == 64)
    && (r != 0 ==> r in {-1, -2, -3} && after == before)
    && (r == 0 ==> && AsMap(after) == AsMap(before)[name := FileInfo(directory, Bytes([]))]
                   && FirstEmpty(before) < |before|
                   && after == before[FirstEmpty(before) := File(name, directory, Bytes([]))])
  }

  // ---- The listing of names ----

  /** The names fs_list chooses among the first `n` slots: each used slot's name
      whose line still fits with two bytes to spare. */
  function Listed(slots: seq<Slot>, n: nat, capacity: nat): seq<seq<Byte>>
    requires n <= |slots|
  {
    if n == 0 then []
    else
      var chosen := Listed(slots, n - 1, capacity);
      if slots[n - 1].File? && |Join(chosen)| + |slots[n - 1].name| + 2 < capacity then chosen + [slots[n - 1].name]
      else chosen
  }

  /** Used slots among the first `n`, in increasing order. */
  ghost predicate Picks(slots: seq<Slot>, picks: seq<int>, n: nat)
    requires n <= |slots|
  {
    && (forall j :: 0 <= j < |picks| ==> 0 <= picks[j] < n && slots[picks[j]].File?)
    && (forall j, k :: 0 <= j < k < |picks| ==> picks[j] < picks[k])
  }

  /** The names of those slots. */
  ghost function NamesAt(slots: seq<Slot>, picks: seq<int>): (names: seq<seq<Byte>>)
    ensures |names| == |picks|
  {
    seq(|picks|, k requires 0 <= k < |picks| => NameAt(slots, picks[k]))
  }

  function NameAt(slots: seq<Slot>, i: int): seq<Byte>
  {
    if 0 <= i < |slots| && slots[i].File? then slots[i].name else []
  }

  /** The line of a name fits after those of `names`, with a terminator and a byte
      to spare. */
  ghost predicate FitsAfter(names: seq<seq<Byte>>, name: seq<Byte>, capacity: nat)
  {
    |Join(names)| + |name| + 2 < capacity
  }

  /** The first `j` picks are those below slot `i`. */
  ghost predicate LowerPicks(picks: seq<int>, i: int, j: int)
  {
    && 0 <= j <= |picks|
    && (forall k :: 0 <= k < j ==> picks[k] < i)
    && (forall k :: j <= k < |picks| ==> picks[k] >= i)
  }

  /** A used slot is picked exactly when its line fits after those picked from
      lower slots. */
  ghost predicate Greedy(slots: seq<Slot>, picks: seq<int>, n: nat, capacity: nat)
    requires n <= |slots|
  {
    && Picks(slots, picks, n)
    && forall i, j :: 0 <= i < n && slots[i].File? && LowerPicks(picks, i, j) ==>
         (i in picks <==> FitsAfter(NamesAt(slots, picks[..j]), slots[i].name, capacity))
  }

  ghost predicate GreedyNames(slots: seq<Slot>, names: seq<seq<Byte>>, capacity: nat)
  {
    exists picks :: Greedy(slots, picks, |slots|, capacity) && names == NamesAt(slots, picks)
  }

  /** The picks among fewer slots. */
  lemma GreedyFewer(slots: seq<Slot>, picks: seq<int>, n: nat, capacity: nat, m: nat)
    requires 0 < n <= |slots| && Greedy(slots, picks, n, capacity) && LowerPicks(picks, n - 1, m)
    ensures Greedy(slots, picks[..m], n - 1, capacity)
  {
    var few := picks[..m];
    forall i, j | 0 <= i < n - 1 && slots[i].File? && LowerPicks(few, i, j)
      ensures i in few <==> FitsAfter(NamesAt(slots, few[..j]), slots[i].name, capacity)
    {
      assert LowerPicks(picks, i, j) && few[..j] == picks[..j];
      assert i in few <==> i in picks;
    }
  }

  /** Slot `n` is picked, if its line fits. */
  lemma GreedyPick(slots: seq<Slot>, picks: seq<int>, n: nat, capacity: nat)
    requires n < |slots| && Greedy(slots, picks, n, capacity)
    requires slots[n].File? && FitsAfter(NamesAt(slots, picks), slots[n].name, capacity)
    ensures Greedy(slots, picks + [n], n + 1, capacity)
  {
    var more := picks + [n];
    forall i, j | 0 <= i < n + 1 && slots[i].File? && LowerPicks(more, i, j)
      ensures i in more <==> FitsAfter(NamesAt(slots, more[..j]), slots[i].name, capacity)
    {
      assert j <= |picks| by {
        assert more[|picks|] == n;
      }
      assert more[..j] == picks[..j];
      LowerFirst(picks, n, i, j);
      if i == n {
        assert picks != [] ==> picks[|picks| - 1] < n;
        assert picks[..j] == picks;
      }
    }
  }

  lemma LowerFirst(picks: seq<int>, n: int, i: int, j: int)
    requires LowerPicks(picks + [n], i, j) && j <= |picks|
    ensures LowerPicks(picks, i, j)
  {
    var more := picks + [n];
    assert forall k :: 0 <= k < |picks| ==> more[k] == picks[k];
  }

  /** Slot `n` is passed over, if it is unused or its line does not fit. */
  lemma GreedySkip(slots: seq<Slot>, picks: seq<int>, n: nat, capacity: nat)
    requires n < |slots| && Greedy(slots, picks, n, capacity)
    requires slots[n].File? ==> !FitsAfter(NamesAt(slots, picks), slots[n].name, capacity)
    ensures Greedy(slots, picks, n + 1, capacity)
  {
    forall i, j | 0 <= i < n + 1 && slots[i].File? && LowerPicks(picks, i, j)
      ensures i in picks <==> FitsAfter(NamesAt(slots, picks[..j]), slots[i].name, capacity)
    {
      if i == n {
        assert picks != [] ==> picks[|picks| - 1] < n;
        assert picks[..j] == picks;
      }
    }
  }

  lemma {:induction false} ListedPicks(slots: seq<Slot>, n: nat, capacity: nat) returns (picks: seq<int>)
    requires n <= |slots|
    ensures Greedy(slots, picks, n, capacity) && NamesAt(slots, picks) == Listed(slots, n, capacity)
  {
    picks := [];
    if n > 0 {
      var few := ListedPicks(slots, n - 1, capacity);
      if slots[n - 1].File? && FitsAfter(NamesAt(slots, few), slots[n - 1].name, capacity) {
        picks := few + [n - 1];
        GreedyPick(slots, few, n - 1, capacity);
      } else {
        picks := few;
        GreedySkip(slots, few, n - 1, capacity);
      }
    }
  }

  lemma {:induction false} PicksAreListed(slots: seq<Slot>, picks: seq<int>, n: nat, capacity: nat)
    requires n <= |slots| && Greedy(slots, picks, n, capacity)
    ensures NamesAt(slots, picks) == Listed(slots, n, capacity)
    decreases n
  {
    if n > 0 {
      var m := if picks != [] && picks[|picks| - 1] == n - 1 then |picks| - 1 else |picks|;
      assert LowerPicks(picks, n - 1, m);
      GreedyFewer(slots, picks, n, capacity, m);
      PicksAreListed(slots, picks[..m], n - 1, capacity);
      if m < |picks| {
        assert NamesAt(slots, picks) == NamesAt(slots, picks[..m]) + [NameAt(slots, n - 1)];
      } else {
        assert picks[..m] == picks;
      }
    }
  }

  /** The listing is the one greedy choice: a name is left out exactly when it
      does not fit after those chosen before it. */
  lemma ListedIsGreedy(slots: seq<Slot>, names: seq<seq<Byte>>, capacity: nat)
    ensures names == Listed(slots, |slots|, capacity) <==> GreedyNames(slots, names, capacity)
  {
    var picks := ListedPicks(slots, |slots|, capacity);
    if GreedyNames(slots, names, capacity) {
      var others :| Greedy(slots, others, |slots|, capacity) && names == NamesAt(slots, others);
      PicksAreListed(slots, others, |slots|, capacity);
    }
  }

  /** The names of all used slots, in slot order. */
  function AllNames(slots: seq<Slot>): seq<seq<Byte>>
  {
    if slots == [] then []
    else AllNames(slots[..|slots| - 1]) + (if slots[|slots| - 1].File? then [slots[|slots| - 1].name] else [])
  }

  /** The listing fits the buffer with its terminator, and lists used names. */
  lemma {:induction false} ListedFits(slots: seq<Slot>, n: nat, capacity: nat)
    requires n <= |slots| && capacity > 0
    ensures |Join(Listed(slots, n, capacity))| < capacity
    ensures forall l :: l in Listed(slots, n, capacity) ==>
              exists i :: 0 <= i < n && slots[i].File? && slots[i].name == l
  {
    if n > 0 {
      ListedFits(slots, n - 1, capacity);
      JoinLast(Listed(slots, n - 1, capacity), if slots[n - 1].File? then slots[n - 1].name else []);
    }
  }

  lemma {:induction false} NoneListed(slots: seq<Slot>, n: nat, capacity: nat)
    requires Unique(slots) && n <= |slots| && AsMap(slots) == map[]
    ensures Listed(slots, n, capacity) == []
  {
    if n > 0 {
      NoneListed(slots, n - 1, capacity);
      if slots[n - 1].File? {
        FileAt(slots, n - 1);
      }
    }
  }

  lemma {:induction false} ListedCount(slots: seq<Slot>, n: nat, capacity: nat)
    requires n <= |slots|
    ensures |Listed(slots, n, capacity)| <= |AllNames(slots[..n])| == CountFiles(slots[..n])
    ensures |Listed(slots, n, capacity)| == |AllNames(slots[..n])| <==>
            Listed(slots, n, capacity) == AllNames(slots[..n])
  {
    if n > 0 {
      assert slots[..n][..n - 1] == slots[..n - 1];
      ListedCount(slots, n - 1, capacity);
    }
  }

  /** Every file is listed exactly when the buffer has room for every line, the
      terminator and one byte more: a buffer of just the needed size drops a
      name. */
  lemma {:induction false} ListedAll(slots: seq<Slot>, n: nat, capacity: nat)
    requires n <= |slots|
    ensures var all := AllNames(slots[..n]);
            Listed(slots, n, capacity) == all <==> all == [] || |Join(all)| + 1 < capacity
  {
    if n > 0 {
      var before, slot := slots[..n - 1], slots[n - 1];
      assert slots[..n][..n - 1] == before;
      ListedAll(slots, n - 1, capacity);
      if slot.File? {
        JoinLast(AllNames(before), slot.name);
        ListedCount(slots, n - 1, capacity);
        ListedMore(AllNames(before), Listed(slots, n - 1, capacity), slot.name);
      } else {
        assert AllNames(slots[..n]) == AllNames(before);
      }
    }
  }

  lemma ListedMore(all: seq<seq<Byte>>, chosen: seq<seq<Byte>>, name: seq<Byte>)
    requires |chosen| <= |all|
    ensures chosen + [name] == all + [name] <==> chosen == all
    ensures chosen != all + [name]
  {
    if chosen + [name] == all + [name] {
      assert chosen == (chosen + [name])[..|chosen|] && all == (all + [name])[..|all|];
    }
  }
}
