/** What saving a text to a file does to the heap, the file table and who holds
    what: the buffer is allocated first, the file's old block is freed before its
    new one is allocated, and the buffer is freed last. */
module Saves {
  import opened CString
  import opened Blocks
  import opened HeapRuns
  import opened Heap
  import opened NameTable
  import opened Ownership
  import opened RamFs

  /** How a save ended: no memory for its buffer, no file of that name, or
      whatever fs_write answered. */
  datatype Saved = NoBuffer | NoFile | Written(r: int)

  /** All that a save changes of the file system. */
  datatype Disk = Disk(blocks: seq<Block>, slots: seq<Slot>, held: seq<Holding>)

  ghost function DiskOf(fs: FileSystem): Disk
    reads fs, fs.heap
  {
    Disk(fs.heap.blocks, fs.slots, fs.held)
  }

  ghost predicate HasFile(d: Disk, f: int)
  {
    0 <= f < |d.slots| && f < |d.held| && d.slots[f].File?
  }

  /** fs_write of a text, if the file is there. */
  ghost function Write(d: Disk, f: int, text: seq<Byte>): Disk
  {
    if !HasFile(d, f) then d
    else
      var freed, s := Without(d.blocks, d.held[f]), d.slots[f];
      if NoRoom(freed, |text|) then
        Disk(freed, d.slots[f := s.(body := Dropped(s.body))], d.held[f := Nothing])
      else
        Disk(Alloc(freed, Total(|text|)), d.slots[f := s.(body := Bytes(text))],
             d.held[f := Owns(FirstFitBlock(freed, Total(|text|)))])
  }

  ghost function WriteAnswer(d: Disk, f: int, text: seq<Byte>): Saved
  {
    if !HasFile(d, f) then NoFile
    else if NoRoom(Without(d.blocks, d.held[f]), |text|) then Written(-3)
    else Written(|text|)
  }

  /** No room for a buffer of `n` characters and a NUL. */
  ghost predicate NoTextRoom(bs: seq<Block>, n: nat)
  {
    NoRoom(bs, n + 1)
  }

  /** A whole save, through a buffer with room for the text and its NUL. */
  ghost function Save(d: Disk, f: int, text: seq<Byte>): Disk
  {
    if NoTextRoom(d.blocks, |text|) then d
    else WithoutBuffer(Write(WithBuffer(d, |text|), f, text), BufferFor(d, |text|))
  }

  ghost function Answer(d: Disk, f: int, text: seq<Byte>): Saved
  {
    if NoTextRoom(d.blocks, |text|) then NoBuffer else WriteAnswer(WithBuffer(d, |text|), f, text)
  }

  ghost function BufferFor(d: Disk, n: nat): Block
  {
    FirstFitBlock(d.blocks, Total(n + 1))
  }

  ghost function WithBuffer(d: Disk, n: nat): Disk
  {
    d.(blocks := Alloc(d.blocks, Total(n + 1)))
  }

  ghost function WithoutBuffer(d: Disk, b: Block): Disk
  {
    d.(blocks := Free(d.blocks, b.addr))
  }

  /** A save in numbers: its buffer takes the text, a NUL and a header, rounded up
      to eights; the file's block, found once the old one is free, takes the text. */
  lemma SaveByNumbers(d: Disk, f: int, text: seq<Byte>)
    requires |text| < 0x1_0000
    ensures var buffer, block := (|text| + 8) / 8 * 8 + 12, (|text| + 7) / 8 * 8 + 12;
            var answer, e := Answer(d, f, text), Save(d, f, text);
            if !HasRun(d.blocks, buffer) then answer == NoBuffer && e == d
            else if !HasFile(d, f) then answer == NoFile && e.slots == d.slots && e.held == d.held
            else if HasRun(Without(Alloc(d.blocks, buffer), d.held[f]), block) then
              answer == Written(|text|) && e.slots == d.slots[f := d.slots[f].(body := Bytes(text))]
            else
              && answer == Written(-3) && e.held == d.held[f := Nothing]
              && e.slots == d.slots[f := d.slots[f].(body := e.slots[f].body)]
              && e.slots[f].body.Size() == d.slots[f].body.Size()
              && (e.slots[f].body.Bytes? ==> e.slots[f].body.content == [])
  {
    TotalIs(|text|);
    TotalIs(|text| + 1);
  }

  // ---- Many saves ----

  /** The disk, and the answers so far. */
  datatype Track = Track(disk: Disk, answers: seq<Saved>)

  ghost function SaveOne(f: int): (Track, seq<Byte>) -> Track
  {
    (t: Track, text: seq<Byte>) => Track(Save(t.disk, f, text), t.answers + [Answer(t.disk, f, text)])
  }

  /** A row of saves to one file: the disk and every answer follow from the disk
      at its start. */
  ghost function SaveAll(t: Track, f: int, texts: seq<seq<Byte>>): Track
  {
    Fold(SaveOne(f), t, texts)
  }

  lemma SavedOnce(t: Track, f: int, text: seq<Byte>)
    ensures SaveAll(t, f, [text]) == Track(Save(t.disk, f, text), t.answers + [Answer(t.disk, f, text)])
  {
    FoldOne(SaveOne(f), t, text);
  }

  /** Earlier answers only stand in front. */
  lemma {:induction false} AnswersBefore(d: Disk, answers: seq<Saved>, f: int, texts: seq<seq<Byte>>)
    ensures var u := SaveAll(Track(d, []), f, texts);
            SaveAll(Track(d, answers), f, texts) == Track(u.disk, answers + u.answers)
    decreases texts
  {
    if texts == [] {
      assert answers + [] == answers;
    } else {
      var next, answer := Save(d, f, texts[0]), Answer(d, f, texts[0]);
      AnswersBefore(next, answers + [answer], f, texts[1..]);
      AnswersBefore(next, [answer], f, texts[1..]);
      assert [] + [answer] == [answer];
      var later := SaveAll(Track(next, []), f, texts[1..]).answers;
      assert answers + [answer] + later == answers + ([answer] + later);
    }
  }

  lemma SavedThen(d: Disk, f: int, texts: seq<seq<Byte>>, t: Track, more: seq<seq<Byte>>, u: Track)
    requires SaveAll(Track(d, []), f, texts) == t && SaveAll(Track(t.disk, []), f, more) == u
    ensures SaveAll(Track(d, []), f, texts + more) == Track(u.disk, t.answers + u.answers)
  {
    FoldOn(SaveOne(f), Track(d, []), texts, more);
    AnswersBefore(t.disk, t.answers, f, more);
  }

  /** A file after saves of the given texts with the given answers. */
  function Shown(body: Body, texts: seq<seq<Byte>>, answers: seq<Saved>): Body
    requires |texts| == |answers|
    decreases texts
  {
    if texts == [] then body
    else
      var saved := match answers[0]
                   case Written(r) => if r >= 0 then Bytes(texts[0]) else Dropped(body)
                   case _ => body;
      Shown(saved, texts[1..], answers[1..])
  }

  /** Only file `f` differs. */
  ghost predicate OnlyFile(d: Disk, e: Disk, f: int)
  {
    && |e.slots| == |d.slots| && |e.held| == |d.held|
    && (!HasFile(d, f) ==> e.slots == d.slots && e.held == d.held)
    && (HasFile(d, f) ==> && HasFile(e, f) && e.held == d.held[f := e.held[f]]
                          && e.slots == d.slots[f := d.slots[f].(body := e.slots[f].body)])
  }

  /** One save: only its file changes, to the text exactly if the answer is its
      length; running out of memory drops what was there. */
  lemma SaveShows(d: Disk, f: int, text: seq<Byte>)
    ensures var e := Save(d, f, text);
            && OnlyFile(d, e, f)
            && (HasFile(d, f) ==> e.slots[f].body == Shown(d.slots[f].body, [text], [Answer(d, f, text)]))
  {
    if HasFile(d, f) {
      assert [text][1..] == [] && [Answer(d, f, text)][1..] == [];
      assert d.slots[f := d.slots[f]] == d.slots && d.held[f := d.held[f]] == d.held;
    }
  }

  /** Many saves: one answer each, and only the file changes, as they say. */
  lemma {:induction false} SaveAllShows(d: Disk, f: int, texts: seq<seq<Byte>>)
    ensures var t := SaveAll(Track(d, []), f, texts);
            && |t.answers| == |texts| && OnlyFile(d, t.disk, f)
            && (HasFile(d, f) ==> t.disk.slots[f].body == Shown(d.slots[f].body, texts, t.answers))
    decreases texts
  {
    if texts == [] {
      if HasFile(d, f) {
        assert d.slots[f := d.slots[f]] == d.slots && d.held[f := d.held[f]] == d.held;
      }
    } else {
      var next, answer := Save(d, f, texts[0]), Answer(d, f, texts[0]);
      SaveShows(d, f, texts[0]);
      SaveAllShows(next, f, texts[1..]);
      AnswersBefore(next, [answer], f, texts[1..]);
      assert [] + [answer] == [answer];
      var u := SaveAll(Track(next, []), f, texts[1..]);
      OnlyFileThrough(d, next, u.disk, f);
      if HasFile(d, f) {
        ShownFirst(d.slots[f].body, texts, answer, u.answers);
      }
    }
  }

  lemma OnlyFileThrough(d: Disk, e: Disk, g: Disk, f: int)
    requires OnlyFile(d, e, f) && OnlyFile(e, g, f)
    ensures OnlyFile(d, g, f)
  {
  }

  lemma ShownFirst(body: Body, texts: seq<seq<Byte>>, answer: Saved, later: seq<Saved>)
    requires texts != [] && |texts| == 1 + |later|
    ensures Shown(body, texts, [answer] + later) == Shown(Shown(body, [texts[0]], [answer]), texts[1..], later)
  {
    assert ([answer] + later)[1..] == later;
    var text: seq<seq<Byte>>, one: seq<Saved> := [texts[0]], [answer];
    assert text[1..] == [] && one[1..] == [];
  }

  /** The used blocks differ by one file's block alone. */
  ghost predicate Exchanged(d: Disk, e: Disk, f: int)
  {
    if !HasFile(d, f) then e.blocks == d.blocks
    else f < |e.held| && UsedBlocks(e.blocks) == UsedBlocks(d.blocks) - BlockSet(d.held[f]) + BlockSet(e.held[f])
  }

  lemma ExchangedBy(d: Disk, e: Disk, f: int, clients: set<Block>, leaked: set<Block>)
    requires Good(d.blocks) && Good(e.blocks) && OnlyFile(d, e, f)
    requires Owners(d.blocks, d.held, clients, leaked) && Owners(e.blocks, e.held, clients, leaked)
    ensures Exchanged(d, e, f)
  {
    if HasFile(d, f) {
      UsedExchange(d.blocks, e.blocks, d.held, e.held, f, clients, leaked);
    } else {
      Canonical(d.blocks, e.blocks);
    }
  }
}
