/** The keyboard ring buffer, shared by an interrupt-time producer and a
    foreground consumer, and the line reader on top of it. */
module Keyboard {
  import opened CString

  const SIZE := 256

  // ---- The queue the ring stands for ----

  /** Where the consumer is between its separate reads and writes: it samples the
      end index, compares it with the start index, loads the character, and
      advances the start index. */
  datatype Stage = Waiting | Sampled(seen: nat) | Ready | Loaded(c: Byte)

  datatype Queue = Queue(pending: seq<Byte>, delivered: seq<Byte>, stage: Stage)

  datatype Event = Interrupt(c: Byte) | Consume

  function Step(q: Queue, e: Event): Queue
  {
    match e
    case Interrupt(c) => if |q.pending| < SIZE - 1 then q.(pending := q.pending + [c]) else q
    case Consume =>
      match q.stage
      case Waiting => q.(stage := Sampled(|q.pending|))
      case Sampled(seen) => q.(stage := if seen > 0 then Ready else Waiting)
      case Ready => if q.pending == [] then q else q.(stage := Loaded(q.pending[0]))
      case Loaded(c) => Queue(if q.pending == [] then [] else q.pending[1..], q.delivered + [c], Waiting)
  }

  /** What an interrupt between any two consumer steps must not break. */
  predicate Sane(q: Queue)
  {
    && |q.pending| < SIZE
    && match q.stage
       case Waiting => true
       case Sampled(seen) => seen <= |q.pending|
       case Ready => q.pending != []
       case Loaded(c) => q.pending != [] && q.pending[0] == c
  }

  function Run(q: Queue, events: seq<Event>): Queue
    decreases events
  {
    if events == [] then q else Run(Step(q, events[0]), events[1..])
  }

  lemma {:induction false} RunOn(q: Queue, events: seq<Event>, later: seq<Event>)
    ensures Run(q, events + later) == Run(Run(q, events), later)
    decreases events
  {
    if events == [] {
      assert events + later == later;
    } else {
      RunOn(Step(q, events[0]), events[1..], later);
      assert (events + later)[1..] == events[1..] + later;
    }
  }

  /** One event more. */
  lemma RunMore(q: Queue, events: seq<Event>, n: nat)
    requires n < |events|
    ensures Run(q, events[..n + 1]) == Step(Run(q, events[..n]), events[n])
  {
    var one := [events[n]];
    assert events[..n + 1] == events[..n] + one;
    RunOn(q, events[..n], one);
    assert one[1..] == [];
  }

  /** The characters the producer stored during a run. */
  function Accepted(q: Queue, events: seq<Event>): seq<Byte>
    decreases events
  {
    if events == [] then []
    else
      (if events[0].Interrupt? && |q.pending| < SIZE - 1 then [events[0].c] else [])
      + Accepted(Step(q, events[0]), events[1..])
  }

  /** The characters the keyboard sent during a run. */
  function Typed(events: seq<Event>): seq<Byte>
    decreases events
  {
    if events == [] then []
    else (if events[0].Interrupt? then [events[0].c] else []) + Typed(events[1..])
  }

  lemma StepConserves(q: Queue, e: Event)
    requires Sane(q)
    ensures Sane(Step(q, e))
    ensures Step(q, e).delivered + Step(q, e).pending ==
            q.delivered + q.pending + (if e.Interrupt? && |q.pending| < SIZE - 1 then [e.c] else [])
  {
    if e.Consume? && q.stage.Loaded? {
      assert q.pending == [q.pending[0]] + q.pending[1..];
    }
  }

  /** Under every interleaving, what was delivered followed by what is pending is
      what was accepted, in order; at most 255 characters are pending. */
  lemma {:induction false} RunConserves(q: Queue, events: seq<Event>)
    requires Sane(q)
    ensures Sane(Run(q, events))
    ensures Run(q, events).delivered + Run(q, events).pending == q.delivered + q.pending + Accepted(q, events)
    decreases events
  {
    if events == [] {
      assert q.delivered + q.pending + [] == q.delivered + q.pending;
    } else {
      StepConserves(q, events[0]);
      RunConserves(Step(q, events[0]), events[1..]);
      var now := if events[0].Interrupt? && |q.pending| < SIZE - 1 then [events[0].c] else [];
      var later := Accepted(Step(q, events[0]), events[1..]);
      assert q.delivered + q.pending + now + later == q.delivered + q.pending + (now + later);
    }
  }

  /** A burst that fits the buffer is never dropped, however slowly and at
      whatever points the consumer runs. */
  lemma {:induction false} BurstKept(q: Queue, events: seq<Event>)
    requires Sane(q) && |q.pending| + |Typed(events)| < SIZE
    ensures Accepted(q, events) == Typed(events)
    decreases events
  {
    if events != [] {
      StepConserves(q, events[0]);
      BurstKept(Step(q, events[0]), events[1..]);
    }
  }

  // ---- The reader takes what is pending ----

  /** The reader's own steps in a run. */
  function Consumes(events: seq<Event>): nat
    decreases events
  {
    if events == [] then 0 else (if events[0].Consume? then 1 else 0) + Consumes(events[1..])
  }

  lemma {:induction false} ConsumesOn(events: seq<Event>, later: seq<Event>)
    ensures Consumes(events + later) == Consumes(events) + Consumes(later)
    decreases events
  {
    if events == [] {
      assert events + later == later;
    } else {
      ConsumesOn(events[1..], later);
      assert (events + later)[1..] == events[1..] + later;
    }
  }

  lemma ConsumesMore(events: seq<Event>, e: Event)
    ensures Consumes(events + [e]) == Consumes(events) + (if e.Consume? then 1 else 0)
  {
    var one := [e];
    ConsumesOn(events, one);
    assert one[1..] == [];
  }

  /** How many steps the reader needs to take a pending character: test, compare,
      load and advance, and one more if it sampled an empty ring before. */
  function StepsToTake(stage: Stage): nat
  {
    match stage
    case Waiting => 4
    case Sampled(seen) => if seen > 0 then 3 else 5
    case Ready => 2
    case Loaded(_) => 1
  }

  /** One step nearer to taking the oldest pending character, or it is taken. */
  lemma TakesStep(q: Queue, e: Event)
    requires Sane(q) && q.pending != []
    ensures var t := Step(q, e);
            if e.Consume? && q.stage.Loaded? then t.delivered == q.delivered + [q.pending[0]] && t.stage == Waiting
            else && t.delivered == q.delivered && t.pending != [] && t.pending[0] == q.pending[0]
                 && StepsToTake(t.stage) == StepsToTake(q.stage) - (if e.Consume? then 1 else 0)
  {
  }

  /** Interrupts alone deliver nothing. */
  lemma {:induction false} InterruptsDeliverNothing(q: Queue, events: seq<Event>)
    requires Consumes(events) == 0
    ensures Run(q, events).delivered == q.delivered && Run(q, events).stage == q.stage
    decreases events
  {
    if events != [] {
      InterruptsDeliverNothing(Step(q, events[0]), events[1..]);
    }
  }

  /** A pending character is taken, the oldest first, by so many steps of the
      reader, whatever interrupts come between them. */
  lemma {:induction false} TakesPending(q: Queue, events: seq<Event>)
    requires Sane(q) && q.pending != [] && Consumes(events) == StepsToTake(q.stage)
    ensures Run(q, events).delivered == q.delivered + [q.pending[0]] && Run(q, events).stage == Waiting
    decreases events
  {
    if events != [] {
      StepConserves(q, events[0]);
      TakesStep(q, events[0]);
      if events[0].Consume? && q.stage.Loaded? {
        InterruptsDeliverNothing(Step(q, events[0]), events[1..]);
      } else {
        TakesPending(Step(q, events[0]), events[1..]);
      }
    }
  }

  /** From its test the reader takes it with its fourth step. */
  lemma FourStepsTake(q: Queue, events: seq<Event>)
    requires Sane(q) && q.stage == Waiting && q.pending != [] && Consumes(events) == 4
    ensures Run(q, events).delivered == q.delivered + [q.pending[0]]
  {
    TakesPending(q, events);
  }

  // ---- The ring ----

  function Wrap(i: nat): nat
  {
    if i < SIZE then i else i - SIZE
  }

  function Count(start: nat, end: nat): int
  {
    if start <= end then end - start else end + SIZE - start
  }

  /** The characters between the indices, oldest first. */
  function Between(ring: seq<Byte>, start: nat, end: nat): (q: seq<Byte>)
    requires |ring| == SIZE && start < SIZE && end < SIZE
    ensures |q| == Count(start, end)
    decreases Count(start, end)
  {
    if start == end then [] else [ring[start]] + Between(ring, Wrap(start + 1), end)
  }

  /** Storing at the end index and advancing it appends, unless that would make
      the ring look empty. */
  lemma {:induction false} BetweenPut(ring: seq<Byte>, start: nat, end: nat, c: Byte)
    requires |ring| == SIZE && start < SIZE && end < SIZE && Wrap(end + 1) != start
    ensures Between(ring[end := c], start, Wrap(end + 1)) == Between(ring, start, end) + [c]
    decreases Count(start, end)
  {
    if start == end {
      assert Between(ring[end := c], Wrap(end + 1), Wrap(end + 1)) == [];
    } else {
      BetweenPut(ring, Wrap(start + 1), end, c);
      assert ring[end := c][start] == ring[start];
      var rest := Between(ring, Wrap(start + 1), end);
      assert [ring[start]] + (rest + [c]) == [ring[start]] + rest + [c];
    }
  }

  /** The consumer's program point, with the values it has read so far. */
  datatype Point = AtTest | HaveEnd(end: nat) | AtLoad | HaveChar(c: Byte)

  /** `c` is the oldest pending character, and the reader has done `done` of the four
      steps that take it. */
  predicate Approaches(q: Queue, c: Byte, done: nat)
  {
    q.pending != [] && q.pending[0] == c && done + StepsToTake(q.stage) == 4
  }

  /** How many of its steps a reader has done since its test. */
  function StepsDone(stage: Stage): nat
  {
    match stage
    case Waiting => 0
    case Sampled(_) => 1
    case Ready => 2
    case Loaded(_) => 3
  }

  lemma AllSeen(events: seq<Event>, seen: nat, used: nat)
    requires seen <= used <= |events|
    ensures used == |events| ==> events[seen..used] == events[seen..]
  {
  }

  lemma ConsumesNext(events: seq<Event>, seen: nat, used: nat)
    requires seen <= used < |events|
    ensures Consumes(events[seen..used + 1]) == Consumes(events[seen..used]) + (if events[used].Consume? then 1 else 0)
  {
    assert events[seen..used + 1] == events[seen..used] + [events[used]];
    ConsumesMore(events[seen..used], events[used]);
  }

  lemma ApproachesMore(q: Queue, c: Byte, events: seq<Event>, seen: nat, used: nat)
    requires Sane(q) && seen <= used < |events| && Approaches(q, c, Consumes(events[seen..used]))
    ensures var t, done := Step(q, events[used]), Consumes(events[seen..used + 1]);
            if events[used].Consume? && q.stage.Loaded? then q.stage.c == c && done == 4 else Approaches(t, c, done)
  {
    ConsumesNext(events, seen, used);
    TakesStep(q, events[used]);
  }

  /** A reader that has done `done` steps since its test, when `pending` were there. */
  predicate Underway(q: Queue, pending: seq<Byte>, done: nat)
  {
    StepsDone(q.stage) == done && (pending != [] ==> Approaches(q, pending[0], done))
  }

  lemma UnderwayMore(q: Queue, pending: seq<Byte>, events: seq<Event>, seen: nat, used: nat)
    requires Sane(q) && seen <= used < |events| && Underway(q, pending, Consumes(events[seen..used]))
    ensures var t, done := Step(q, events[used]), Consumes(events[seen..used + 1]);
            if events[used].Consume? && q.stage.Loaded? then pending != [] ==> q.stage.c == pending[0]
            else if events[used].Consume? && q.stage.Sampled? && t.stage == Waiting then pending == []
            else Underway(t, pending, done)
  {
    ConsumesNext(events, seen, used);
    if pending != [] {
      ApproachesMore(q, pending[0], events, seen, used);
    }
  }

  class RingBuffer {
    const buffer: array<Byte>
    var bufferStart: nat
    var bufferEnd: nat
    var point: Point
    ghost var delivered: seq<Byte>

    ghost predicate Shape()
      reads this
    {
      && buffer.Length == SIZE && bufferStart < SIZE && bufferEnd < SIZE
      && (point.HaveEnd? ==> point.end < SIZE && Count(bufferStart, point.end) <= Count(bufferStart, bufferEnd))
    }

    /** The queue this ring and its consumer stand for. */
    ghost function Abs(): Queue
      requires Shape()
      reads this, buffer
    {
      Queue(Between(buffer[..], bufferStart, bufferEnd), delivered,
            match point
            case AtTest => Waiting
            case HaveEnd(end) => Sampled(Count(bufferStart, end))
            case AtLoad => Ready
            case HaveChar(c) => Loaded(c))
    }

    ghost predicate Valid()
      reads this, buffer
    {
      Shape() && Sane(Abs())
    }

    constructor ()
      ensures Valid() && Abs() == Queue([], [], Waiting) && fresh(buffer)
    {
      buffer := new Byte[SIZE];
      bufferStart, bufferEnd, point, delivered := 0, 0, AtTest, [];
    }

    /** The interrupt handler's store: atomic, and lost only when the ring is full. */
    method BufferPut(c: Byte)
      requires Valid()
      modifies this`bufferEnd, buffer
      ensures Valid() && Abs() == Step(old(Abs()), Interrupt(c))
      ensures var full := |old(Abs()).pending| == 255;
              Abs() == if full then old(Abs()) else old(Abs()).(pending := old(Abs()).pending + [c])
    {
      ghost var q, ring := Abs(), buffer[..];
      StepConserves(q, Interrupt(c));
      var next := (bufferEnd + 1) % SIZE;
      assert next == Wrap(bufferEnd + 1);
      if next != bufferStart {
        BetweenPut(ring, bufferStart, bufferEnd, c);
        buffer[bufferEnd] := c;
        assert buffer[..] == ring[bufferEnd := c];
        bufferEnd := next;
        assert Abs().pending == q.pending + [c];
      } else {
        assert |q.pending| == SIZE - 1;
      }
    }

    /** One step of the reader: interrupts may come before and after it. */
    method ConsumerStep()
      requires Valid()
      modifies this`point, this`bufferStart, this`delivered
      ensures Valid() && Abs() == Step(old(Abs()), Consume)
    {
      ghost var q := Abs();
      StepConserves(q, Consume);
      match point {
        case AtTest =>
          point := HaveEnd(bufferEnd);
        case HaveEnd(end) =>
          point := if bufferStart != end then AtLoad else AtTest;
        case AtLoad =>
          assert q.pending[0] == buffer[bufferStart];
          point := HaveChar(buffer[bufferStart]);
        case HaveChar(c) =>
          delivered := delivered + [c];
          Advance();
          point := AtTest;
      }
      assert Abs() == Step(q, Consume);
    }

    /** The consumer's store to the start index. */
    method Advance()
      requires Shape() && bufferStart != bufferEnd && !point.HaveEnd?
      modifies this`bufferStart
      ensures Shape()
      ensures Between(buffer[..], bufferStart, bufferEnd) == Between(buffer[..], old(bufferStart), bufferEnd)[1..]
    {
      assert (bufferStart + 1) % SIZE == Wrap(bufferStart + 1);
      bufferStart := (bufferStart + 1) % SIZE;
    }

    /** The next event of a run, an interrupt or a step of the reader. */
    method Happen(ghost q: Queue, events: seq<Event>, i: nat)
      requires Valid() && i < |events| && Abs() == Run(q, events[..i])
      modifies this, buffer
      ensures Valid() && Abs() == Run(q, events[..i + 1]) && Abs() == Step(old(Abs()), events[i])
    {
      RunMore(q, events, i);
      match events[i] {
        case Interrupt(c) => BufferPut(c);
        case Consume => ConsumerStep();
      }
    }

    /** Any interleaving of the two. */
    method Interleave(events: seq<Event>)
      requires Valid()
      modifies this, buffer
      ensures Valid() && Abs() == Run(old(Abs()), events)
      ensures delivered + Abs().pending == old(delivered + Abs().pending) + Accepted(old(Abs()), events)
      ensures |Abs().pending| <= 255
    {
      RunConserves(Abs(), events);
      var i := 0;
      while i < |events|
        invariant 0 <= i <= |events| && Valid()
        invariant Abs() == Run(old(Abs()), events[..i])
      {
        Happen(old(Abs()), events, i);
        i := i + 1;
      }
      assert events[..i] == events;
    }

    /** One event of a blocking read, and the character if that was its last step. */
    method WaitOn(ghost q: Queue, ghost pending: seq<Byte>, events: seq<Event>, ghost seen: nat, used: nat)
      returns (got: bool, c: Byte)
      requires Valid() && seen <= used < |events| && Abs() == Run(q, events[..used])
      requires pending != [] ==> Approaches(Abs(), pending[0], Consumes(events[seen..used]))
      modifies this, buffer
      ensures Valid() && Abs() == Run(q, events[..used + 1])
      ensures !got ==> && delivered == old(delivered)
                       && (pending != [] ==> Approaches(Abs(), pending[0], Consumes(events[seen..used + 1])))
      ensures got ==> && point == AtTest && delivered == old(delivered) + [c]
                      && (pending != [] ==> c == pending[0] && Consumes(events[seen..used + 1]) == 4)
    {
      if pending != [] {
        ApproachesMore(Abs(), pending[0], events, seen, used);
      }
      var was := point;
      Happen(q, events, used);
      got := events[used].Consume? && was.HaveChar?;
      c := if was.HaveChar? then was.c else NUL;
    }

    /** keyboard_getchar: the reader's steps, with interrupts at any point between
        them, up to the one that takes a character; `events` may end before it.
        The ring started as `q` and has seen the first `seen` events. */
    method Getchar(ghost q: Queue, events: seq<Event>, seen: nat) returns (got: bool, c: Byte, used: nat)
      requires Valid() && point == AtTest && seen <= |events| && Abs() == Run(q, events[..seen])
      modifies this, buffer
      ensures Valid() && seen <= used <= |events| && Abs() == Run(q, events[..used])
      ensures got ==> used > seen && delivered == old(delivered) + [c] && point == AtTest
      ensures !got ==> used == |events| && delivered == old(delivered)
      // A pending character takes four steps of the reader, and these suffice.
      ensures old(Abs()).pending != [] ==>
                if got then c == old(Abs()).pending[0] && Consumes(events[seen..used]) == 4
                else Consumes(events[seen..]) < 4
    {
      got, c, used := false, NUL, seen;
      ghost var pending := Abs().pending;
      assert events[seen..seen] == [];
      while !got && used < |events|
        invariant seen <= used <= |events| && Valid() && Abs() == Run(q, events[..used])
        invariant !got ==> && delivered == old(delivered)
                           && (pending != [] ==> Approaches(Abs(), pending[0], Consumes(events[seen..used])))
        invariant got ==> && used > seen && point == AtTest && delivered == old(delivered) + [c]
                          && (pending != [] ==> c == pending[0] && Consumes(events[seen..used]) == 4)
        decreases |events| - used
      {
        got, c := WaitOn(q, pending, events, seen, used);
        used := used + 1;
      }
      AllSeen(events, seen, used);
    }

    /** One event of a non-blocking read, and the answer if that was its last step. */
    method ReadOn(ghost q: Queue, ghost pending: seq<Byte>, events: seq<Event>, ghost seen: nat, used: nat)
      returns (answered: bool, c: Byte)
      requires Valid() && seen <= used < |events| && Abs() == Run(q, events[..used])
      requires Underway(Abs(), pending, Consumes(events[seen..used]))
      modifies this, buffer
      ensures Valid() && Abs() == Run(q, events[..used + 1])
      ensures !answered ==> && delivered == old(delivered)
                            && Underway(Abs(), pending, Consumes(events[seen..used + 1]))
      ensures answered ==> && point == AtTest
                           && if delivered == old(delivered) then c == 0 && pending == []
                              else delivered == old(delivered) + [c] && (pending != [] ==> c == pending[0])
    {
      UnderwayMore(Abs(), pending, events, seen, used);
      var was := point;
      Happen(q, events, used);
      answered := events[used].Consume? && (was.HaveChar? || (was.HaveEnd? && point == AtTest));
      c := if was.HaveChar? then was.c else NUL;
    }

    /** keyboard_getchar_nonblock: one test, then a character or 0; at most four steps
        of its own. */
    method GetcharNonblock(ghost q: Queue, events: seq<Event>, seen: nat) returns (answered: bool, c: Byte, used: nat)
      requires Valid() && point == AtTest && seen <= |events| && Abs() == Run(q, events[..seen])
      modifies this, buffer
      ensures Valid() && seen <= used <= |events| && Abs() == Run(q, events[..used])
      ensures answered ==> && point == AtTest
                           && if delivered == old(delivered) then c == 0 && old(Abs()).pending == []
                              else && delivered == old(delivered) + [c]
                                   && (old(Abs()).pending != [] ==> c == old(Abs()).pending[0])
      ensures !answered ==> used == |events| && delivered == old(delivered) && Consumes(events[seen..]) < 4
    {
      answered, c, used := false, NUL, seen;
      ghost var pending := Abs().pending;
      assert events[seen..seen] == [];
      while !answered && used < |events|
        invariant seen <= used <= |events| && Valid() && Abs() == Run(q, events[..used])
        invariant !answered ==> && delivered == old(delivered)
                                && Underway(Abs(), pending, Consumes(events[seen..used]))
        invariant answered ==> && point == AtTest
                               && if delivered == old(delivered) then c == 0 && pending == []
                                  else delivered == old(delivered) + [c] && (pending != [] ==> c == pending[0])
        decreases |events| - used
      {
        answered, c := ReadOn(q, pending, events, seen, used);
        used := used + 1;
      }
      AllSeen(events, seen, used);
    }
  }

  // ---- The line reader ----

  /** Keystrokes replayed as a stack. */
  function Erased(s: seq<Byte>): seq<Byte>
  {
    if s == [] then [] else Press(Erased(s[..|s| - 1]), s[|s| - 1])
  }

  /** The line after one more keystroke. */
  function Press(line: seq<Byte>, c: Byte): seq<Byte>
  {
    if c != BACKSPACE then line + [c] else if line == [] then [] else line[..|line| - 1]
  }

  /** What is printed for the keystrokes of a line: a backspace on an empty line
      prints nothing. */
  function Echo(s: seq<Byte>): seq<Byte>
  {
    if s == [] then []
    else
      var n := |s| - 1;
      if s[n] == BACKSPACE && Erased(s[..n]) == [] then Echo(s[..n]) else Echo(s[..n]) + [s[n]]
  }

  /** No backspace in the echo goes past the start of the line. */
  predicate StaysOnLine(echo: seq<Byte>)
  {
    forall k :: 0 <= k < |echo| && echo[k] == BACKSPACE ==> Erased(echo[..k]) != []
  }

  lemma ErasedMore(s: seq<Byte>, c: Byte)
    ensures Erased(s + [c]) == Press(Erased(s), c)
    ensures Echo(s + [c]) == if c == BACKSPACE && Erased(s) == [] then Echo(s) else Echo(s) + [c]
  {
    assert (s + [c])[..|s|] == s;
  }

  lemma StaysMore(echo: seq<Byte>, c: Byte)
    requires StaysOnLine(echo) && (c == BACKSPACE ==> Erased(echo) != [])
    ensures StaysOnLine(echo + [c])
  {
    forall k | 0 <= k < |echo + [c]| && (echo + [c])[k] == BACKSPACE
      ensures Erased((echo + [c])[..k]) != []
    {
      assert (echo + [c])[..k] == echo[..k];
      assert echo[..|echo|] == echo;
    }
  }

  /** The echo replays to the same line as the keystrokes, and never backs past
      the start of the line. */
  lemma {:induction false} EchoReplays(s: seq<Byte>)
    ensures Erased(Echo(s)) == Erased(s) && StaysOnLine(Echo(s))
  {
    if s != [] {
      var n := |s| - 1;
      EchoReplays(s[..n]);
      if s[n] != BACKSPACE || Erased(s[..n]) != [] {
        ErasedMore(Echo(s[..n]), s[n]);
        StaysMore(Echo(s[..n]), s[n]);
      }
    }
  }

  lemma ErasedOnto(a: seq<Byte>, later: seq<Byte>, n: nat)
    requires |later| == n + 1
    ensures Erased(a + later) == Press(Erased(a + later[..n]), later[n])
  {
    var s := a + later;
    assert s[..|s| - 1] == a + later[..n];
  }

  /** Later keystrokes act on the line alone, however it was typed. */
  lemma {:induction false} SameLine(a: seq<Byte>, other: seq<Byte>, later: seq<Byte>)
    requires Erased(a) == Erased(other)
    ensures Erased(a + later) == Erased(other + later)
    decreases later
  {
    if later == [] {
      assert a + later == a && other + later == other;
    } else {
      var n := |later| - 1;
      SameLine(a, other, later[..n]);
      ErasedOnto(a, later, n);
      ErasedOnto(other, later, n);
    }
  }

  lemma {:induction false} NothingErased(s: seq<Byte>)
    requires 8 !in s
    ensures Erased(s) == s
  {
    if s != [] {
      var n := |s| - 1;
      assert s[n] in s && forall c :: c in s[..n] ==> c in s;
      NothingErased(s[..n]);
      assert Erased(s) == Press(s[..n], s[n]);
    }
  }

  /** Three rules that settle every line: code 8 cancels the character before it,
      does nothing at the start, and all else stays. */
  lemma ErasedRules(a: seq<Byte>, c: Byte, b: seq<Byte>)
    ensures c != 8 ==> Erased(a + [c, 8] + b) == Erased(a + b)
    ensures Erased([8] + b) == Erased(b)
    ensures 8 !in b ==> Erased(b) == b
  {
    if c != 8 {
      ErasedMore(a, c);
      ErasedMore(a + [c], 8);
      assert a + [c, 8] == a + [c] + [8];
      SameLine(a + [c, 8], a, b);
    }
    ErasedMore([], 8);
    assert [] + [8] == [8] && [] + b == b;
    SameLine([8], [], b);
    if 8 !in b {
      NothingErased(b);
    }
  }

  /** What a keystroke other than newline does to the buffer and the screen. */
  method Keystroke(buffer: array<Byte>, i: nat, c: Byte, echo: seq<Byte>) returns (len: nat, shown: seq<Byte>)
    requires i < buffer.Length
    modifies buffer
    ensures len <= i + 1 && buffer[..len] == Press(old(buffer[..i]), c)
    ensures shown == if c == BACKSPACE && i == 0 then echo else echo + [c]
    ensures forall k :: i < k < buffer.Length ==> buffer[k] == old(buffer[k])
  {
    len, shown := i, echo;
    if c == BACKSPACE {
      if i > 0 {
        len := i - 1;
        shown := echo + [c];
        assert buffer[..len] == buffer[..i][..len];
      }
    } else {
      buffer[i] := c;
      len := i + 1;
      shown := echo + [c];
      assert buffer[..len] == old(buffer[..i]) + [c];
    }
  }

  /** The keystrokes have left room for the terminator all along. */
  ghost predicate HasRoom(typed: seq<Byte>, maxLength: nat)
  {
    forall k :: 0 <= k < |typed| ==> RoomAt(typed, k, maxLength)
  }

  ghost predicate RoomAt(typed: seq<Byte>, k: nat, maxLength: nat)
    requires k <= |typed|
  {
    |Erased(typed[..k])| < maxLength - 1
  }

  lemma RoomMore(typed: seq<Byte>, c: Byte, maxLength: nat)
    requires HasRoom(typed, maxLength) && |Erased(typed)| < maxLength - 1
    ensures HasRoom(typed + [c], maxLength)
  {
    forall k | 0 <= k < |typed + [c]|
      ensures RoomAt(typed + [c], k, maxLength)
    {
      assert (typed + [c])[..k] == typed[..k];
      assert k < |typed| ==> RoomAt(typed, k, maxLength);
      assert typed[..|typed|] == typed;
    }
  }

  /** Why the line reader stopped; `Blocked` means it still waits for input. */
  datatype Outcome = ByNewline | ByLength | Blocked

  /** The newline that ends a line, if one did. */
  function Ending(outcome: Outcome): seq<Byte>
  {
    if outcome.ByNewline? then [NEWLINE] else []
  }

  /** A reader that has taken `taken` since the queue was `q` and is at its test: as
      long as it only took what was pending then, it took four steps for each. */
  ghost predicate Follows(now: Queue, q: Queue, events: seq<Event>, used: nat, taken: seq<Byte>)
  {
    && Sane(q) && used <= |events| && now == Run(q, events[..used])
    && now.delivered == q.delivered + taken && now.stage == Waiting
    && (|taken| <= |q.pending| ==> Consumes(events[..used]) == 4 * |taken|)
  }

  /** The next character for a reader of several. */
  method NextKey(ring: RingBuffer, ghost q: Queue, events: seq<Event>, seen: nat, ghost taken: seq<Byte>)
    returns (got: bool, c: Byte, used: nat)
    requires ring.Valid() && ring.point == AtTest && Follows(ring.Abs(), q, events, seen, taken)
    modifies ring, ring.buffer
    ensures ring.Valid() && used <= |events|
    ensures got ==> ring.point == AtTest && used > seen && Follows(ring.Abs(), q, events, used, taken + [c])
    ensures !got ==> && used == |events| && ring.Abs() == Run(q, events[..used])
                     && ring.delivered == q.delivered + taken
                     && (|taken| < |q.pending| ==> Consumes(events) < 4 * (|taken| + 1))
  {
    Taken(q, events[..seen], taken);
    got, c, used := ring.Getchar(q, events, seen);
    ConsumesOn(events[..seen], events[seen..]);
    assert events[..seen] + events[seen..] == events;
    ConsumesOn(events[..seen], events[seen..used]);
    assert events[..seen] + events[seen..used] == events[..used];
    assert q.delivered + (taken + [c]) == q.delivered + taken + [c];
  }

  /** Reads a line from the ring while the keyboard may interrupt between any two
      of its steps. `typed` are the keystrokes it took, without the newline that
      ended the line; `echo` is what it prints. */
  method Readline(buffer: array<Byte>, maxLength: nat, ring: RingBuffer, events: seq<Event>)
    returns (len: nat, outcome: Outcome, echo: seq<Byte>, used: nat, ghost typed: seq<Byte>)
    requires 1 <= maxLength <= buffer.Length && ring.Valid() && ring.point == AtTest && buffer != ring.buffer
    modifies buffer, ring, ring.buffer
    ensures ring.Valid() && used <= |events| && ring.Abs() == Run(old(ring.Abs()), events[..used])
    // What it took and what is pending are what was pending and has been accepted.
    ensures typed + Ending(outcome) + ring.Abs().pending ==
            old(ring.Abs().pending) + Accepted(old(ring.Abs()), events[..used])
    ensures NEWLINE !in typed && HasRoom(typed, maxLength) && echo == Echo(typed) + Ending(outcome)
    ensures len < maxLength && buffer[..len] == Erased(typed) && buffer[len] == NUL
    ensures outcome.ByLength? <==> len == maxLength - 1
    ensures if outcome.Blocked? then used == |events| else ring.point == AtTest
    // It waits in vain only when the pending characters are used up, or its steps.
    ensures outcome.Blocked? ==> |typed| >= |old(ring.Abs().pending)| || Consumes(events) < 4 * (|typed| + 1)
    ensures forall k :: maxLength <= k < buffer.Length ==> buffer[k] == old(buffer[k])
  {
    ghost var q := ring.Abs();
    var i := 0;
    outcome, echo, used, typed := ByLength, [], 0, [];
    while i < maxLength - 1
      invariant 0 <= i <= maxLength - 1 && outcome == ByLength
      invariant ring.Valid() && ring.point == AtTest && used <= |events| && Follows(ring.Abs(), q, events, used, typed)
      invariant NEWLINE !in typed && HasRoom(typed, maxLength)
      invariant buffer[..i] == Erased(typed) && echo == Echo(typed)
      invariant forall k :: maxLength <= k < buffer.Length ==> buffer[k] == old(buffer[k])
      decreases |events| - used
    {
      var got, c;
      got, c, used := NextKey(ring, q, events, used, typed);
      if !got {
        outcome := Blocked;
        break;
      }
      if c == NEWLINE {
        outcome := ByNewline;
        echo := echo + [NEWLINE];
        break;
      }
      i, echo := Keystroke(buffer, i, c, echo);
      ErasedMore(typed, c);
      RoomMore(typed, c, maxLength);
      typed := typed + [c];
    }
    buffer[i] := NUL;
    len := i;
    Taken(q, events[..used], typed + Ending(outcome));
  }

  /** What a reader took is a prefix of what was pending and has been accepted. */
  lemma Taken(q: Queue, events: seq<Event>, taken: seq<Byte>)
    requires Sane(q) && Run(q, events).delivered == q.delivered + taken
    ensures taken + Run(q, events).pending == q.pending + Accepted(q, events)
  {
    RunConserves(q, events);
    var left, all := Run(q, events).pending, q.pending + Accepted(q, events);
    assert q.delivered + taken + left == q.delivered + (taken + left);
    assert q.delivered + q.pending + Accepted(q, events) == q.delivered + all;
    assert (q.delivered + (taken + left))[|q.delivered|..] == (q.delivered + all)[|q.delivered|..];
  }
}
