/** Texts as newline-terminated lines, shared by the editor and the file lister. */
module Text {
  import opened CString

  lemma Assoc<T>(a: seq<T>, b: seq<T>, c: seq<T>)
    ensures a + (b + c) == a + b + c
  {
  }

  lemma {:induction false} FirstNewline(t: seq<Byte>, n: nat)
    requires n <= |t| && NEWLINE !in t[..n] && NEWLINE in t[n..]
    ensures exists k :: n <= k < |t| && t[k] == NEWLINE && NEWLINE !in t[..k]
    decreases |t| - n
  {
    if t[n] != NEWLINE {
      assert t[..n + 1] == t[..n] + [t[n]];
      assert t[n..] == [t[n]] + t[n + 1..];
      FirstNewline(t, n + 1);
    }
  }

  /** The index of the first newline, or the length when there is none. */
  ghost function LineEnd(t: seq<Byte>): (n: nat)
    ensures n <= |t|
    ensures n < |t| ==> t[n] == NEWLINE
    ensures NEWLINE !in t[..n]
  {
    assert t[..|t|] == t && t[0..] == t;
    if NEWLINE in t then
      FirstNewline(t, 0);
      var n: nat :| n < |t| && t[n] == NEWLINE && NEWLINE !in t[..n];
      n
    else |t|
  }

  /** What is left after the first line and its newline. */
  ghost function AfterLine(t: seq<Byte>): (rest: seq<Byte>)
    ensures t != [] ==> |rest| < |t|
  {
    if LineEnd(t) < |t| then t[LineEnd(t) + 1..] else []
  }

  /** The lines of a text; a final newline opens no further line. */
  ghost function Lines(t: seq<Byte>): seq<seq<Byte>>
    decreases |t|
  {
    if t == [] then [] else [t[..LineEnd(t)]] + Lines(AfterLine(t))
  }

  /** Every line followed by a newline. */
  function Join(ls: seq<seq<Byte>>): seq<Byte>
  {
    if ls == [] then [] else ls[0] + [NEWLINE] + Join(ls[1..])
  }

  lemma LineEndIs(t: seq<Byte>, n: nat)
    requires n <= |t| && NEWLINE !in t[..n] && (n < |t| ==> t[n] == NEWLINE)
    ensures LineEnd(t) == n
  {
    var m := LineEnd(t);
    forall k | 0 <= k < |t|
      ensures k < n || k < m ==> t[k] != NEWLINE
    {
      assert k < n ==> t[..n][k] == t[k];
      assert k < m ==> t[..m][k] == t[k];
    }
  }

  lemma {:induction false} JoinConcat(a: seq<seq<Byte>>, b: seq<seq<Byte>>)
    ensures Join(a + b) == Join(a) + Join(b)
  {
    if a == [] {
      assert a + b == b;
    } else {
      JoinConcat(a[1..], b);
      assert (a + b)[1..] == a[1..] + b;
      var line := a[0] + [NEWLINE];
      assert line + (Join(a[1..]) + Join(b)) == line + Join(a[1..]) + Join(b);
    }
  }

  /** Each line adds its characters and a newline, code 10. */
  lemma JoinLast(a: seq<seq<Byte>>, l: seq<Byte>)
    ensures Join(a + [l]) == Join(a) + l + [10] && Join([]) == []
  {
    JoinConcat(a, [l]);
    assert Join([l]) == l + [NEWLINE] + Join([]);
  }

  /** Lines without newlines are found again in their joined text. */
  lemma {:induction false} LinesOfJoin(ls: seq<seq<Byte>>)
    requires forall l :: l in ls ==> NEWLINE !in l
    ensures Lines(Join(ls)) == ls
  {
    if ls != [] {
      var t := Join(ls);
      assert t[..|ls[0]|] == ls[0];
      LineEndIs(t, |ls[0]|);
      assert AfterLine(t) == Join(ls[1..]);
      LinesOfJoin(ls[1..]);
    }
  }

  lemma {:induction false} LinesHaveNoNewline(t: seq<Byte>)
    ensures forall l :: l in Lines(t) ==> NEWLINE !in l
    decreases |t|
  {
    if t != [] {
      var line, rest := t[..LineEnd(t)], AfterLine(t);
      LinesHaveNoNewline(rest);
      assert Lines(t) == [line] + Lines(rest);
    }
  }

  /** Scanning joined lines finds them again exactly when none holds a newline. */
  lemma LinesRecovered(ls: seq<seq<Byte>>)
    ensures Lines(Join(ls)) == ls <==> forall l :: l in ls ==> NEWLINE !in l
  {
    LinesHaveNoNewline(Join(ls));
    if forall l :: l in ls ==> NEWLINE !in l {
      LinesOfJoin(ls);
    }
  }

  /** A line with a newline in it is found as two. */
  lemma NewlineSplits()
    ensures Lines(Join([[97, NEWLINE, 98]])) == [[97], [98]]
  {
    LinesOfJoin([[97], [98]]);
    assert Join([[97, NEWLINE, 98]]) == [97, NEWLINE, 98, NEWLINE] == Join([[97], [98]]);
  }

  /** A text with its last line terminated. */
  function Ended(t: seq<Byte>): seq<Byte>
  {
    if t == [] || t[|t| - 1] == NEWLINE then t else t + [NEWLINE]
  }

  lemma EndedCons(head: seq<Byte>, rest: seq<Byte>)
    requires head != [] && head[|head| - 1] == NEWLINE
    ensures Ended(head + rest) == head + Ended(rest)
  {
    if rest == [] {
      assert head + rest == head;
    } else {
      assert (head + rest)[|head + rest| - 1] == rest[|rest| - 1];
      assert (head + rest) + [NEWLINE] == head + (rest + [NEWLINE]);
    }
  }

  lemma CutAt(t: seq<Byte>, n: nat)
    requires n < |t|
    ensures t == t[..n] + [t[n]] + t[n + 1..]
  {
  }

  /** Joining the lines of a text gives it back, with its last line terminated. */
  lemma {:induction false} JoinOfLines(t: seq<Byte>)
    ensures Join(Lines(t)) == Ended(t)
    decreases |t|
  {
    if t != [] {
      var line, rest := t[..LineEnd(t)], AfterLine(t);
      JoinOfLines(rest);
      assert Lines(t)[1..] == Lines(rest);
      if LineEnd(t) < |t| {
        CutAt(t, LineEnd(t));
        EndedCons(line + [NEWLINE], rest);
      } else {
        assert line == t && t[|t| - 1] in t;
      }
    }
  }

  // ---- Cutting a text up from its front ----

  /** At most `n` pieces of a text: the first, then those of what is left. */
  ghost function Pieces<T>(first: seq<Byte> -> T, left: seq<Byte> -> seq<Byte>, t: seq<Byte>, n: nat): seq<T>
    decreases n
  {
    if t == [] || n == 0 then [] else [first(t)] + Pieces(first, left, left(t), n - 1)
  }

  /** What is left is a shorter tail. */
  ghost predicate Cuts(left: seq<Byte> -> seq<Byte>)
  {
    forall t :: t != [] ==> |left(t)| < |t| && left(t) == t[|t| - |left(t)|..]
  }

  /** A piece of `t` starts at `p`, and the next one at `next`. */
  ghost predicate Follows<T>(
      first: seq<Byte> -> T, left: seq<Byte> -> seq<Byte>, t: seq<Byte>, p: nat, next: nat, piece: T)
  {
    p < |t| && next <= |t| && piece == first(t[p..]) && t[next..] == left(t[p..])
  }

  ghost predicate FollowsAt<T>(
      first: seq<Byte> -> T, left: seq<Byte> -> seq<Byte>, t: seq<Byte>, starts: seq<nat>, pieces: seq<T>, i: nat)
    requires i < |pieces| && |starts| == |pieces| + 1
  {
    Follows(first, left, t, starts[i], starts[i + 1], pieces[i])
  }

  /** At most `n` pieces that start where the indices say, from `p` on, the last
      index being where they end: all there are, unless there are `n`. */
  ghost predicate PiecesAt<T>(
      first: seq<Byte> -> T, left: seq<Byte> -> seq<Byte>,
      t: seq<Byte>, p: nat, n: nat, pieces: seq<T>, starts: seq<nat>)
  {
    && |starts| == |pieces| + 1 && starts[0] == p && starts[|pieces|] <= |t| && |pieces| <= n
    && (forall i :: 0 <= i < |pieces| ==> FollowsAt(first, left, t, starts, pieces, i))
    && (|pieces| == n || starts[|pieces|] == |t|)
  }

  lemma PiecesMore<T>(
      first: seq<Byte> -> T, left: seq<Byte> -> seq<Byte>,
      t: seq<Byte>, p: nat, n: nat, pieces: seq<T>, starts: seq<nat>)
    requires n > 0 && p < |t| && starts != [] && Follows(first, left, t, p, starts[0], first(t[p..]))
    requires PiecesAt(first, left, t, starts[0], n - 1, pieces, starts)
    ensures PiecesAt(first, left, t, p, n, [first(t[p..])] + pieces, [p] + starts)
  {
    var pieces', starts' := [first(t[p..])] + pieces, [p] + starts;
    forall i | 0 <= i < |pieces'|
      ensures FollowsAt(first, left, t, starts', pieces', i)
    {
      assert i > 0 ==> FollowsAt(first, left, t, starts, pieces, i - 1);
    }
  }

  /** Where the pieces start. */
  lemma {:induction false} PiecesStart<T>(
      first: seq<Byte> -> T, left: seq<Byte> -> seq<Byte>, t: seq<Byte>, p: nat, n: nat) returns (starts: seq<nat>)
    requires Cuts(left) && p <= |t|
    ensures PiecesAt(first, left, t, p, n, Pieces(first, left, t[p..], n), starts)
    decreases n
  {
    if p == |t| || n == 0 {
      starts := [p];
    } else {
      var next := |t| - |left(t[p..])|;
      assert t[next..] == left(t[p..]);
      var rest := PiecesStart(first, left, t, next, n - 1);
      PiecesMore(first, left, t, p, n, Pieces(first, left, t[next..], n - 1), rest);
      starts := [p] + rest;
    }
  }

  /** Only the last index can be the end of the text. */
  lemma AllVisited<T>(
      first: seq<Byte> -> T, left: seq<Byte> -> seq<Byte>,
      t: seq<Byte>, n: nat, pieces: seq<T>, starts: seq<nat>, i: nat)
    requires PiecesAt(first, left, t, 0, n, pieces, starts) && i <= |pieces|
    ensures starts[i] == |t| ==> i == |pieces|
    ensures i < |pieces| ==> starts[i + 1] <= |t|
  {
    if i < |pieces| {
      assert FollowsAt(first, left, t, starts, pieces, i);
    }
  }

  lemma LinesCut()
    ensures Cuts(AfterLine)
  {
    forall t: seq<Byte> | t != []
      ensures |AfterLine(t)| < |t| && AfterLine(t) == t[|t| - |AfterLine(t)|..]
    {
    }
  }

  /** Scan the string held at `off` from its index `start` to the end of a line. */
  method FindLineEnd(a: array<Byte>, off: nat, start: nat, ghost t: seq<Byte>) returns (end: nat)
    requires Holds(a, off, t) && start <= |t|
    ensures end == start + LineEnd(t[start..])
  {
    end := start;
    while a[off + end] != NUL && a[off + end] != NEWLINE
      invariant start <= end <= |t| && NEWLINE !in t[start..][..end - start]
      decreases |t| - end
    {
      HoldsAt(a, off, t, end);
      assert t[start..][..end + 1 - start] == t[start..][..end - start] + [t[end]];
      end := end + 1;
    }
    HoldsAt(a, off, t, end);
    assert end < |t| ==> a[off + end] == t[end] == t[start..][end - start];
    LineEndIs(t[start..], end - start);
  }
}
