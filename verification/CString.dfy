/** C strings in byte buffers, and the routines of the string library that the
    file system, the editor and the shell rest on. */
module CString {
  type Byte = x: int | 0 <= x < 256

  const NUL: Byte := 0
  const BACKSPACE: Byte := 8
  const TAB: Byte := 9
  const NEWLINE: Byte := 10
  const RETURN: Byte := 13
  const SPACE: Byte := 32

  /** Machine words have 32 bits. */
  const WORD := 0x1_0000_0000

  /** The buffer `a` holds, from offset `off`, the characters of `x` and then a NUL. */
  ghost predicate Holds(a: array<Byte>, off: int, x: seq<Byte>)
    reads a
  {
    && 0 <= off && off + |x| < a.Length
    && (forall k :: 0 <= k < |x| ==> a[off + k] == x[k] && x[k] != NUL)
    && a[off + |x|] == NUL
  }

  lemma HoldsAt(a: array<Byte>, off: int, x: seq<Byte>, k: nat)
    requires Holds(a, off, x) && k <= |x|
    ensures a[off + k] == NUL <==> k == |x|
  {
    if k < |x| {
      assert x[k] != NUL;
    }
  }

  /** A suffix of a held string is held at the later offset. */
  lemma HoldsSuffix(a: array<Byte>, off: int, x: seq<Byte>, k: nat)
    requires Holds(a, off, x) && k <= |x|
    ensures Holds(a, off + k, x[k..])
  {
    forall j | 0 <= j < |x[k..]|
      ensures a[off + k + j] == x[k..][j] && x[k..][j] != NUL
    {
      assert x[k..][j] == x[k + j];
    }
  }

  /** A string's characters, its terminator included. */
  function CharacterAt(x: seq<Byte>, k: int): Byte
    requires 0 <= k <= |x|
  {
    if k < |x| then x[k] else NUL
  }

  lemma HeldCharacters(a: array<Byte>, off: int, x: seq<Byte>)
    requires Holds(a, off, x)
    ensures forall k :: off <= k <= off + |x| ==> a[k] == CharacterAt(x, k - off)
    ensures forall k :: 0 <= k < |x| ==> x[k] != NUL
  {
    forall k | off <= k <= off + |x|
      ensures a[k] == CharacterAt(x, k - off)
    {
      if k < off + |x| {
        assert a[off + (k - off)] == x[k - off];
      }
    }
  }

  /** A step along a held string. */
  lemma HeldNext(a: array<Byte>, off: int, x: seq<Byte>, i: nat)
    requires i <= |x| && Holds(a, off + i, x[i..]) && a[off + i] != NUL
    ensures i < |x| && a[off + i] == x[i] && Holds(a, off + i + 1, x[i + 1..])
  {
    HoldsAt(a, off + i, x[i..], 0);
    HoldsSuffix(a, off + i, x[i..], 1);
    assert x[i..][1..] == x[i + 1..];
    assert a[off + i + 0] == x[i..][0];
  }

  /** The characters before the first NUL. */
  function UpToNul(s: seq<Byte>): seq<Byte>
  {
    if s == [] || s[0] == NUL then [] else [s[0]] + UpToNul(s[1..])
  }

  lemma {:induction false} UpToNulPrefix(s: seq<Byte>)
    ensures var x := UpToNul(s);
            x <= s && NUL !in x && (|x| < |s| ==> s[|x|] == NUL)
    ensures NUL !in s ==> UpToNul(s) == s
  {
    if s != [] && s[0] != NUL {
      UpToNulPrefix(s[1..]);
      assert s == [s[0]] + s[1..];
    }
  }

  lemma {:induction false} UpToNulWithin(s: seq<Byte>, rest: seq<Byte>)
    requires rest == [] || rest[0] == NUL
    ensures UpToNul(s + rest) == UpToNul(s)
  {
    if s == [] {
      assert s + rest == rest;
    } else if s[0] != NUL {
      assert (s + rest)[1..] == s[1..] + rest;
      UpToNulWithin(s[1..], rest);
    }
  }

  /** The string a buffer holds is determined by its bytes: those from the
      offset up to the first NUL, provided there is one. */
  lemma HoldsIff(a: array<Byte>, off: nat, x: seq<Byte>)
    requires off <= a.Length
    ensures Holds(a, off, x) <==> x == UpToNul(a[off..]) && NUL in a[off..]
  {
    var s := a[off..];
    UpToNulPrefix(s);
    if Holds(a, off, x) {
      assert s[|x|] == NUL;
      assert s[..|x|] == x && s == s[..|x|] + s[|x|..];
      UpToNulWithin(x, s[|x|..]);
      UpToNulPrefix(x);
    }
    var y := UpToNul(s);
    if NUL in s {
      assert |y| < |s| && s[|y|] == NUL;
      forall k | 0 <= k < |y|
        ensures a[off + k] == y[k] && y[k] != NUL
      {
        assert s[k] == y[k];
      }
    }
  }

  /** Bytes followed by a NUL hold the string of their characters up to the
      first NUL. */
  lemma HoldsUpToNul(a: array<Byte>, off: nat, s: seq<Byte>)
    requires off + |s| < a.Length && a[off..off + |s|] == s && a[off + |s|] == NUL
    ensures Holds(a, off, UpToNul(s))
  {
    var rest := a[off + |s|..];
    assert a[off..] == s + rest;
    UpToNulWithin(s, rest);
    HoldsIff(a, off, UpToNul(s));
  }

  method Strlen(a: array<Byte>, off: nat, ghost x: seq<Byte>) returns (len: nat)
    requires Holds(a, off, x)
    ensures len == |x|
    ensures off + len < a.Length && a[off + len] == 0 && 0 !in a[off..off + len]
  {
    len := 0;
    while a[off + len] != NUL
      invariant len <= |x|
      decreases |x| - len
    {
      assert len < |x|;
      len := len + 1;
    }
    HoldsAt(a, off, x, len);
    assert a[off..off + len] == x;
  }

  /** The difference of the first characters at which two strings part, a
      string's end counting as NUL. */
  function LexDiff(x: seq<Byte>, y: seq<Byte>): int
  {
    if x == [] then (if y == [] then 0 else -(y[0] as int))
    else if y == [] then x[0]
    else if x[0] == y[0] then LexDiff(x[1..], y[1..])
    else x[0] as int - y[0] as int
  }

  lemma {:induction false} LexDiffZero(x: seq<Byte>, y: seq<Byte>)
    requires NUL !in x && NUL !in y
    ensures LexDiff(x, y) == 0 <==> x == y
  {
    if x != [] && y != [] && x[0] == y[0] {
      LexDiffZero(x[1..], y[1..]);
      assert x == [x[0]] + x[1..] && y == [y[0]] + y[1..];
    }
  }

  /** Two strings agree up to `i` and part there, or both end. */
  predicate PartAt(x: seq<Byte>, y: seq<Byte>, i: int)
  {
    && 0 <= i <= |x| && i <= |y| && x[..i] == y[..i]
    && if i < |x| && i < |y| then x[i] != y[i] else true
  }

  lemma {:induction false} LexDiffAt(x: seq<Byte>, y: seq<Byte>) returns (i: int)
    ensures PartAt(x, y, i) && LexDiff(x, y) == CharacterAt(x, i) as int - CharacterAt(y, i) as int
  {
    i := 0;
    if x != [] && y != [] && x[0] == y[0] {
      var j := LexDiffAt(x[1..], y[1..]);
      i := j + 1;
      assert x[..i] == [x[0]] + x[1..][..j] && y[..i] == [y[0]] + y[1..][..j];
    }
  }

  method Strcmp(a: array<Byte>, off1: nat, ghost x: seq<Byte>, b: array<Byte>, off2: nat, ghost y: seq<Byte>)
    returns (r: int)
    requires Holds(a, off1, x) && Holds(b, off2, y)
    ensures r == LexDiff(x, y)
    ensures r == 0 <==> x == y
    ensures exists i :: PartAt(x, y, i) && r == CharacterAt(x, i) as int - CharacterAt(y, i) as int
  {
    var i := 0;
    while a[off1 + i] != NUL && a[off1 + i] == b[off2 + i]
      invariant i <= |x| && i <= |y|
      invariant LexDiff(x, y) == LexDiff(x[i..], y[i..])
      decreases |x| - i
    {
      assert i < |x| && a[off1 + i] == x[i];
      assert i < |y| && b[off2 + i] == y[i];
      assert x[i..][1..] == x[i + 1..] && y[i..][1..] == y[i + 1..];
      i := i + 1;
    }
    assert i < |x| ==> a[off1 + i] == x[i];
    assert i < |y| ==> b[off2 + i] == y[i];
    r := a[off1 + i] as int - b[off2 + i] as int;
    LexDiffZero(x, y);
    ghost var _ := LexDiffAt(x, y);
  }

  /** Source and destination may share a buffer when the copy does not run into
      its own source: the destination lies lower, or beyond the source's NUL. */
  method Strcpy(dst: array<Byte>, d: nat, src: array<Byte>, s: nat, ghost x: seq<Byte>)
    requires Holds(src, s, x) && d + |x| < dst.Length
    requires dst == src ==> d <= s || s + |x| < d
    modifies dst
    ensures Holds(dst, d, x)
    ensures forall k :: 0 <= k < dst.Length && !(d <= k <= d + |x|) ==> dst[k] == old(dst[k])
  {
    assert x[0..] == x;
    var i := 0;
    while src[s + i] != NUL
      invariant 0 <= i <= |x|
      invariant forall k :: 0 <= k < i ==> dst[d + k] == x[k]
      invariant forall k :: 0 <= k < dst.Length && !(d <= k < d + i) ==> dst[k] == old(dst[k])
      invariant Holds(src, s + i, x[i..])
      decreases |x| - i
    {
      HeldNext(src, s, x, i);
      dst[d + i] := src[s + i];
      i := i + 1;
    }
    HoldsAt(src, s + i, x[i..], 0);
    dst[d + i] := NUL;
  }

  /** Copies at most `n` characters. A source shorter than `n` makes the
      routine write one byte more than `n`; a source at least that long leaves
      no terminator. */
  method Strncpy(dst: array<Byte>, d: nat, src: array<Byte>, s: nat, n: nat, ghost x: seq<Byte>)
    requires Holds(src, s, x) && d + n + (if |x| < n then 1 else 0) <= dst.Length
    requires dst == src ==> d <= s || s + |x| < d || s + n <= d
    modifies dst
    ensures forall k :: 0 <= k < n && k < |x| ==> dst[d + k] == x[k]
    ensures |x| < n ==> forall j :: d + |x| <= j <= d + n ==> dst[j] == NUL
    ensures forall k :: 0 <= k < dst.Length && !(d <= k < d + n + (if |x| < n then 1 else 0)) ==> dst[k] == old(dst[k])
  {
    HeldCharacters(src, s, x);
    var rest, i := n, 0;
    while rest != 0 && src[s + i] != NUL
      invariant 0 <= i <= |x| && rest == n - i
      invariant forall k :: 0 <= k < i ==> dst[d + k] == x[k]
      invariant forall k :: 0 <= k < dst.Length && !(d <= k < d + i) ==> dst[k] == old(dst[k])
      invariant forall k :: s + i <= k <= s + |x| && k < s + n ==> src[k] == CharacterAt(x, k - s)
      decreases rest
    {
      assert src[s + i] == CharacterAt(x, i);
      dst[d + i] := src[s + i];
      i := i + 1;
      rest := rest - 1;
    }
    if rest != 0 {
      assert src[s + i] == CharacterAt(x, i);
      dst[d + i] := NUL;
      FillNul(dst, d + i + 1, rest);
    }
  }

  /** The padding loop of strncpy: one NUL for every character left to copy. */
  method FillNul(dst: array<Byte>, from: nat, rest: nat)
    requires from + rest <= dst.Length
    modifies dst
    ensures forall j :: from <= j < from + rest ==> dst[j] == NUL
    ensures forall k :: 0 <= k < dst.Length && !(from <= k < from + rest) ==> dst[k] == old(dst[k])
  {
    var left, i := rest, from;
    while left != 0
      invariant 0 <= left <= rest && i == from + (rest - left)
      invariant forall j :: from <= j < i ==> dst[j] == NUL
      invariant forall k :: 0 <= k < dst.Length && !(from <= k < i) ==> dst[k] == old(dst[k])
      decreases left
    {
      left := left - 1;
      dst[i] := NUL;
      i := i + 1;
    }
  }

  /** In one buffer, the appended string must not be a tail of the other. */
  method Strcat(dst: array<Byte>, d: nat, ghost y: seq<Byte>, src: array<Byte>, s: nat, ghost x: seq<Byte>)
    requires Holds(dst, d, y) && Holds(src, s, x)
    requires d + |y| + |x| < dst.Length
    requires dst == src ==> d + |y| <= s || s + |x| < d + |y|
    modifies dst
    ensures Holds(dst, d, y + x)
    ensures forall k :: 0 <= k < dst.Length && !(d + |y| <= k <= d + |y| + |x|) ==> dst[k] == old(dst[k])
  {
    var len := Strlen(dst, d, y);
    Strcpy(dst, d + len, src, s, x);
    forall k | 0 <= k < |y + x|
      ensures dst[d + k] == (y + x)[k] && (y + x)[k] != NUL
    {
      if k < |y| {
        assert dst[d + k] == old(dst[d + k]) == y[k];
      } else {
        assert dst[d + len + (k - |y|)] == x[k - |y|];
      }
    }
  }
}
