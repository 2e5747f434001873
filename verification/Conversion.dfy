/** Printing an integer in a base and reading a decimal back. */
module Conversion {
  import opened CString

  const INT_MAX := 0x7FFF_FFFF
  const MINUS: Byte := 45
  const PLUS: Byte := 43

  /** The character of a digit: 0 to 9, then a to z. */
  function DigitChar(d: int): Byte
    requires 0 <= d < 36
  {
    if d < 10 then 48 + d else 97 + (d - 10)
  }

  /** The digit a character stands for, or -1. */
  function DigitOf(c: Byte): int
  {
    if 48 <= c <= 57 then c as int - 48 else if 97 <= c <= 122 then c as int - 87 else -1
  }

  /** The digits in order: 0 to 9, then a to z, and no character stands for two. */
  lemma DigitNames(d: int, c: Byte)
    requires 0 <= d < 36
    ensures DigitChar(d) == "0123456789abcdefghijklmnopqrstuvwxyz"[d] as int
    ensures DigitOf(c) == d <==> c == DigitChar(d)
  {
  }

  /** Digits of a base, nothing else. */
  predicate AreDigits(s: seq<Byte>, base: int)
  {
    forall i :: 0 <= i < |s| ==> 0 <= DigitOf(s[i]) < base
  }

  /** The number a digit string denotes, most significant digit first. */
  function Value(s: seq<Byte>, base: int): int
  {
    if s == [] then 0 else Value(s[..|s| - 1], base) * base + DigitOf(s[|s| - 1])
  }

  /** Quotient and remainder by repeated subtraction. */
  function Quot(u: nat, base: int): (q: nat)
    requires base > 0
    ensures u >= base ==> q > 0
    ensures base > 1 && u > 0 ==> q < u
  {
    if u < base then 0 else 1 + Quot(u - base, base)
  }

  function Rem(u: nat, base: int): (d: nat)
    requires base > 0
    ensures d < base
  {
    if u < base then u else Rem(u - base, base)
  }

  /** The digits of a number, most significant first. */
  function Digits(u: nat, base: int): seq<Byte>
    requires 2 <= base <= 36
    decreases u
  {
    if u < base then [DigitChar(u)] else Digits(Quot(u, base), base) + [DigitChar(Rem(u, base))]
  }

  /** The one digit string without a leading zero that denotes `u`. */
  predicate Canonical(s: seq<Byte>, u: nat, base: int)
  {
    && s != [] && AreDigits(s, base) && Value(s, base) == u
    && (DigitOf(s[0]) == 0 ==> |s| == 1)
  }

  lemma {:induction false} QuotRem(u: nat, base: int)
    requires base > 0
    ensures Quot(u, base) * base + Rem(u, base) == u
  {
    if u >= base {
      QuotRem(u - base, base);
      var q := Quot(u - base, base);
      assert (1 + q) * base == base + q * base;
    }
  }

  lemma {:induction false} QuotRemOf(q: nat, d: nat, base: int)
    requires d < base && q * base + d >= 0
    ensures Quot(q * base + d, base) == q && Rem(q * base + d, base) == d
    decreases q
  {
    if q > 0 {
      assert q * base == base + (q - 1) * base && (q - 1) * base >= 0;
      QuotRemOf(q - 1, d, base);
      assert q * base + d - base == (q - 1) * base + d;
    }
  }

  /** The machine's division agrees. */
  lemma MachineDivision(u: nat, base: int)
    requires base > 0
    ensures u / base == Quot(u, base) && u % base == Rem(u, base)
  {
    assert u == u / base * base + u % base;
    assert u / base >= 0;
    QuotRemOf(u / base, u % base, base);
  }

  lemma {:induction false} ValueNonNegative(s: seq<Byte>, base: int)
    requires AreDigits(s, base) && base > 0
    ensures Value(s, base) >= 0
    ensures s != [] && DigitOf(s[0]) > 0 ==> Value(s, base) > 0
  {
    if s != [] {
      ValueNonNegative(s[..|s| - 1], base);
      var v := Value(s[..|s| - 1], base);
      assert v >= 0 ==> v * base >= 0;
      assert v > 0 ==> v * base > 0;
    }
  }

  lemma {:induction false} DigitsCanonical(u: nat, base: int)
    requires 2 <= base <= 36
    ensures Canonical(Digits(u, base), u, base)
    ensures u > 0 ==> DigitOf(Digits(u, base)[0]) > 0
    decreases u
  {
    if u >= base {
      DigitsCanonical(Quot(u, base), base);
      var front := Digits(Quot(u, base), base);
      assert Digits(u, base)[..|Digits(u, base)| - 1] == front;
      QuotRem(u, base);
    } else {
      assert [DigitChar(u)][..0] == [];
    }
  }

  /** Digits without a leading zero are determined by their value. */
  lemma {:induction false} CanonicalUnique(s: seq<Byte>, u: nat, base: int)
    requires 2 <= base <= 36 && Canonical(s, u, base)
    ensures s == Digits(u, base)
    decreases |s|
  {
    var n := |s| - 1;
    var front, d := s[..n], DigitOf(s[n]);
    ValueNonNegative(front, base);
    QuotRemOf(Value(front, base), d, base);
    if n == 0 {
      assert front == [];
      assert s == [DigitChar(u)];
    } else {
      assert front[0] == s[0];
      var v := Value(front, base);
      assert v > 0 ==> v * base >= base;
      CanonicalUnique(front, v, base);
      assert s == front + [DigitChar(d)];
    }
  }

  // ---- The string of an integer ----

  /** The unsigned number whose digits are printed. */
  function Magnitude(value: int, base: int): nat
    requires -INT_MAX - 1 <= value <= INT_MAX
  {
    if value < 0 && base == 10 then -value else if value < 0 then value + WORD else value
  }

  function Printed(value: int, base: int): seq<Byte>
    requires -INT_MAX - 1 <= value <= INT_MAX && 2 <= base <= 36
  {
    (if value < 0 && base == 10 then [MINUS] else []) + Digits(Magnitude(value, base), base)
  }

  /** What is printed denotes the value: after a minus sign in base 10, and modulo
      2^32 in other bases. */
  lemma PrintedDenotes(value: int, base: int)
    requires -INT_MAX - 1 <= value <= INT_MAX && 2 <= base <= 36
    ensures var s := Printed(value, base);
            && (value >= 0 ==> Canonical(s, value, base))
            && (value < 0 && base == 10 ==> s != [] && s[0] == 45 && Canonical(s[1..], -value, 10))
            && (value < 0 && base != 10 ==> Canonical(s, value + 0x1_0000_0000, base))
  {
    DigitsCanonical(Magnitude(value, base), base);
    var ds := Digits(Magnitude(value, base), base);
    assert [] + ds == ds && ([MINUS] + ds)[1..] == ds;
  }

  function Reversed(s: seq<Byte>): (r: seq<Byte>)
    ensures |r| == |s|
  {
    seq(|s|, k requires 0 <= k < |s| => s[|s| - 1 - k])
  }

  /** Swap the ends inwards until they meet. */
  method ReverseInPlace(a: array<Byte>, from: nat, to: nat)
    requires from <= to <= a.Length
    modifies a
    ensures a[from..to] == Reversed(old(a[from..to]))
    ensures forall k :: 0 <= k < a.Length && !(from <= k < to) ==> a[k] == old(a[k])
  {
    var p1, p2 := from, to - 1;
    while p1 < p2
      invariant from <= p1 && p2 < to && p1 - from == to - 1 - p2 && p1 <= p2 + 1
      invariant forall k :: from <= k < p1 || p2 < k < to ==> a[k] == old(a[from + to - 1 - k])
      invariant forall k :: p1 <= k <= p2 ==> a[k] == old(a[k])
      invariant forall k :: 0 <= k < a.Length && !(from <= k < to) ==> a[k] == old(a[k])
    {
      var tmp := a[p1];
      a[p1] := a[p2];
      a[p2] := tmp;
      p1 := p1 + 1;
      p2 := p2 - 1;
    }
    ghost var was := old(a[from..to]);
    forall k | 0 <= k < |was|
      ensures a[from..to][k] == Reversed(was)[k]
    {
      assert a[from + k] == old(a[from + to - 1 - (from + k)]);
    }
  }

  /** The digits still to come once a number is down to `v`. */
  function Remaining(v: nat, base: int): seq<Byte>
    requires 2 <= base <= 36
  {
    if v == 0 then [] else Digits(v, base)
  }

  /** Digits come out least significant first: what is still to be emitted,
      followed by what was emitted, reversed, is the whole string. */
  method EmitDigits(a: array<Byte>, start: nat, u: nat, base: int) returns (p: nat)
    requires 2 <= base <= 36 && start + |Digits(u, base)| < a.Length
    modifies a
    ensures p == start + |Digits(u, base)| && Reversed(a[start..p]) == Digits(u, base)
    ensures forall k :: 0 <= k < start ==> a[k] == old(a[k])
  {
    ghost var all := Digits(u, base);
    var v := EmitDigit(a, start, u, base);
    p := start + 1;
    ghost var emitted := [DigitChar(Rem(u, base))];
    assert Reversed(emitted) == emitted;
    while v != 0
      invariant start < p < a.Length && a[start..p] == emitted && v >= 0
      invariant Remaining(v, base) + Reversed(emitted) == all && |Reversed(emitted)| == |emitted|
      invariant forall k :: 0 <= k < start ==> a[k] == old(a[k])
      decreases v
    {
      ghost var c := DigitChar(Rem(v, base));
      EmitMore(v, base, emitted, all);
      v := EmitDigit(a, p, v, base);
      p := p + 1;
      assert a[start..p] == emitted + [c];
      emitted := emitted + [c];
    }
  }

  /** What is left to emit after one more digit. */
  lemma EmitMore(v: nat, base: int, emitted: seq<Byte>, all: seq<Byte>)
    requires 2 <= base <= 36 && v != 0
    requires Remaining(v, base) + Reversed(emitted) == all && |Reversed(emitted)| == |emitted|
    ensures var c := DigitChar(Rem(v, base));
            && Remaining(Quot(v, base), base) + Reversed(emitted + [c]) == all
            && |Reversed(emitted + [c])| == |emitted + [c]|
  {
    var c, left := DigitChar(Rem(v, base)), Remaining(Quot(v, base), base);
    EmitStep(v, base);
    ReversedMore(emitted, c);
    assert left + [c] + Reversed(emitted) == left + ([c] + Reversed(emitted));
  }

  /** One round of the emit loop. */
  method EmitDigit(a: array<Byte>, p: nat, u: nat, base: int) returns (v: nat)
    requires 2 <= base <= 36 && p < a.Length
    modifies a
    ensures a[p] == DigitChar(Rem(u, base)) && v == Quot(u, base)
    ensures forall k :: 0 <= k < a.Length && k != p ==> a[k] == old(a[k])
  {
    MachineDivision(u, base);
    a[p] := DigitChar(u % base);
    v := u / base;
  }

  lemma EmitStep(v: nat, base: int)
    requires 2 <= base <= 36
    ensures Digits(v, base) == Remaining(Quot(v, base), base) + [DigitChar(Rem(v, base))]
  {
  }

  lemma ReversedMore(s: seq<Byte>, c: Byte)
    ensures Reversed(s + [c]) == [c] + Reversed(s)
  {
  }

  lemma {:induction false} DigitsPrintable(u: nat, base: int)
    requires 2 <= base <= 36
    ensures NUL !in Digits(u, base)
    decreases u
  {
    if u >= base {
      DigitsPrintable(Quot(u, base), base);
    }
  }

  /** A buffer with an optional sign, then digits, then NUL. */
  lemma HoldsSigned(a: array<Byte>, start: nat, p: nat, ds: seq<Byte>)
    requires start <= 1 && (start == 1 ==> a.Length > 0 && a[0] == MINUS)
    requires start <= p < a.Length && a[start..p] == ds && NUL !in ds && a[p] == NUL
    ensures Holds(a, 0, (if start == 1 then [MINUS] else []) + ds)
  {
    var x := (if start == 1 then [MINUS] else []) + ds;
    forall k | 0 <= k < |x|
      ensures a[k] == x[k] && x[k] != NUL
    {
      if k >= start {
        assert x[k] == ds[k - start] == a[start..p][k - start];
      }
    }
  }

  method Itoa(value: int, str: array<Byte>, base: int)
    requires -INT_MAX - 1 <= value <= INT_MAX && 2 <= base <= 36
    requires !(base == 10 && value == -INT_MAX - 1)
    requires |Printed(value, base)| < str.Length
    modifies str
    ensures Holds(str, 0, Printed(value, base))
  {
    var p := 0;
    var uvalue;
    if value < 0 && base == 10 {
      str[p] := MINUS;
      p := p + 1;
      uvalue := -value;
    } else {
      uvalue := if value < 0 then value + WORD else value;
    }
    var start := p;
    p := EmitDigits(str, start, uvalue, base);
    ghost var emitted := str[start..p];
    str[p] := NUL;
    assert str[start..p] == emitted;
    ReverseInPlace(str, start, p);
    DigitsPrintable(uvalue, base);
    HoldsSigned(str, start, p, Digits(uvalue, base));
  }

  // ---- Reading a decimal ----

  predicate IsDecimal(c: Byte)
  {
    48 <= c <= 57
  }

  function DecimalPrefix(s: seq<Byte>): (n: nat)
    ensures n <= |s|
    ensures forall i :: 0 <= i < n ==> IsDecimal(s[i])
    ensures n < |s| ==> !IsDecimal(s[n])
  {
    if s == [] || !IsDecimal(s[0]) then 0 else 1 + DecimalPrefix(s[1..])
  }

  function Blanks(s: seq<Byte>): (n: nat)
    ensures n <= |s|
    ensures forall i :: 0 <= i < n ==> s[i] == SPACE || s[i] == TAB
    ensures n < |s| ==> s[n] != SPACE && s[n] != TAB
  {
    if s == [] || (s[0] != SPACE && s[0] != TAB) then 0 else 1 + Blanks(s[1..])
  }

  /** Where the digits of a decimal start: after blanks and one sign. */
  function DigitsAt(s: seq<Byte>): (n: nat)
    ensures n <= |s|
  {
    var b := Blanks(s);
    if b < |s| && (s[b] == MINUS || s[b] == PLUS) then b + 1 else b
  }

  function Unsigned(s: seq<Byte>): seq<Byte>
  {
    var t := s[DigitsAt(s)..];
    t[..DecimalPrefix(t)]
  }

  /** The number a string denotes: the longest run of digits after blanks and a
      sign, and nothing of what follows. */
  function Decimal(s: seq<Byte>): int
  {
    var b := Blanks(s);
    (if b < |s| && s[b] == MINUS then -1 else 1) * Value(Unsigned(s), 10)
  }

  lemma {:induction false} ValuePrefix(s: seq<Byte>, n: nat)
    requires AreDigits(s, 10) && n <= |s|
    ensures 0 <= Value(s[..n], 10) <= Value(s, 10)
    decreases |s|
  {
    ValueNonNegative(s[..n], 10);
    if n < |s| {
      var m := |s| - 1;
      ValuePrefix(s[..m], n);
      assert s[..m][..n] == s[..n];
    } else {
      assert s[..n] == s;
    }
  }

  method SkipBlanks(str: array<Byte>, ghost s: seq<Byte>) returns (p: nat)
    requires Holds(str, 0, s)
    ensures p == Blanks(s) && (p < |s| ==> str[p] == s[p])
  {
    p := 0;
    while str[p] == SPACE || str[p] == TAB
      invariant 0 <= p <= |s| && forall i :: 0 <= i < p ==> s[i] == SPACE || s[i] == TAB
      decreases |s| - p
    {
      assert p < |s| && str[p] == s[p];
      p := p + 1;
    }
    HoldsAt(str, 0, s, p);
    assert p < |s| ==> str[p] == s[p];
    BlanksIs(s, p);
  }

  /** The digit loop; no step overflows when the result does not. */
  method ReadDigits(str: array<Byte>, from: nat, ghost s: seq<Byte>, ghost ds: seq<Byte>) returns (result: int)
    requires Holds(str, 0, s) && from <= |s| && ds == s[from..][..DecimalPrefix(s[from..])]
    requires Value(ds, 10) <= INT_MAX
    ensures result == Value(ds, 10)
  {
    result := 0;
    var n := 0;
    ghost var t := s[from..];
    assert AreDigits(ds, 10);
    assert ds[..0] == [];
    NextChar(str, from, s, 0);
    while str[from + n] >= 48 && str[from + n] <= 57
      invariant 0 <= n <= |ds| && result == Value(ds[..n], 10) <= INT_MAX
      invariant n < |ds| <==> IsDecimal(str[from + n])
      invariant n < |ds| ==> str[from + n] == ds[n]
      decreases |ds| - n
    {
      assert ds[..n + 1][..n] == ds[..n];
      ValuePrefix(ds, n + 1);
      result := result * 10 + (str[from + n] as int - 48);
      n := n + 1;
      NextChar(str, from, s, n);
    }
    assert ds[..n] == ds;
  }

  /** The character `n` places into the digits is a digit unless they have ended. */
  lemma NextChar(str: array<Byte>, from: nat, s: seq<Byte>, n: nat)
    requires Holds(str, 0, s) && from <= |s| && n <= DecimalPrefix(s[from..])
    ensures from + n < str.Length
    ensures n < DecimalPrefix(s[from..]) <==> IsDecimal(str[from + n])
    ensures n < DecimalPrefix(s[from..]) ==> str[from + n] == s[from..][n]
  {
    var t := s[from..];
    HoldsAt(str, 0, s, from + n);
    if n < |t| {
      assert t[n] == s[from + n] == str[from + n];
    }
  }

  /** Signed overflow is the caller's to avoid. */
  method Atoi(str: array<Byte>, ghost s: seq<Byte>) returns (r: int)
    requires Holds(str, 0, s) && Value(Unsigned(s), 10) <= INT_MAX
    ensures r == Decimal(s)
  {
    var p := SkipBlanks(str, s);
    HoldsAt(str, 0, s, p);
    var sign := 1;
    if str[p] == MINUS {
      sign := -1;
      p := p + 1;
    } else if str[p] == PLUS {
      p := p + 1;
    }
    assert p == DigitsAt(s);
    var result := ReadDigits(str, p, s, Unsigned(s));
    r := sign * result;
  }

  lemma {:induction false} BlanksIs(s: seq<Byte>, n: nat)
    requires n <= |s| && (forall i :: 0 <= i < n ==> s[i] == SPACE || s[i] == TAB)
    requires n < |s| ==> s[n] != SPACE && s[n] != TAB
    ensures Blanks(s) == n
  {
    if n > 0 {
      BlanksIs(s[1..], n - 1);
    }
  }

  lemma UnsignedAll(s: seq<Byte>, n: nat)
    requires n <= |s| && DigitsAt(s) == n && AreDigits(s[n..], 10)
    ensures Unsigned(s) == s[n..]
  {
    AllDecimal(s[n..]);
    assert s[n..][..|s[n..]|] == s[n..];
  }

  /** Every shape of a number: blanks (32 and 9), a plus (43), a minus (45) or
      neither, digits, and then anything that does not start with a digit. */
  lemma DecimalByCode(blanks: seq<Byte>, sign: seq<Byte>, ds: seq<Byte>, rest: seq<Byte>)
    requires forall i :: 0 <= i < |blanks| ==> blanks[i] == 32 || blanks[i] == 9
    requires sign == [43] || sign == [45] || (sign == [] && ds != [])
    requires (forall i :: 0 <= i < |ds| ==> 48 <= ds[i] <= 57) && (rest != [] ==> !(48 <= rest[0] <= 57))
    ensures Decimal(blanks + sign + (ds + rest)) == (if sign == [45] then -1 else 1) * Value(ds, 10)
  {
    var t := ds + rest;
    SignAt(blanks, sign, t);
    DecimalPrefixIs(t, |ds|);
    assert t[..|ds|] == ds;
  }

  lemma SignAt(blanks: seq<Byte>, sign: seq<Byte>, t: seq<Byte>)
    requires forall i :: 0 <= i < |blanks| ==> blanks[i] == SPACE || blanks[i] == TAB
    requires sign == [PLUS] || sign == [MINUS] || (sign == [] && t != [] && IsDecimal(t[0]))
    ensures var s := blanks + sign + t;
            && Blanks(s) == |blanks| < |s| && (s[|blanks|] == MINUS <==> sign == [MINUS])
            && DigitsAt(s) == |blanks| + |sign| && s[DigitsAt(s)..] == t
  {
    var s := blanks + sign + t;
    assert s[|blanks|] == if sign == [] then t[0] else sign[0];
    BlanksIs(s, |blanks|);
  }

  lemma {:induction false} DecimalPrefixIs(s: seq<Byte>, n: nat)
    requires n <= |s| && (forall i :: 0 <= i < n ==> IsDecimal(s[i])) && (n < |s| ==> !IsDecimal(s[n]))
    ensures DecimalPrefix(s) == n
  {
    if n > 0 {
      DecimalPrefixIs(s[1..], n - 1);
    }
  }

  lemma DecimalNegative(ds: seq<Byte>)
    requires ds != [] && AreDigits(ds, 10)
    ensures Unsigned([MINUS] + ds) == ds && Decimal([MINUS] + ds) == -Value(ds, 10)
  {
    var s := [MINUS] + ds;
    BlanksIs(s, 0);
    assert s[1..] == ds;
    UnsignedAll(s, 1);
  }

  lemma DecimalPositive(ds: seq<Byte>)
    requires ds != [] && AreDigits(ds, 10)
    ensures Unsigned(ds) == ds && Decimal(ds) == Value(ds, 10)
  {
    assert 0 <= DigitOf(ds[0]) < 10;
    BlanksIs(ds, 0);
    assert ds[0..] == ds;
    UnsignedAll(ds, 0);
  }

  /** Reading back a printed decimal gives the number. */
  lemma RoundTrip(value: int)
    requires -INT_MAX <= value <= INT_MAX
    ensures Decimal(Printed(value, 10)) == value
    ensures Value(Unsigned(Printed(value, 10)), 10) <= INT_MAX
  {
    var ds := Digits(Magnitude(value, 10), 10);
    DigitsCanonical(Magnitude(value, 10), 10);
    DecimalNegative(ds);
    DecimalPositive(ds);
    assert [] + ds == ds;
  }

  lemma {:induction false} AllDecimal(ds: seq<Byte>)
    requires AreDigits(ds, 10)
    ensures DecimalPrefix(ds) == |ds|
  {
    if ds != [] {
      assert 0 <= DigitOf(ds[0]) < 10;
      AllDecimal(ds[1..]);
    }
  }

  /** Print and read back through the buffer. */
  method PrintAndRead(value: int) returns (r: int)
    requires -INT_MAX <= value <= INT_MAX
    ensures r == value
  {
    RoundTrip(value);
    ghost var s := Printed(value, 10);
    PrintedFits(value);
    var buffer := new Byte[12];
    Itoa(value, buffer, 10);
    r := Atoi(buffer, s);
  }

  /** A base-10 string of a 32-bit integer fits twelve bytes with its NUL. */
  lemma PrintedFits(value: int)
    requires -INT_MAX <= value <= INT_MAX
    ensures |Printed(value, 10)| <= 11
  {
    DigitsShort(Magnitude(value, 10), 10, 10_000_000_000);
  }

  lemma {:induction false} DigitsShort(u: nat, n: nat, bound: nat)
    requires n > 0 && u < bound && bound == Power10(n)
    ensures |Digits(u, 10)| <= n
    decreases n
  {
    if u >= 10 {
      QuotRem(u, 10);
      DigitsShort(Quot(u, 10), n - 1, Power10(n - 1));
    }
  }

  function Power10(n: nat): nat
  {
    if n == 0 then 1 else 10 * Power10(n - 1)
  }
}
