/**
 * Character and string helpers shared by the model: decimal formatting of
 * integers, the digit test used for generated tags, and Java's
 * `String.trim`, `startsWith`, `toLowerCase`, `compareTo` and `split` on
 * one character, and `Integer.valueOf`.
 */
module Text {
  import opened Wrappers

  predicate IsDigit(c: char) { '0' <= c <= '9' }

  /** `StringUtils.isNumeric`: non-empty and every character a digit. */
  predicate IsNumeric(s: string) {
    |s| > 0 && forall i :: 0 <= i < |s| ==> IsDigit(s[i])
  }

  function DigitChar(d: nat): (c: char)
    requires d < 10
    ensures IsDigit(c) && (c as int) - ('0' as int) == d
  {
    ['0', '1', '2', '3', '4', '5', '6', '7', '8', '9'][d]
  }

  /** Decimal digits of a natural number, most significant first, no leading zeros. */
  function NatToString(n: nat): string
    decreases n
  {
    if n < 10 then [DigitChar(n)] else NatToString(n / 10) + [DigitChar(n % 10)]
  }

  /** Java's `Integer.toString` / `%d`. */
  function IntToString(i: int): string {
    if i < 0 then "-" + NatToString(-i) else NatToString(i)
  }

  /** The value of a string of decimal digits. */
  function DigitsValue(s: string): nat
    requires forall i :: 0 <= i < |s| ==> IsDigit(s[i])
  {
    if s == [] then 0
    else DigitsValue(s[..|s| - 1]) * 10 + DigitValue(s[|s| - 1])
  }

  function DigitValue(c: char): (d: nat)
    requires IsDigit(c)
    ensures d < 10
  {
    (c as int) - ('0' as int)
  }

  lemma {:induction false} NatToStringNumeric(n: nat)
    ensures IsNumeric(NatToString(n))
    decreases n
  {
    if n >= 10 {
      NatToStringNumeric(n / 10);
    }
  }

  /** Printing a number and reading its digits back gives the number. */
  lemma {:induction false} NatToStringRoundTrip(n: nat)
    ensures IsNumeric(NatToString(n)) && DigitsValue(NatToString(n)) == n
    decreases n
  {
    NatToStringNumeric(n);
    if n >= 10 {
      NatToStringRoundTrip(n / 10);
      var s := NatToString(n);
      assert s[..|s| - 1] == NatToString(n / 10);
    }
  }

  lemma NatToStringInjective(a: nat, b: nat)
    requires NatToString(a) == NatToString(b)
    ensures a == b
  {
    NatToStringRoundTrip(a);
    NatToStringRoundTrip(b);
  }

  /** Java's `Character` whitespace test behind `trim`: any character up to U+0020. */
  predicate IsTrimmable(c: char) { c <= ' ' }

  function TrimLeft(s: string): (r: string)
    ensures |r| <= |s| && r == s[|s| - |r|..]
    ensures r == [] || !IsTrimmable(r[0])
  {
    if s != [] && IsTrimmable(s[0]) then TrimLeft(s[1..]) else s
  }

  function TrimRight(s: string): (r: string)
    ensures |r| <= |s| && r == s[..|r|]
    ensures r == [] || !IsTrimmable(r[|r| - 1])
  {
    if s != [] && IsTrimmable(s[|s| - 1]) then TrimRight(s[..|s| - 1]) else s
  }

  /** `String.trim`. */
  function Trim(s: string): string {
    TrimRight(TrimLeft(s))
  }

  predicate StartsWith(s: string, prefix: string) {
    |prefix| <= |s| && s[..|prefix|] == prefix
  }

  predicate EndsWith(s: string, suffix: string) {
    |suffix| <= |s| && s[|s| - |suffix|..] == suffix
  }

  /** Lower-casing of the ASCII letters (other characters are kept). */
  function LowerChar(c: char): char {
    if 'A' <= c <= 'Z' then (c as int + 32) as char else c
  }

  function ToLower(s: string): (r: string)
    ensures |r| == |s| && forall i :: 0 <= i < |s| ==> r[i] == LowerChar(s[i])
  {
    if s == [] then [] else [LowerChar(s[0])] + ToLower(s[1..])
  }

  /** `String.compareTo`: difference at the first differing character, else difference of lengths. */
  function Compare(a: string, b: string): int {
    if a == [] || b == [] then |a| - |b|
    else if a[0] != b[0] then (a[0] as int) - (b[0] as int)
    else Compare(a[1..], b[1..])
  }

  lemma {:induction false} CompareZeroIffEqual(a: string, b: string)
    ensures Compare(a, b) == 0 <==> a == b
  {
    if a != [] && b != [] && a[0] == b[0] {
      CompareZeroIffEqual(a[1..], b[1..]);
      assert a == [a[0]] + a[1..] && b == [b[0]] + b[1..];
    }
  }

  lemma {:induction false} CompareAntisymmetric(a: string, b: string)
    ensures Compare(b, a) == -Compare(a, b)
  {
    if a != [] && b != [] && a[0] == b[0] {
      CompareAntisymmetric(a[1..], b[1..]);
    }
  }

  lemma {:induction false} CompareTransitive(a: string, b: string, c: string)
    requires Compare(a, b) < 0 && Compare(b, c) < 0
    ensures Compare(a, c) < 0
  {
    if a != [] && b != [] && c != [] && a[0] == b[0] && b[0] == c[0] {
      CompareTransitive(a[1..], b[1..], c[1..]);
    }
  }

  /** A word followed by a space can be split off uniquely when it holds no space. */
  lemma SpaceSeparatedInjective(x1: string, r1: string, x2: string, r2: string)
    requires ' ' !in x1 && ' ' !in x2
    requires x1 + " " + r1 == x2 + " " + r2
    ensures x1 == x2 && r1 == r2
  {
    var w := x1 + " " + r1;
    assert w[|x1|] == ' ';
    assert w == x2 + " " + r2;
    assert w[|x2|] == ' ';
    if |x1| < |x2| {
      assert false;
    }
    if |x2| < |x1| {
      assert false;
    }
    assert x1 == w[..|x1|] == x2;
    assert r1 == w[|x1| + 1..] == r2;
  }

  /** The smallest and largest Java `int`. */
  const IntMin: int := -0x8000_0000
  const IntMax: int := 0x7fff_ffff

  /** A result of Java `int` arithmetic: the exact value wrapped into the `int` range. */
  function ToInt(x: int): (r: int)
    ensures IntMin <= r <= IntMax
    ensures (r - x) % 0x1_0000_0000 == 0
    ensures IntMin <= x <= IntMax ==> r == x
  {
    (x - IntMin) % 0x1_0000_0000 + IntMin
  }

  /** The message of `NumberFormatException.forInputString`. */
  function NumberFormatMessage(s: string): string {
    "For input string: \"" + s + "\""
  }

  /** The digits after an optional leading sign. */
  function Unsigned(s: string): string {
    if |s| > 0 && (s[0] == '-' || s[0] == '+') then s[1..] else s
  }

  /**
   * `Integer.valueOf(s)`: an optional sign, then at least one decimal digit,
   * with the value inside the `int` range; anything else fails.
   */
  function ParseInt(s: string): (r: Result<int>)
    ensures r.Success? ==> IntMin <= r.value <= IntMax && IsNumeric(Unsigned(s))
    ensures !IsNumeric(Unsigned(s)) ==> r == Failure(NumberFormatMessage(s))
  {
    var digits := Unsigned(s);
    if !IsNumeric(digits) then Failure(NumberFormatMessage(s))
    else
      var v: int := if |s| > 0 && s[0] == '-' then -(DigitsValue(digits) as int) else DigitsValue(digits) as int;
      if IntMin <= v <= IntMax then Success(v) else Failure(NumberFormatMessage(s))
  }

  /** Every `int`, written in decimal, reads back as itself. */
  lemma ParseIntRoundTrip(n: int)
    requires IntMin <= n <= IntMax
    ensures ParseInt(IntToString(n)) == Success(n)
  {
    var m: nat := if n < 0 then -n else n;
    NatToStringRoundTrip(m);
    var s := IntToString(n);
    if n < 0 {
      assert s[0] == '-' && s[1..] == NatToString(m);
    } else {
      assert s == NatToString(m) && IsDigit(s[0]);
    }
  }

  /** The pieces of s between occurrences of c, empty ones included: one more than there are c's. */
  function Pieces(s: string, c: char): (r: seq<string>)
    ensures |r| >= 1
  {
    if s == [] then [""]
    else
      var rest := Pieces(s[1..], c);
      if s[0] == c then [""] + rest else [[s[0]] + rest[0]] + rest[1..]
  }

  /** The pieces put back together, with c between neighbours. */
  function Join(p: seq<string>, c: char): string
    requires |p| >= 1
  {
    if |p| == 1 then p[0] else p[0] + [c] + Join(p[1..], c)
  }

  /** Cutting at c and gluing back with c gives s again, and no piece holds a c. */
  lemma {:induction false} PiecesJoin(s: string, c: char)
    ensures Join(Pieces(s, c), c) == s
    ensures forall i :: 0 <= i < |Pieces(s, c)| ==> c !in Pieces(s, c)[i]
  {
    if s != [] {
      PiecesJoin(s[1..], c);
      var rest := Pieces(s[1..], c);
      if s[0] == c {
        assert Pieces(s, c)[1..] == rest;
      } else {
        var p := Pieces(s, c);
        assert p[1..] == rest[1..];
        if |rest| == 1 {
          assert p == [[s[0]] + rest[0]];
        } else {
          assert Join(rest, c) == rest[0] + [c] + Join(rest[1..], c);
        }
        assert s == [s[0]] + s[1..];
        forall i | 0 <= i < |p|
          ensures c !in p[i]
        {
          if i == 0 {
            assert c !in rest[0];
          } else {
            assert p[i] == rest[i];
          }
        }
      }
    }
  }

  /** A string without c is one piece. */
  lemma {:induction false} PiecesOfPlain(s: string, c: char)
    requires c !in s
    ensures Pieces(s, c) == [s]
  {
    if s != [] {
      PiecesOfPlain(s[1..], c);
      assert [s[0]] + s[1..] == s;
    }
  }

  /** A leading piece without c splits off at the first c. */
  lemma {:induction false} PiecesAfter(k: string, c: char, rest: string)
    requires c !in k
    ensures Pieces(k + [c] + rest, c) == [k] + Pieces(rest, c)
  {
    var s := k + [c] + rest;
    if k == [] {
      assert s[1..] == rest;
    } else {
      assert s[1..] == k[1..] + [c] + rest;
      PiecesAfter(k[1..], c, rest);
      assert [k[0]] + k[1..] == k;
    }
  }

  /** The piece list with its trailing empty pieces removed. */
  function DropTrailingEmpty(p: seq<string>): (r: seq<string>)
    ensures |r| <= |p| && r == p[..|r|]
    ensures r == [] || r[|r| - 1] != ""
    ensures forall i :: |r| <= i < |p| ==> p[i] == ""
  {
    if p != [] && p[|p| - 1] == "" then DropTrailingEmpty(p[..|p| - 1]) else p
  }

  /**
   * `String.split` on a one-character separator: without the separator the
   * whole string, otherwise the pieces with the trailing empty ones removed.
   */
  function Split(s: string, c: char): seq<string> {
    if c !in s then [s] else DropTrailingEmpty(Pieces(s, c))
  }

  /** n copies of c. */
  function Repeat(c: char, n: nat): (r: string)
    ensures |r| == n && forall i :: 0 <= i < n ==> r[i] == c
  {
    if n == 0 then [] else [c] + Repeat(c, n - 1)
  }

  /** `key:value` with any number of separators after it splits into exactly key and value. */
  lemma {:induction false} SplitKeyValue(key: string, c: char, value: string, n: nat)
    requires c !in key && c !in value && value != ""
    ensures Split(key + [c] + value + Repeat(c, n), c) == [key, value]
  {
    var s := key + [c] + value + Repeat(c, n);
    assert s[|key|] == c;
    assert key + [c] + value + Repeat(c, n) == key + [c] + (value + Repeat(c, n));
    PiecesAfter(key, c, value + Repeat(c, n));
    PiecesOfRepeat(value, c, n);
    var p := [key] + ([value] + seq(n, _ => ""));
    assert Pieces(s, c) == p;
    var d := DropTrailingEmpty(p);
    assert p[1] != "";
    assert |d| >= 2;
    assert forall i :: 2 <= i < |p| ==> p[i] == "";
    if |d| > 2 {
      assert false;
    }
  }

  /** A non-empty piece followed by n separators: the piece, then n empty pieces. */
  lemma {:induction false} PiecesOfRepeat(value: string, c: char, n: nat)
    requires c !in value
    ensures Pieces(value + Repeat(c, n), c) == [value] + seq(n, _ => "")
    decreases n
  {
    if n == 0 {
      assert value + Repeat(c, 0) == value;
      PiecesOfPlain(value, c);
    } else {
      assert value + Repeat(c, n) == value + [c] + Repeat(c, n - 1);
      PiecesAfter(value, c, Repeat(c, n - 1));
      PiecesOfRepeat([], c, n - 1);
      assert [] + Repeat(c, n - 1) == Repeat(c, n - 1);
      assert [""] + seq(n - 1, _ => "") == seq(n, _ => "");
    }
  }

  /** Conversely, a line that splits into two parts is `key:value` followed only by separators. */
  lemma {:induction false} SplitIntoTwo(s: string, c: char)
    requires |Split(s, c)| == 2
    ensures var p := Split(s, c);
      c !in p[0] && c !in p[1] && p[1] != "" &&
      exists n: nat :: s == p[0] + [c] + p[1] + Repeat(c, n)
  {
    var p := Split(s, c);
    var all := Pieces(s, c);
    PiecesJoin(s, c);
    if c !in s {
      assert false;
    }
    var n: nat := |all| - 2;
    assert all == [p[0], p[1]] + seq(n, _ => "") by {
      assert all[..2] == p;
    }
    JoinEmpties(p[1], c, n);
    assert all[1..] == [p[1]] + seq(n, _ => "");
    assert s == p[0] + [c] + p[1] + Repeat(c, n);
  }

  /** A piece followed by n empty pieces joins into the piece followed by n separators. */
  lemma {:induction false} JoinEmpties(v: string, c: char, n: nat)
    ensures Join([v] + seq(n, _ => ""), c) == v + Repeat(c, n)
    decreases n
  {
    if n > 0 {
      JoinEmpties("", c, n - 1);
      assert ([v] + seq(n, _ => ""))[1..] == [""] + seq(n - 1, _ => "");
      assert "" + Repeat(c, n - 1) == Repeat(c, n - 1);
    }
  }
}
