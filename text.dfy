/** The string operations the source takes from JavaScript: `trim`, `split`, the
    `\s` and `\d` classes of its regular expression, the rendering of a number in a
    template literal, and the ordering `localeCompare` gives to strings of digits. */
module Text {

  /** ECMAScript WhiteSpace and LineTerminator code points: what `trim` removes
      and what `\s` matches. */
  predicate IsSpace(c: char) {
    c == '\t' || c == '\n' || c == '\U{B}' || c == '\U{C}' || c == '\r' || c == ' '
    || c == '\U{A0}' || c == '\U{1680}' || ('\U{2000}' <= c <= '\U{200A}')
    || c == '\U{2028}' || c == '\U{2029}' || c == '\U{202F}' || c == '\U{205F}'
    || c == '\U{3000}' || c == '\U{FEFF}'
  }

  predicate AllSpace(s: string) {
    forall i :: 0 <= i < |s| ==> IsSpace(s[i])
  }

  /** The number of whitespace characters at the front of `s`. */
  function LeadingSpaces(s: string): (k: nat)
    ensures k <= |s|
    ensures forall i :: 0 <= i < k ==> IsSpace(s[i])
    ensures k < |s| ==> !IsSpace(s[k])
  {
    if s == [] || !IsSpace(s[0]) then 0 else 1 + LeadingSpaces(s[1..])
  }

  /** The number of whitespace characters at the end of `s`. */
  function TrailingSpaces(s: string): (k: nat)
    ensures k <= |s|
    ensures forall i :: |s| - k <= i < |s| ==> IsSpace(s[i])
    ensures k < |s| ==> !IsSpace(s[|s| - 1 - k])
  {
    if s == [] || !IsSpace(s[|s| - 1]) then 0 else 1 + TrailingSpaces(s[..|s| - 1])
  }

  /** `s.trim()`: `s` without the whitespace at either end. */
  function Trim(s: string): (r: string)
    ensures r == [] || (!IsSpace(r[0]) && !IsSpace(r[|r| - 1]))
    ensures exists a :: 0 <= a <= |s| - |r| && r == s[a..a + |r|]
                        && AllSpace(s[..a]) && AllSpace(s[a + |r|..])
  {
    var a := LeadingSpaces(s);
    var t := s[a..];
    var b := TrailingSpaces(t);
    var r := t[..|t| - b];
    assert r == s[a..a + |r|];
    assert AllSpace(s[..a]) by {
      forall i | 0 <= i < a ensures IsSpace(s[..a][i]) { assert s[..a][i] == s[i]; }
    }
    assert AllSpace(s[a + |r|..]) by {
      var u := s[a + |r|..];
      assert u == t[|t| - b..];
      forall i | 0 <= i < |u| ensures IsSpace(u[i]) {
        assert u[i] == t[|t| - b + i];
      }
    }
    r
  }

  /** A line or field counts as blank exactly when it is all whitespace. */
  lemma TrimEmpty(s: string)
    ensures Trim(s) == [] <==> AllSpace(s)
  {
    var r := Trim(s);
    var a :| 0 <= a <= |s| - |r| && r == s[a..a + |r|] && AllSpace(s[..a]) && AllSpace(s[a + |r|..]);
    if r == [] {
      forall i | 0 <= i < |s| ensures IsSpace(s[i]) {
        if i < a { assert s[i] == s[..a][i]; } else { assert s[i] == s[a..][i - a]; }
      }
    } else {
      assert !IsSpace(s[a]) by { assert s[a] == r[0]; }
    }
  }

  /** A string that has no whitespace at either end is left as it is by `trim`. */
  lemma TrimFixed(s: string)
    requires s == [] || (!IsSpace(s[0]) && !IsSpace(s[|s| - 1]))
    ensures Trim(s) == s
  {
    assert LeadingSpaces(s) == 0;
    assert TrailingSpaces(s) == 0;
  }

  /** `trim` is idempotent. */
  lemma TrimIdempotent(s: string)
    ensures Trim(Trim(s)) == Trim(s)
  {
    TrimFixed(Trim(s));
  }

  /** `s.split(sep)` for a one-character separator: the pieces between separators,
      empty pieces included, and always at least one piece. */
  function Split(s: string, sep: char): (r: seq<string>)
    ensures |r| >= 1
    ensures forall i :: 0 <= i < |r| ==> sep !in r[i]
  {
    if s == [] then [[]]
    else
      var rest := Split(s[1..], sep);
      if s[0] == sep then [[]] + rest
      else [[s[0]] + rest[0]] + rest[1..]
  }

  /** `parts.join(sep)`, the inverse of `Split`. */
  function Join(parts: seq<string>, sep: char): string
    requires |parts| >= 1
  {
    if |parts| == 1 then parts[0] else parts[0] + [sep] + Join(parts[1..], sep)
  }

  /** Splitting loses nothing: joining the pieces gives the text back. */
  lemma {:induction false} JoinSplit(s: string, sep: char)
    ensures Join(Split(s, sep), sep) == s
  {
    if s != [] {
      var rest := Split(s[1..], sep);
      JoinSplit(s[1..], sep);
      if s[0] != sep {
        var r := Split(s, sep);
        assert r[1..] == rest[1..];
        if |rest| == 1 {
          assert Join(r, sep) == [s[0]] + rest[0];
        } else {
          assert Join(r, sep) == [s[0]] + rest[0] + [sep] + Join(rest[1..], sep);
          assert Join(rest, sep) == rest[0] + [sep] + Join(rest[1..], sep);
        }
      }
    }
  }

  /** Splitting a piece that holds no separator, followed by more text. */
  lemma {:induction false} SplitPiece(p: string, tail: seq<char>, sep: char)
    requires sep !in p
    ensures Split(p + tail, sep) == [p + Split(tail, sep)[0]] + Split(tail, sep)[1..]
  {
    if p != [] {
      assert (p + tail)[1..] == p[1..] + tail;
      SplitPiece(p[1..], tail, sep);
      assert [p[0]] + (p[1..] + Split(tail, sep)[0]) == p + Split(tail, sep)[0];
    } else {
      var r := Split(tail, sep);
      assert p + tail == tail;
      assert p + r[0] == r[0];
      assert r == [r[0]] + r[1..];
    }
  }

  /** Pieces without the separator are recovered exactly by splitting their join:
      `Split` and `Join` are inverse bijections. */
  lemma {:induction false} SplitJoin(parts: seq<string>, sep: char)
    requires |parts| >= 1
    requires forall i :: 0 <= i < |parts| ==> sep !in parts[i]
    ensures Split(Join(parts, sep), sep) == parts
  {
    if |parts| == 1 {
      SplitPiece(parts[0], [], sep);
      assert parts[0] + [] == parts[0];
      assert Split([], sep) == [[]];
      assert parts == [parts[0] + []];
    } else {
      var tail := Join(parts[1..], sep);
      SplitJoin(parts[1..], sep);
      var rest := [sep] + tail;
      assert Join(parts, sep) == parts[0] + rest;
      SplitPiece(parts[0], rest, sep);
      assert rest[0] == sep && rest[1..] == tail;
      var r := Split(rest, sep);
      assert r == [[]] + parts[1..];
      assert r[0] == [] && r[1..] == parts[1..];
      assert parts[0] + r[0] == parts[0];
    }
  }

  predicate IsDigit(c: char) {
    '0' <= c <= '9'
  }

  /** The characters the regular expression class `\d` matches (ASCII digits only). */
  predicate AllDigits(s: string) {
    forall i :: 0 <= i < |s| ==> IsDigit(s[i])
  }

  function DigitValue(c: char): nat
    requires IsDigit(c)
  {
    c as int - '0' as int
  }

  function DigitChar(d: nat): (c: char)
    requires d < 10
    ensures IsDigit(c) && DigitValue(c) == d
  {
    ('0' as int + d) as char
  }

  /** The number a string of decimal digits denotes. */
  function Value(s: string): nat
    requires AllDigits(s)
  {
    if s == [] then 0 else 10 * Value(s[..|s| - 1]) + DigitValue(s[|s| - 1])
  }

  /** A natural number as a template literal `${n}` writes it: canonical decimal,
      without leading zeros, denoting `n`. */
  function NatToString(n: nat): (s: string)
    ensures |s| >= 1 && AllDigits(s) && Value(s) == n
    ensures s[0] == '0' ==> s == "0"
  {
    if n < 10 then [DigitChar(n)]
    else
      var s := NatToString(n / 10) + [DigitChar(n % 10)];
      assert s[..|s| - 1] == NatToString(n / 10);
      s
  }

  /** Code-unit lexicographic order: a strict prefix comes first. */
  predicate LexLess(a: string, b: string) {
    |b| > 0 && (|a| == 0 || a[0] < b[0] || (a[0] == b[0] && LexLess(a[1..], b[1..])))
  }

  lemma {:induction false} LexLessIrreflexive(a: string)
    ensures !LexLess(a, a)
  {
    if |a| > 0 {
      LexLessIrreflexive(a[1..]);
    }
  }

  lemma {:induction false} LexLessTransitive(a: string, b: string, c: string)
    requires LexLess(a, b) && LexLess(b, c)
    ensures LexLess(a, c)
  {
    if |a| > 0 && a[0] == b[0] && b[0] == c[0] {
      LexLessTransitive(a[1..], b[1..], c[1..]);
    }
  }

  /** Any two strings are equal or ordered one way or the other. */
  lemma {:induction false} LexLessTotal(a: string, b: string)
    ensures a == b || LexLess(a, b) || LexLess(b, a)
  {
    if |a| > 0 && |b| > 0 && a[0] == b[0] {
      LexLessTotal(a[1..], b[1..]);
      if a[1..] == b[1..] {
        assert a == [a[0]] + a[1..] && b == [b[0]] + b[1..];
      }
    }
  }

  function Pow10(k: nat): (p: nat)
    ensures p >= 1
  {
    if k == 0 then 1 else 10 * Pow10(k - 1)
  }

  /** A string of `k` digits denotes a number below `10^k`. */
  lemma {:induction false} ValueBound(s: string)
    requires AllDigits(s)
    ensures Value(s) < Pow10(|s|)
  {
    if s != [] {
      ValueBound(s[..|s| - 1]);
    }
  }

  /** Reading a digit string from the front: the leading digit weighs `10^(k-1)`. */
  lemma {:induction false} ValueFront(s: string)
    requires |s| >= 1 && AllDigits(s)
    ensures Value(s) == DigitValue(s[0]) * Pow10(|s| - 1) + Value(s[1..])
  {
    if |s| > 1 {
      var init, tail := s[..|s| - 1], s[1..];
      ValueFront(init);
      assert init[1..] == tail[..|tail| - 1];
      assert init[0] == s[0] && tail[|tail| - 1] == s[|s| - 1];
      var d0, dl, p, v := DigitValue(s[0]), DigitValue(s[|s| - 1]), Pow10(|s| - 2), Value(init[1..]);
      FrontStep(Value(init), d0, p, v, dl, Value(s), Value(tail), Pow10(|s| - 1));
    } else {
      assert s[1..] == [];
    }
  }

  /** The arithmetic of one step of `ValueFront`. */
  lemma FrontStep(a: int, d0: int, p: int, v: int, dl: int, x: int, y: int, q: int)
    requires a == d0 * p + v && x == 10 * a + dl && y == 10 * v + dl && q == 10 * p
    ensures x == d0 * q + y
  {
  }

  /** For digit strings of equal length (such as four-digit years) the textual order
      is the numeric order. */
  lemma {:induction false} LexLessDigitsIsNumeric(a: string, b: string)
    requires |a| == |b| && AllDigits(a) && AllDigits(b)
    ensures LexLess(a, b) <==> Value(a) < Value(b)
  {
    if |a| > 0 {
      var p := Pow10(|a| - 1);
      ValueFront(a);
      ValueFront(b);
      ValueBound(a[1..]);
      ValueBound(b[1..]);
      LexLessDigitsIsNumeric(a[1..], b[1..]);
      var da, db := DigitValue(a[0]), DigitValue(b[0]);
      if da < db {
        FrontDigitDecides(da, db, p, Value(a[1..]), Value(b[1..]));
      } else if db < da {
        FrontDigitDecides(db, da, p, Value(b[1..]), Value(a[1..]));
      }
    }
  }

  /** A smaller leading digit decides the comparison whatever the digits after it. */
  lemma FrontDigitDecides(x: nat, y: nat, p: nat, u: nat, v: nat)
    requires x < y && u < p
    ensures x * p + u < y * p + v
  {
    calc {
      x * p + u;
    <
      x * p + p;
    ==
      (x + 1) * p;
    <=
      { assert x + 1 <= y; MulMono(x + 1, y, p); }
      y * p;
    <=
      y * p + v;
    }
  }

  lemma MulMono(x: nat, y: nat, p: nat)
    requires x <= y
    ensures x * p <= y * p
  {
  }
}
