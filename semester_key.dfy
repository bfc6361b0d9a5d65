/** Semester tokens of transcript text, such as "II 2024": the test app.js applies to
    a field to recognise one, and the chronological order semesters are sorted in. */
module SemesterKey {
  import opened Wrappers
  import opened Text

  predicate IsNumeral(s: string) {
    s == "I" || s == "II" || s == "III" || s == "IV"
  }

  /** `/^(I|II|III|IV)\s+\d{4}$/.test(s)`: a numeral, at least one whitespace
      character, then exactly four ASCII digits, and nothing else. */
  predicate IsSemesterToken(s: string) {
    |s| >= 4 && AllDigits(s[|s| - 4..])
    && exists n :: 1 <= n < |s| - 4 && IsNumeral(s[..n]) && AllSpace(s[n..|s| - 4])
  }

  /** The leading part of a token up to its first whitespace: its numeral. */
  function Numeral(s: string): (r: string)
    ensures |r| <= |s| && r == s[..|r|]
    ensures |r| < |s| ==> IsSpace(s[|r|])
    ensures forall i :: 0 <= i < |r| ==> !IsSpace(r[i])
  {
    if s == [] || IsSpace(s[0]) then [] else [s[0]] + Numeral(s[1..])
  }

  /** The year of a token: its last four characters. */
  function Year(s: string): string {
    if |s| >= 4 then s[|s| - 4..] else s
  }

  /** `semOrder[numeral] || 0`: I, II, III, IV rank 1 to 4, anything else 0. */
  function Rank(numeral: string): nat {
    if numeral == "I" then 1
    else if numeral == "II" then 2
    else if numeral == "III" then 3
    else if numeral == "IV" then 4
    else 0
  }

  /** A token splits into its numeral, a run of whitespace and its four-digit year,
      which are the two groups of the recognising expression. */
  lemma TokenParts(s: string)
    requires IsSemesterToken(s)
    ensures IsNumeral(Numeral(s)) && 1 <= Rank(Numeral(s)) <= 4
    ensures |Year(s)| == 4 && AllDigits(Year(s))
    ensures |Numeral(s)| < |s| - 4 && AllSpace(s[|Numeral(s)|..|s| - 4])
  {
    var n :| 1 <= n < |s| - 4 && IsNumeral(s[..n]) && AllSpace(s[n..|s| - 4]);
    var m := |Numeral(s)|;
    assert forall i :: 0 <= i < n ==> !IsSpace(s[i]) by {
      forall i | 0 <= i < n ensures !IsSpace(s[i]) { assert s[i] == s[..n][i]; }
    }
    assert IsSpace(s[n]) by { assert s[n] == s[n..|s| - 4][0]; }
    assert m == n;
  }

  /** The order the record is sorted in: year first, as text, then numeral rank.
      `Precedes(a, b)` says `a` may stand before `b`. */
  predicate Precedes(a: string, b: string) {
    LexLess(Year(a), Year(b)) || (Year(a) == Year(b) && Rank(Numeral(a)) <= Rank(Numeral(b)))
  }

  lemma PrecedesTotal(a: string, b: string)
    ensures Precedes(a, b) || Precedes(b, a)
  {
    LexLessTotal(Year(a), Year(b));
  }

  lemma PrecedesTransitive(a: string, b: string, c: string)
    requires Precedes(a, b) && Precedes(b, c)
    ensures Precedes(a, c)
  {
    if LexLess(Year(a), Year(b)) && LexLess(Year(b), Year(c)) {
      LexLessTransitive(Year(a), Year(b), Year(c));
    }
  }

  /** On tokens the order is chronological: by the year as a number, then
      I < II < III < IV within a year. */
  lemma PrecedesChronological(a: string, b: string)
    requires IsSemesterToken(a) && IsSemesterToken(b)
    ensures Precedes(a, b) <==>
              Value(Year(a)) < Value(Year(b))
              || (Value(Year(a)) == Value(Year(b)) && Rank(Numeral(a)) <= Rank(Numeral(b)))
  {
    TokenParts(a);
    TokenParts(b);
    LexLessDigitsIsNumeric(Year(a), Year(b));
    LexLessDigitsIsNumeric(Year(b), Year(a));
    LexLessTotal(Year(a), Year(b));
    LexLessIrreflexive(Year(a));
  }

  /** The result of calling the sort comparator of app.js. */
  datatype Comparison = Returned(order: int) | ThrowsTypeError

  /** `a.localeCompare(b)`, taken as code-unit order (which it agrees with on digit
      strings). */
  function LocaleCompare(a: string, b: string): int {
    if LexLess(a, b) then -1 else if a == b then 0 else 1
  }

  /** The sort comparator as app.js writes it: each token is cut at single spaces,
      `[sem, year] = key.split(' ')`, so `year` is `undefined` when the token holds no
      space, and `undefined.localeCompare(...)` throws. An `undefined` argument of
      `localeCompare` is read as the text "undefined". */
  function CompareAsWritten(a: string, b: string): Comparison {
    var pa, pb := Split(a, ' '), Split(b, ' ');
    var yearA := if |pa| >= 2 then Some(pa[1]) else None;
    var yearB := if |pb| >= 2 then Some(pb[1]) else None;
    if yearA != yearB then
      match yearA
      case None => ThrowsTypeError
      case Some(y) => Returned(LocaleCompare(y, yearB.GetOr("undefined")))
    else
      Returned(Rank(pa[0]) as int - Rank(pb[0]) as int)
  }

  /** A token written with exactly one space is cut into its numeral and its year. */
  lemma SplitSingleSpace(s: string)
    requires IsSemesterToken(s) && s == Numeral(s) + " " + Year(s)
    ensures Split(s, ' ') == [Numeral(s), Year(s)]
  {
    TokenParts(s);
    assert ' ' !in Numeral(s) by {
      forall i | 0 <= i < |Numeral(s)| ensures Numeral(s)[i] != ' ' { }
    }
    assert ' ' !in Year(s) by {
      forall i | 0 <= i < |Year(s)| ensures Year(s)[i] != ' ' { assert IsDigit(Year(s)[i]); }
    }
    var parts := [Numeral(s), Year(s)];
    assert Join(parts, ' ') == s by {
      assert parts[1..] == [Year(s)];
    }
    SplitJoin(parts, ' ');
  }

  /** Where every token has one space between numeral and year, the comparator as
      written never throws and orders exactly as `Precedes`. */
  lemma AsWrittenAgreesOnSingleSpace(a: string, b: string)
    requires IsSemesterToken(a) && a == Numeral(a) + " " + Year(a)
    requires IsSemesterToken(b) && b == Numeral(b) + " " + Year(b)
    ensures CompareAsWritten(a, b).Returned?
    ensures CompareAsWritten(a, b).order <= 0 <==> Precedes(a, b)
  {
    SplitSingleSpace(a);
    SplitSingleSpace(b);
    LexLessIrreflexive(Year(a));
  }

  /** The numeral of a text is everything before its first whitespace. */
  lemma {:induction false} NumeralBeforeSpace(n: string, t: string)
    requires forall i :: 0 <= i < |n| ==> !IsSpace(n[i])
    requires t != [] && IsSpace(t[0])
    ensures Numeral(n + t) == n
  {
    if n != [] {
      assert (n + t)[1..] == n[1..] + t;
      NumeralBeforeSpace(n[1..], t);
    } else {
      assert n + t == t;
    }
  }

  /** A numeral, one space and four digits make a token, which splits at its
      space into that numeral and that year. */
  lemma SingleSpaceToken(n: string, y: string)
    requires IsNumeral(n) && |y| == 4 && AllDigits(y)
    ensures IsSemesterToken(n + " " + y)
    ensures Numeral(n + " " + y) == n && Year(n + " " + y) == y
    ensures Split(n + " " + y, ' ') == [n, y]
  {
    var s := n + " " + y;
    assert s[..|n|] == n && s[|n|..|s| - 4] == " " && s[|s| - 4..] == y;
    assert AllSpace(s[|n|..|s| - 4]);
    assert forall i :: 0 <= i < |n| ==> !IsSpace(n[i]);
    assert s == n + ([' '] + y);
    NumeralBeforeSpace(n, [' '] + y);
    assert ' ' !in n;
    assert ' ' !in y by {
      forall i | 0 <= i < |y| ensures y[i] != ' ' { assert IsDigit(y[i]); }
    }
    var parts := [n, y];
    assert Join(parts, ' ') == s by { assert parts[1..] == [y]; }
    SplitJoin(parts, ' ');
  }

  /** Two different single-space tokens never compare equal under the comparator
      as written. */
  lemma AsWrittenStrict(a: string, b: string)
    requires IsSemesterToken(a) && a == Numeral(a) + " " + Year(a)
    requires IsSemesterToken(b) && b == Numeral(b) + " " + Year(b)
    requires a != b
    ensures CompareAsWritten(a, b).Returned? && CompareAsWritten(a, b).order != 0
  {
    SplitSingleSpace(a);
    SplitSingleSpace(b);
    TokenParts(a);
    TokenParts(b);
    if Year(a) == Year(b) {
      assert Numeral(a) != Numeral(b);
    } else {
      LexLessIrreflexive(Year(a));
    }
  }

  /** Splitting a concrete token on ' ' gives the pieces that join back to it. */
  lemma SplitOf(parts: seq<string>, s: string)
    requires |parts| >= 1 && Join(parts, ' ') == s
    requires forall i :: 0 <= i < |parts| ==> ' ' !in parts[i]
    ensures Split(s, ' ') == parts
  {
    SplitJoin(parts, ' ');
  }

  lemma TokenWideGap()
    ensures IsSemesterToken("II  2025")
    ensures Numeral("II  2025") == "II" && Year("II  2025") == "2025"
  {
    var s := "II  2025";
    assert s[..2] == "II" && AllSpace(s[2..4]);
  }

  lemma SplitWideGap()
    ensures Split("II  2025", ' ') == ["II", "", "2025"]
  {
    SplitOf(["II", "", "2025"], "II  2025");
  }

  /** Two spaces after the numeral: the expression accepts the token, but the
      comparator reads its year as "" and puts the 2025 semester before the 2024 one. */
  lemma WideGapMisordered()
    ensures IsSemesterToken("II  2025") && IsSemesterToken("I 2024")
    ensures CompareAsWritten("II  2025", "I 2024") == Returned(-1)
    ensures Precedes("I 2024", "II  2025") && !Precedes("II  2025", "I 2024")
  {
    TokenWideGap();
    SingleSpaceToken("I", "2024");
    assert "I" + " " + "2024" == "I 2024";
    SplitWideGap();
    assert LexLess("", "2024");
    assert LexLess("2024", "2025") && !LexLess("2025", "2024");
  }

  lemma TokenNoBreak()
    ensures IsSemesterToken("II\U{A0}2024")
    ensures Numeral("II\U{A0}2024") == "II" && Year("II\U{A0}2024") == "2024"
  {
    var s := "II\U{A0}2024";
    assert s[..2] == "II" && AllSpace(s[2..3]);
  }

  lemma SplitNoBreak()
    ensures Split("II\U{A0}2024", ' ') == ["II\U{A0}2024"]
  {
    SplitOf(["II\U{A0}2024"], "II\U{A0}2024");
  }

  /** A no-break space after the numeral (U+00A0, which `\s` matches): the expression
      accepts the token, but it holds no ' ', its year is `undefined`, and the
      comparator throws when that token is its first argument. */
  lemma NoBreakSpaceThrows()
    ensures IsSemesterToken("II\U{A0}2024") && IsSemesterToken("I 2023")
    ensures CompareAsWritten("II\U{A0}2024", "I 2023") == ThrowsTypeError
    ensures Precedes("I 2023", "II\U{A0}2024") && !Precedes("II\U{A0}2024", "I 2023")
  {
    TokenNoBreak();
    SingleSpaceToken("I", "2023");
    assert "I" + " " + "2023" == "I 2023";
    SplitNoBreak();
    assert LexLess("2023", "2024") && !LexLess("2024", "2023");
  }
}
