/** Worked cases of the record operations, the two figures and the transcript
    import, each stated as the page would show it. */
module Scenarios {
  import opened Wrappers
  import opened Seqs
  import opened Text
  import opened SemesterKey
  import opened Record
  import opened Aggregates
  import opened Transcript

  /** A record with semester ids 1 and 3 gets a new semester with id 4. */
  lemma AddSemesterAfterGap()
    ensures var ss := [Semester(1, "Semestre 1", [Blank(1)]), Semester(3, "Semestre 3", [Blank(1)])];
            AddSemester(ss)[2].id == 4 && AddSemester(ss)[2].name == "Semestre 4"
  {
    var ss := [Semester(1, "Semestre 1", [Blank(1)]), Semester(3, "Semestre 3", [Blank(1)])];
    assert SemesterIds(ss) == [1, 3];
    assert NatToString(4) == "4";
  }

  /** `removeCourse` may take the last course of a semester, leaving it empty. */
  lemma RemoveLastCourse()
    ensures RemoveCourse([Semester(1, "Semestre 1", [Blank(1)])], 1, 1) == [Semester(1, "Semestre 1", [])]
  {
    var s := Semester(1, "Semestre 1", [Blank(1)]);
    assert Filter(s.courses, CourseOtherThan(1)) == [];
  }

  /** The two courses of a one-semester record, credits and grade as typed. */
  function TwoCourses(credits1: string): seq<Semester> {
    [Semester(1, "Semestre 1", [Course(1, "A", credits1, "80"), Course(2, "B", "4", "90")])]
  }

  lemma TwoCoursesFlat(credits1: string)
    ensures AllCourses(TwoCourses(credits1)) == [Course(1, "A", credits1, "80"), Course(2, "B", "4", "90")]
  {
    var ss := TwoCourses(credits1);
    assert ss[..0] == [];
  }

  lemma TwoCoursesSums(credits1: string, num: ParseFloat)
    ensures var cs := AllCourses(TwoCourses(credits1));
            WeightedSum(cs, num) == Weighted(cs[0], num) + Weighted(cs[1], num)
            && CountedCredits(cs, num) == Counted(cs[0], num) + Counted(cs[1], num)
            && CreditSum(cs, num) == CreditValue(cs[0], num) + CreditValue(cs[1], num)
  {
    var cs := AllCourses(TwoCourses(credits1));
    TwoCoursesFlat(credits1);
    var first := cs[..1];
    assert cs[..|cs| - 1] == first && first[..|first| - 1] == [] && first[0] == cs[0];
    assert WeightedSum(first, num) == Weighted(cs[0], num);
    assert CountedCredits(first, num) == Counted(cs[0], num);
    assert CreditSum(first, num) == CreditValue(cs[0], num);
  }

  /** Credits 3 and 4 with grades 80 and 90: average 600/7 (85.71 once rounded),
      7 credits in all. */
  lemma WeightedExample(num: ParseFloat)
    requires num("3") == Some(3.0) && num("4") == Some(4.0)
    requires num("80") == Some(80.0) && num("90") == Some(90.0)
    ensures Gpa(TwoCourses("3"), num) == 600.0 / 7.0
    ensures TotalCredits(TwoCourses("3"), num) == 7.0
  {
    TwoCoursesFlat("3");
    TwoCoursesSums("3", num);
    TotalCreditsIsSum(TwoCourses("3"), num);
  }

  /** Credits "abc" on the first course: it is left out of both sums, so the
      average is the second course's grade and the total its credits. */
  lemma NonNumericExample(num: ParseFloat)
    requires num("abc") == None && num("4") == Some(4.0)
    requires num("80") == Some(80.0) && num("90") == Some(90.0)
    ensures Gpa(TwoCourses("abc"), num) == 90.0
    ensures TotalCredits(TwoCourses("abc"), num) == 4.0
  {
    TwoCoursesFlat("abc");
    TwoCoursesSums("abc", num);
    TotalCreditsIsSum(TwoCourses("abc"), num);
  }

  /** A negative credit counts toward the total but not toward the average. */
  lemma NegativeCreditExample(num: ParseFloat)
    requires num("-3") == Some(-3.0) && num("4") == Some(4.0)
    requires num("80") == Some(80.0) && num("90") == Some(90.0)
    ensures Gpa(TwoCourses("-3"), num) == 90.0
    ensures TotalCredits(TwoCourses("-3"), num) == 1.0
  {
    TwoCoursesFlat("-3");
    TwoCoursesSums("-3", num);
    TotalCreditsIsSum(TwoCourses("-3"), num);
  }

  // ---------------------------------------------------------------------------
  // The import of two rows of the same year

  /** A field as a transcript row holds it: not empty, without tab or line break,
      and without whitespace at either end. */
  predicate Plain(s: string) {
    s != [] && '\t' !in s && '\n' !in s && !IsSpace(s[0]) && !IsSpace(s[|s| - 1])
  }

  /** A row or a text as pasted: not empty, without line break, and without
      whitespace at either end. */
  predicate PlainLine(s: string) {
    s != [] && '\n' !in s && !IsSpace(s[0]) && !IsSpace(s[|s| - 1])
  }

  /** A join starts with its first piece's first character and ends with its last
      piece's last character. */
  lemma {:induction false} JoinEnds(ps: seq<string>, sep: char)
    requires |ps| >= 1 && forall i :: 0 <= i < |ps| ==> ps[i] != []
    ensures |Join(ps, sep)| >= 1
    ensures Join(ps, sep)[0] == ps[0][0]
    ensures Join(ps, sep)[|Join(ps, sep)| - 1] == ps[|ps| - 1][|ps[|ps| - 1]| - 1]
  {
    if |ps| > 1 {
      JoinEnds(ps[1..], sep);
    }
  }

  /** A character in no piece and other than the separator is not in the join. */
  lemma {:induction false} JoinAvoids(ps: seq<string>, sep: char, c: char)
    requires |ps| >= 1 && c != sep && forall i :: 0 <= i < |ps| ==> c !in ps[i]
    ensures c !in Join(ps, sep)
  {
    if |ps| > 1 {
      JoinAvoids(ps[1..], sep, c);
    }
  }

  /** Fields without whitespace at either end are left as they are by trimming. */
  lemma TrimAllPlain(ps: seq<string>)
    requires forall i :: 0 <= i < |ps| ==> Plain(ps[i])
    ensures TrimAll(ps) == ps
  {
    forall i | 0 <= i < |ps| ensures TrimAll(ps)[i] == ps[i] {
      TrimFixed(ps[i]);
    }
  }

  /** A row of plain fields, joined by tabs, is read back as those fields. */
  lemma FieldsOfRow(ps: seq<string>)
    requires |ps| >= 1 && forall i :: 0 <= i < |ps| ==> Plain(ps[i])
    ensures Fields(Join(ps, '\t')) == ps
  {
    SplitJoin(ps, '\t');
    TrimAllPlain(ps);
    assert forall i :: 0 <= i < |ps| ==> IsNonEmpty(ps[i]);
  }

  /** A row of plain fields is a plain line. */
  lemma RowIsLine(ps: seq<string>)
    requires |ps| >= 1 && forall i :: 0 <= i < |ps| ==> Plain(ps[i])
    ensures PlainLine(Join(ps, '\t'))
  {
    JoinEnds(ps, '\t');
    JoinAvoids(ps, '\t', '\n');
  }

  /** Plain lines are not blank. */
  lemma PlainNonBlank(ls: seq<string>)
    requires forall i :: 0 <= i < |ls| ==> PlainLine(ls[i])
    ensures Filter(ls, IsNonBlank) == ls
  {
    forall i | 0 <= i < |ls| ensures IsNonBlank(ls[i]) {
      NonBlank(ls[i]);
    }
  }

  lemma NonBlank(l: string)
    requires PlainLine(l)
    ensures IsNonBlank(l)
  {
    TrimFixed(l);
  }

  /** Rows of plain text, joined by line breaks, are read back as those rows. */
  lemma LinesOfText(ls: seq<string>)
    requires |ls| >= 1 && forall i :: 0 <= i < |ls| ==> PlainLine(ls[i])
    ensures Lines(Join(ls, '\n')) == ls
  {
    var text := Join(ls, '\n');
    JoinEnds(ls, '\n');
    TrimFixed(text);
    SplitJoin(ls, '\n');
    assert Split(Trim(text), '\n') == ls;
    PlainNonBlank(ls);
  }

  const Row1: seq<string> := ["TM6100", "TALLER", "3", "3", "II 2024", "APROBADO", "10.0"]
  const Row2: seq<string> := ["TM6102", "PROG", "4", "2", "I 2024", "APROBADO", "9.5"]

  lemma Row1Plain()
    ensures forall i :: 0 <= i < |Row1| ==> Plain(Row1[i])
  {
    assert Plain(Row1[0]) && Plain(Row1[1]) && Plain(Row1[2]) && Plain(Row1[3]);
    assert Plain(Row1[4]) && Plain(Row1[5]) && Plain(Row1[6]);
  }

  lemma Row2Plain()
    ensures forall i :: 0 <= i < |Row2| ==> Plain(Row2[i])
  {
    assert Plain(Row2[0]) && Plain(Row2[1]) && Plain(Row2[2]) && Plain(Row2[3]);
    assert Plain(Row2[4]) && Plain(Row2[5]) && Plain(Row2[6]);
  }

  lemma Row1Entry()
    ensures EntryOfFields(Row1) == Some(("II 2024", Entry("TM6100 - TALLER", "3", "10.0")))
  {
    SingleSpaceToken("II", "2024");
    assert "II" + " " + "2024" == "II 2024";
    assert TokenFrom(Row1, 4) == Some("II 2024");
    assert !IsSemesterToken(Row1[3]);
    assert TokenFrom(Row1, 3) == TokenFrom(Row1, 4);
    assert Row1[0] + " - " + Row1[1] == "TM6100 - TALLER";
    assert Row1[|Row1| - 1] == "10.0";
  }

  lemma Row2Entry()
    ensures EntryOfFields(Row2) == Some(("I 2024", Entry("TM6102 - PROG", "4", "9.5")))
  {
    SingleSpaceToken("I", "2024");
    assert "I" + " " + "2024" == "I 2024";
    assert TokenFrom(Row2, 4) == Some("I 2024");
    assert !IsSemesterToken(Row2[3]);
    assert TokenFrom(Row2, 3) == TokenFrom(Row2, 4);
    assert Row2[0] + " - " + Row2[1] == "TM6102 - PROG";
    assert Row2[|Row2| - 1] == "9.5";
  }

  /** The pasted text: the two rows, tab-separated, on two lines. */
  function Pasted(): string {
    Join([Join(Row1, '\t'), Join(Row2, '\t')], '\n')
  }

  lemma Line1Entry()
    ensures PlainLine(Join(Row1, '\t'))
    ensures LineEntry(Join(Row1, '\t')) == Some(("II 2024", Entry("TM6100 - TALLER", "3", "10.0")))
  {
    Row1Plain();
    FieldsOfRow(Row1);
    RowIsLine(Row1);
    Row1Entry();
  }

  lemma Line2Entry()
    ensures PlainLine(Join(Row2, '\t'))
    ensures LineEntry(Join(Row2, '\t')) == Some(("I 2024", Entry("TM6102 - PROG", "4", "9.5")))
  {
    Row2Plain();
    FieldsOfRow(Row2);
    RowIsLine(Row2);
    Row2Entry();
  }

  /** Two plain lines, one after the other, are read as two rows. */
  lemma TwoLineRows(l1: string, l2: string)
    requires PlainLine(l1) && PlainLine(l2)
    ensures RowsOf(Join([l1, l2], '\n')) == [LineEntry(l1), LineEntry(l2)]
  {
    LinesOfText([l1, l2]);
  }

  lemma PastedRows()
    ensures RowsOf(Pasted()) == [Some(("II 2024", Entry("TM6100 - TALLER", "3", "10.0"))),
                                 Some(("I 2024", Entry("TM6102 - PROG", "4", "9.5")))]
  {
    Line1Entry();
    Line2Entry();
    TwoLineRows(Join(Row1, '\t'), Join(Row2, '\t'));
  }

  /** Two rows of different semesters make two groups, in the order read. */
  lemma GroupTwoRows(k1: string, e1: Entry, k2: string, e2: Entry)
    requires k1 != k2
    ensures GroupRows([Some((k1, e1)), Some((k2, e2))]) == [Group(k1, [e1]), Group(k2, [e2])]
  {
    var rows := [Some((k1, e1)), Some((k2, e2))];
    var first := rows[..1];
    assert rows[..|rows| - 1] == first && first[..|first| - 1] == [];
    assert GroupRows(first) == [Group(k1, [e1])];
    assert Keys([Group(k1, [e1])]) == [k1];
  }

  /** Two groups the second of which comes first are swapped by the sort. */
  lemma SortTwoSwapped(g1: Group, g2: Group)
    requires !Precedes(g1.key, g2.key)
    ensures SortGroups([g1, g2]) == [g2, g1]
  {
    assert [g1, g2][1..] == [g2];
    assert SortGroups([g2]) == [g2] by { assert [g2][1..] == []; }
  }

  /** A text of two rows naming different semesters, the second of which comes
      first, is imported as those two semesters swapped. */
  lemma ImportTwoSwapped(k1: string, e1: Entry, k2: string, e2: Entry)
    requires k1 != k2 && !Precedes(k1, k2)
    ensures Build([Some((k1, e1)), Some((k2, e2))]) == Some([
              Semester(1, k2, [Course(1, e2.name, e2.credits, e2.grade)]),
              Semester(2, k1, [Course(1, e1.name, e1.credits, e1.grade)])])
  {
    var g1, g2 := Group(k1, [e1]), Group(k2, [e2]);
    GroupTwoRows(k1, e1, k2, e2);
    SortTwoSwapped(g1, g2);
    var sorted := SortGroups(GroupRows([Some((k1, e1)), Some((k2, e2))]));
    assert sorted == [g2, g1];
    assert NumberCourses([e1]) == [Course(1, e1.name, e1.credits, e1.grade)];
    assert NumberCourses([e2]) == [Course(1, e2.name, e2.credits, e2.grade)];
    assert Numbered(sorted)[0] == Semester(1, k2, [Course(1, e2.name, e2.credits, e2.grade)]);
    assert Numbered(sorted)[1] == Semester(2, k1, [Course(1, e1.name, e1.credits, e1.grade)]);
    assert Numbered(sorted) == [Numbered(sorted)[0], Numbered(sorted)[1]];
  }

  lemma SecondBeforeFirst()
    ensures !Precedes("II 2024", "I 2024")
  {
    SingleSpaceToken("II", "2024");
    assert "II" + " " + "2024" == "II 2024";
    SingleSpaceToken("I", "2024");
    assert "I" + " " + "2024" == "I 2024";
  }

  /** Rows "II 2024" then "I 2024" of one year: the record lists "I 2024" then
      "II 2024", each with its one course, named by code and name. */
  lemma ImportExample()
    ensures Parse(Pasted()) == Some([
              Semester(1, "I 2024", [Course(1, "TM6102 - PROG", "4", "9.5")]),
              Semester(2, "II 2024", [Course(1, "TM6100 - TALLER", "3", "10.0")])])
  {
    PastedRows();
    SecondBeforeFirst();
    ImportTwoSwapped("II 2024", Entry("TM6100 - TALLER", "3", "10.0"),
                     "I 2024", Entry("TM6102 - PROG", "4", "9.5"));
  }

  /** A text of one plain line is read as one row. */
  lemma OneLineRows(l: string)
    requires PlainLine(l)
    ensures RowsOf(l) == [LineEntry(l)]
  {
    assert Join([l], '\n') == l;
    LinesOfText([l]);
  }

  /** A row of five plain fields contributes nothing. */
  lemma FiveFieldsSkipped()
    ensures PlainLine(Join(["A", "B", "C", "D", "E"], '\t'))
    ensures LineEntry(Join(["A", "B", "C", "D", "E"], '\t')) == None
  {
    var ps := ["A", "B", "C", "D", "E"];
    assert Plain(ps[0]) && Plain(ps[1]) && Plain(ps[2]) && Plain(ps[3]) && Plain(ps[4]);
    FieldsOfRow(ps);
    RowIsLine(ps);
  }

  /** A text whose only row has five fields is not imported: the import gives `null`. */
  lemma ShortRowNull()
    ensures Parse(Join(["A", "B", "C", "D", "E"], '\t')) == None
  {
    FiveFieldsSkipped();
    OneLineRows(Join(["A", "B", "C", "D", "E"], '\t'));
    GroupRowsEmpty([None]);
  }
}
