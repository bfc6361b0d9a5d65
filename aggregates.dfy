/** The two figures the page shows below the record: the credit-weighted average of
    `calculateGPA` and the credit total of `getTotalCredits`. Both read the credits
    and grade text through `parseFloat`, which the model takes as a parameter
    `num`: the number a text denotes, or `None` where `parseFloat` gives `NaN`. */
module Aggregates {
  import opened Wrappers
  import opened Seqs
  import opened Record

  /** What `parseFloat` makes of a field's text; `None` stands for `NaN`. */
  type ParseFloat = string -> Option<real>

  /** Every course of every semester, in page order (the two nested `forEach`). */
  function AllCourses(ss: seq<Semester>): seq<Course> {
    if ss == [] then [] else AllCourses(ss[..|ss| - 1]) + ss[|ss| - 1].courses
  }

  lemma {:induction false} AllCoursesConcat(a: seq<Semester>, b: seq<Semester>)
    ensures AllCourses(a + b) == AllCourses(a) + AllCourses(b)
  {
    if b == [] {
      assert a + b == a;
    } else {
      var b' := b[..|b| - 1];
      assert (a + b)[..|a + b| - 1] == a + b';
      AllCoursesConcat(a, b');
    }
  }

  /** The filter of `calculateGPA`: numeric credits, numeric grade and credits above 0. */
  predicate Qualifies(c: Course, num: ParseFloat) {
    num(c.credits).Some? && num(c.grade).Some? && num(c.credits).value > 0.0
  }

  /** What a course adds to `totalWeightedGrades`. */
  function Weighted(c: Course, num: ParseFloat): real {
    if Qualifies(c, num) then num(c.grade).value * num(c.credits).value else 0.0
  }

  /** What a course adds to the `totalCredits` of `calculateGPA`. */
  function Counted(c: Course, num: ParseFloat): real {
    if Qualifies(c, num) then num(c.credits).value else 0.0
  }

  function WeightedSum(cs: seq<Course>, num: ParseFloat): real {
    if cs == [] then 0.0 else WeightedSum(cs[..|cs| - 1], num) + Weighted(cs[|cs| - 1], num)
  }

  function CountedCredits(cs: seq<Course>, num: ParseFloat): real {
    if cs == [] then 0.0 else CountedCredits(cs[..|cs| - 1], num) + Counted(cs[|cs| - 1], num)
  }

  /** The average `calculateGPA` returns, before `toFixed(2)` renders it. */
  function Gpa(ss: seq<Semester>, num: ParseFloat): real {
    var cs := AllCourses(ss);
    if CountedCredits(cs, num) > 0.0 then WeightedSum(cs, num) / CountedCredits(cs, num) else 0.0
  }

  /** `calculateGPA`: the two accumulators updated course by course. */
  method CalculateGpa(ss: seq<Semester>, num: ParseFloat) returns (gpa: real)
    ensures gpa == Gpa(ss, num)
  {
    var totalWeightedGrades := 0.0;
    var totalCredits := 0.0;
    for i := 0 to |ss|
      invariant totalWeightedGrades == WeightedSum(AllCourses(ss[..i]), num)
      invariant totalCredits == CountedCredits(AllCourses(ss[..i]), num)
    {
      var courses := ss[i].courses;
      ghost var done := AllCourses(ss[..i]);
      for j := 0 to |courses|
        invariant totalWeightedGrades == WeightedSum(done, num) + WeightedSum(courses[..j], num)
        invariant totalCredits == CountedCredits(done, num) + CountedCredits(courses[..j], num)
      {
        assert courses[..j + 1] == courses[..j] + [courses[j]];
        SumsStep(courses[..j], courses[j], num);
        var credits := num(courses[j].credits);
        var grade := num(courses[j].grade);
        if credits.Some? && grade.Some? && credits.value > 0.0 {
          assert grade.value * credits.value == Weighted(courses[j], num);
          totalWeightedGrades := totalWeightedGrades + grade.value * credits.value;
          totalCredits := totalCredits + credits.value;
        } else {
          assert Weighted(courses[j], num) == 0.0 && Counted(courses[j], num) == 0.0;
        }
      }
      assert courses[..|courses|] == courses;
      SumsConcat(done, courses, num);
      AllCoursesStep(ss, i);
    }
    assert ss[..|ss|] == ss;
    gpa := if totalCredits > 0.0 then totalWeightedGrades / totalCredits else 0.0;
  }

  lemma SumsStep(cs: seq<Course>, c: Course, num: ParseFloat)
    ensures WeightedSum(cs + [c], num) == WeightedSum(cs, num) + Weighted(c, num)
    ensures CountedCredits(cs + [c], num) == CountedCredits(cs, num) + Counted(c, num)
  {
    assert (cs + [c])[..|cs|] == cs;
  }

  lemma AllCoursesStep(ss: seq<Semester>, i: nat)
    requires i < |ss|
    ensures AllCourses(ss[..i + 1]) == AllCourses(ss[..i]) + ss[i].courses
  {
    assert ss[..i + 1][..i] == ss[..i];
  }

  lemma {:induction false} SumsConcat(a: seq<Course>, b: seq<Course>, num: ParseFloat)
    ensures WeightedSum(a + b, num) == WeightedSum(a, num) + WeightedSum(b, num)
    ensures CountedCredits(a + b, num) == CountedCredits(a, num) + CountedCredits(b, num)
  {
    if b == [] {
      assert a + b == a;
    } else {
      var b' := b[..|b| - 1];
      assert (a + b)[..|a + b| - 1] == a + b';
      SumsConcat(a, b', num);
    }
  }

  /** The denominator is positive exactly when some course qualifies: the average
      never divides by zero, and it is 0 when no course qualifies. */
  lemma {:induction false} CountedCreditsPositive(cs: seq<Course>, num: ParseFloat)
    ensures CountedCredits(cs, num) >= 0.0
    ensures CountedCredits(cs, num) > 0.0 <==> exists i :: 0 <= i < |cs| && Qualifies(cs[i], num)
  {
    if cs != [] {
      var init := cs[..|cs| - 1];
      CountedCreditsPositive(init, num);
      if exists i :: 0 <= i < |init| && Qualifies(init[i], num) {
        var i :| 0 <= i < |init| && Qualifies(init[i], num);
        assert cs[i] == init[i];
      }
      if exists i :: 0 <= i < |cs| && Qualifies(cs[i], num) {
        var i :| 0 <= i < |cs| && Qualifies(cs[i], num);
        if i < |init| { assert init[i] == cs[i]; }
      }
    }
  }

  /** With no qualifying course the average is 0. */
  lemma GpaZeroWhenNoneQualifies(ss: seq<Semester>, num: ParseFloat)
    requires forall i :: 0 <= i < |AllCourses(ss)| ==> !Qualifies(AllCourses(ss)[i], num)
    ensures Gpa(ss, num) == 0.0
  {
    CountedCreditsPositive(AllCourses(ss), num);
  }

  /** Only the qualifying courses matter: they enter numerator and denominator, and
      every other course enters neither. */
  lemma {:induction false} SumsOverQualifying(cs: seq<Course>, num: ParseFloat)
    ensures WeightedSum(cs, num) == WeightedSum(Filter(cs, c => Qualifies(c, num)), num)
    ensures CountedCredits(cs, num) == CountedCredits(Filter(cs, c => Qualifies(c, num)), num)
  {
    var q := c => Qualifies(c, num);
    if cs != [] {
      SumsOverQualifying(cs[1..], num);
      assert cs == [cs[0]] + cs[1..];
      SumsConcat([cs[0]], cs[1..], num);
      var f := Filter(cs[1..], q);
      if q(cs[0]) {
        assert Filter(cs, q) == [cs[0]] + f;
        SumsConcat([cs[0]], f, num);
      } else {
        assert Filter(cs, q) == f;
      }
      assert WeightedSum([cs[0]], num) == Weighted(cs[0], num) by { assert [cs[0]][..0] == []; }
      assert CountedCredits([cs[0]], num) == Counted(cs[0], num) by { assert [cs[0]][..0] == []; }
    }
  }

  /** Two records whose qualifying courses are the same, in the same order, have the
      same average, whatever else they hold. */
  lemma GpaDependsOnlyOnQualifying(ss: seq<Semester>, tt: seq<Semester>, num: ParseFloat)
    requires Filter(AllCourses(ss), c => Qualifies(c, num)) == Filter(AllCourses(tt), c => Qualifies(c, num))
    ensures Gpa(ss, num) == Gpa(tt, num)
  {
    SumsOverQualifying(AllCourses(ss), num);
    SumsOverQualifying(AllCourses(tt), num);
  }

  /** Weighted sums lie between the smallest and the largest qualifying grade,
      times the counted credits (stated of the values `t` and `w` of the two sums). */
  lemma {:induction false} WeightedSumBounds(cs: seq<Course>, num: ParseFloat, lo: real, hi: real, t: real, w: real)
    requires t == WeightedSum(cs, num) && w == CountedCredits(cs, num)
    requires forall i :: 0 <= i < |cs| && Qualifies(cs[i], num) ==> lo <= num(cs[i].grade).value <= hi
    ensures lo * w <= t <= hi * w
  {
    if cs != [] {
      var init := cs[..|cs| - 1];
      var c := cs[|cs| - 1];
      var t0, w0 := WeightedSum(init, num), CountedCredits(init, num);
      var t1, w1 := Weighted(c, num), Counted(c, num);
      assert t == t0 + t1 && w == w0 + w1;
      forall i | 0 <= i < |init| && Qualifies(init[i], num) ensures lo <= num(init[i].grade).value <= hi {
        assert init[i] == cs[i];
      }
      WeightedSumBounds(init, num, lo, hi, t0, w0);
      CourseBetween(c, num, lo, hi, t1, w1);
      AddBetween(lo, hi, t0, w0, t1, w1, t, w);
    }
  }

  lemma CourseBetween(c: Course, num: ParseFloat, lo: real, hi: real, t: real, w: real)
    requires t == Weighted(c, num) && w == Counted(c, num)
    requires Qualifies(c, num) ==> lo <= num(c.grade).value <= hi
    ensures lo * w <= t <= hi * w
  {
    if Qualifies(c, num) {
      ScaleBetween(lo, num(c.grade).value, hi, num(c.credits).value);
    }
  }

  lemma ScaleBetween(lo: real, g: real, hi: real, w: real)
    requires lo <= g <= hi && w > 0.0
    ensures lo * w <= g * w <= hi * w
  {
  }

  lemma AddBetween(lo: real, hi: real, t0: real, w0: real, t1: real, w1: real, t: real, w: real)
    requires lo * w0 <= t0 <= hi * w0 && lo * w1 <= t1 <= hi * w1
    requires t == t0 + t1 && w == w0 + w1
    ensures lo * w <= t <= hi * w
  {
  }

  lemma DivideBetween(lo: real, s: real, hi: real, w: real)
    requires lo * w <= s <= hi * w && w > 0.0
    ensures lo <= s / w <= hi
  {
    assert s / w * w == s;
  }

  /** The ratio of the two sums lies between the smallest and the largest
      qualifying grade. */
  lemma RatioWithin(cs: seq<Course>, num: ParseFloat, lo: real, hi: real)
    requires CountedCredits(cs, num) > 0.0
    requires forall i :: 0 <= i < |cs| && Qualifies(cs[i], num) ==> lo <= num(cs[i].grade).value <= hi
    ensures lo <= WeightedSum(cs, num) / CountedCredits(cs, num) <= hi
  {
    var t, w := WeightedSum(cs, num), CountedCredits(cs, num);
    WeightedSumBounds(cs, num, lo, hi, t, w);
    DivideBetween(lo, t, hi, w);
  }

  /** `calculateGPA` is a weighted average: it lies between the smallest and the
      largest grade of the courses it counts. */
  lemma GpaWithinGrades(ss: seq<Semester>, num: ParseFloat, lo: real, hi: real)
    requires exists i :: 0 <= i < |AllCourses(ss)| && Qualifies(AllCourses(ss)[i], num)
    requires forall i :: 0 <= i < |AllCourses(ss)| && Qualifies(AllCourses(ss)[i], num) ==>
               lo <= num(AllCourses(ss)[i].grade).value <= hi
    ensures lo <= Gpa(ss, num) <= hi
  {
    CountedCreditsPositive(AllCourses(ss), num);
    RatioWithin(AllCourses(ss), num, lo, hi);
  }

  /** What a course adds to `getTotalCredits`: its number, or exactly 0 without one. */
  function CreditValue(c: Course, num: ParseFloat): real {
    num(c.credits).GetOr(0.0)
  }

  /** The inner `reduce` of `getTotalCredits`, from the running `semTotal`. */
  function FoldCourses(semTotal: real, cs: seq<Course>, num: ParseFloat): real
    decreases |cs|
  {
    if cs == [] then semTotal else FoldCourses(semTotal + CreditValue(cs[0], num), cs[1..], num)
  }

  /** The outer `reduce` of `getTotalCredits`, from the running `total`. */
  function FoldSemesters(total: real, ss: seq<Semester>, num: ParseFloat): real
    decreases |ss|
  {
    if ss == [] then total
    else FoldSemesters(total + FoldCourses(0.0, ss[0].courses, num), ss[1..], num)
  }

  /** `getTotalCredits`. */
  function TotalCredits(ss: seq<Semester>, num: ParseFloat): real {
    FoldSemesters(0.0, ss, num)
  }

  /** The reference sum: every numeric credit, of any sign. */
  function CreditSum(cs: seq<Course>, num: ParseFloat): real {
    if cs == [] then 0.0 else CreditSum(cs[..|cs| - 1], num) + CreditValue(cs[|cs| - 1], num)
  }

  lemma {:induction false} CreditSumConcat(a: seq<Course>, b: seq<Course>, num: ParseFloat)
    ensures CreditSum(a + b, num) == CreditSum(a, num) + CreditSum(b, num)
  {
    if b == [] {
      assert a + b == a;
    } else {
      var b' := b[..|b| - 1];
      assert (a + b)[..|a + b| - 1] == a + b';
      CreditSumConcat(a, b', num);
    }
  }

  lemma {:induction false} FoldCoursesIsSum(acc: real, cs: seq<Course>, num: ParseFloat)
    ensures FoldCourses(acc, cs, num) == acc + CreditSum(cs, num)
    decreases |cs|
  {
    if cs != [] {
      FoldCoursesIsSum(acc + CreditValue(cs[0], num), cs[1..], num);
      assert cs == [cs[0]] + cs[1..];
      CreditSumConcat([cs[0]], cs[1..], num);
      assert [cs[0]][..0] == [];
    }
  }

  lemma AllCoursesCons(ss: seq<Semester>)
    requires ss != []
    ensures AllCourses(ss) == ss[0].courses + AllCourses(ss[1..])
  {
    assert ss == [ss[0]] + ss[1..];
    AllCoursesConcat([ss[0]], ss[1..]);
    assert AllCourses([ss[0]]) == ss[0].courses by { assert [ss[0]][..0] == []; }
  }

  /** The credit sums of the semesters, added up semester by semester. */
  function SemesterSum(ss: seq<Semester>, num: ParseFloat): real {
    if ss == [] then 0.0 else CreditSum(ss[0].courses, num) + SemesterSum(ss[1..], num)
  }

  lemma {:induction false} FoldSemestersIsSum(acc: real, ss: seq<Semester>, num: ParseFloat)
    ensures FoldSemesters(acc, ss, num) == acc + SemesterSum(ss, num)
    decreases |ss|
  {
    if ss != [] {
      var first := FoldCourses(0.0, ss[0].courses, num);
      FoldSemestersIsSum(acc + first, ss[1..], num);
      FoldCoursesIsSum(0.0, ss[0].courses, num);
    }
  }

  lemma {:induction false} SemesterSumIsSum(ss: seq<Semester>, num: ParseFloat)
    ensures SemesterSum(ss, num) == CreditSum(AllCourses(ss), num)
  {
    if ss != [] {
      SemesterSumIsSum(ss[1..], num);
      SumOfCons(ss, num);
    }
  }

  /** The credit sum of a record is that of its first semester plus that of the rest. */
  lemma SumOfCons(ss: seq<Semester>, num: ParseFloat)
    requires ss != []
    ensures CreditSum(AllCourses(ss), num) == CreditSum(ss[0].courses, num) + CreditSum(AllCourses(ss[1..]), num)
  {
    AllCoursesCons(ss);
    CreditSumConcat(ss[0].courses, AllCourses(ss[1..]), num);
  }

  /** `getTotalCredits` is the sum of the numeric credits of every course, zero and
      negative ones included; a course without numeric credits adds exactly 0. */
  lemma TotalCreditsIsSum(ss: seq<Semester>, num: ParseFloat)
    ensures TotalCredits(ss, num) == CreditSum(AllCourses(ss), num)
  {
    FoldSemestersIsSum(0.0, ss, num);
    SemesterSumIsSum(ss, num);
  }

  lemma AddCoursePrefix(ss: seq<Semester>, id: nat, n: nat)
    requires n <= |ss|
    ensures AddCourse(ss, id)[..n] == AddCourse(ss[..n], id)
  {
  }

  /** Appending a blank course to one semester's list changes no sum. */
  lemma BlankAddsNothing(cs: seq<Course>, b: Course, num: ParseFloat)
    requires num("") == None && b == Blank(b.id)
    ensures WeightedSum(cs + [b], num) == WeightedSum(cs, num)
    ensures CountedCredits(cs + [b], num) == CountedCredits(cs, num)
    ensures CreditSum(cs + [b], num) == CreditSum(cs, num)
  {
    assert (cs + [b])[..|cs|] == cs;
  }

  /** The sums over a record are those over all but its last semester plus those
      over the last semester's courses. */
  lemma LastSemesterSums(ss: seq<Semester>, num: ParseFloat)
    requires ss != []
    ensures var n := |ss| - 1;
            WeightedSum(AllCourses(ss), num) == WeightedSum(AllCourses(ss[..n]), num) + WeightedSum(ss[n].courses, num)
            && CountedCredits(AllCourses(ss), num) == CountedCredits(AllCourses(ss[..n]), num) + CountedCredits(ss[n].courses, num)
            && CreditSum(AllCourses(ss), num) == CreditSum(AllCourses(ss[..n]), num) + CreditSum(ss[n].courses, num)
  {
    var n := |ss| - 1;
    SumsConcat(AllCourses(ss[..n]), ss[n].courses, num);
    CreditSumConcat(AllCourses(ss[..n]), ss[n].courses, num);
  }

  /** A blank course (empty text parses to `NaN`) changes no sum: `addCourse`
      leaves the figures the page shows as they were. */
  lemma {:induction false} AddCourseKeepsSums(ss: seq<Semester>, id: nat, num: ParseFloat)
    requires num("") == None
    ensures WeightedSum(AllCourses(AddCourse(ss, id)), num) == WeightedSum(AllCourses(ss), num)
    ensures CountedCredits(AllCourses(AddCourse(ss, id)), num) == CountedCredits(AllCourses(ss), num)
    ensures CreditSum(AllCourses(AddCourse(ss, id)), num) == CreditSum(AllCourses(ss), num)
  {
    if ss != [] {
      var n := |ss| - 1;
      var r := AddCourse(ss, id);
      AddCoursePrefix(ss, id, n);
      AddCourseKeepsSums(ss[..n], id, num);
      LastSemesterSums(ss, num);
      LastSemesterSums(r, num);
      if ss[n].id == id {
        var k := |ss[n].courses|;
        assert r[n].courses == ss[n].courses + [r[n].courses[k]];
        BlankAddsNothing(ss[n].courses, r[n].courses[k], num);
      }
    }
  }

  lemma AddCourseKeepsFigures(ss: seq<Semester>, id: nat, num: ParseFloat)
    requires num("") == None
    ensures Gpa(AddCourse(ss, id), num) == Gpa(ss, num)
    ensures TotalCredits(AddCourse(ss, id), num) == TotalCredits(ss, num)
  {
    AddCourseKeepsSums(ss, id, num);
    TotalCreditsIsSum(ss, num);
    TotalCreditsIsSum(AddCourse(ss, id), num);
  }
}
