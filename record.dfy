/** The academic record of app.js: an ordered list of semesters, each holding an
    ordered list of courses, and the five operations the page applies to it. Each
    operation maps the current list to a new one and leaves the old one as it was. */
module Record {
  import opened Text
  import opened Seqs

  /** A course as the form holds it: credits and grade are the text typed so far. */
  datatype Course = Course(id: nat, name: string, credits: string, grade: string)

  datatype Semester = Semester(id: nat, name: string, courses: seq<Course>)

  /** The course fields the form edits (the `field` argument of `updateCourse`). */
  datatype Field = Name | Credits | Grade

  /** A course with every text field empty, as the form seeds it. */
  function Blank(id: nat): Course {
    Course(id, "", "", "")
  }

  function SemesterIds(ss: seq<Semester>): seq<nat> {
    seq(|ss|, i requires 0 <= i < |ss| => ss[i].id)
  }

  function CourseIds(cs: seq<Course>): seq<nat> {
    seq(|cs|, i requires 0 <= i < |cs| => cs[i].id)
  }

  /** `n` is what `Math.max(...ids, 0) + 1` gives: above every id, and either 1 or
      one more than an id in use. */
  predicate IsMaxPlusOne(n: nat, ids: seq<nat>) {
    (forall i :: 0 <= i < |ids| ==> ids[i] < n) && (n == 1 || n - 1 in ids)
  }

  /** The id allocation rule of app.js: `Math.max(...ids, 0) + 1`. */
  function NextId(ids: seq<nat>): (n: nat)
    ensures IsMaxPlusOne(n, ids)
  {
    MaxOf(ids) + 1
  }

  /** The record invariant: semester ids are distinct, and course ids are distinct
      within each semester. */
  predicate WellFormed(ss: seq<Semester>) {
    Distinct(SemesterIds(ss)) && forall i :: 0 <= i < |ss| ==> Distinct(CourseIds(ss[i].courses))
  }

  /** The name a new semester gets: `Semestre ${newId}`. */
  function DefaultName(id: nat): string {
    "Semestre " + NatToString(id)
  }

  /** The record the page starts with. */
  function Initial(): (r: seq<Semester>)
    ensures WellFormed(r)
    ensures r == [Semester(1, DefaultName(1), [Blank(1)])]
  {
    assert NatToString(1) == "1";
    assert DefaultName(1) == "Semestre 1";
    [Semester(1, "Semestre 1", [Blank(1)])]
  }

  /** `addSemester`. */
  function AddSemester(ss: seq<Semester>): (r: seq<Semester>)
    ensures |r| == |ss| + 1 && r[..|ss|] == ss
    ensures IsMaxPlusOne(r[|ss|].id, SemesterIds(ss))
    ensures r[|ss|].name == DefaultName(r[|ss|].id) && r[|ss|].courses == [Blank(1)]
  {
    var newId := NextId(SemesterIds(ss));
    ss + [Semester(newId, DefaultName(newId), [Blank(1)])]
  }

  /** The test `s => s.id !== semesterId` of `removeSemester`. */
  function SemesterOtherThan(id: nat): Semester -> bool {
    (s: Semester) => s.id != id
  }

  /** `removeSemester`. */
  function RemoveSemester(ss: seq<Semester>, id: nat): (r: seq<Semester>)
    ensures forall i :: 0 <= i < |r| ==> r[i].id != id && r[i] in ss
    ensures forall i :: 0 <= i < |ss| && ss[i].id != id ==> ss[i] in r
    ensures |r| < |ss| <==> exists i :: 0 <= i < |ss| && ss[i].id == id
    ensures (forall i :: 0 <= i < |ss| ==> ss[i].id != id) ==> r == ss
  {
    FilterShrinks(ss, SemesterOtherThan(id));
    Filter(ss, SemesterOtherThan(id))
  }

  /** `semester` with one blank course appended whose id is the course-id rule's. */
  predicate AppendsBlankCourse(before: Semester, after: Semester) {
    var n := |before.courses|;
    after.id == before.id && after.name == before.name
    && |after.courses| == n + 1 && after.courses[..n] == before.courses
    && after.courses[n] == Blank(after.courses[n].id)
    && IsMaxPlusOne(after.courses[n].id, CourseIds(before.courses))
  }

  /** The branch of `addCourse` taken for the matching semester. */
  function WithCourseAdded(s: Semester): (r: Semester)
    ensures AppendsBlankCourse(s, r)
  {
    s.(courses := s.courses + [Blank(NextId(CourseIds(s.courses)))])
  }

  /** `addCourse`. */
  function AddCourse(ss: seq<Semester>, id: nat): (r: seq<Semester>)
    ensures |r| == |ss|
    ensures forall i :: 0 <= i < |ss| ==>
              if ss[i].id == id then AppendsBlankCourse(ss[i], r[i]) else r[i] == ss[i]
    ensures (forall i :: 0 <= i < |ss| ==> ss[i].id != id) ==> r == ss
  {
    seq(|ss|, i requires 0 <= i < |ss| => if ss[i].id == id then WithCourseAdded(ss[i]) else ss[i])
  }

  /** The test `c => c.id !== courseId` of `removeCourse`. */
  function CourseOtherThan(id: nat): Course -> bool {
    (c: Course) => c.id != id
  }

  /** No semester with id `semesterId` holds a course with id `courseId`. */
  predicate Absent(ss: seq<Semester>, semesterId: nat, courseId: nat) {
    forall i, j :: 0 <= i < |ss| && ss[i].id == semesterId && 0 <= j < |ss[i].courses| ==>
      ss[i].courses[j].id != courseId
  }

  /** The branch of `removeCourse` taken for the matching semester. */
  function WithoutCourse(s: Semester, courseId: nat): (r: Semester)
    ensures r.id == s.id && r.name == s.name
    ensures forall j :: 0 <= j < |r.courses| ==> r.courses[j].id != courseId && r.courses[j] in s.courses
    ensures forall j :: 0 <= j < |s.courses| && s.courses[j].id != courseId ==> s.courses[j] in r.courses
    ensures (forall j :: 0 <= j < |s.courses| ==> s.courses[j].id != courseId) ==> r == s
  {
    s.(courses := Filter(s.courses, CourseOtherThan(courseId)))
  }

  /** `removeCourse`. */
  function RemoveCourse(ss: seq<Semester>, semesterId: nat, courseId: nat): (r: seq<Semester>)
    ensures |r| == |ss|
    ensures forall i :: 0 <= i < |ss| ==> r[i].id == ss[i].id && r[i].name == ss[i].name
    ensures forall i :: 0 <= i < |ss| && ss[i].id != semesterId ==> r[i] == ss[i]
    ensures forall i :: 0 <= i < |ss| && ss[i].id == semesterId ==>
              (forall j :: 0 <= j < |r[i].courses| ==>
                 r[i].courses[j].id != courseId && r[i].courses[j] in ss[i].courses)
              && (forall j :: 0 <= j < |ss[i].courses| && ss[i].courses[j].id != courseId ==>
                    ss[i].courses[j] in r[i].courses)
    ensures Absent(ss, semesterId, courseId) ==> r == ss
  {
    seq(|ss|, i requires 0 <= i < |ss| =>
      if ss[i].id == semesterId then WithoutCourse(ss[i], courseId) else ss[i])
  }

  /** Reads one editable field of a course. */
  function Get(c: Course, f: Field): string {
    match f
    case Name => c.name
    case Credits => c.credits
    case Grade => c.grade
  }

  /** `{ ...course, [field]: value }`. */
  function SetField(c: Course, f: Field, v: string): (r: Course)
    ensures r.id == c.id && Get(r, f) == v
    ensures forall g :: g != f ==> Get(r, g) == Get(c, g)
  {
    match f
    case Name => c.(name := v)
    case Credits => c.(credits := v)
    case Grade => c.(grade := v)
  }

  /** The branch of `updateCourse` taken for the matching semester. */
  function WithCourseUpdated(s: Semester, courseId: nat, f: Field, v: string): (r: Semester)
    ensures (forall j :: 0 <= j < |s.courses| ==> s.courses[j].id != courseId) ==> r == s
  {
    var cs := seq(|s.courses|, j requires 0 <= j < |s.courses| =>
      if s.courses[j].id == courseId then SetField(s.courses[j], f, v) else s.courses[j]);
    assert (forall j :: 0 <= j < |s.courses| ==> s.courses[j].id != courseId) ==> cs == s.courses;
    s.(courses := cs)
  }

  /** `updateCourse`. */
  function UpdateCourse(ss: seq<Semester>, semesterId: nat, courseId: nat, f: Field, v: string)
    : (r: seq<Semester>)
    ensures |r| == |ss|
    ensures forall i :: 0 <= i < |ss| ==>
              r[i].id == ss[i].id && r[i].name == ss[i].name && |r[i].courses| == |ss[i].courses|
    ensures forall i, j, g :: 0 <= i < |ss| && 0 <= j < |ss[i].courses| ==>
              r[i].courses[j].id == ss[i].courses[j].id
              && Get(r[i].courses[j], g) ==
                   if ss[i].id == semesterId && ss[i].courses[j].id == courseId && g == f then v
                   else Get(ss[i].courses[j], g)
    ensures Absent(ss, semesterId, courseId) ==> r == ss
  {
    seq(|ss|, i requires 0 <= i < |ss| =>
      if ss[i].id == semesterId then WithCourseUpdated(ss[i], courseId, f, v) else ss[i])
  }

  /** `addSemester` keeps the record invariant: the new id is above every id in use. */
  lemma AddSemesterWellFormed(ss: seq<Semester>)
    requires WellFormed(ss)
    ensures WellFormed(AddSemester(ss))
  {
    var r := AddSemester(ss);
    assert forall i :: 0 <= i < |ss| ==> r[i] == ss[i];
    forall i, j | 0 <= i < j < |r| ensures SemesterIds(r)[i] != SemesterIds(r)[j] {
      if j < |ss| {
        assert SemesterIds(ss)[i] != SemesterIds(ss)[j];
      } else {
        assert SemesterIds(ss)[i] < r[|ss|].id;
      }
    }
  }

  /** `removeSemester` keeps the record invariant. */
  lemma RemoveSemesterWellFormed(ss: seq<Semester>, id: nat)
    requires WellFormed(ss)
    ensures WellFormed(RemoveSemester(ss, id))
  {
    var rel := (x: Semester, y: Semester) => x.id != y.id;
    assert forall i, j :: 0 <= i < j < |ss| ==> rel(ss[i], ss[j]) by {
      forall i, j | 0 <= i < j < |ss| ensures rel(ss[i], ss[j]) {
        assert SemesterIds(ss)[i] != SemesterIds(ss)[j];
      }
    }
    FilterPairwise(ss, SemesterOtherThan(id), rel);
    var r := RemoveSemester(ss, id);
    forall i | 0 <= i < |r| ensures Distinct(CourseIds(r[i].courses)) {
      var k :| 0 <= k < |ss| && ss[k] == r[i];
    }
  }

  /** Removing the semester `addSemester` just created gives the record back. */
  lemma {:induction false} RemoveSemesterUndoesAdd(ss: seq<Semester>)
    ensures RemoveSemester(AddSemester(ss), NextId(SemesterIds(ss))) == ss
  {
    var keep := SemesterOtherThan(NextId(SemesterIds(ss)));
    var r := AddSemester(ss);
    assert r == ss + [r[|ss|]];
    FilterConcat(ss, [r[|ss|]], keep);
    assert forall i :: 0 <= i < |ss| ==> keep(ss[i]) by {
      forall i | 0 <= i < |ss| ensures keep(ss[i]) {
        assert SemesterIds(ss)[i] == ss[i].id;
      }
    }
    assert Filter([r[|ss|]], keep) == [];
  }

  /** `removeSemester` keeps the order of what it keeps: it acts on each part of the
      record separately. */
  lemma {:induction false} RemoveSemesterKeepsOrder(a: seq<Semester>, b: seq<Semester>, id: nat)
    ensures RemoveSemester(a + b, id) == RemoveSemester(a, id) + RemoveSemester(b, id)
  {
    FilterConcat(a, b, SemesterOtherThan(id));
  }

  /** `addCourse` keeps the record invariant. */
  lemma AddCourseWellFormed(ss: seq<Semester>, id: nat)
    requires WellFormed(ss)
    ensures WellFormed(AddCourse(ss, id))
  {
    var r := AddCourse(ss, id);
    assert SemesterIds(r) == SemesterIds(ss);
    forall i | 0 <= i < |r| ensures Distinct(CourseIds(r[i].courses)) {
      if ss[i].id == id {
        var n := |ss[i].courses|;
        var cs := r[i].courses;
        assert cs[..n] == ss[i].courses;
        forall j, k | 0 <= j < k < |cs| ensures CourseIds(cs)[j] != CourseIds(cs)[k] {
          if k < n {
            assert CourseIds(ss[i].courses)[j] != CourseIds(ss[i].courses)[k];
          } else {
            assert CourseIds(ss[i].courses)[j] < cs[n].id;
          }
        }
      }
    }
  }

  /** `removeCourse` acts on each part of a semester's course list separately, and
      on one course keeps it exactly when its id differs: so the kept courses stay
      in their order, each once. */
  lemma {:induction false} RemoveCourseKeepsOrder(s: Semester, a: seq<Course>, b: seq<Course>, c: Course, courseId: nat)
    ensures WithoutCourse(s.(courses := a + b), courseId).courses
            == WithoutCourse(s.(courses := a), courseId).courses + WithoutCourse(s.(courses := b), courseId).courses
    ensures WithoutCourse(s.(courses := [c]), courseId).courses == if c.id == courseId then [] else [c]
  {
    FilterConcat(a, b, CourseOtherThan(courseId));
  }

  /** `removeCourse` keeps the record invariant. */
  lemma RemoveCourseWellFormed(ss: seq<Semester>, semesterId: nat, courseId: nat)
    requires WellFormed(ss)
    ensures WellFormed(RemoveCourse(ss, semesterId, courseId))
  {
    var r := RemoveCourse(ss, semesterId, courseId);
    assert SemesterIds(r) == SemesterIds(ss);
    var rel := (x: Course, y: Course) => x.id != y.id;
    forall i | 0 <= i < |r| ensures Distinct(CourseIds(r[i].courses)) {
      if ss[i].id == semesterId {
        var cs := ss[i].courses;
        forall j, k | 0 <= j < k < |cs| ensures rel(cs[j], cs[k]) {
          assert CourseIds(cs)[j] != CourseIds(cs)[k];
        }
        FilterPairwise(cs, CourseOtherThan(courseId), rel);
        assert r[i].courses == Filter(cs, CourseOtherThan(courseId));
      }
    }
  }

  /** `updateCourse` keeps the record invariant: it changes no id. */
  lemma UpdateCourseWellFormed(ss: seq<Semester>, semesterId: nat, courseId: nat, f: Field, v: string)
    requires WellFormed(ss)
    ensures WellFormed(UpdateCourse(ss, semesterId, courseId, f, v))
  {
    var r := UpdateCourse(ss, semesterId, courseId, f, v);
    assert SemesterIds(r) == SemesterIds(ss);
    forall i | 0 <= i < |r| ensures CourseIds(r[i].courses) == CourseIds(ss[i].courses) {
    }
  }

  /** In a well-formed record, removing the course `addCourse` just appended to
      semester `ss[k]` gives the record back. */
  lemma RemoveCourseUndoesAdd(ss: seq<Semester>, k: nat)
    requires WellFormed(ss) && k < |ss|
    ensures RemoveCourse(AddCourse(ss, ss[k].id), ss[k].id, NextId(CourseIds(ss[k].courses))) == ss
  {
    var id := ss[k].id;
    var n := NextId(CourseIds(ss[k].courses));
    var added := AddCourse(ss, id);
    var r := RemoveCourse(added, id, n);
    forall i | 0 <= i < |ss| ensures r[i] == ss[i] {
      if i == k {
        var cs := ss[k].courses;
        var keep := CourseOtherThan(n);
        assert added[k].courses == cs + [Blank(n)];
        FilterConcat(cs, [Blank(n)], keep);
        forall j | 0 <= j < |cs| ensures keep(cs[j]) {
          assert CourseIds(cs)[j] == cs[j].id;
        }
        assert Filter([Blank(n)], keep) == [];
        assert r[k].courses == Filter(cs + [Blank(n)], keep);
      } else {
        assert SemesterIds(ss)[i] != SemesterIds(ss)[k];
      }
    }
  }
}
