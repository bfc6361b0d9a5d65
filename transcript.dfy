/** The transcript import of app.js (`parseImportedData`): pasted, tab-separated
    transcript text becomes a record of semesters, one per semester token found in
    the rows, sorted chronologically, with the courses of each in the order of
    their rows. */
module Transcript {
  import opened Wrappers
  import opened Seqs
  import opened Text
  import opened SemesterKey
  import opened Record

  /** A course read from a row, before it is given an id. */
  datatype Entry = Entry(name: string, credits: string, grade: string)

  /** One entry of the semester map: a semester token and its entries in row order. */
  datatype Group = Group(key: string, entries: seq<Entry>)

  // ---------------------------------------------------------------------------
  // Lines and fields

  predicate IsNonBlank(line: string) {
    Trim(line) != []
  }

  /** `text.trim().split('\n').filter(line => line.trim())`. */
  function Lines(text: string): seq<string> {
    Filter(Split(Trim(text), '\n'), IsNonBlank)
  }

  predicate IsNonEmpty(field: string) {
    field != []
  }

  function TrimAll(ps: seq<string>): seq<string> {
    seq(|ps|, i requires 0 <= i < |ps| => Trim(ps[i]))
  }

  /** `line.split(/\t/).map(p => p.trim()).filter(p => p)`. */
  function Fields(line: string): seq<string> {
    Filter(TrimAll(Split(line, '\t')), IsNonEmpty)
  }

  /** The rows the import reads are single lines that are not blank. */
  lemma LinesAreRows(text: string)
    ensures forall i :: 0 <= i < |Lines(text)| ==> '\n' !in Lines(text)[i] && !AllSpace(Lines(text)[i])
  {
    var pieces := Split(Trim(text), '\n');
    forall i | 0 <= i < |Lines(text)|
      ensures '\n' !in Lines(text)[i] && !AllSpace(Lines(text)[i])
    {
      var l := Lines(text)[i];
      assert l in pieces && IsNonBlank(l);
      var k :| 0 <= k < |pieces| && pieces[k] == l;
      TrimEmpty(l);
    }
  }

  /** Trimming a piece that holds no tab gives a trimmed text that holds none. */
  lemma TrimmedPiece(p: string)
    requires '\t' !in p
    ensures '\t' !in Trim(p) && Trim(Trim(p)) == Trim(p)
  {
    var f := Trim(p);
    var a :| 0 <= a <= |p| - |f| && f == p[a..a + |f|] && AllSpace(p[..a]) && AllSpace(p[a + |f|..]);
    forall j | 0 <= j < |f| ensures f[j] != '\t' { assert f[j] == p[a + j]; }
    TrimIdempotent(p);
  }

  /** The fields of a row are non-empty, hold no tab and have no whitespace at
      either end. */
  lemma FieldsAreTrimmed(line: string)
    ensures forall i :: 0 <= i < |Fields(line)| ==>
              Fields(line)[i] != [] && '\t' !in Fields(line)[i] && Trim(Fields(line)[i]) == Fields(line)[i]
  {
    var pieces := Split(line, '\t');
    var trimmed := TrimAll(pieces);
    var fields := Fields(line);
    assert fields == Filter(trimmed, IsNonEmpty);
    forall i | 0 <= i < |fields|
      ensures fields[i] != [] && '\t' !in fields[i] && Trim(fields[i]) == fields[i]
    {
      assert fields[i] in trimmed && IsNonEmpty(fields[i]);
      var k :| 0 <= k < |trimmed| && trimmed[k] == fields[i];
      TrimmedPiece(pieces[k]);
    }
  }

  // ---------------------------------------------------------------------------
  // One row

  /** The first semester token among `parts[from]`, ..., `parts[|parts| - 3]`: the
      search leaves out the last two fields (status and grade). */
  function TokenFrom(parts: seq<string>, from: nat): (r: Option<string>)
    decreases |parts| - from
    ensures r.Some? ==>
              IsSemesterToken(r.value)
              && exists i :: from <= i < |parts| - 2 && parts[i] == r.value
                             && forall j :: from <= j < i ==> !IsSemesterToken(parts[j])
    ensures r.None? <==> forall i :: from <= i < |parts| - 2 ==> !IsSemesterToken(parts[i])
  {
    if from < |parts| - 2 then
      if IsSemesterToken(parts[from]) then Some(parts[from]) else TokenFrom(parts, from + 1)
    else
      None
  }

  /** The scan for the semester field of a row, from the fourth field on; the empty
      text means that none was found. */
  method FindSemesterPart(parts: seq<string>) returns (semesterPart: string)
    ensures semesterPart == TokenFrom(parts, 3).GetOr("")
    ensures semesterPart != "" ==>
              IsSemesterToken(semesterPart)
              && exists i :: 3 <= i < |parts| - 2 && parts[i] == semesterPart
                             && forall j :: 3 <= j < i ==> !IsSemesterToken(parts[j])
    ensures semesterPart == "" <==> forall i :: 3 <= i < |parts| - 2 ==> !IsSemesterToken(parts[i])
  {
    semesterPart := "";
    var i := 3;
    while i < |parts| - 2
      invariant 3 <= i
      invariant TokenFrom(parts, i) == TokenFrom(parts, 3)
      decreases |parts| - i
    {
      if IsSemesterToken(parts[i]) {
        semesterPart := parts[i];
        break;
      }
      i := i + 1;
    }
  }

  /** What a row contributes: its semester token and its course, or nothing when it
      has fewer than seven fields or no semester token where one is looked for. */
  function LineEntry(line: string): Option<(string, Entry)> {
    EntryOfFields(Fields(line))
  }

  /** What a row with the fields `parts` contributes. */
  function EntryOfFields(parts: seq<string>): Option<(string, Entry)> {
    if |parts| >= 7 then
      match TokenFrom(parts, 3)
      case None => None
      case Some(key) => Some((key, Entry(parts[0] + " - " + parts[1], parts[2], parts[|parts| - 1])))
    else
      None
  }

  /** A row is read when it has at least seven fields and one of its fourth to
      third-last fields is a semester token; the course is named by code and name
      and takes the third field as credits and the last as grade. */
  lemma LineEntryReads(line: string)
    ensures LineEntry(line).Some? <==>
              |Fields(line)| >= 7 && exists i :: 3 <= i < |Fields(line)| - 2 && IsSemesterToken(Fields(line)[i])
    ensures LineEntry(line).Some? ==>
              var parts := Fields(line);
              IsSemesterToken(LineEntry(line).value.0)
              && LineEntry(line).value.1
                 == Entry(parts[0] + " - " + parts[1], parts[2], parts[|parts| - 1])
  {
  }

  // ---------------------------------------------------------------------------
  // The semester map

  /** What one row contributes: a semester token and a course, or nothing. */
  type Row = Option<(string, Entry)>

  function Rows(lines: seq<string>): seq<Row> {
    seq(|lines|, i requires 0 <= i < |lines| => LineEntry(lines[i]))
  }

  function Keys(m: seq<Group>): seq<string> {
    seq(|m|, i requires 0 <= i < |m| => m[i].key)
  }

  /** `if (!map.has(key)) map.set(key, []); map.get(key).push(e)` on a map whose
      keys are distinct, held as its entries in insertion order. */
  function Push(m: seq<Group>, key: string, e: Entry): seq<Group> {
    if key in Keys(m) then
      seq(|m|, i requires 0 <= i < |m| =>
        if m[i].key == key then Group(key, m[i].entries + [e]) else m[i])
    else
      m + [Group(key, [e])]
  }

  /** The semester map after the rows have been read, one after another. */
  function GroupRows(rows: seq<Row>): seq<Group> {
    if rows == [] then []
    else
      var m := GroupRows(rows[..|rows| - 1]);
      var row := rows[|rows| - 1];
      if row.Some? then Push(m, row.value.0, row.value.1) else m
  }

  /** The courses of the rows that name the semester `key`, in row order: the
      reference the semester map is measured against. */
  function EntriesFor(rows: seq<Row>, key: string): seq<Entry> {
    if rows == [] then []
    else
      var rest := EntriesFor(rows[..|rows| - 1], key);
      var row := rows[|rows| - 1];
      if row.Some? && row.value.0 == key then rest + [row.value.1] else rest
  }

  /** `m` is the semester map of `rows`: it holds each semester token of the rows
      once, with exactly the courses of the rows naming it, in row order. */
  ghost predicate Represents(m: seq<Group>, rows: seq<Row>) {
    Distinct(Keys(m))
    && (forall i :: 0 <= i < |m| ==> m[i].entries == EntriesFor(rows, m[i].key))
    && (forall k :: k in Keys(m) <==> EntriesFor(rows, k) != [])
  }

  /** Reading one more row adds its course to the courses of its token, if any. */
  lemma EntriesForStep(rows: seq<Row>, row: Row, k: string)
    ensures EntriesFor(rows + [row], k)
            == if row.Some? && row.value.0 == k then EntriesFor(rows, k) + [row.value.1] else EntriesFor(rows, k)
  {
    assert (rows + [row])[..|rows|] == rows;
  }

  lemma PushExisting(m: seq<Group>, rows: seq<Row>, key: string, e: Entry)
    requires Represents(m, rows) && key in Keys(m)
    ensures Represents(Push(m, key, e), rows + [Some((key, e))])
  {
    var r := Push(m, key, e);
    assert Keys(r) == Keys(m);
    forall k ensures EntriesFor(rows + [Some((key, e))], k)
                     == if k == key then EntriesFor(rows, k) + [e] else EntriesFor(rows, k) {
      EntriesForStep(rows, Some((key, e)), k);
    }
  }

  lemma PushNew(m: seq<Group>, rows: seq<Row>, key: string, e: Entry)
    requires Represents(m, rows) && key !in Keys(m)
    ensures Represents(Push(m, key, e), rows + [Some((key, e))])
  {
    var r := Push(m, key, e);
    var q := rows + [Some((key, e))];
    assert r == m + [Group(key, [e])];
    assert Keys(r) == Keys(m) + [key];
    forall k ensures EntriesFor(q, k) == if k == key then EntriesFor(rows, k) + [e] else EntriesFor(rows, k) {
      EntriesForStep(rows, Some((key, e)), k);
    }
    forall i | 0 <= i < |r| ensures r[i].entries == EntriesFor(q, r[i].key) {
      if i < |m| {
        assert r[i] == m[i] && Keys(m)[i] == m[i].key;
      } else {
        assert EntriesFor(rows, key) == [];
      }
    }
    forall k ensures k in Keys(r) <==> EntriesFor(q, k) != [] {
      if k == key { assert Keys(r)[|m|] == key; }
    }
  }

  lemma SkipRow(m: seq<Group>, rows: seq<Row>)
    requires Represents(m, rows)
    ensures Represents(m, rows + [None])
  {
    forall k ensures EntriesFor(rows + [None], k) == EntriesFor(rows, k) {
      EntriesForStep(rows, None, k);
    }
  }

  /** The semester map the rows build is the semester map of the rows. */
  lemma {:induction false} GroupRowsSpec(rows: seq<Row>)
    ensures Represents(GroupRows(rows), rows)
  {
    if rows != [] {
      var p := rows[..|rows| - 1];
      var row := rows[|rows| - 1];
      assert rows == p + [row];
      GroupRowsSpec(p);
      var m := GroupRows(p);
      if row.None? {
        SkipRow(m, p);
      } else {
        var (key, e) := row.value;
        if key in Keys(m) { PushExisting(m, p, key, e); } else { PushNew(m, p, key, e); }
      }
    }
  }

  /** The semester map is empty exactly when no row is read. */
  lemma {:induction false} GroupRowsEmpty(rows: seq<Row>)
    ensures GroupRows(rows) == [] <==> forall i :: 0 <= i < |rows| ==> rows[i].None?
  {
    if rows != [] {
      var p := rows[..|rows| - 1];
      GroupRowsEmpty(p);
      var row := rows[|rows| - 1];
      if row.None? {
        forall i | 0 <= i < |rows| - 1 ensures rows[i] == p[i] { }
      } else {
        var m := GroupRows(p);
        if row.value.0 in Keys(m) {
          assert |m| > 0;
        } else {
          assert GroupRows(rows)[|m|].key == row.value.0;
        }
      }
    }
  }

  /** The index of the first row naming `k`, or the number of rows when none does. */
  function FirstRow(rows: seq<Row>, k: string): (n: nat)
    ensures n <= |rows|
    ensures n < |rows| ==> rows[n].Some? && rows[n].value.0 == k
    ensures forall i :: 0 <= i < n && i < |rows| ==> !(rows[i].Some? && rows[i].value.0 == k)
  {
    if rows == [] then 0
    else
      var p := rows[..|rows| - 1];
      var f := FirstRow(p, k);
      if f < |p| then f
      else if rows[|rows| - 1].Some? && rows[|rows| - 1].value.0 == k then |p|
      else |rows|
  }

  /** The semester map holds the tokens the rows name, in the order of their first
      rows: a `Map` iterates its keys in insertion order, and a key is inserted by
      the first row that names it. */
  lemma {:induction false} GroupRowsFirstSeen(rows: seq<Row>)
    ensures forall k :: k in Keys(GroupRows(rows)) <==> FirstRow(rows, k) < |rows|
    ensures forall i, j :: 0 <= i < j < |GroupRows(rows)| ==>
              FirstRow(rows, GroupRows(rows)[i].key) < FirstRow(rows, GroupRows(rows)[j].key)
  {
    if rows != [] {
      var p := rows[..|rows| - 1];
      var row := rows[|rows| - 1];
      GroupRowsFirstSeen(p);
      var m := GroupRows(p);
      var r := GroupRows(rows);
      forall k | FirstRow(p, k) < |p| ensures FirstRow(rows, k) == FirstRow(p, k) { }
      if row.None? {
        assert r == m;
      } else {
        var (key, e) := row.value;
        if key in Keys(m) {
          assert Keys(r) == Keys(m);
          forall i, j | 0 <= i < j < |r|
            ensures FirstRow(rows, r[i].key) < FirstRow(rows, r[j].key)
          {
            assert r[i].key == Keys(m)[i] && r[j].key == Keys(m)[j];
          }
        } else {
          assert r == m + [Group(key, [e])];
          assert Keys(r) == Keys(m) + [key];
          assert FirstRow(rows, key) == |p|;
          forall i, j | 0 <= i < j < |r|
            ensures FirstRow(rows, r[i].key) < FirstRow(rows, r[j].key)
          {
            assert r[i].key == Keys(m)[i];
            if j < |m| { assert r[j].key == Keys(m)[j]; }
          }
        }
      }
    }
  }

  /** A semester with courses is named by some row. */
  lemma {:induction false} EntriesForNamed(rows: seq<Row>, k: string)
    requires EntriesFor(rows, k) != []
    ensures exists i :: 0 <= i < |rows| && rows[i].Some? && rows[i].value.0 == k
  {
    var p := rows[..|rows| - 1];
    var row := rows[|rows| - 1];
    if !(row.Some? && row.value.0 == k) {
      EntriesForNamed(p, k);
      var i :| 0 <= i < |p| && p[i].Some? && p[i].value.0 == k;
      assert rows[i] == p[i];
    }
  }

  // ---------------------------------------------------------------------------
  // Chronological sort

  /** Inserts `g` before the first group it may precede: behind every group it
      cannot precede, and ahead of those it compares equal to. */
  function Insert(g: Group, s: seq<Group>): (r: seq<Group>)
    ensures |r| == |s| + 1
    ensures multiset(r) == multiset(s) + multiset{g}
  {
    if s == [] || Precedes(g.key, s[0].key) then [g] + s
    else
      assert s == [s[0]] + s[1..];
      [s[0]] + Insert(g, s[1..])
  }

  /** `Array.from(map.entries()).sort(...)` with the semester order: a stable sort
      (as `Array.prototype.sort` is required to be), here insertion sort. */
  function SortGroups(gs: seq<Group>): (r: seq<Group>)
    ensures |r| == |gs|
    ensures multiset(r) == multiset(gs)
  {
    if gs == [] then []
    else
      assert gs == [gs[0]] + gs[1..];
      Insert(gs[0], SortGroups(gs[1..]))
  }

  predicate Sorted(s: seq<Group>) {
    forall i, j :: 0 <= i < j < |s| ==> Precedes(s[i].key, s[j].key)
  }

  lemma InsertMember(g: Group, s: seq<Group>, x: Group)
    requires x in Insert(g, s)
    ensures x == g || x in s
  {
    assert x in multiset(Insert(g, s));
    assert x in multiset(s) + multiset{g};
    if x != g { assert x in multiset(s); }
  }

  /** `g` may precede every group it is inserted ahead of. */
  lemma InsertAhead(g: Group, s: seq<Group>)
    requires Sorted(s) && s != [] && Precedes(g.key, s[0].key)
    ensures Sorted([g] + s)
  {
    var r := [g] + s;
    forall i, j | 0 <= i < j < |r| ensures Precedes(r[i].key, r[j].key) {
      if i == 0 {
        if j > 1 { PrecedesTransitive(g.key, s[0].key, s[j - 1].key); }
      } else {
        assert r[i] == s[i - 1] && r[j] == s[j - 1];
      }
    }
  }

  /** A group that `g` may not precede stays ahead of it, and so of the rest. */
  lemma InsertBehind(g: Group, s: seq<Group>, t: seq<Group>)
    requires Sorted(s) && s != [] && !Precedes(g.key, s[0].key)
    requires Sorted(t) && forall x :: x in t ==> x == g || x in s[1..]
    ensures Sorted([s[0]] + t)
  {
    PrecedesTotal(g.key, s[0].key);
    var r := [s[0]] + t;
    forall i, j | 0 <= i < j < |r| ensures Precedes(r[i].key, r[j].key) {
      if i == 0 {
        var x := t[j - 1];
        assert x in t;
        if x != g {
          var k :| 0 <= k < |s[1..]| && s[1..][k] == x;
          assert s[k + 1] == x;
        }
      } else {
        assert r[i] == t[i - 1] && r[j] == t[j - 1];
      }
    }
  }

  lemma {:induction false} InsertSorted(g: Group, s: seq<Group>)
    requires Sorted(s)
    ensures Sorted(Insert(g, s))
  {
    if s == [] {
    } else if Precedes(g.key, s[0].key) {
      InsertAhead(g, s);
    } else {
      var t := Insert(g, s[1..]);
      InsertSorted(g, s[1..]);
      forall x | x in t ensures x == g || x in s[1..] { InsertMember(g, s[1..], x); }
      InsertBehind(g, s, t);
    }
  }

  /** The sorted map is in the semester order. */
  lemma {:induction false} SortGroupsSorted(gs: seq<Group>)
    ensures Sorted(SortGroups(gs))
  {
    if gs != [] {
      SortGroupsSorted(gs[1..]);
      InsertSorted(gs[0], SortGroups(gs[1..]));
    }
  }

  /** Keys are tokens that compare equal: they differ only in the whitespace
      between numeral and year. */
  function EquivalentTo(k: string): Group -> bool {
    (g: Group) => Precedes(g.key, k) && Precedes(k, g.key)
  }

  lemma {:induction false} InsertStable(g: Group, s: seq<Group>, k: string)
    ensures Filter(Insert(g, s), EquivalentTo(k))
            == (if EquivalentTo(k)(g) then [g] else []) + Filter(s, EquivalentTo(k))
  {
    var keep := EquivalentTo(k);
    if s == [] || Precedes(g.key, s[0].key) {
      assert ([g] + s)[1..] == s;
    } else {
      var t := Insert(g, s[1..]);
      InsertStable(g, s[1..], k);
      assert ([s[0]] + t)[1..] == t;
      if keep(g) && keep(s[0]) {
        PrecedesTransitive(g.key, k, s[0].key);
        assert false;
      }
    }
  }

  /** The sort is stable: groups whose keys compare equal keep their order in the
      map. */
  lemma {:induction false} SortGroupsStable(gs: seq<Group>, k: string)
    ensures Filter(SortGroups(gs), EquivalentTo(k)) == Filter(gs, EquivalentTo(k))
  {
    if gs != [] {
      SortGroupsStable(gs[1..], k);
      InsertStable(gs[0], SortGroups(gs[1..]), k);
    }
  }

  /** Sorting moves groups but keeps the same keys and so keeps them distinct. */
  lemma {:induction false} SortGroupsKeys(gs: seq<Group>)
    ensures forall g :: g in SortGroups(gs) <==> g in gs
    ensures Distinct(Keys(gs)) ==> Distinct(Keys(SortGroups(gs)))
  {
    var r := SortGroups(gs);
    forall g ensures g in r <==> g in gs {
      assert g in r <==> g in multiset(r);
      assert g in gs <==> g in multiset(gs);
    }
    if Distinct(Keys(gs)) {
      forall i, j | 0 <= i < j < |r| ensures r[i].key != r[j].key {
        if r[i].key == r[j].key {
          assert r[i] in gs && r[j] in gs;
          var a :| 0 <= a < |gs| && gs[a] == r[i];
          var b :| 0 <= b < |gs| && gs[b] == r[j];
          assert Keys(gs)[a] == Keys(gs)[b];
          assert a == b;
          assert r[i] == r[j];
          MultisetCountTwo(r, i, j);
          assert multiset(gs)[r[i]] >= 2;
          DistinctCountOne(gs, a);
          assert false;
        }
      }
    }
  }

  /** An element at two positions of a sequence occurs at least twice in it. */
  lemma {:induction false} MultisetCountTwo<T>(s: seq<T>, i: nat, j: nat)
    requires i < j < |s| && s[i] == s[j]
    ensures multiset(s)[s[i]] >= 2
  {
    assert s == s[..i] + [s[i]] + s[i + 1..j] + [s[j]] + s[j + 1..];
  }

  /** With distinct keys, each group occurs once. */
  lemma {:induction false} DistinctCountOne(gs: seq<Group>, a: nat)
    requires Distinct(Keys(gs)) && a < |gs|
    ensures multiset(gs)[gs[a]] == 1
  {
    var x := gs[a];
    assert gs == gs[..a] + [x] + gs[a + 1..];
    assert x !in gs[..a] by {
      forall b | 0 <= b < a ensures gs[..a][b] != x { assert Keys(gs)[b] != Keys(gs)[a]; }
    }
    assert x !in gs[a + 1..] by {
      var u := gs[a + 1..];
      forall b | 0 <= b < |u| ensures u[b] != x {
        assert Keys(gs)[a] != Keys(gs)[a + 1 + b];
      }
    }
  }

  // ---------------------------------------------------------------------------
  // The record built from the sorted map

  /** `courses.map((course, idx) => ({ id: idx + 1, ...course }))`. */
  function NumberCourses(es: seq<Entry>): seq<Course> {
    seq(|es|, j requires 0 <= j < |es| => Course(j + 1, es[j].name, es[j].credits, es[j].grade))
  }

  /** One semester per group, numbered from 1 in sorted order and named by its key. */
  function Numbered(gs: seq<Group>): seq<Semester> {
    seq(|gs|, i requires 0 <= i < |gs| => Semester(i + 1, gs[i].key, NumberCourses(gs[i].entries)))
  }

  lemma GroupRowsStep(rows: seq<Row>, k: nat)
    requires k < |rows|
    ensures GroupRows(rows[..k + 1])
            == if rows[k].Some? then Push(GroupRows(rows[..k]), rows[k].value.0, rows[k].value.1)
               else GroupRows(rows[..k])
  {
    assert rows[..k + 1][..k] == rows[..k];
  }

  /** The scan of one row in `parseImportedData` reads it as `LineEntry` does. */
  lemma EntryScan(parts: seq<string>, semesterPart: string)
    requires |parts| >= 7 && semesterPart == TokenFrom(parts, 3).GetOr("")
    ensures semesterPart == "" ==> EntryOfFields(parts) == None
    ensures semesterPart != "" ==>
              EntryOfFields(parts) == Some((semesterPart, Entry(parts[0] + " - " + parts[1], parts[2], parts[|parts| - 1])))
  {
    var found := TokenFrom(parts, 3);
    if found.Some? {
      assert IsSemesterToken(found.value);
      assert found.value != "";
    }
  }

  lemma NumberedStep(gs: seq<Group>, i: nat)
    requires i < |gs|
    ensures Numbered(gs[..i + 1]) == Numbered(gs[..i]) + [Semester(i + 1, gs[i].key, NumberCourses(gs[i].entries))]
  {
  }

  /** The rows of a pasted text, as the import reads them. */
  function RowsOf(text: string): seq<Row> {
    Rows(Lines(text))
  }

  /** What `parseImportedData(text)` returns: the record, or `None` for `null`
      when no row was read. */
  function Parse(text: string): Option<seq<Semester>> {
    Build(RowsOf(text))
  }

  /** The record the rows make: their semester map, sorted and numbered, or
      `None` when the map is empty. */
  function Build(rows: seq<Row>): Option<seq<Semester>> {
    var sorted := SortGroups(GroupRows(rows));
    if |sorted| > 0 then Some(Numbered(sorted)) else None
  }

  /** `parseImportedData`: reads the rows into the semester map, sorts it and
      numbers the semesters and their courses. */
  method ParseImportedData(text: string) returns (r: Option<seq<Semester>>)
    ensures r == Parse(text)
  {
    var lines := Lines(text);
    ghost var rows := Rows(lines);
    var semesterMap: seq<Group> := [];
    for k := 0 to |lines|
      invariant semesterMap == GroupRows(rows[..k])
    {
      GroupRowsStep(rows, k);
      assert rows[k] == LineEntry(lines[k]);
      var parts := Fields(lines[k]);
      if |parts| >= 7 {
        var semesterPart := FindSemesterPart(parts);
        EntryScan(parts, semesterPart);
        if semesterPart != "" {
          var grade := parts[|parts| - 1];
          var entry := Entry(parts[0] + " - " + parts[1], parts[2], grade);
          assert rows[k] == Some((semesterPart, entry));
          semesterMap := Push(semesterMap, semesterPart, entry);
        } else {
          assert rows[k] == None;
        }
      } else {
        assert rows[k] == None;
      }
    }
    assert rows[..|lines|] == rows;

    var sortedSemesters := SortGroups(semesterMap);
    var parsedSemesters: seq<Semester> := [];
    var semesterId := 1;
    for i := 0 to |sortedSemesters|
      invariant parsedSemesters == Numbered(sortedSemesters[..i])
      invariant semesterId == i + 1
    {
      NumberedStep(sortedSemesters, i);
      var g := sortedSemesters[i];
      parsedSemesters := parsedSemesters + [Semester(semesterId, g.key, NumberCourses(g.entries))];
      semesterId := semesterId + 1;
    }
    assert sortedSemesters[..|sortedSemesters|] == sortedSemesters;
    r := if |parsedSemesters| > 0 then Some(parsedSemesters) else None;
  }

  // ---------------------------------------------------------------------------
  // Properties of the import

  /** The import gives `null` exactly when no row of the text is read. */
  lemma ParseNullIff(text: string)
    ensures Parse(text).None? <==> forall i :: 0 <= i < |Lines(text)| ==> LineEntry(Lines(text)[i]).None?
  {
    var rows := RowsOf(text);
    GroupRowsEmpty(rows);
    assert forall i :: 0 <= i < |rows| ==> rows[i] == LineEntry(Lines(text)[i]);
  }

  /** An imported record satisfies the record invariant: semesters are numbered
      1, 2, ... in order and the courses of each 1, 2, ... in order. */
  lemma ParseNumbering(text: string, ss: seq<Semester>)
    requires Parse(text) == Some(ss)
    ensures WellFormed(ss)
    ensures forall i :: 0 <= i < |ss| ==>
              ss[i].id == i + 1 && forall j :: 0 <= j < |ss[i].courses| ==> ss[i].courses[j].id == j + 1
  {
    NumberedIds(SortGroups(GroupRows(RowsOf(text))));
  }

  lemma NumberedIds(gs: seq<Group>)
    ensures WellFormed(Numbered(gs))
    ensures forall i :: 0 <= i < |Numbered(gs)| ==>
              Numbered(gs)[i].id == i + 1
              && forall j :: 0 <= j < |Numbered(gs)[i].courses| ==> Numbered(gs)[i].courses[j].id == j + 1
  {
    var ss := Numbered(gs);
    forall i, j | 0 <= i < j < |SemesterIds(ss)| ensures SemesterIds(ss)[i] != SemesterIds(ss)[j] {
      assert SemesterIds(ss)[i] == i + 1;
    }
    forall i | 0 <= i < |ss| ensures Distinct(CourseIds(ss[i].courses)) {
      var cs := ss[i].courses;
      forall a, b | 0 <= a < b < |CourseIds(cs)| ensures CourseIds(cs)[a] != CourseIds(cs)[b] {
        assert CourseIds(cs)[a] == a + 1;
      }
    }
  }

  /** A key of the semester map is a semester token named by some row. */
  lemma MapKeyIsToken(text: string, k: string)
    requires EntriesFor(RowsOf(text), k) != []
    ensures IsSemesterToken(k)
  {
    var rows := RowsOf(text);
    EntriesForNamed(rows, k);
    var i :| 0 <= i < |rows| && rows[i].Some? && rows[i].value.0 == k;
    LineEntryReads(Lines(text)[i]);
  }

  /** Each imported semester is named by a semester token of the rows and holds
      exactly the courses of the rows naming it, in row order, numbered from 1. */
  lemma ParseSemesterCourses(text: string, ss: seq<Semester>)
    requires Parse(text) == Some(ss)
    ensures forall i :: 0 <= i < |ss| ==>
              IsSemesterToken(ss[i].name)
              && ss[i].courses == NumberCourses(EntriesFor(RowsOf(text), ss[i].name))
              && ss[i].courses != []
  {
    var rows := RowsOf(text);
    var gs := GroupRows(rows);
    var sorted := SortGroups(gs);
    GroupRowsSpec(rows);
    SortGroupsKeys(gs);
    forall i | 0 <= i < |ss|
      ensures IsSemesterToken(ss[i].name)
      ensures ss[i].courses == NumberCourses(EntriesFor(rows, ss[i].name))
      ensures ss[i].courses != []
    {
      assert ss[i] == Semester(i + 1, sorted[i].key, NumberCourses(sorted[i].entries));
      assert sorted[i] in gs;
      var a :| 0 <= a < |gs| && gs[a] == sorted[i];
      assert Keys(gs)[a] == gs[a].key;
      MapKeyIsToken(text, gs[a].key);
    }
  }

  /** The semesters of an imported record are distinct and in chronological order. */
  lemma ParseSorted(text: string, ss: seq<Semester>)
    requires Parse(text) == Some(ss)
    ensures forall i, j :: 0 <= i < j < |ss| ==> Precedes(ss[i].name, ss[j].name) && ss[i].name != ss[j].name
  {
    var gs := GroupRows(RowsOf(text));
    var sorted := SortGroups(gs);
    GroupRowsSpec(RowsOf(text));
    SortGroupsKeys(gs);
    SortGroupsSorted(gs);
    forall i, j | 0 <= i < j < |ss| ensures Precedes(ss[i].name, ss[j].name) && ss[i].name != ss[j].name {
      assert ss[i].name == sorted[i].key && ss[j].name == sorted[j].key;
      assert Keys(sorted)[i] != Keys(sorted)[j];
    }
  }

  /** Where every imported semester's token has one ASCII space between numeral and
      year, the sort comparator as written never throws on the record and puts each
      semester strictly before the next: the record is in the order app.js sorts it. */
  lemma ParseAgreesWithComparator(text: string, ss: seq<Semester>)
    requires Parse(text) == Some(ss)
    requires forall i :: 0 <= i < |ss| ==> ss[i].name == Numeral(ss[i].name) + " " + Year(ss[i].name)
    ensures forall i :: 0 <= i < |ss| - 1 ==>
              CompareAsWritten(ss[i].name, ss[i + 1].name).Returned?
              && CompareAsWritten(ss[i].name, ss[i + 1].name).order < 0
  {
    ParseSorted(text, ss);
    ParseSemesterCourses(text, ss);
    forall i | 0 <= i < |ss| - 1
      ensures CompareAsWritten(ss[i].name, ss[i + 1].name).Returned?
      ensures CompareAsWritten(ss[i].name, ss[i + 1].name).order < 0
    {
      var a, b := ss[i].name, ss[i + 1].name;
      AsWrittenAgreesOnSingleSpace(a, b);
      AsWrittenStrict(a, b);
    }
  }

  /** Every semester token some row names becomes a semester of the record, and
      nothing else does. */
  lemma ParseCoversRows(text: string, ss: seq<Semester>, k: string)
    requires Parse(text) == Some(ss)
    ensures (exists i :: 0 <= i < |ss| && ss[i].name == k) <==> EntriesFor(RowsOf(text), k) != []
  {
    var rows := RowsOf(text);
    var gs := GroupRows(rows);
    var sorted := SortGroups(gs);
    GroupRowsSpec(rows);
    SortGroupsKeys(gs);
    if exists i :: 0 <= i < |ss| && ss[i].name == k {
      var i :| 0 <= i < |ss| && ss[i].name == k;
      assert ss[i].name == sorted[i].key;
      assert sorted[i] in gs;
      var a :| 0 <= a < |gs| && gs[a] == sorted[i];
      assert Keys(gs)[a] == k;
    }
    if EntriesFor(rows, k) != [] {
      assert k in Keys(gs);
      var a :| 0 <= a < |gs| && Keys(gs)[a] == k;
      assert gs[a] in sorted;
      var i :| 0 <= i < |sorted| && sorted[i] == gs[a];
      assert ss[i].name == k;
    }
  }
}
