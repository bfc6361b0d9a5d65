# GPA calculator core, modelled in Dafny

The modelled program is a single-page weighted-average (GPA) calculator. `app.js`
holds its logic. The user keeps an academic record: an ordered list of semesters,
each holding an ordered list of courses. A course has a name, credits and a
grade, all kept as the text typed so far. The page offers three things:

- five record operations (`addSemester`, `removeSemester`, `addCourse`,
  `removeCourse`, `updateCourse`), each mapping the current list to a new one;
- two figures computed from the record (`calculateGPA`, `getTotalCredits`);
- an import (`parseImportedData`) that turns pasted, tab-separated transcript
  text into a fresh record, or into `null` when no row can be read.

The Dafny modules follow those parts:

| module | file | what it holds |
|---|---|---|
| `Wrappers` | wrappers.dfy | `Option`, for `null`, `undefined` and `NaN` |
| `Seqs` | seqs.dfy | `Array.prototype.filter` and `Math.max(...ids, 0)` as functions |
| `Text` | text.dfy | `trim`, `split` on one character, the `\s` and `\d` classes, decimal rendering of ids, code-unit string order |
| `Record` | record.dfy | the data model, the five operations as pure functions, the record invariant and what each operation keeps |
| `Aggregates` | aggregates.dfy | `calculateGPA` as a method with loops, proved against the function `Gpa`; `getTotalCredits` as the nested fold it is |
| `SemesterKey` | semester_key.dfy | the semester-token test, the chronological order, the sort comparator as written |
| `Transcript` | transcript.dfy | the import: lines, fields, the row scan, the semester map, the sort, the numbering, and the method `ParseImportedData` |
| `Scenarios` | scenarios.dfy | worked cases, each proved for the model |

Modelling choices:

- `parseFloat` is a parameter `num: string -> Option<real>` of the two figures.
  `None` stands for `NaN`. Course fields stay strings, as in the source.
- The average is the exact real ratio. The two-decimal rendering of `toFixed(2)` is left out.
- The semester map (a JavaScript `Map`) is a sequence of `(token, entries)`
  groups in first-insertion order with distinct tokens.
- `Array.prototype.sort` is modelled as a stable insertion sort under the
  semester order. The language requires `sort` to be stable.
- Whitespace is the ECMAScript WhiteSpace and LineTerminator set, which both
  `trim` and `\s` use. `localeCompare` on the year strings is code-unit order.
  The model proves that this order agrees with numeric order on four-digit years
  (`Text.LexLessDigitsIsNumeric`).

Details of app.js the model keeps:

- A new semester is named `Semestre {id}` (app.js:20).
- The token expression allows any run of whitespace between numeral and year
  (`\s+`, app.js:116).
- `removeCourse` can leave a semester with no course (app.js:48). Only the page
  hides the remove button of the last course. `Scenarios.RemoveLastCourse`
  shows the operation emptying a semester.
- The average counts a course when `parseFloat` of credits and of grade is not
  `NaN` and the credits are above 0 (app.js:80).

## Model

| member | source | states |
|---|---|---|
| `Seqs.Filter` | app.js:27 | the kept elements are exactly those of the input that pass the test; all kept when all pass |
| `Seqs.FilterConcat` | app.js:27 | filtering distributes over concatenation, so it keeps relative order |
| `Seqs.FilterShrinks` | app.js:27 | the filtered list is shorter iff some element fails the test |
| `Seqs.FilterPairwise` | app.js:48 | a relation between every earlier and later element survives filtering |
| `Seqs.MaxOf` | app.js:15 | `Math.max(...ids, 0)` is at least every id and is 0 or one of the ids |
| `Text.Trim` | app.js:105 | trim removes only whitespace, only at the ends, and leaves no whitespace at either end |
| `Text.TrimEmpty` | app.js:100 | a trimmed line is empty exactly when the line is all whitespace |
| `Text.TrimIdempotent` | app.js:105 | trimming twice is trimming once |
| `Text.JoinSplit` | app.js:100 | splitting on a character loses nothing: joining the pieces gives the text back |
| `Text.SplitJoin` | app.js:105 | pieces without the separator are recovered exactly by splitting their join |
| `Text.NatToString` | app.js:20 | the rendered id is canonical decimal (no leading zero) and denotes the id |
| `Text.LexLessTotal` | app.js:147 | any two strings are equal or ordered one way or the other |
| `Text.LexLessTransitive` | app.js:147 | the string order is transitive |
| `Text.LexLessDigitsIsNumeric` | app.js:147 | on digit strings of equal length, text order is numeric order |
| `Record.Initial` | app.js:6-12 | the starting record is one semester `Semestre 1` with one blank course, and it is well formed |
| `Record.NextId` | app.js:15 | the new id exceeds every id in use and is 1 or one more than an id in use |
| `Record.AddSemester` | app.js:14-24 | exactly one semester is appended and all earlier ones are unchanged; its id follows the max+1 rule, its name is `Semestre {id}`, it has one blank course with id 1 |
| `Record.AddSemesterWellFormed` | app.js:14-24 | adding a semester keeps semester ids distinct |
| `Record.RemoveSemester` | app.js:26-28 | every semester with the id is dropped and every other is kept; the record is shorter iff the id occurs; an absent id gives the record back |
| `Record.RemoveSemesterKeepsOrder` | app.js:27 | removal acts on each part of the record separately, so kept semesters stay in order |
| `Record.RemoveSemesterWellFormed` | app.js:26-28 | removing semesters keeps the record invariant |
| `Record.RemoveSemesterUndoesAdd` | app.js:14-28 | removing the semester just added gives the record back |
| `Record.WithCourseAdded` | app.js:32-37 | the matching semester keeps its id, name and courses and gains one blank course with the max+1 course id |
| `Record.AddCourse` | app.js:30-41 | only semesters with the id gain a blank course at the end; every other semester is unchanged; an absent id is a no-op |
| `Record.AddCourseWellFormed` | app.js:30-41 | adding a course keeps course ids distinct within each semester |
| `Record.WithoutCourse` | app.js:45-50 | the matching semester keeps its id and name; every kept course is one of its courses with another id, and every such course is kept |
| `Record.RemoveCourse` | app.js:43-53 | only the matching semester loses the courses with the id; ids and names are kept; absent ids are a no-op |
| `Record.RemoveCourseKeepsOrder` | app.js:48 | removing a course acts on each part of the course list separately and keeps a single course iff its id differs, so the kept courses stay in order, each once |
| `Record.RemoveCourseWellFormed` | app.js:43-53 | removing a course keeps the record invariant |
| `Record.RemoveCourseUndoesAdd` | app.js:30-53 | in a well-formed record, removing the course just added gives the record back |
| `Record.SetField` | app.js:62 | the named field takes the value; the id and the other fields are unchanged |
| `Record.UpdateCourse` | app.js:55-69 | only the named field of the matching course changes; counts, ids, names, order and every other field are kept; absent ids are a no-op |
| `Record.UpdateCourseWellFormed` | app.js:55-69 | updating a field keeps the record invariant |
| `Aggregates.CalculateGpa` | app.js:71-88 | the two accumulating loops return the weighted average `Gpa` of the record |
| `Aggregates.CountedCreditsPositive` | app.js:80-87 | the denominator is never negative and is positive iff some course qualifies, so there is no division by zero |
| `Aggregates.GpaZeroWhenNoneQualifies` | app.js:87 | with no qualifying course the average is 0 |
| `Aggregates.SumsOverQualifying` | app.js:77-83 | a course enters numerator and denominator iff its credits and grade are numeric and credits > 0 |
| `Aggregates.GpaDependsOnlyOnQualifying` | app.js:75-87 | records with the same qualifying courses in the same order have the same average |
| `Aggregates.GpaWithinGrades` | app.js:71-88 | the average lies between the smallest and largest qualifying grade |
| `Aggregates.TotalCreditsIsSum` | app.js:90-97 | the nested fold is the sum of every numeric credit, zero and negative included; a non-numeric credit adds exactly 0 |
| `Aggregates.AddCourseKeepsFigures` | app.js:30-97 | a blank course changes neither the average nor the total |
| `SemesterKey.TokenParts` | app.js:116 | a token is a numeral I to IV, a whitespace run and four ASCII digits |
| `SemesterKey.PrecedesTotal` | app.js:143-151 | any two keys are ordered one way or the other |
| `SemesterKey.PrecedesTransitive` | app.js:143-151 | the semester order is transitive |
| `SemesterKey.PrecedesChronological` | app.js:143-151 | on tokens the order is by numeric year, then rank I < II < III < IV |
| `SemesterKey.SingleSpaceToken` | app.js:116-145 | a numeral, one space and four digits pass the token test, and `split(' ')` cuts them into that numeral and that year |
| `SemesterKey.AsWrittenStrict` | app.js:143-151 | two different single-space tokens never compare equal under the comparator as written |
| `SemesterKey.AsWrittenAgreesOnSingleSpace` | app.js:143-151 | with one space between numeral and year the comparator as written never throws and agrees with the semester order |
| `SemesterKey.WideGapMisordered` | app.js:116-147 | the token `II  2025` passes the test, but the comparator reads its year as empty and puts it before `I 2024` |
| `SemesterKey.NoBreakSpaceThrows` | app.js:116-147 | the token `II` + U+00A0 + `2024` passes the test, but the comparator throws when it is the comparator's first argument |
| `Transcript.LinesAreRows` | app.js:100 | each kept line has no line break and is not blank |
| `Transcript.FieldsAreTrimmed` | app.js:105 | each field is non-empty, has no tab and no whitespace at either end |
| `Transcript.TokenFrom` | app.js:115-120 | the result is the first token among the fourth to third-last fields, or none when there is none |
| `Transcript.FindSemesterPart` | app.js:114-120 | the loop with `break` finds that first token, or the empty text iff there is none |
| `Transcript.LineEntryReads` | app.js:107-134 | a row is read iff it has 7 or more fields and a token in the scanned range; the course is `code - name` with the third field as credits and the last as grade |
| `Transcript.EntryScan` | app.js:107-134 | the method's scan of one row agrees with the row function |
| `Transcript.GroupRowsSpec` | app.js:126-134 | the semester map holds each token once, with exactly the courses of its rows in row order |
| `Transcript.GroupRowsFirstSeen` | app.js:126-128 | the map holds exactly the tokens some row names, ordered by the first row naming each |
| `Transcript.GroupRowsEmpty` | app.js:126-136 | the map is empty iff no row is read |
| `Transcript.Insert` | app.js:143-151 | one insertion step of the sort keeps the groups as a multiset |
| `Transcript.SortGroups` | app.js:143-151 | the sort is a permutation of the semester map |
| `Transcript.SortGroupsSorted` | app.js:143-151 | the sorted map is in the semester order |
| `Transcript.SortGroupsStable` | app.js:143-151 | groups whose keys compare equal keep their map order |
| `Transcript.SortGroupsKeys` | app.js:143 | sorting keeps the same groups and keeps their keys distinct |
| `Transcript.ParseImportedData` | app.js:99-165 | the method with its map building, sort and numbering loops returns `Parse(text)` |
| `Transcript.ParseNullIff` | app.js:164 | the result is `null` iff no row of the text is read |
| `Transcript.ParseNumbering` | app.js:153-162 | semesters are numbered 1..n and the courses of each 1..k, so the record is well formed |
| `Transcript.ParseSemesterCourses` | app.js:126-162 | each semester is named by a token and holds exactly the courses of its rows, in row order |
| `Transcript.ParseSorted` | app.js:143-162 | semester names are distinct and in chronological order |
| `Transcript.ParseAgreesWithComparator` | app.js:143-151 | when every imported token has one ASCII space, the comparator as written returns a negative value on each pair of neighbouring semesters, so the record is in the order app.js sorts it |
| `Transcript.ParseCoversRows` | app.js:126-162 | a token names a semester of the result iff some row names it |
| `Scenarios.AddSemesterAfterGap` | app.js:14-24 | semester ids 1 and 3 give a new semester 4 named `Semestre 4` |
| `Scenarios.RemoveLastCourse` | app.js:43-53 | removing the only course of a semester leaves it with none |
| `Scenarios.WeightedExample` | app.js:71-97 | credits 3 and 4 with grades 80 and 90 give average 600/7 and 7 credits |
| `Scenarios.NonNumericExample` | app.js:71-97 | credits `abc` leave the course out of both figures: average 90, total 4 |
| `Scenarios.NegativeCreditExample` | app.js:71-97 | credits -3 count toward the total and not toward the average |
| `Scenarios.FieldsOfRow` | app.js:105 | plain fields joined by tabs are read back as those fields |
| `Scenarios.LinesOfText` | app.js:100 | plain lines joined by line breaks are read back as those lines |
| `Scenarios.ImportTwoSwapped` | app.js:139-164 | two rows whose second semester sorts first give those two semesters swapped |
| `Scenarios.ImportExample` | app.js:99-165 | rows `II 2024` then `I 2024` import as `I 2024` then `II 2024` with courses `TM6102 - PROG` and `TM6100 - TALLER` |
| `Scenarios.ShortRowNull` | app.js:99-165 | a text whose only row has five fields gives `null` |

## Findings

| source | as written | input that shows it | evidently intended | confidence | as-written member | corrected member |
|---|---|---|---|---|---|---|
| app.js:144-147 | the comparator takes the year as the second piece of `key.split(' ')`, but the token test at app.js:116 accepts any whitespace run between numeral and year | keys `II  2025` (two spaces) and `I 2024`: the year of the first is read as the empty text, so 2025 sorts before 2024 | compare the year and numeral the token test matched | medium, not executed | `SemesterKey.WideGapMisordered` | `SemesterKey.PrecedesChronological` |
| app.js:144-147 | a token whose whitespace is not an ASCII space holds no `' '`, so its year is `undefined` and `undefined.localeCompare` throws | keys `II` + U+00A0 + `2024` and `I 2023`, compared in that order | the same comparison as for a single space | medium, not executed | `SemesterKey.NoBreakSpaceThrows` | `SemesterKey.PrecedesChronological` |

The model's import sorts with the corrected order `SemesterKey.Precedes`. It uses the
numeral up to the first whitespace and the last four characters as the year.
`SemesterKey.AsWrittenAgreesOnSingleSpace` proves that this order agrees with the
comparator as written wherever the token has one ASCII space.

## Left out

- Rendering, `useState`, the mode toggle, the import text state, `handleImport` with its `alert`, and the footer (app.js:167-325): presentation and I/O.
- The page guards that hide the remove buttons (app.js:224, app.js:269): they belong to the view, not to the operations.
- `parseFloat` itself, including its reading of a numeric prefix (`"3abc"` as 3), `Infinity`, and floating-point rounding. Each field's number is an abstract `Option<real>` given by the parameter `num`.
- Aggregates.CalculateGpa: returns the unrounded real; the two-decimal string of `toFixed(2)` is not modelled.
- Aggregates.TotalCredits: sums exact reals, not floating-point numbers.
- Record.UpdateCourse: `field` is one of `name`, `credits`, `grade`. The source would also write any other property name, `id` included. The page only passes those three.
- The JavaScript regular-expression engine and `localeCompare`. They are replaced by the hand-written predicates `SemesterKey.IsSemesterToken` and `Text.LexLess`. `localeCompare` is taken as code-unit order. That is exact when every key has one ASCII space, because the comparator then compares only four-digit ASCII years. On other keys (`SemesterKey.CompareAsWritten` then passes pieces such as `""`), locale order may differ from code-unit order.
- Transcript.ParseImportedData: sorts with the order the token test implies (`SemesterKey.Precedes`), not with the comparator as written (app.js:143-151). With a key that has several whitespace characters between numeral and year, the page can order semesters differently: it puts `II  2025` before `I 2024`, and the model does not (`SemesterKey.WideGapMisordered`). With a key whose whitespace holds no ASCII space, the page's sort can throw a TypeError, which the model never returns (`SemesterKey.NoBreakSpaceThrows`). `Transcript.ParseAgreesWithComparator` proves that the two orders agree when every key has one ASCII space.
- Transcript.SortGroups: the same difference from the comparator as written, for the same keys.
- `Map` object identity: the semester map is a sequence of groups in insertion order.
- Ids are unbounded naturals. JavaScript numbers lose precision above 2^53.
