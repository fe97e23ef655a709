# Course-update reconciliation between JEX and Canvas

This project models the course-update generator of the JEX–Canvas
integration (`src/generators/generateCourseUpdates.js`). The generator takes
the active courses of the JEX scheduling system and the courses that already
exist in Canvas. It normalises both lists into rows of the Canvas SIS CSV
course import (`course_id, short_name, long_name, status, start_date,
end_date`) and indexes each list by a key. It then intersects the two key
lists and returns the JEX row of every shared key whose JEX and Canvas rows
are not structurally equal.

Files:

- `wrappers.dfy`: `Option` for a missing argument or a missing map entry, and `Result` for a call that may throw.
- `courses.dfy`: field values as JavaScript sees them (`undefined`, `null` or a text), the raw JEX and Canvas records, the canonical `CsvCourse` row, and the two normalisers. It also models JavaScript property access by name on a row and how a value becomes an object key.
- `ramda.dfy`: the Ramda primitives the generator uses, as functions on sequences and maps. `indexBy` is a left fold and is proved last-write-wins against a separate reference definition (`LastWithKey`). `keys`, `uniq` and `intersection` are also here, with `Filter` for the native array `filter` at line 69 and the filtering inside `intersection`.
- `course_updates.dfy`: the throwing `map` over each fetched list and the diff for any pair of key selectors. It holds the generator as written (selectors `c => c.id` and `c => c.sis_course_id`) and the generator keyed by `course_id`, with the lemmas about both.

The date conversion `DateTime.fromISO(d).toISO()` is a parameter `toIso`
of type `JsValue -> JsValue`. The same conversion is used for both systems.
A missing (falsy) argument to a normaliser is `None`. Ramda's `equals` on two
flat rows is Dafny datatype equality; like `equals`, it tells a field that is
`undefined` from one that is `null`.

The key selectors at lines 61–62 read properties that the normalised row
does not have: it has `course_id`, but not `id` or `sis_course_id`. Every
row of either list therefore gets the object key `"undefined"`. Each index
then holds only the last row of its list, and the generator emits at most
one row. The model keeps these selectors as written and proves this
collapse (`GenerateCourseUpdatesCollapses`). It also models the evidently
intended generator keyed by `course_id` and proves the intended properties
of that generator (see Findings).

Other behaviour of the code that the model keeps:

- The code keys the two indexes by `c.id` and `c.sis_course_id`, not by `course_id` (see Findings).
- The code never checks a date: an unparsable date is whatever the date library prints for it.
- A record without an id is accepted: its `course_id` is copied as `undefined`.
- This generator does not sort. Its output order is the order the intersection gives.

## Model

| member | source | states |
|---|---|---|
| Courses.JexCourseToCanvasCsvFormat | src/generators/generateCourseUpdates.js:15-26 | throws "missing required argument jexCourse" exactly when the argument is missing; otherwise course_id and short_name are the JEX id, long_name is the name, status is "active", and the dates are openDate and closeDate passed through the date conversion |
| Courses.CanvasApiCourseToCanvasCsvFormat | src/generators/generateCourseUpdates.js:28-39 | throws "missing required argument: canvasCourse" exactly when the argument is missing; otherwise sis_course_id, course_code and name become course_id, short_name and long_name, status is "active", and the dates are start_date and end_date passed through the same conversion |
| Courses.NormalizedRowsEqualIff | src/generators/generateCourseUpdates.js:18-38 | a JEX course and a Canvas course normalise to equal rows if and only if the SIS id and the course code both equal the JEX id, the names agree, and both pairs of dates convert to the same text |
| Courses.NormalizedStatusIsActive | src/generators/generateCourseUpdates.js:22-35 | every row either normaliser produces has status "active", whatever the input |
| Courses.Property | src/generators/generateCourseUpdates.js:18-25 | reading a row property by name gives course_id for "course_id", and undefined for any name that is not one of the six columns (inherited object members aside, see Left out) |
| Courses.PropertyKey | src/generators/generateCourseUpdates.js:61-62 | a text used as an object key is itself; undefined becomes the key "undefined" and null the key "null" |
| Courses.UndefinedAndNullNamesDiffer | src/generators/generateCourseUpdates.js:18-38 | a JEX course without a name and a Canvas course whose name is null, otherwise alike, normalise to different rows, so structural equality at line 74 reports them as changed |
| Ramda.Filter | src/generators/generateCourseUpdates.js:69-75 | the result holds exactly the elements that satisfy the predicate, is no longer than the input, and has no repetition when the input has none |
| Ramda.Uniq | src/generators/generateCourseUpdates.js:66 | the result holds the same elements as the input, with no repetition and no more elements |
| Ramda.Intersection | src/generators/generateCourseUpdates.js:66 | the result holds exactly the elements in both lists, without repetition, and is no longer than either list |
| Ramda.LastWithKeyIsLast | src/generators/generateCourseUpdates.js:61-62 | the reference lookup finds nothing exactly when no element has the key; otherwise it finds an element with the key after which no element has that key |
| Ramda.IndexIntoLookup | src/generators/generateCourseUpdates.js:61-62 | folding the list into a map agrees with the reference lookup for every key, and leaves keys absent from the list as they were |
| Ramda.IndexByLastWins | src/generators/generateCourseUpdates.js:61-62 | indexBy is last-write-wins: each key's entry is the last element with that key, and the index has an entry exactly for the keys of the input |
| Ramda.IndexInto | src/generators/generateCourseUpdates.js:61-62 | the fold keeps every key it starts from, and each entry is either an input element stored under its own key or the entry it started with; which element is stated by IndexIntoLookup |
| Ramda.IndexBy | src/generators/generateCourseUpdates.js:61-62 | every entry of the index is an input element stored under its own key; which element is stated by IndexByLastWins |
| Ramda.IndexKeys | src/generators/generateCourseUpdates.js:66 | keys() of the index lists every key of the index once and nothing else |
| CourseUpdates.MapOrThrow | src/generators/generateCourseUpdates.js:58-59 | mapping a throwing normaliser succeeds exactly when every element normalises, and then gives one row per element, in order |
| CourseUpdates.MapOrThrowFirstFailure | src/generators/generateCourseUpdates.js:58-59 | a failed map carries the error of the first element that throws |
| CourseUpdates.JexRows | src/generators/generateCourseUpdates.js:58 | the JEX list normalises exactly when no course is missing, and otherwise throws the JEX message; each row is the normalised course at its position |
| CourseUpdates.CanvasRows | src/generators/generateCourseUpdates.js:59 | the Canvas list normalises exactly when no course is missing, and otherwise throws the Canvas message; each row is the normalised course at its position |
| CourseUpdates.CourseIdsToUpdate | src/generators/generateCourseUpdates.js:66-75 | the keys to reconcile have no repetition, and a key is among them exactly when both indexes hold it and the two rows under it differ |
| CourseUpdates.CoursesToUpdate | src/generators/generateCourseUpdates.js:68-76 | one row per key to reconcile, the JEX index's row for that key; specified against the input lists by CoursesToUpdateCorrect |
| CourseUpdates.CoursesToUpdateCorrect | src/generators/generateCourseUpdates.js:61-76 | one row per distinct key; each emitted row is the last JEX row of its key, a Canvas row with that key exists and differs from it, and every key whose last JEX and last Canvas rows differ is emitted |
| CourseUpdates.ReconcileCourses | src/generators/generateCourseUpdates.js:58-76 | succeeds exactly when both lists normalise, and then returns the diff of the normalised lists; its failures are stated by ReconcileCoursesOutcome |
| CourseUpdates.ReconcileCoursesOutcome | src/generators/generateCourseUpdates.js:58-76 | the run fails exactly when some course of either list is missing, with the JEX message whenever a JEX course is missing and the Canvas message otherwise; with an empty list there is no update |
| CourseUpdates.JexIdSelector | src/generators/generateCourseUpdates.js:61 | the selector `c => c.id` gives the key "undefined" for every normalised row |
| CourseUpdates.CanvasIdSelector | src/generators/generateCourseUpdates.js:62 | the selector `c => c.sis_course_id` gives the key "undefined" for every normalised row |
| CourseUpdates.GenerateCourseUpdates | src/generators/generateCourseUpdates.js:52-79 | the default export up to the CSV step fails exactly when a course of either list is missing, and otherwise emits at most one row; which row is stated by GenerateCourseUpdatesCollapses |
| CourseUpdates.ConstantKeyIndexCollapses | src/generators/generateCourseUpdates.js:61-62 | with a constant key the index is empty for an empty list and otherwise holds only the last element |
| CourseUpdates.ConstantKeyUpdatesCollapse | src/generators/generateCourseUpdates.js:61-76 | with one constant key on both sides at most one row is emitted: exactly one when both lists are non-empty and their last rows differ, and then it is the last JEX row |
| CourseUpdates.GenerateCourseUpdatesCollapses | src/generators/generateCourseUpdates.js:58-76 | the generator as written emits at most one row: one exactly when both lists are non-empty and the last normalised JEX course differs from the last normalised Canvas course, and then it is that JEX row, whatever the ids |
| CourseUpdates.CourseIdSelector | src/generators/generateCourseUpdates.js:64-65 | the intended key of a row with a course_id is that course_id |
| CourseUpdates.GenerateCourseUpdatesByCourseId | src/generators/generateCourseUpdates.js:58-76 | keyed by course_id, the generator fails exactly when a course is missing, and otherwise no two emitted rows share a course_id |
| CourseUpdates.UpdatesComeFromBothLists | src/generators/generateCourseUpdates.js:66-76 | for any selectors, every emitted row is a JEX row whose key is also the key of some Canvas row, and no two emitted rows share a key |
| CourseUpdates.ByCourseIdEmitsOnlySharedCourses | src/generators/generateCourseUpdates.js:64-76 | keyed by course_id, every emitted row is a normalised JEX course whose id is the SIS id of some fetched Canvas course, and no two emitted rows share a course id |
| CourseUpdates.AsWrittenReportsUnsharedCourse | src/generators/generateCourseUpdates.js:61-76 | as written, a JEX course and a Canvas course with a different SIS id yield one update row, the JEX course's |
| CourseUpdates.ByCourseIdIgnoresUnsharedCourse | src/generators/generateCourseUpdates.js:64-76 | keyed by course_id, the same two courses yield no update |

## Left out

- The concurrent fetches `jex.getActiveCourses()` and `canvas.getCourses()` under `Promise.all` (lines 53–56) are network I/O. The two fetched lists are the inputs, and a failed fetch is not modelled.
- `jsonToCsv` (line 78) is not part of this model. The model stops at the list of rows to update.
- The date library (Luxon `DateTime.fromISO(...).toISO()`, lines 23–24 and 36–37) is a foreign library. It is the caller-supplied conversion `toIso`, with no validity check, because the code makes none.
- The `opts.today` option of the doc comment (lines 45–48) is left out: the exported function takes no arguments, so nothing implements it.
- `src/generators/generateCourses.test.js` tests `generateCourses`, which is not part of this model. Its header row and its ordering by start date have nothing to check against here.
- `src/generators/index.js` only registers the generators and has no logic.
- Ramda.IndexKeys: gives keys in first-insertion order. JavaScript lists integer-like property names (such as "1234") first, in numeric order. A key like "__proto__" does not become an ordinary property. Neither case is modelled.
- The raw records' fields are texts, `null` or absent. A field of another JSON type (a number, say) is not modelled. Any falsy argument to a normaliser (`null`, `undefined`, `0`, `""`, `false`) is the single case `None`.
- Courses.Property: names of members every JavaScript object inherits (`toString`, `constructor`, `hasOwnProperty`, `__proto__`, ...) read as undefined in the model, while JavaScript finds the inherited member. The generator reads only `id`, `sis_course_id` and `course_id`, so the diff is not affected.

## Findings

| source | as written | input that shows it | evidently intended | confidence | as-written member | corrected member |
|---|---|---|---|---|---|---|
| src/generators/generateCourseUpdates.js:61-62 | both lists are indexed by `c.id` and `c.sis_course_id`. The normalised rows have neither property, so every row gets the key "undefined" and at most one update is emitted, whatever the ids | one JEX course `AH-1000-01-W20` and one Canvas course with SIS id `BIO-1000-01-W20`: the JEX course is emitted as an update although no Canvas course has its id | key both lists by `course_id` (the comment at lines 64–65 speaks of course ids); a row is emitted only for a course id present in both lists, once per id | high (not executed) | CourseUpdates.AsWrittenReportsUnsharedCourse | CourseUpdates.ByCourseIdEmitsOnlySharedCourses |
