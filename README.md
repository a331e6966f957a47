# Grade tracker: store, course progress and seeding

A model of the logic core of the grade tracker, a client-side application that keeps a
student's courses and their gradable coursework in the browser's local storage and shows,
for each course, the points earned and the share of the course graded so far.

It has three parts:

- **Store** (`store.dfy`). The class `LocalStorage` holds the two persisted arrays, `courses`
  and `coursework`. A constant `available` records whether a durable medium is present.
  Adding reads the whole array, appends a record with a fresh id and writes the array back.
  Updating replaces the first record with a matching id, or writes nothing when there is
  none. Deleting filters by id. Deleting a course also removes the coursework that belongs
  to it. Without a medium, every read yields `[]` and every write is dropped.
  Ids come from a counter, `nextId`. The class invariant `Valid()` says that no stored record
  carries an id at or above the counter, so every id handed out is fresh.
- **Course progress** (`aggregation.dfy`). `CalculateCourseProgress` is the loop that
  filters the coursework of one course. Over its graded items it accumulates
  `grade * percentage / 100` and `percentage`. The loop is proved equal to the recursive
  specification `CourseProgress`, and the lemmas beside it state what the overview promises:
  - only that course's items count;
  - ungraded items count for nothing;
  - the score is not renormalised;
  - the score lies between 0 and the weight graded.
- **Seeding** (`seeding.dfy`) adds, one `AddCourse` call at a time, each default course
  whose catalog code no stored course has. Its result is the pure function `Seeded`, and
  the lemmas prove:
  - seeding is idempotent;
  - it covers every default code;
  - it only appends;
  - it adds exactly the defaults whose code is absent.

`sequences.dfy` holds the generic `findIndex` and `filter` steps (`FindIndex`, `Keep`,
`Drop`) over keyed records, with their algebra. `entities.dfy` holds the record types.

## Model

| member | source | states |
|---|---|---|
| Store.LocalStorage.constructor | utils/localStorage.ts:18-25 | the store sees the medium's arrays when a medium is present and empty arrays otherwise; the id supply starts above every stored id |
| Store.LocalStorage.GetCourses | utils/localStorage.ts:27-31 | with a medium, the read yields the stored courses; without one, `[]` |
| Store.LocalStorage.SetCourses | utils/localStorage.ts:33-36 | with a medium, the courses become the written array; without one, nothing changes; the id supply stays above every stored id |
| Store.LocalStorage.GetCoursework | utils/localStorage.ts:27-31 | with a medium, the read yields the stored coursework; without one, `[]` |
| Store.LocalStorage.SetCoursework | utils/localStorage.ts:33-36 | with a medium, the coursework becomes the written array; without one, nothing changes; the id supply stays above every stored id |
| Store.LocalStorage.GenerateId | utils/localStorage.ts:105-107 | the id returned differs from every stored course id and coursework id, and the next call returns a different one |
| Store.LocalStorage.AddCourse | utils/localStorage.ts:54-60 | exactly one record is appended at the end; it carries the given fields and an id no earlier course has; earlier courses are unchanged and in order; coursework is untouched; unique ids and resolved references are preserved; without a medium nothing is written |
| Store.LocalStorage.UpdateCourse | utils/localStorage.ts:62-69 | the length never changes; the first course with the id is replaced and nothing else changes; with no match, or without a medium, courses are unchanged; unique ids and resolved references are preserved |
| Store.LocalStorage.DeleteCourse | utils/localStorage.ts:71-80 | the courses become the in-order subsequence without that id, and the coursework the in-order subsequence without that course id; none of either remains; unique ids and resolved references are preserved |
| Store.LocalStorage.AddCoursework | utils/localStorage.ts:82-88 | exactly one record is appended with the given fields and an id no earlier item has; earlier coursework and all courses are unchanged; references stay resolved when the named course exists |
| Store.LocalStorage.UpdateCoursework | utils/localStorage.ts:90-97 | the length never changes; only the first index with the id changes; with no match the coursework is unchanged; courses are untouched; unique ids are preserved, and so are resolved references when the item's course exists |
| Store.LocalStorage.DeleteCoursework | utils/localStorage.ts:99-103 | the coursework becomes exactly the in-order subsequence with a different id; courses are untouched; uniqueness and resolved references are preserved |
| Store.ResolvesAfterCourseAdded | utils/localStorage.ts:54-59 | appending a course keeps every coursework reference resolved |
| Store.ResolvesAfterCourseReplaced | utils/localStorage.ts:62-68 | replacing a course by one with the same id keeps references resolved |
| Store.ResolvesAfterCourseDeleted | utils/localStorage.ts:71-79 | the cascade leaves no coursework pointing at the deleted course |
| Store.ResolvesAfterCourseworkAdded | utils/localStorage.ts:82-87 | appending an item whose course exists keeps references resolved |
| Store.ResolvesAfterCourseworkReplaced | utils/localStorage.ts:90-96 | replacing an item by one whose course exists keeps references resolved |
| Store.ResolvesAfterCourseworkDeleted | utils/localStorage.ts:99-102 | removing coursework keeps references resolved |
| Sequences.FindIndex | utils/localStorage.ts:64 | the result is the first index whose key matches, and None exactly when no key matches |
| Sequences.FindUnique | utils/localStorage.ts:64 | with distinct keys, the search for an element's key finds that element |
| Sequences.FindAppendFresh | utils/localStorage.ts:54-59 | a record appended with a fresh id is found again, at the end |
| Sequences.Drop | utils/localStorage.ts:73 | the result holds only input elements whose key is not in the set, and every such element |
| Sequences.DropAppend | utils/localStorage.ts:73-78 | dropping distributes over concatenation, so survivors keep their relative order |
| Sequences.DropNone | utils/localStorage.ts:101 | deleting an id no record carries writes back the same array |
| Sequences.DropAll | utils/localStorage.ts:73 | dropping every key present leaves nothing |
| Sequences.Keep | app/page.tsx:25 | the result holds only input elements whose key is in the set, and every such element |
| Sequences.KeepAppend | app/page.tsx:25 | keeping distributes over concatenation |
| Sequences.KeepSingleton | app/page.tsx:25 | keeping one element yields it exactly when its key is kept |
| Sequences.KeepSkip | app/page.tsx:25 | an element whose key is not kept is skipped wherever it stands |
| Sequences.KeepDropPartition | app/seed-data.ts:26 | kept and dropped elements together are the input, counted with multiplicity |
| Sequences.UniqueDrop | utils/localStorage.ts:73-78 | filtering, by any projection, keeps ids distinct |
| Sequences.UniqueAppendFresh | utils/localStorage.ts:56-57 | appending a record with an id not in use keeps ids distinct |
| Sequences.UniqueUpdate | utils/localStorage.ts:66 | overwriting a record with one of the same id keeps ids distinct |
| Sequences.BoundAbove | utils/localStorage.ts:105-107 | the bound exceeds every key, which makes ids drawn at or above it fresh |
| Sequences.BoundLeast | utils/localStorage.ts:105-107 | the bound is the least number above every key |
| Sequences.AllBelowAppend | utils/localStorage.ts:57 | appending a record below the bound keeps every key below it |
| Sequences.AllBelowDrop | utils/localStorage.ts:73-78 | filtering keeps every key below the bound |
| Aggregation.GradedPart | app/page.tsx:30-32 | an ungraded item adds no weight to the graded share, and a graded one adds at most its own non-negative weight |
| Aggregation.Points | app/page.tsx:30-31 | an ungraded item earns nothing; with a weight >= 0 and a grade within 0..100, the points earned lie between 0 and the weight graded |
| Aggregation.WeightedScore | app/page.tsx:29-33 | the points accumulated over the items are never negative when weights and grades are in range |
| Aggregation.GradedWeight | app/page.tsx:29-33 | the weight accumulated over the graded items is never negative when no weight is |
| Aggregation.CourseProgress | app/page.tsx:24-40 | the score is 0 whenever no positive weight has been graded, and the graded share is never negative when no weight is |
| Aggregation.CalculateCourseProgress | app/page.tsx:24-40 | the loop computes exactly `CourseProgress`: the weighted score and the graded weight over the course's items, with score 0 unless the graded weight is positive |
| Aggregation.SumsSnoc | app/page.tsx:29-33 | one more loop step adds exactly the item's points and graded weight to the running sums |
| Aggregation.WeightedScoreAppend | app/page.tsx:29-33 | the points earned over two runs of items add up |
| Aggregation.GradedWeightAppend | app/page.tsx:29-33 | the graded weight over two runs of items adds up |
| Aggregation.KeepAround | app/page.tsx:25 | filtering splits around an item inserted between two runs |
| Aggregation.SumsSkipUngraded | app/page.tsx:30 | an ungraded item changes neither sum |
| Aggregation.KeptSumsSkipUngraded | app/page.tsx:25-34 | after filtering, an ungraded item changes neither sum |
| Aggregation.ProgressIgnoresOtherCourses | app/page.tsx:25 | inserting an item of another course anywhere changes nothing in the result |
| Aggregation.ProgressIgnoresUngraded | app/page.tsx:29-34 | inserting an ungraded item anywhere changes neither `score` nor `percentageGraded` |
| Aggregation.ScoreWithinGradedWeight | app/page.tsx:29-34 | with grades in 0..100 and non-negative weights, 0 <= points earned <= weight graded |
| Aggregation.ProgressBounds | app/page.tsx:29-38 | with grades in 0..100 and non-negative weights, 0 <= score <= percentageGraded |
| Aggregation.NothingGraded | app/page.tsx:30-33 | with no graded item both sums are 0 |
| Aggregation.ProgressWhenNothingGraded | app/page.tsx:36-38 | a course none of whose items is graded shows Progress(0, 0) |
| Aggregation.FullMarks | app/page.tsx:31-32 | full marks on every graded item make the points equal the graded weight |
| Aggregation.ProgressWithFullMarks | app/page.tsx:31-38 | the score is not renormalised: full marks give a score equal to the weight graded |
| Aggregation.PartlyGradedExample | app/page.tsx:31-37 | an item of weight 40 graded 80, plus an ungraded one of weight 60, give score 32 with 40 graded |
| Aggregation.FullyGradedExample | app/page.tsx:31-37 | two halves at full marks give score 100 with 100 graded |
| Seeding.ToSeed | app/seed-data.ts:25-26 | the defaults kept are exactly those whose code matches no existing course's code |
| Seeding.WithIds | app/seed-data.ts:28-30 | the records created carry the given fields and consecutive ids from the supply's start |
| Seeding.WithIdsSnoc | app/seed-data.ts:28-30 | one more addition appends the next record |
| Seeding.SeedStep | app/seed-data.ts:28-30 | one more addition, on top of the stored courses, appends the next record |
| Seeding.Seeded | app/seed-data.ts:25-30 | the seeded list keeps the existing courses as its prefix and grows by at most the number of defaults |
| Seeding.SeedEmptyStore | app/seed-data.ts:4-26 | on a store with no courses every default is added, in order, with consecutive ids; for the three built-in courses that is three records |
| Seeding.SeededCoversDefaults | app/seed-data.ts:26-30 | after seeding, every default code is among the stored courses |
| Seeding.SeedIdempotent | app/seed-data.ts:26 | seeding a second time leaves the same course sequence as seeding once |
| Seeding.SeededAddsOnlyNewCodes | app/seed-data.ts:28-29 | pre-existing courses stay an unchanged prefix, and every appended course has a code not stored before |
| Seeding.SeedCount | app/seed-data.ts:26 | the number of courses added is the number of defaults less those whose code is already stored |
| Seeding.AddEach | app/seed-data.ts:28-30 | the loop appends the given courses in order with consecutive fresh ids; coursework is untouched |
| Seeding.SeedWith | app/seed-data.ts:25-30 | the stored courses become `Seeded(defaults, before, first id)`; the id supply advances by the number of defaults added; coursework is untouched |
| Seeding.SeedCourses | app/seed-data.ts:3-31 | with the three default courses: the courses become the seeded list, the old ones stay an unchanged prefix, every default code is present, the id supply advances by the number added, and coursework is untouched |

## Left out

- Rendering, animation, `toFixed` display and the progress-bar width in `app/page.tsx` are presentation only. `app/add-course/page.tsx` only forwards form fields to `AddCourse`.
- React state, the `useEffect` ordering of seeding before reading, and Next.js routing are framework plumbing.
- The browser's local storage and the JSON round-trip are modelled as the two sequence fields plus `available`. JSON round-tripping is taken as exact, and an absent or empty item reads as `[]`. Writes by other tabs are not modelled.
- GenerateId: the application draws random base-36 strings, which are fresh only with high probability. The model hands out counter values and proves them fresh. Ids are `nat` instead of strings.
- SetCourses / SetCoursework: the application writes any array. The model additionally advances the id supply past every id written, so later ids stay fresh.
- The application declares no class invariant. Every mutating store method requires and keeps `Valid()`, which says stored ids lie below the supply and nothing is stored without a medium. The constructor establishes it.
- Store.LocalStorage.AddCoursework: like the application, it does not check that the named course exists. References stay resolved only when the course exists.
- Store.LocalStorage.UpdateCoursework: like the application, it may move an item to a course that does not exist, so references stay resolved only when the new course exists.
- Arithmetic is on mathematical reals. IEEE-754 rounding in `grade * percentage / 100` is not modelled.
- Seeding.SeedCourses: it does not state id uniqueness of the seeded list. That follows from the store's own guarantees and is not restated.
