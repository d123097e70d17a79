# Academic-record engine of an IPK (GPA) calculator, in Dafny

This project models the core of a cumulative grade-point (IPK) calculator:

- **Grade scale** (`grade_scale.dfy`, module `GradeScale`): the fixed descending table of score
  bands (86/A/4, 71/B/3, 56/C/2, 40/D/1, 0/E/0). `getGradeDetailsFromScore` maps a score to a letter and
  a grade point through `find`. `getGradeLetterFromPoint` maps a grade point back to a letter through
  `reduce`, and answers only exact matches.
- **Aggregation** (`aggregation.dfy`, module `Aggregation`): the `useMemo` pass of the main layout. It
  walks the semesters in record order and returns total credits (SKS), total quality points, the
  cumulative index (IPK) and the per-semester IPK progression. It is modelled as a method with nested
  loops, proved against recursive prefix-sum functions. Resetting the record to the empty list is here too.
- **Record editing with soft delete** (`coursework.dfy`, module `Coursework`): the list edits (append,
  `map` by id, `findIndex`, `filter`, `splice`) are sequence functions. The pending-deletion slot
  (`recentlyDeleted`, `undoTimeoutId`) is the class `CourseworkEditor`, with the methods `RemoveSemester`,
  `UndoDelete` and `Expire`.
- `records.dfy` holds the `Course` and `Semester` records of `types.ts`. `wrappers.dfy` holds the
  `Option` type that stands for `number | null`.

Scores and indices are `real`, so division is exact. Credits are `int`.

The central result is `Aggregation.ProgressionIsPrefixRatio`. Each progression entry equals the ratio
of the totals of the semesters up to and including it, because a semester with no scored course adds
nothing to the totals. So the last progression entry always equals the IPK computed from the grand
totals (`Aggregation.LastEntryIsIpk`). Restoring a removed semester at its stored index is shown to be
the inverse of the removal in both directions (`Coursework.RemoveThenRestore`,
`Coursework.RestoreThenRemove`).

Points where the code behaves differently from what a reader might expect; the model follows the code:

- **A score of 50 is a D.** Grading 50 as a C would give a semester of a 3-credit course scored 90 and
  a 2-credit course scored 50 the index 16/5 = 3.2. In the table C starts at 56 (constants.ts:13-14),
  so 50 is a D worth 1.0, and the code gives 3·4 + 2·1 = 14 quality points and an index of
  14/5 = 2.8 (`Aggregation.WorkedExample`).
- **Missing ids are silent no-ops.** A stricter contract would report a missing id as NotFound.
  Coursework.tsx:54 and Coursework.tsx:60 silently do nothing, and the model keeps that
  (`Coursework.ReplaceById`, `Coursework.CourseworkEditor.RemoveSemester`).
- **Scores and credits are not validated.** Nothing in the code keeps a score within [0, 100] or
  credits positive. A scored course with positive credits and a score outside [0, 100] still adds
  its credits, but with the sentinel point 0 (MainLayout.tsx:33-36 with constants.ts:19-20). The
  model keeps that (`Aggregation.CourseCredits`, `Aggregation.CourseQualityPoints`).

`GradeScale.BandOf` is not code from the source. It is an independent reference definition of the
band boundaries (86, 71, 56, 40, 0) written as nested comparisons, and `GradeScale.FindBandOnScale`
proves that the source's `find` over the table agrees with it.

## Model

| member | source | states |
|---|---|---|
| GradeScale.FindBand | constants.ts:22 | `find` returns the first band in table order whose minimum does not exceed the score; none when every minimum exceeds it |
| GradeScale.DetailsFromScore | constants.ts:18-24 | a null score, or one below 0 or above 100, gives the sentinel `-` with point 0; every result point lies in [0, 4] |
| GradeScale.FallbackUnreachable | constants.ts:15-23 | for every real score of at least 0 some band matches, so the fallback on line 23 is never taken for a real score |
| GradeScale.FindBandOnScale | constants.ts:10-22 | on the actual table, `find` ends on the band given by the boundaries 86, 71, 56, 40 and 0 |
| GradeScale.DetailsIsFirstBand | constants.ts:10-22 | an in-range score resolves to the details of the first band whose minimum it reaches |
| GradeScale.DetailsByBand | constants.ts:10-22 | band by band: at least 86 gives A/4, [71,86) gives B/3, [56,71) gives C/2, [40,56) gives D/1, below 40 gives E/0 |
| GradeScale.PointIsTablePoint | constants.ts:10-22 | every in-range score earns a point in {0,1,2,3,4} and a letter in {A,B,C,D,E} |
| GradeScale.PointMonotone | constants.ts:10-22 | for in-range scores, if s1 <= s2 then point(s1) <= point(s2) |
| GradeScale.Boundaries | constants.ts:11-22 | 86 gives A, 85.999 gives B, 71 gives B, 70 gives C, 56 gives C, 55 gives D, 40 gives D, 39 gives E, 0 gives E; 100.5 and -1 give the sentinel |
| GradeScale.ClosestBand | constants.ts:30-32 | `reduce` keeps the earlier band unless the next is strictly closer, so it ends on the first band of minimal distance to the point |
| GradeScale.Distance | constants.ts:31 | definition: the absolute difference between a band's point and the given point, as `Math.abs(... - point)` |
| GradeScale.LetterFromPoint | constants.ts:27-28 | a null point, or one outside [0, 4], gives `-` |
| GradeScale.LetterFromPointExact | constants.ts:30-37 | for a point in [0, 4]: if a band's point equals it, the result is that band's letter; the result is `?` exactly when no band's point equals it |
| GradeScale.LetterExamples | constants.ts:27-37 | 4.0 gives A, 3.5 gives ?, -1 gives -, null gives - |
| GradeScale.RoundTrip | constants.ts:18-37 | for an in-range score, the reverse lookup of its point gives back its letter |
| Aggregation.Counts | MainLayout.tsx:33 | definition: a course counts when its score is non-null and its credits are positive |
| Aggregation.CourseCredits | MainLayout.tsx:33-35 | definition: a counted course adds its credits, any other course adds 0 |
| Aggregation.CourseQualityPoints | MainLayout.tsx:33-36 | definition: a counted course adds its grade point from the scale times its credits, any other course adds 0 |
| Aggregation.SemesterCredits | MainLayout.tsx:29-38 | definition: the sum of the course credits over the semester's courses, in order |
| Aggregation.SemesterQualityPoints | MainLayout.tsx:29-38 | definition: the sum of the course quality points over the semester's courses, in order |
| Aggregation.HasScoredCourse | MainLayout.tsx:43 | definition: some course of the semester has a non-null score, which is `filter(c => c.score !== null).length > 0` |
| Aggregation.TotalCredits | MainLayout.tsx:40 | definition: the sum of the semester credits over all semesters, scored or not |
| Aggregation.TotalQualityPoints | MainLayout.tsx:41 | definition: the sum of the semester quality points over all semesters, scored or not |
| Aggregation.GradedCredits | MainLayout.tsx:43-44 | definition: the running credits, to which only semesters with a scored course add |
| Aggregation.GradedQualityPoints | MainLayout.tsx:43-45 | definition: the running quality points, to which only semesters with a scored course add |
| Aggregation.Ratio | MainLayout.tsx:46 | definition: quality points over credits when the credits are positive, null otherwise; used as on lines 46 and 54 |
| Aggregation.Ipk | MainLayout.tsx:54 | definition: the ratio of the grand totals |
| Aggregation.Progression | MainLayout.tsx:43-51 | definition: the series as the loop pushes it; a scored semester records the ratio of the running totals, any other repeats the last entry or is null |
| Aggregation.SemesterBounds | MainLayout.tsx:32-37 | a semester's counted credits are at least 0, and its quality points lie between 0 and 4 per counted credit |
| Aggregation.UnscoredSemesterAddsNothing | MainLayout.tsx:32-43 | a semester with no scored course contributes 0 credits and 0 quality points |
| Aggregation.TotalBounds | MainLayout.tsx:40-41 | total credits and total quality points over all semesters are at least 0, and the points are at most 4 per credit |
| Aggregation.GradedEqualsTotal | MainLayout.tsx:40-45 | the running totals, which skip semesters without a scored course, equal the grand totals of the same prefix |
| Aggregation.ProgressionIsPrefixRatio | MainLayout.tsx:43-51 | the progression has one entry per semester, in order, with its name; each entry is the prefix quality points over the prefix credits, or null when the prefix credits are 0 |
| Aggregation.LastEntryIsPrefixRatio | MainLayout.tsx:43-51 | given the property for the earlier semesters, the entry for the last semester is the ratio of the grand totals, whether that semester is scored or not |
| Aggregation.ProgressionPlateau | MainLayout.tsx:48-51 | a semester with no scored course repeats the previous entry's value, or null when it is the first |
| Aggregation.IpkNullIffNoCredits | MainLayout.tsx:54 | the IPK is null if and only if total credits are 0; otherwise it is total quality points over total credits and lies in [0, 4] |
| Aggregation.LastEntryIsIpk | MainLayout.tsx:40-54 | for a non-empty record, the last progression entry equals the IPK from the grand totals |
| Aggregation.SumSemester | MainLayout.tsx:29-38 | the inner loop returns the semester's counted credits (at least 0) and quality points (between 0 and 4 per credit) |
| Aggregation.Aggregate | MainLayout.tsx:20-56 | the loop returns the grand totals (both at least 0), the IPK, and a progression whose every entry is the prefix ratio, ending on the IPK |
| Aggregation.ResetCourses | MainLayout.tsx:74-76 | after reset the record is empty, the IPK is null, total credits are 0 and the progression is empty |
| Aggregation.WorkedExample | MainLayout.tsx:32-54 | courses of 3 credits scored 90 and 2 credits scored 50 give 14 quality points over 5 credits, an IPK of 2.8 |
| Coursework.AppendSemester | Coursework.tsx:41-48 | appends a semester with the given id and name, no courses and a null index; earlier semesters are unchanged, the length grows by 1, and unique ids stay unique |
| Coursework.ReplaceById | Coursework.tsx:52-56 | every semester whose id matches becomes the updated one and the others stay, positions and length kept; no-op when no id matches; ids stay unique |
| Coursework.FindIndexById | Coursework.tsx:59-60 | the position of the first semester with the id, and none exactly when no semester has it |
| Coursework.FilterOutId | Coursework.tsx:71 | the result is no longer than the record and no semester in it has the id |
| Coursework.FilterOutMembers | Coursework.tsx:71 | the result holds exactly the semesters of the record whose id differs |
| Coursework.FilterOutAbsent | Coursework.tsx:59-71 | filtering out an id no semester has returns the record unchanged |
| Coursework.FilterOutKeepsUnique | Coursework.tsx:71 | filtering keeps the ids unique |
| Coursework.FilterOutConcat | Coursework.tsx:71 | filtering a concatenation is the concatenation of the filtered parts |
| Coursework.FilterOutBetween | Coursework.tsx:71-85 | filtering out the id of a semester placed between two parts without that id leaves the two parts |
| Coursework.SpliceIn | Coursework.tsx:84-85 | the semester goes in at the index, or at the end when the index exceeds the length; the others keep their order around it |
| Coursework.FilterOutUnique | Coursework.tsx:59-71 | with unique ids, filtering out the id of semester i removes exactly position i |
| Coursework.RemoveThenRestore | Coursework.tsx:59-85 | with unique ids, splicing the removed semester back at its found index gives back the original record |
| Coursework.RestoreThenRemove | Coursework.tsx:71-85 | splicing in a semester whose id is absent and then filtering that id out gives back the record |
| Coursework.UniqueAfterSplice | Coursework.tsx:84-85 | splicing in a semester whose id is absent keeps the ids unique |
| Coursework.CourseworkEditor.constructor | Coursework.tsx:31-32 | the editor starts Idle, with no snapshot, no timer, and the given record |
| Coursework.CourseworkEditor.AddSemester | Coursework.tsx:41-48 | the record becomes the appended one; the pending state is untouched |
| Coursework.CourseworkEditor.UpdateSemester | Coursework.tsx:52-56 | the record becomes the replaced one; the pending state is untouched |
| Coursework.CourseworkEditor.RemoveSemester | Coursework.tsx:58-78 | an absent id changes nothing; otherwise the old timer is cleared, the snapshot becomes (first matching semester, its index), the record is filtered and a new timer is pending |
| Coursework.CourseworkEditor.UndoDelete | Coursework.tsx:80-94 | with no snapshot nothing changes; otherwise the snapshot is spliced back in at its index and the snapshot and timer are cleared |
| Coursework.CourseworkEditor.Expire | Coursework.tsx:74-76 | a pending timer firing clears the snapshot and leaves the record as it is; a cleared timer never fires |
| Coursework.RemoveThenUndo | Coursework.tsx:58-94 | with unique ids, remove followed at once by undo gives back the original record |
| Coursework.RemoveExpireUndo | Coursework.tsx:74-81 | after the window expires, undo is a no-op and the record stays filtered |
| Coursework.RemoveTwiceThenUndo | Coursework.tsx:64-68 | a second remove supersedes the first: undo restores only the second semester, and the first stays removed |

## Left out

- Real time. `window.setTimeout` with its 5000 ms window and `clearTimeout` are not modelled as time. A timer firing is the explicit `Expire` event. The timer handle is a parameter of `RemoveSemester`. Whether the timer is still scheduled is the field `timerPending`.
- The `useEffect` cleanup that clears the timeout on unmount (Coursework.tsx:34-39), React's asynchronous `setState` batching, and stale closures are not modelled. Each handler is one atomic step on the editor's state.
- JavaScript truthiness of the timer handle (`if (undoTimeoutId)`): a stored handle is treated as present whatever its value. Browsers never return 0 as a handle.
- `Date.now()` id generation (Coursework.tsx:43). The fresh id is a parameter. `Coursework.CourseworkEditor.AddSemester` requires that it is not already in use in the record, nor the id of the pending deletion's semester. `Date.now()` ids only grow, so the source meets this.
- Floating-point arithmetic. Scores, points and indices are exact reals, and `toFixed` rounding happens only in presentation. Reals have no NaN. In the source a NaN score fails every test on constants.ts:19 and every `>=` on constants.ts:22, so it reaches the E fallback on constants.ts:23. The model does not capture that case.
- The cached `ips` field. No modelled code computes it, and it is carried through unchanged.
- Persistence, login and session handling (App.tsx, LoginPage.tsx), the profile and password forms (Settings.tsx), PDF export (pdfService.ts), JSX rendering and the view switch of MainLayout.tsx. This is presentation and plumbing around the core.
- `TARGET_SKS` (constants.ts:8). Only presentation reads it.
- Idempotence of the aggregation is not stated as a lemma. `Aggregate`'s postconditions fix every field of its result as a function of the record, so two calls on the same record agree.
