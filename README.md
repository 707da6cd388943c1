# Trainer roster app: a verified model

The app is a single-page roster for a trainer. It keeps one document with
three lists:

- **admins**: people with contact details, a join date, documents, a star rating and an Active/Inactive status;
- **courses**: each course holds batches, and each batch has a number, dates, a head teacher, a status and the ids of its admins;
- **sedulous** ("schedules"): recurring classes given by a clock time and a set of weekdays.

Each page edits its own list through a setter that the `App` component hands down:

- **Sedulous page**: shows the coming classes, soonest first, with a live countdown. It adds a schedule from a form and deletes one.
- **Courses page**: searches the courses; adds and deletes courses; adds, edits and deletes batches; picks a batch's admins.
- **Admin page**: searches the admins and sorts them by rating. It counts the admins per status, toggles statuses, sets ratings, adds and edits admins, works on their documents and shows how long each has been with the team.

The Dafny project models these operations and proves what they promise. Its modules follow the program's files:

| file | module | models |
|---|---|---|
| `types.dfy` | `Types` | the records and unions of `types.ts`, `INITIAL_DATA` of `constants.ts` |
| `seqs.dfy` | `Seqs` | `filter`, the keyed `map` update, removal by index, JavaScript's stable `sort` |
| `text.dfy` | `Text` | lower-casing, `includes`, `localeCompare` as code-unit order, `split`, `Number`, `padStart`, number rendering |
| `sedulous.dfy` | `SedulousPage` | `SedulousPage.tsx` |
| `courses.dfy` | `CoursesPage` | `CoursesPage.tsx` |
| `admins.dfy` | `AdminPage` | `AdminPage.tsx` |
| `app.dfy` | `AppState` | `App.tsx` |

Time is a whole number of milliseconds counted from a local midnight that falls on a Sunday. The model has no time zones and no daylight saving.

The instant `now` and the ids made from `Date.now()` are parameters. So are the creation stamps made from `toLocaleDateString()`, and "today" for the blank admin form and for the experience label.

The state cell (`AppState.App`) and the step-by-step parts of the source are imperative Dafny:

- the parse-and-adjust steps of `getNextOccurrence`;
- the reassignments in `calculateExperience`;
- the in-place `Array.prototype.sort` of a course's batches.

The rest is pure functions with lemmas. The model has no loops, because the source has none: it works through `map`, `filter`, `sort` and `Math.min`.

Where the model follows the code rather than the app's stated design:

- A schedule with no days gets the next time `0` and never shows a countdown. Once `now` is positive it sorts before every schedule that has days and an unreadable or in-range time; schedules without days tie among themselves.
- A day name that is not in the week list maps to Sunday, because `indexOf` gives `-1` and `(-1 + 1) % 7` is `0`.
- The experience label shows "12m", not "1y", when the anniversary month has come but the day has not.
- Adding a course with an empty name is refused by the form's guard (`CoursesPage.tsx:189`), not by `handleAddCourse`.

## Model

| member | source | states |
|---|---|---|
| `Seqs.Filter` | SedulousPage.tsx:51-54 | the result keeps exactly the elements of the input that pass the predicate, and is no longer than the input |
| `Seqs.FilterConcat` | SedulousPage.tsx:51-54 | filtering keeps the surviving elements in their original order: it distributes over concatenation |
| `Seqs.MapIf` | AdminPage.tsx:99 | a keyed update has the input's length and changes exactly the elements selected by the key |
| `Seqs.DropIndex` | AdminPage.tsx:467 | removing index `i` yields the list without that element, and the list unchanged when `i` is out of range |
| `Seqs.SortBySorted` | AdminPage.tsx:74 | the sort's result is ordered by the key for any strict total order |
| `Seqs.SortByStable` | AdminPage.tsx:74 | the sort is stable: elements with equal keys keep their input order |
| `Seqs.SortBy` | AdminPage.tsx:74 | the engine's stable sort, by insertion; its result is a permutation of the input |
| `Seqs.SortByOfSorted` | CoursesPage.tsx:167 | sorting a list that is already sorted returns it unchanged |
| `Text.Lower` | SedulousPage.tsx:52 | lower-casing keeps the length and maps each character on its own (ASCII letters only) |
| `Text.Contains` | SedulousPage.tsx:52 | `includes`, defined by scanning; `Text.ContainsIff` proves it equal to "occurs at some offset" |
| `Text.LowerIdempotent` | SedulousPage.tsx:52 | lower-casing twice is lower-casing once |
| `Text.ContainsIff` | SedulousPage.tsx:52 | `includes` holds exactly when the needle occurs at some position of the text |
| `Text.LexLessOrder` | CoursesPage.tsx:167 | the string order behind `localeCompare`, and its reverse, are strict total orders |
| `Text.Split` | SedulousPage.tsx:27-28 | `split` on one character gives at least one piece, and no piece holds the separator |
| `Text.SplitCons` | SedulousPage.tsx:27 | splitting `a + sep + b`, where `a` has no separator, gives `a` followed by the pieces of `b` |
| `Text.ToNumber` | SedulousPage.tsx:28 | `Number` gives a value exactly when the text is a run of digits, and that value is non-negative |
| `Text.NatToStringRoundTrip` | AdminPage.tsx:91-92 | reading back a rendered count gives the count |
| `Text.Pad2RoundTrip` | SedulousPage.tsx:261 | a two-digit padded number reads back as the number |
| `SedulousPage.IndexOf` | SedulousPage.tsx:33 | `indexOf` is `-1` exactly when the name is absent, and otherwise the position of its first occurrence |
| `SedulousPage.JsWeekday` | SedulousPage.tsx:33-34 | the weekday number is in 0..6, and an unknown name gives Sunday (0) |
| `SedulousPage.JsWeekdayOfNames` | SedulousPage.tsx:22 | each of the seven names is at its own index, and Monday..Sunday map to weekdays 1..6, 0 |
| `SedulousPage.NormalizeHour` | SedulousPage.tsx:29-30 | 12 AM is hour 0, 12 PM is 12, other PM hours add 12, AM hours stay; a 1..12 hour with AM/PM lands in 0..23 |
| `SedulousPage.ParseClassTime` | SedulousPage.tsx:27-30 | a readable class time gives a non-negative hour and minute; an unreadable one is NaN (`None`) |
| `SedulousPage.DayDiffReachesTarget` | SedulousPage.tsx:39-42 | the day offset reaches the target weekday; it is 7 exactly when the target is today and the time has passed, and 0 exactly when the target is today and it has not |
| `SedulousPage.OccurrenceOn` | SedulousPage.tsx:32-44 | one day's candidate instant lies between the start of today and 8 days later, even for an out-of-range time |
| `SedulousPage.OccurrenceShape` | SedulousPage.tsx:36-44 | a day's candidate instant is the start of today plus whole days plus the class's time of day |
| `SedulousPage.PossibleTimes` | SedulousPage.tsx:32-45 | one candidate instant per listed day, in the days' order |
| `SedulousPage.MinOf` | SedulousPage.tsx:47 | `Math.min` returns one of its arguments and none is smaller |
| `SedulousPage.EarliestOccurrence` | SedulousPage.tsx:32-47 | the next class is one day's candidate and no day's candidate is earlier |
| `SedulousPage.NextOccurrence` | SedulousPage.tsx:24-48 | no days gives 0; an unreadable time gives NaN (`None`); otherwise one day's candidate that no other day's candidate precedes |
| `SedulousPage.GetNextOccurrence` | SedulousPage.tsx:24-48 | no days gives 0; an unreadable time gives NaN (`None`); otherwise the result is the earliest candidate over the listed days |
| `SedulousPage.OccurrenceWindow` | SedulousPage.tsx:36-44 | every day's candidate lies in `[now, now + one week)` |
| `SedulousPage.OccurrenceOnWeekday` | SedulousPage.tsx:33-43 | a day's candidate falls on that weekday at the class's time of day |
| `SedulousPage.OccurrenceToday` | SedulousPage.tsx:39-43 | on today's weekday: a class at exactly `now` is now, a passed one is a week later, a later one is today |
| `SedulousPage.NextOccurrenceWindow` | SedulousPage.tsx:24-48 | with days and a valid time, the next class exists and lies within the coming week |
| `SedulousPage.NextOccurrenceIgnoresOrder` | SedulousPage.tsx:32-47 | the next class depends only on which days are listed, not on their order or repeats |
| `SedulousPage.ScheduleMatches` | SedulousPage.tsx:51-54 | the search predicate: course name or batch number contains the term, ignoring case (used by `SedulousPage.SortedSchedules`) |
| `SedulousPage.SortValue` | SedulousPage.tsx:59-60 | the comparator value: the next time, or `MAX_SAFE_INTEGER` for NaN (its effect is stated by `SedulousPage.SortedSchedules` and `SedulousPage.EmptyDaysSortFirst`) |
| `SedulousPage.SortedSchedules` | SedulousPage.tsx:50-63 | the list shows exactly the matching schedules, as a permutation of the filtered list, ordered by next class (NaN treated as `MAX_SAFE_INTEGER`) |
| `SedulousPage.SortedSchedulesStable` | SedulousPage.tsx:56-62 | schedules with the same next class keep their stored order |
| `SedulousPage.EmptyDaysSortFirst` | SedulousPage.tsx:56-62 | a schedule without days is listed before every schedule that has days and a valid or unreadable time |
| `SedulousPage.CountdownOf` | SedulousPage.tsx:117-120 | for a future class the fields are the whole days, then the whole hours, minutes and seconds of what remains; for a past one every field is at most 0, as JavaScript's sign-keeping `%` gives |
| `SedulousPage.CountdownBounds` | SedulousPage.tsx:117-120 | the countdown's hours, minutes and seconds are in range, and days:hours:minutes:seconds add up to the remaining time to within a second |
| `SedulousPage.IsUrgent` | SedulousPage.tsx:122 | the urgency test on the remaining time, positive and under an hour; `SedulousPage.UrgentIffUnderAnHour` relates it to the countdown |
| `SedulousPage.UrgentIffUnderAnHour` | SedulousPage.tsx:122 | a class is urgent exactly when it is in the future and the countdown shows zero days and zero hours |
| `SedulousPage.CountdownShown` | SedulousPage.tsx:158 | a schedule without days never shows a countdown; one with days and a valid time always does |
| `SedulousPage.FormClassTimeRoundTrip` | SedulousPage.tsx:236 | a time written by the form parses back to the chosen hour and minute, and is a valid clock time |
| `SedulousPage.SelectedDays` | SedulousPage.tsx:227 | the chosen days are exactly the ticked week days, in week order |
| `SedulousPage.BuildSchedule` | SedulousPage.tsx:229-238 | no schedule is built exactly when no day is ticked; a built one has the given id, the chosen days, the form's texts and the stored time string `hh:mm AM/PM` the form builds, which reads back as the normalised hour and the minute |
| `SedulousPage.SubmitSchedule` | SedulousPage.tsx:224-240 | a submission without days changes nothing; otherwise it appends the new schedule after the old list |
| `SedulousPage.SubmittedScheduleOccurs` | SedulousPage.tsx:231-240 | a schedule added through the form always has a next class within the coming week |
| `SedulousPage.DeleteSchedule` | SedulousPage.tsx:67 | deleting is the order-preserving filter on the other ids: every other schedule stays, in order and with its repeats; deleting an unknown id changes nothing |
| `SedulousPage.DeleteUndoesSubmit` | SedulousPage.tsx:65-73 | deleting a just-added schedule with a fresh id restores the list |
| `CoursesPage.FilterCourses` | CoursesPage.tsx:24-28 | the result is the order-preserving filter of the courses whose name contains the term, ignoring case; an empty term shows every course |
| `CoursesPage.AddCourse` | CoursesPage.tsx:30-38 | a non-empty name appends one course after the old list; an empty one changes nothing |
| `CoursesPage.DeleteCourse` | CoursesPage.tsx:54-59 | deleting is the order-preserving filter on the other ids; no course with that id remains; an unknown id changes nothing |
| `CoursesPage.DeleteUndoesAdd` | CoursesPage.tsx:54-59 | deleting a just-added course with a fresh id restores the list |
| `CoursesPage.DeleteBatch` | CoursesPage.tsx:61-73 | only the named course changes; its batches become the order-preserving filter on the other batch ids |
| `CoursesPage.MergeBatch` | CoursesPage.tsx:81 | spreading the form over a batch; its laws are stated by `CoursesPage.MergeBatchLaws` |
| `CoursesPage.MergeBatchLaws` | CoursesPage.tsx:81 | `{...b, ...data}`: an empty patch changes nothing, a whole batch's patch replaces it, and applying a patch twice is applying it once |
| `CoursesPage.NewBatch` | CoursesPage.tsx:84-93 | a new batch takes the given id and stamp, and missing fields default to `''`, Coming Soon and no admins |
| `CoursesPage.NewBatchFormDefaults` | CoursesPage.tsx:287-289 | adding through the untouched add form appends a batch with empty texts, status Coming Soon and no admins |
| `CoursesPage.SaveBatch` | CoursesPage.tsx:75-102 | only the named course changes; an edit merges the form into the batch with that id; an add appends a new batch |
| `CoursesPage.SaveEditIdempotent` | CoursesPage.tsx:78-82 | saving the same edit twice is saving it once |
| `CoursesPage.DeleteBatchUndoesAdd` | CoursesPage.tsx:84-94 | deleting a just-added batch with a fresh id restores the courses |
| `CoursesPage.SortBatches` | CoursesPage.tsx:167 | the batches are a permutation of the input in descending batch-number order |
| `CoursesPage.SortBatchesStable` | CoursesPage.tsx:167 | batches with equal numbers keep their stored order |
| `CoursesPage.SortBatchesInPlace` | CoursesPage.tsx:167 | the sort rearranges the course's batch array in place into the sorted order |
| `CoursesPage.SortBatchesIdempotent` | CoursesPage.tsx:167 | sorting the batches again changes nothing |
| `CoursesPage.RenderCourses` | CoursesPage.tsx:134-167 | after a render, every course the search shows holds its batches in sorted order (a permutation of the stored ones); hidden courses are unchanged |
| `CoursesPage.RenderCoursesTwice` | CoursesPage.tsx:134-167 | rendering again with the same search leaves the stored courses as the first render left them |
| `CoursesPage.ToggleId` | CoursesPage.tsx:359-364 | tapping an admin flips exactly that admin's membership; deselecting keeps the other ids in order and with their repeats (the order-preserving filter), and a newly selected one goes at the end |
| `CoursesPage.ToggleTwice` | CoursesPage.tsx:359-364 | tapping twice restores the selected set, and restores the list when the admin was not selected |
| `CoursesPage.PickAdmin` | CoursesPage.tsx:364 | picking sets the form's admin list to the toggled list and changes no other field |
| `CoursesPage.SelectedAdmins` | CoursesPage.tsx:388 | the details show the admins whose id the batch lists, as an order-preserving filter of the admin list |
| `CoursesPage.SelectedAdminsIgnoresDangling` | CoursesPage.tsx:388 | an id that belongs to no admin does not change the displayed admins |
| `AdminPage.FilterAdmins` | AdminPage.tsx:71-75 | the result is exactly the admins whose name contains the term, as a permutation of the filtered list, with ratings non-increasing |
| `AdminPage.FilterAdminsStable` | AdminPage.tsx:74 | admins with equal ratings keep their stored order |
| `AdminPage.Statuses` | AdminPage.tsx:154-158 | the status column: one entry per admin, in list order |
| `AdminPage.FilterCountsStatus` | AdminPage.tsx:154 | the status filter keeps as many admins as the status occurs in the status column |
| `AdminPage.CountStatus` | AdminPage.tsx:154 | a status count is the number of admins with that status; hence at most the list length, and zero exactly when no admin has it |
| `AdminPage.CountsCoverList` | AdminPage.tsx:154-158 | the Active and Inactive counts add up to the number of admins |
| `AdminPage.NextStatus` | AdminPage.tsx:98 | the next status always differs from the current one |
| `AdminPage.ToggleStatus` | AdminPage.tsx:96-100 | the admins with that id get the other status; every other admin is unchanged |
| `AdminPage.ToggleStatusTwice` | AdminPage.tsx:96-100 | toggling an admin twice restores the list |
| `AdminPage.UpdateRating` | AdminPage.tsx:102-105 | the admins with that id get the chosen rating; every other admin is unchanged |
| `AdminPage.UpdateRatingKeepsRange` | AdminPage.tsx:360-361 | a star from 1 to 5 keeps every rating within 0..5 |
| `AdminPage.FormsStartComplete` | AdminPage.tsx:375-378 | both the blank form and a form opened on an admin fill every required field |
| `AdminPage.MergeAdmin` | AdminPage.tsx:345 | spreading the form over an admin; its laws are stated by `AdminPage.MergeAdminLaws` |
| `AdminPage.MergeAdminLaws` | AdminPage.tsx:345 | `{...a, ...data}`: a whole admin's form replaces the admin, applying a form twice is applying it once, and a form without rating or id keeps them |
| `AdminPage.NewAdmin` | AdminPage.tsx:347 | a new admin takes the given id, rating 0 and status Active, and every other field from the form: reading it back as a form gives the form with those three fields set |
| `AdminPage.SaveAdmin` | AdminPage.tsx:343-351 | an edit merges the form into the admins with that id and keeps the rest; an add appends a new Active admin with rating 0 |
| `AdminPage.SaveUnchangedEdit` | AdminPage.tsx:345 | saving an unchanged edit of an admin with a unique id changes nothing |
| `AdminPage.RemoveDocument` | AdminPage.tsx:467 | removing a document drops exactly that index and touches no other field |
| `AdminPage.AppendDocuments` | AdminPage.tsx:390 | uploaded files go after the existing documents, in order, and no other field changes |
| `AdminPage.RemoveUndoesAppend` | AdminPage.tsx:390 | removing a just-uploaded document restores the form |
| `AdminPage.ExperienceSpan` | AdminPage.tsx:82-88 | years and months always total the calendar-month difference; a year is borrowed exactly when the anniversary has not come |
| `AdminPage.ExperienceMonths` | AdminPage.tsx:82-88 | for valid dates the months lie in 0..12, and are 12 exactly in the anniversary month before the anniversary day |
| `AdminPage.ExperienceLabel` | AdminPage.tsx:77-94 | the label text; its cases are stated by `AdminPage.ExperienceLabelCases` and `AdminPage.CalculateExperience` |
| `AdminPage.ExperienceLabelCases` | AdminPage.tsx:80-93 | the label is "N/A" exactly for an invalid date, and "Newly Joined" exactly when neither years nor months are positive |
| `AdminPage.TwelveMonthsExample` | AdminPage.tsx:85-92 | joining on 20 May 2023 shows "12m" on 10 May 2024 |
| `AdminPage.CalculateExperience` | AdminPage.tsx:77-94 | the step-by-step computation yields the label that the specification function defines |
| `AppState.Resolve` | App.tsx:74 | a replacement value is taken as is; an updater is applied to the previous value |
| `AppState.WithAdmins` | App.tsx:71-76 | `setAdmins` changes the admins as the update says and leaves courses and schedules alone |
| `AppState.WithSedulous` | App.tsx:78-83 | `setSedulous` changes the schedules as the update says and leaves the rest alone |
| `AppState.WithCourses` | App.tsx:85-90 | `setCourses` changes the courses as the update says and leaves the rest alone |
| `AppState.SettersCommute` | App.tsx:71-90 | updates of different slices commute |
| `AppState.SetterSequencing` | App.tsx:71-76 | two updaters in a row act as their composition, and a replacement discards earlier updates |
| `AppState.LoadedData` | App.tsx:11-21 | nothing saved, or saved text that does not parse, gives the empty document; otherwise the parsed document |
| `AppState.LoadedDataSource` | App.tsx:11-21 | the loaded state is the empty document or the parse of the saved text |
| `AppState.App.Load` | App.tsx:11-21 | the state cell starts with the loaded document |
| `AppState.App.SetAdmins` | App.tsx:71-76 | the new state is the old state with the admins updated |
| `AppState.App.SetSedulous` | App.tsx:78-83 | the new state is the old state with the schedules updated |
| `AppState.App.SetCourses` | App.tsx:85-90 | the new state is the old state with the courses updated |
| `AppState.App.Restore` | App.tsx:57-69 | a parsable backup replaces the whole state and reports success; an invalid one keeps the state and reports failure |

## Left out

- Rendering: the JSX, `Layout.tsx`, dialogs, icons, animation and theme handling are not modelled. Only the values the pages compute for display are.
- `localStorage`, `FileReader`, `Blob` and downloads, `html2canvas`, `navigator.vibrate`, `alert` and `window.setTimeout` are effects without a value, so they are left out. The saved text and the file's text are parameters.
- The one-second `now` timer and the long-press timer are left out: `now` is a parameter.
- `Date.now()` ids, `toLocaleDateString()` stamps and `new Date().toISOString()` are parameters, because they read the clock.
- JavaScript `Date`: time zones, daylight saving and month-length rollover are left out. An instant is milliseconds from a Sunday midnight with fixed 24-hour days.
- AdminPage.CalculateExperience: a join date is given already parsed, as `Option<Date>`. `None` stands for a string that `new Date` cannot read; the parsing itself is left out.
- `JSON.parse` and `JSON.stringify` are abstract: a `parse` parameter either yields a well-typed document or fails. Documents whose values fall outside the declared types are not modelled.
- Text.ToNumber: `Number` is modelled only on runs of decimal digits. Signs, decimals, exponents and surrounding blanks read as NaN here. The form only writes two-digit values.
- Text.Lower: `toLowerCase` lower-cases ASCII letters only, because Unicode case mapping is not modelled.
- Text.LexLess: `localeCompare` is modelled as code-unit order, because locale collation is outside the model.
- SedulousPage.CountdownBounds: floating-point division is replaced by exact integer division, which is exact for the integral millisecond values used. The countdown is stated for a non-negative remaining time.
- CoursesPage.SortBatchesInPlace: it states the result of the engine's sort, not the engine's sorting algorithm.
- CoursesPage.RenderCourses: the render sorts the batch arrays that `App` itself holds, through shared references and without a setter, and the next save stores that order. The model states the resulting course list as a function of the stored one. It does not model the aliasing itself, nor when the render runs relative to the other updates.
- AdminPage.SaveAdmin and AdminPage.NewAdmin require a complete form when adding. The source casts a partial form with `as Admin`, and missing fields would be `undefined`; every form the page opens is complete (`AdminPage.FormsStartComplete`).
- The star display `admins.find(...)?.rating` (`AdminPage.tsx:362`) is presentation and is not modelled.
- `APP_VERSION` and `APP_CREDITS` (`constants.ts:4-9`) are display text and are not modelled.
