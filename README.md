# Udaan Vidyalaya Management — a Dafny model of the record store and its rules

Udaan Vidyalaya Management is a single-page school administration app. Every
record lives in the browser's `localStorage` as one JSON array per kind:
students, teachers, teacher attendance, fee records, student attendance and
exam results. This project models that store (`services/db.ts`) and the
bookkeeping each screen layers on it:

- the fee ledger: semester status, payments, aggregates and the status filter;
- exam marks and grades;
- student form validation, the student directory and new credentials;
- daily student attendance;
- the teacher directory and daily teacher attendance;
- the dashboard figures.

Layout, one module per file:

- `wrappers.dfy` (`Wrappers`): `Option`.
- `collections.dfy` (`Collections`): the JavaScript array operations the
  code relies on, with their laws:
  - `filter`, `reduce` to a sum, `find` and `findIndex`;
  - the store's save-by-id ("upsert");
  - the `forEach` that fills a dictionary.
- `text.dfy` (`Text`): `trim`, `toLowerCase` (ASCII), `includes`, `\d`,
  `\s` and integer `toString`.
- `types.dfy` (`Types`): the records of `types.ts`.
- `store.dfy` (`Store`): class `DatabaseService`. It has one field per
  storage key. `None` means the key was never written, and `Some(list)` is
  the stored array.
- `fees.dfy`, `exams.dfy`, `students.dfy`, `attendance.dfy`, `teachers.dfy`,
  `dashboard.dfy`: one module per screen.

How the screens are modelled:

- Event handlers that write to the store are methods. Each takes the
  `DatabaseService` and the component state it reads, and returns the new
  component state.
- Derived values (filters, statistics, validators) are functions.
- The clock is a parameter: `today` is the current UTC date as a
  `YYYY-MM-DD` string (what `new Date().toISOString().split('T')[0]` gives),
  `now` stands for `Date.now()` and `year` for `getFullYear()`.

## Model

| member | source | states |
|---|---|---|
| Collections.FirstWhere | services/db.ts:26 | `findIndex`: -1 exactly when no element matches, otherwise the first matching index |
| Collections.FindIndex | services/db.ts:26 | the `findIndex` loop returns the first matching index, or -1 |
| Collections.Find | components/FeesManager.tsx:49 | `find`: `None` iff nothing matches; otherwise the first match, an element of the list |
| Collections.Upsert | services/db.ts:24-35 | a save: the first element with the record's id is replaced by the record at its index and nothing else changes; with a new id the record is appended; the length grows only for a new id |
| Collections.FilterSubMultiset | components/StudentManager.tsx:376-387 | a filtered list adds and duplicates nothing: every element occurs in it at most as often as in the list |
| Collections.UpsertOverwrites | services/db.ts:139-145 | saving twice under one id equals saving only the second record: re-entry overwrites, never duplicates |
| Collections.UpsertKeepsUnique | services/db.ts:65-76 | a save keeps ids unique, and afterwards the saved record is the only one with its id |
| Collections.UpsertRetains | services/db.ts:111-117 | every record with another id survives a save |
| Collections.UpsertFrom | services/db.ts:47-53 | a save introduces no record other than the saved one |
| Collections.LastByKey | components/AttendanceManager.tsx:21-28 | the dictionary built by `forEach`: exactly the persons present, each with the value of their last element |
| Collections.IndexLast | components/AttendanceManager.tsx:24-26 | the `forEach` loop builds exactly `LastByKey` |
| Collections.LastByKeyCount | components/TeacherManager.tsx:41-47 | with one element per person, the dictionary has as many entries as elements |
| Text.IntToString | components/FeesManager.tsx:174 | `toString` of an integer: non-empty; only digits for n >= 0; a leading `-` for n < 0 |
| Text.IntToStringInjective | components/StudentManager.tsx:175 | distinct non-negative integers print differently |
| Store.MaxRollNo | services/db.ts:101 | `Math.max` over roll numbers bounds every roll number and is one of them |
| Store.NextRollNo | services/db.ts:98-103 | 1001 for no students; otherwise above every roll number and one past an existing one |
| Store.InitSlot | services/db.ts:148-158 | an absent key becomes `[]`; a stored list is kept; what a reader sees is unchanged |
| Store.DatabaseService.constructor | services/db.ts:5-12 | a store with none of the six keys written |
| Store.DatabaseService.GetTeachers | services/db.ts:19-22 | `[]` when the key was never written, otherwise the stored list |
| Store.DatabaseService.SaveTeacher | services/db.ts:24-35 | the teacher list becomes the upsert of the old list; nothing else changes |
| Store.DatabaseService.DeleteTeacher | services/db.ts:37-40 | removes exactly the teachers with the id, keeping order; teacher attendance is not touched |
| Store.DatabaseService.GetTeacherAttendance | services/db.ts:42-45 | `[]` when never written, otherwise the stored list |
| Store.DatabaseService.SaveTeacherAttendance | services/db.ts:47-53 | upsert of the teacher-attendance list |
| Store.DatabaseService.GetTeacherCount | services/db.ts:55-57 | the length of the teacher list |
| Store.DatabaseService.GetStudents | services/db.ts:60-63 | `[]` when never written, otherwise the stored list |
| Store.DatabaseService.SaveStudent | services/db.ts:65-76 | upsert of the student list |
| Store.DatabaseService.DeleteStudent | services/db.ts:78-84 | removes the students with the id, keeping order, and cascades to fee, attendance and exam records with that `studentId` |
| Store.DatabaseService.CleanupRelatedRecords | services/db.ts:86-96 | each of the three lists loses exactly the records of the student; other lists are untouched |
| Store.DatabaseService.GetNextRollNo | services/db.ts:98-103 | the next roll number of the stored students: 1001 with none, otherwise the largest stored roll number plus one, so above every one |
| Store.DatabaseService.GetFees | services/db.ts:106-109 | `[]` when never written, otherwise the stored list |
| Store.DatabaseService.SaveFeeRecord | services/db.ts:111-117 | upsert of the fee list |
| Store.DatabaseService.GetAttendance | services/db.ts:120-123 | `[]` when never written, otherwise the stored list |
| Store.DatabaseService.SaveAttendance | services/db.ts:125-131 | upsert of the attendance list |
| Store.DatabaseService.GetExams | services/db.ts:134-137 | `[]` when never written, otherwise the stored list |
| Store.DatabaseService.SaveExamResult | services/db.ts:139-145 | upsert of the exam list |
| Store.DatabaseService.InitializeData | services/db.ts:148-158 | writes `[]` for the student and teacher keys only when absent; existing data is never changed |
| Fees.StatusOf | components/FeesManager.tsx:65 | PAID iff paid >= 11000, PARTIAL iff 0 < paid < 11000, PENDING iff paid <= 0 |
| Fees.GetSemesterStats | components/FeesManager.tsx:61-67 | paid is the semester's transaction sum (a missing list counts as empty); paid + due = 11000; PAID iff nothing is due |
| Fees.SemesterPaidPermutation | components/FeesManager.tsx:63 | the paid amount does not depend on the order of transactions |
| Fees.RecordTotalSplit | components/FeesManager.tsx:73-76 | a record's total is the sum of its two semester totals |
| Fees.GetFeeRecord | components/FeesManager.tsx:48-59 | the first stored record of the student and year; without one, the blank record with id `<student>-<year>`, no transactions and both flags false |
| Fees.BlankRecordPending | components/FeesManager.tsx:48-66 | a student without a record has paid 0, owes 11000 and is PENDING in each semester |
| Fees.TotalExpectedRevenue | components/FeesManager.tsx:70-71 | students × 2 × 11000 |
| Fees.PendingRevenue | components/FeesManager.tsx:78 | pending + collected = expected |
| Fees.TotalCollectedBySemester | components/FeesManager.tsx:73-76 | the collected total is the sum over records of both semesters' paid amounts |
| Fees.DefaultersComplementPaid | components/FeesManager.tsx:80-85 | defaulters plus fully paid students make up the whole class |
| Fees.FilteredStudents | components/FeesManager.tsx:168-187 | a student is listed iff listed before, the name (ignoring case) or roll number contains the search, and the status filter holds: PAID both semesters, PENDING or PARTIAL either |
| Fees.EmptySearchShowsAll | components/FeesManager.tsx:173-186 | an empty search under ALL lists every student in order |
| Fees.PaidAndPendingDisjoint | components/FeesManager.tsx:176-181 | no student is both in the PAID list and the PENDING list |
| Fees.InitiatePayment | components/FeesManager.tsx:89-111 | refuses exactly when the semester is PAID; otherwise captures the positive due and pre-fills amount, CASH, today and a `TXN-<now>` id |
| Fees.NewTransaction | components/FeesManager.tsx:128-134 | the transaction carries the form's amount, date and mode and the selected semester; an empty id becomes `TXN-<now>` |
| Fees.RecordPayment | components/FeesManager.tsx:136-146 | the transaction is appended to the earlier ones, the flags agree with the recomputed statuses, and `lastPaymentDate` is the payment date |
| Fees.PaymentAddsToSemester | components/FeesManager.tsx:136-142 | a payment adds its amount to its own semester and nothing to the other |
| Fees.ApplyPayment | components/FeesManager.tsx:113-146 | no selection, amount <= 0 and amount > captured due are rejected in that order; it is recorded iff 0 < amount <= due |
| Fees.AcceptedPaymentKeepsDueNonNegative | components/FeesManager.tsx:121-145 | after an accepted payment the new due is the old due less the amount, and is never negative |
| Fees.PrefilledPaymentSettles | components/FeesManager.tsx:104-105 | paying the pre-filled amount makes the semester PAID |
| Fees.InstalmentScenario | components/FeesManager.tsx:113-146 | 5000 leaves PARTIAL with 6000 due; 7000 then is refused; 6000 makes it PAID |
| Fees.PaymentRaisesCollected | components/FeesManager.tsx:73-76 | saving the paid record raises the collected total by exactly the amount |
| Fees.ProcessPayment | components/FeesManager.tsx:113-156 | returns the outcome `ApplyPayment` specifies; when recorded, the fee list becomes the upsert of the new record; when rejected, nothing is written |
| Exams.GradeOf | components/ExamManager.tsx:94-101 | A+ from 90, A from 80, B from 70, C from 60, D from 40, F below, as bands |
| Exams.GradeMonotone | components/ExamManager.tsx:95-100 | more marks never give a lower grade |
| Exams.GradeCell | components/ExamManager.tsx:90-101 | `-` iff the student has no marks, otherwise the grade's label |
| Exams.HandleMarkChange | components/ExamManager.tsx:30-41 | an empty input removes only that student's entry; a number in 0..100 sets it; anything else leaves the map unchanged; marks stay in 0..100 |
| Exams.ResultsFor | components/ExamManager.tsx:20-28 | exactly the listed students with a matching stored result, each with the marks of the first match |
| Exams.LoadResults | components/ExamManager.tsx:20-28 | the `forEach` loop builds `ResultsFor` from the stored results |
| Exams.ResultsToSave | components/ExamManager.tsx:43-56 | one result per listed student with marks, with id `<student>-<examType>-<subject>` and total 100 |
| Exams.SaveAll | components/ExamManager.tsx:43-56 | the exam list becomes the upserts of those results in roster order; with none, nothing is written |
| Exams.ResultIdInjective | components/ExamManager.tsx:47 | for one exam and subject, the result id determines the student |
| Exams.SaveAllKeepsStoreWellFormed | components/ExamManager.tsx:43-56 | saving keeps ids unique and each id of the `<student>-<examType>-<subject>` form |
| Exams.SaveThenLoad | components/ExamManager.tsx:20-56 | after saving, loading the same exam and subject reads back every listed student's marks |
| Students.ValidateField | components/StudentManager.tsx:226-290 | the empty message iff the field's rule holds; otherwise the source's message for the first failing check of that field (e.g. "required" before "already exists", "required" before "too short" before the characters message) |
| Students.ValidFormDates | components/StudentManager.tsx:266-280 | a valid form has a birth date not after today and an admission date strictly after birth |
| Students.AllFieldsValidated | components/StudentManager.tsx:325 | every field appears in the list `handleSave` validates |
| Students.CollectErrors | components/StudentManager.tsx:327-333 | the loop collects exactly the failing fields with their messages; valid iff none fails |
| Students.ValidateAll | components/StudentManager.tsx:322-333 | the error map holds exactly the failing fields; valid iff all ten fields pass |
| Students.HandleSave | components/StudentManager.tsx:319-354 | nothing is written when any field fails, and the errors are exactly the failing fields with their messages; otherwise the student is upserted, and "save and new" on a new student opens a blank form with fresh credentials |
| Students.SaveAndNewRollIsFresh | components/StudentManager.tsx:347-350 | the fresh form's roll number is above every stored one, including the one just saved |
| Students.NewCredentials | components/StudentManager.tsx:171-178 | id `UV-<year>-<roll>` where the roll is the next roll number: 1001 with no students, otherwise the largest roll number plus one |
| Students.CredentialIdInjective | components/StudentManager.tsx:175 | year and roll number can be read back from an id |
| Students.NewIdFresh | components/StudentManager.tsx:171-178 | when stored ids were generated this way, the new id is not among them |
| Students.FilteredStudents | components/StudentManager.tsx:376-387 | listed iff search AND class AND section match; an empty class or section matches all |
| Students.ClearedFiltersShowAll | components/StudentManager.tsx:376-387 | with no search and no filters every student is listed, in order |
| Students.NarrowingHides | components/StudentManager.tsx:383-386 | choosing a class or section only ever removes students |
| Attendance.LoadAttendanceForDate | components/AttendanceManager.tsx:21-28 | builds the day's dictionary from the records of that date only, the later record winning |
| Attendance.DisplayStatus | components/AttendanceManager.tsx:110-111 | an unmarked student shows Present and is flagged unmarked |
| Attendance.MarkRecord | components/AttendanceManager.tsx:35-41 | the saved record keeps the id of the student's existing record for the date, else gets `<student>-<date>` |
| Attendance.UpdateStatus | components/AttendanceManager.tsx:30-43 | only that student's key changes in the dictionary, and the record is upserted |
| Attendance.RecordIdInjective | components/AttendanceManager.tsx:37 | over ISO dates, the id determines student and date |
| Attendance.ConsistentUniqueIds | components/AttendanceManager.tsx:35-42 | well-keyed records with one per student and date have unique ids |
| Attendance.DayMapOfOnePerDay | components/AttendanceManager.tsx:21-28 | with one record per student and date, the dictionary holds exactly the students with a record that day, with its status |
| Attendance.UpdateRecordsContents | components/AttendanceManager.tsx:35-42 | re-marking replaces the record for that student and date or adds one; every other record stays; the store stays consistent |
| Attendance.UpdateThenLoad | components/AttendanceManager.tsx:21-42 | marking then reloading the day changes exactly that student's status |
| Attendance.UpdateLeavesOtherDays | components/AttendanceManager.tsx:21-42 | marking one day leaves every other day's dictionary as it was |
| Attendance.MarkAllMap | components/AttendanceManager.tsx:45-47 | every listed student gets the status; others keep theirs |
| Attendance.MarkAll | components/AttendanceManager.tsx:45-47 | `updateStatus` for each student in turn: the dictionary becomes `MarkAllMap` and the store holds a record for each |
| Attendance.MarkAllThenLoad | components/AttendanceManager.tsx:45-47 | after marking all, reloading the day shows every listed student with the status |
| Attendance.MarkAllMapAsWritten | components/AttendanceManager.tsx:30-32 | the dictionary as the screen leaves it: the old one with only the last student marked |
| Attendance.MarkAllAsWrittenLosesUpdates | components/AttendanceManager.tsx:45-47 | with two students, the first is stored but shown unmarked |
| Teachers.ValidEmailMatchesPattern | components/TeacherManager.tsx:54 | the positional check accepts exactly the strings `local@domain.tld` the pattern describes |
| Teachers.ValidateForm | components/TeacherManager.tsx:49-66 | the first failing check in the order name, subject, email, phone, salary; `None` iff all pass; email and phone only checked when given |
| Teachers.TeacherToSave | components/TeacherManager.tsx:77 | an empty id becomes the clock reading; otherwise the form is saved as is |
| Teachers.HandleSaveTeacher | components/TeacherManager.tsx:68-82 | nothing is written when validation fails; otherwise the teacher is upserted |
| Teachers.SaveTeacherStores | components/TeacherManager.tsx:77-78 | the saved teacher is in the directory, ids stay unique, and editing keeps the size |
| Teachers.HandleDelete | components/TeacherManager.tsx:84-89 | on confirmation only the teacher list loses that id |
| Teachers.FilteredTeachers | components/TeacherManager.tsx:109-112 | listed iff the search (ignoring case) occurs in the name or the subject |
| Teachers.SearchIgnoresCase | components/TeacherManager.tsx:110-111 | typing the search in lower case lists the same teachers |
| Teachers.EmptySearchShowsAll | components/TeacherManager.tsx:109-112 | an empty search lists every teacher |
| Teachers.LoadAttendance | components/TeacherManager.tsx:41-47 | builds the day's dictionary from the records of that date only |
| Teachers.MarkAttendance | components/TeacherManager.tsx:91-100 | upserts the record with id `<teacher>-<date>` and returns the reloaded dictionary |
| Teachers.ConsistentOnePerDay | components/TeacherManager.tsx:93 | well-keyed records with unique ids hold at most one record per teacher and date |
| Teachers.MarkContents | components/TeacherManager.tsx:91-98 | marking replaces the record for that teacher and date or adds one; every other record stays |
| Teachers.DayMapDescribes | components/TeacherManager.tsx:41-47 | the day's dictionary holds exactly the teachers with a record that day, with its status |
| Teachers.MarkThenLoad | components/TeacherManager.tsx:91-100 | marking then reloading changes exactly that teacher's status |
| Teachers.RemarkOverwrites | components/TeacherManager.tsx:91-98 | marking twice on a date leaves what marking only the second time would |
| Teachers.PresentPlusAbsent | components/TeacherManager.tsx:329-333 | the present and absent counts add up to the number of marked teachers |
| Dashboard.RevenueCountsFlags | components/Dashboard.tsx:46-48 | revenue is 11000 times the number of set semester flags |
| Dashboard.RevenueAtMostCollected | components/Dashboard.tsx:46-48 | with flags in sync and no negative totals, revenue never exceeds what was collected |
| Dashboard.PartialPaymentNotInRevenue | components/Dashboard.tsx:46-48 | a partial payment counts as collected but adds nothing to revenue |
| Dashboard.PresentTodayMatchesAttendanceScreen | components/Dashboard.tsx:50-51 | with one record per student and date, the present-today count equals the students the attendance screen shows present |
| Dashboard.PassedIffNotF | components/Dashboard.tsx:54 | a result passes (marks >= 40) exactly when its grade is not F |
| Dashboard.RoundedPercent | components/Dashboard.tsx:55 | the integer formula is 100·passed/total rounded half up, between 0 and 100 |
| Dashboard.PassRate | components/Dashboard.tsx:53-55 | 0 without results; otherwise the rounded percentage of results with marks >= 40, always in 0..100 |
| Dashboard.PassRateExtremes | components/Dashboard.tsx:55 | all passing gives 100, none passing gives 0 |
| Dashboard.GenderCountsBounded | components/Dashboard.tsx:58-59 | male plus female counts never exceed the number of students |
| Dashboard.UpdateStats | components/Dashboard.tsx:39-69 | student and teacher totals are the list lengths; revenue is the fee times the set flags; the pass rate is `PassRate` of the stored results, in 0..100; present today is `PresentToday` of the stored attendance; the gender figures are `MaleCount` and `FemaleCount`, together at most the total |

## Left out

- Rendering, modals, `alert`, `confirm` and `window.print`. A confirmation is a `confirmed` parameter of `Teachers.HandleDelete`.
- `localStorage` and JSON. A key is modelled as written (`Some`) or absent (`None`).
- The failed-save `try`/`catch` in `handleSave` is not modelled: saving to the in-memory store cannot fail.
- The Gemini report, login, CSV export, the sidebar and view switching.
- The clock: `today`, `now` and `year` are parameters. `changeDate` (UTC day arithmetic) and the dashboard's 2-second polling are not modelled.
- Number parsing:
  - Marks, amounts, salaries and roll numbers are integers.
  - `parseFloat` of a mark is a `MarkEntry`: blank, an integer, or not a number.
  - Fractional marks and amounts are not modelled.
  - A roll number of 0 stands for every falsy input (empty, `NaN`), all of which get the "required" message.
- Dashboard.PassRate: computed with exact rational arithmetic. The source's floating-point product `passed / total * 100` can land just below a half and round one lower.
- Students.ValidateField: string lengths (the name's minimum of 3, the trimmed address's minimum of 5) count Unicode scalar values, while JavaScript's `length` counts UTF-16 code units. A character outside the Basic Multilingual Plane (an emoji, say) counts 1 here and 2 in the source, so near those minimums the model can refuse a name or address the source accepts, or report "too short" where the source reports the characters message.
- Text.ToLower: lower-cases ASCII letters only. JavaScript's Unicode case mapping is not modelled.
- Dates are ISO `YYYY-MM-DD` strings, as the date inputs produce, and are compared lexicographically:
  - Students.ValidateField: "in the future" means strictly after `today`. The source compares midnight UTC of the birth date with the current instant, so a birth date of today passes in both.
  - Malformed date strings (`Invalid Date`) are not modelled.
- Fees.ProcessPayment: the update is modelled as a new record value. The source's shallow copy shares its `transactions` array with the screen's fee list, and `push` also changes that list in place. This aliasing is not modelled.
- The payment form offers CHEQUE, which `types.ts` does not list among the transaction types; the model's `PaymentMode` includes it.
- Exams.HandleMarkChange: the model applies each change to the latest dictionary. React's functional update for a number versus a plain copy for a blank, and the resulting batching order, are not modelled.
- The dashboard comment speaks of marks "> 40"; the code counts marks >= 40, which is what is modelled (and agrees with grade D starting at 40).
- Attendance.MarkAll: the dictionary is threaded from one update to the next (the corrected behaviour). The screen's own result is Attendance.MarkAllMapAsWritten, see Findings.

## Findings

| source | as written | input that shows it | evidently intended | confidence | as-written member | corrected member |
|---|---|---|---|---|---|---|
| components/AttendanceManager.tsx:30-47 | `markAll` calls `updateStatus` for each student; each call builds its new dictionary from the same render's `attendanceMap`, so every call overwrites the previous one and only the last student shows as marked. The store does get a record for everyone. | two unmarked students s1, s2, "All Present" on 2024-07-01: s1 is stored Present but its card stays unmarked | every listed student shows the chosen status, as the store records | not executed | Attendance.MarkAllMapAsWritten, Attendance.MarkAllAsWrittenLosesUpdates | Attendance.MarkAll, Attendance.MarkAllMap, Attendance.MarkAllThenLoad |
