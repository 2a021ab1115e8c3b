# Attendance data layer, sign-up and class-creation validation

This is a Dafny model of the local-storage data layer of a class-attendance
web app. It also models the two form handlers that feed the data layer.

Three tables are kept in browser-local storage:

- **students**: generated id, login handle, optional password, active flag.
- **class sessions**: one per date. Each caches an attendance count and the
  number of active students at creation time.
- **attendance records**: at most one per (student id, date).

Reading an absent students or sessions key stores and returns seed data (ten
students and three sessions). Reading an absent records key returns an empty
list and stores nothing. The add, remove and recount operations keep one
invariant over all three tables: `DataManager.Valid()`. It says:

- ids follow positions;
- session dates are distinct;
- there is at most one record per pair;
- every record points at an existing session and student;
- every cached count equals the number of records on that date.

The constructor (empty storage) establishes it. Every method that changes a
table or reads one through a seeding getter requires and ensures it.
`UpdateClassAttendanceCount` is the exception: it requires the invariant with
only one date's count stale and restores it. The reads that store nothing and
the three session-key methods (`SetStudentAuth`, `GetStudentAuth`,
`ClearStudentAuth`) don't mention the invariant. They touch no table field, so
the invariant holds across them by framing.

The model is split into these modules:

- `Wrappers`: Option and Result.
- `JsArray`: `findIndex`, `filter`, `splice(i, 1)`.
- `JsString`: `trim`, string `<`, `String(n)`, `padStart`.
- `Attendance`: the entities, the seed data, the pure queries, and the table
  invariant with the lemmas that preserve it.
- `LocalStore`: the `DataManager` class and the local branch of the facade's
  `addStudent`.
- `StudentLogin`: the sign-up guard chain and its handler.
- `ClassCreateModal`: the class form's validation and the `ClassForm` class.
- `Scenarios`: check-in and cancel, adding a session twice, adding and
  resetting, adding a student and logging in, and creating a session through
  the class form, each replayed through the method contracts.
- `SharedSeed`: the seed aliasing described under "## Findings".

Storage keys are fields of type `Option<seq<…>>`, where None is an absent
key. `StudentsView`, `ClassesView` and `RecordsView` give what the matching
getter would return. The invariant is stated over these views, so seeding
does not change the abstract state.

## Model

| member | source | states |
|---|---|---|
| Attendance.DefaultClasses | src/utils/dataManager.ts:81-109 | three seed sessions dated yesterday, today and tomorrow, each with count 0 and 10 students |
| Attendance.UnseededDate | src/utils/dataManager.ts:81-109 | a date other than the three seed dates has no seeded session |
| Attendance.SeedValid | src/utils/dataManager.ts:40-109 | the seed students and sessions with no records satisfy the full table invariant |
| Attendance.StudentIdFor | src/utils/dataManager.ts:346 | a generated id starts with 'S' and has at least four characters |
| Attendance.StudentIdNumber | src/utils/dataManager.ts:346 | the characters after the 'S' are digits that read back as count + 1 |
| Attendance.StudentIdInjective | src/utils/dataManager.ts:346 | different student counts give different ids, also past 999, where the number outgrows the padding |
| Attendance.IdsFollowPositionDistinct | src/utils/dataManager.ts:341-353 | in a list whose ids all come from `addStudent`, no two students share an id |
| Attendance.DefaultIdsFollowPosition | src/utils/dataManager.ts:40-51 | the seeded ids S001-S010 are exactly the ids `addStudent` would generate for positions 0-9 |
| Attendance.OneDigitStudentId | src/utils/dataManager.ts:346 | the first nine generated ids are "S00" followed by one digit |
| Attendance.TenthStudentId | src/utils/dataManager.ts:346 | the tenth generated id is "S010" |
| Attendance.EleventhStudentId | src/utils/dataManager.ts:346 | the id given to the first student added to the seed is "S011" |
| Attendance.ActiveCount | src/utils/dataManager.ts:126-128 | the active count is at most the list length; it is the full length when all are active and 0 when none is |
| Attendance.ActiveCountPush | src/utils/dataManager.ts:126-128 | appending a student raises the active count by one exactly when that student is active |
| Attendance.StudentById | src/utils/dataManager.ts:206 | None iff no student has that id; otherwise the first student with that id |
| Attendance.HasHandle | src/pages/StudentLogin.tsx:63-64 | some student has the handle exactly when `find` by handle (the first index satisfying it) finds one |
| Attendance.LoginIndex | src/utils/dataManager.ts:133 | the first index whose student has the handle and is active; None iff there is none |
| Attendance.EffectivePassword | src/utils/dataManager.ts:140 | the stored password when present and non-empty, otherwise "1234"; never empty |
| Attendance.Login | src/utils/dataManager.ts:131-147 | for the first active student with the handle, the result is that student iff the password equals the effective password, else None; None when no active student has the handle |
| Attendance.LoginAfterAppend | src/utils/dataManager.ts:131-147 | a student appended with a fresh handle and a non-empty password logs in with that password and with no other |
| Attendance.ClassIndex | src/utils/dataManager.ts:265 | the first index of a session with the date; None iff there is none |
| Attendance.ClassByDate | src/utils/dataManager.ts:182-185 | None iff no session has the date; otherwise a session of the list with that date |
| Attendance.DistinctDatesIndex | src/utils/dataManager.ts:265 | with distinct dates, the session dated d is at the index of d |
| Attendance.AppendFreshDate | src/utils/dataManager.ts:163-180 | appending a session whose date is unused keeps the dates distinct |
| Attendance.RecordsOnDate | src/utils/dataManager.ts:280-283 | exactly the records dated d, each taken from the list |
| Attendance.RecordsOfStudent | src/utils/dataManager.ts:274-277 | exactly the records of student id, each taken from the list |
| Attendance.CountOnDate | src/utils/dataManager.ts:267 | at most the number of records; 0 exactly when no record has the date |
| Attendance.CountOnDatePush | src/utils/dataManager.ts:233-234 | pushing a record raises the count of its date by one and leaves every other date's count alone |
| Attendance.CountOnDateRemove | src/utils/dataManager.ts:252-253 | splicing out record i lowers the count of its date by one and leaves every other date's count alone |
| Attendance.RecordIndex | src/utils/dataManager.ts:244-246 | the first index of a record for (id, d); None iff there is none |
| Attendance.CheckInThenCancel | src/utils/dataManager.ts:198-258 | a fresh pair pushed is found at the end; removing it gives back the records and every per-date count, and no record for the pair is left |
| Attendance.NoSessionNoRecords | src/utils/dataManager.ts:198-203 | when records only refer to existing sessions, a date without a session has no records |
| Attendance.SessionAppendedValid | src/utils/dataManager.ts:163-180 | appending a session with an unused date and count 0 keeps the full invariant |
| Attendance.StudentAppendedValid | src/utils/dataManager.ts:341-353 | appending a student with the generated id keeps the full invariant |
| Attendance.RecordPushedWellFormed | src/utils/dataManager.ts:198-237 | pushing a guarded record keeps the tables well formed, makes it the only record of its pair, raises its date's count by one and keeps every other count right |
| Attendance.RecordRemovedWellFormed | src/utils/dataManager.ts:242-256 | removing a record keeps the tables well formed, lowers its date's count by one and keeps every other count right |
| Attendance.Recount | src/utils/dataManager.ts:261-271 | dates and length unchanged; with distinct dates, the session dated d gets the record count of d and every other session is unchanged |
| Attendance.RecountShifts | src/utils/dataManager.ts:236-237 | when a record change moved the count of d by delta, recounting moves that session's cached count by delta and changes nothing else |
| Attendance.RecountValid | src/utils/dataManager.ts:261-271 | recounting the one date whose count may be stale restores the full invariant |
| JsArray.FindIndex | src/utils/dataManager.ts:244-246 | the first index satisfying the predicate; None iff no element satisfies it |
| JsArray.Filter | src/utils/dataManager.ts:127 | no longer than the input; every element kept satisfies the predicate and every satisfying element is kept |
| JsArray.FilterNone | src/utils/dataManager.ts:267 | the filter is empty when no element satisfies the predicate |
| JsArray.FilterAppend | src/utils/dataManager.ts:267 | filtering distributes over concatenation |
| JsArray.FilterPushCount | src/utils/dataManager.ts:233 | the filtered length grows by one exactly when the pushed element satisfies the predicate |
| JsArray.RemoveAt | src/utils/dataManager.ts:252 | one element shorter; elements before i kept, elements after i shifted down by one |
| JsArray.RemoveAtCount | src/utils/dataManager.ts:252 | the filtered length drops by one exactly when the removed element satisfies the predicate |
| JsArray.RemovePushed | src/utils/dataManager.ts:252 | splicing out the last pushed element gives back the original sequence |
| JsString.IsWhitespace | src/pages/StudentLogin.tsx:47 | among ASCII characters only tab through carriage return and the space are whitespace, so no printable ASCII character is trimmed; the ideographic space is whitespace |
| JsString.LeadingWhitespace | src/pages/StudentLogin.tsx:47 | the length of the longest all-whitespace prefix |
| JsString.TrailingWhitespace | src/pages/StudentLogin.tsx:47 | the length of the longest all-whitespace suffix |
| JsString.Trim | src/pages/StudentLogin.tsx:47 | a slice of the input with only whitespace around it, neither starting nor ending with whitespace; empty iff the input is all whitespace |
| JsString.TrimOfTrimmed | src/components/ClassCreateModal.tsx:44 | a string that neither starts nor ends with whitespace is its own trim |
| JsString.TrimIdempotent | src/components/ClassCreateModal.tsx:44 | trimming twice is trimming once |
| JsString.Less | src/components/ClassCreateModal.tsx:38 | string `<` holds exactly when the left string is a proper prefix of the right or has the smaller character at the first position where they differ |
| JsString.LessIrreflexive | src/components/ClassCreateModal.tsx:38 | no string is below itself |
| JsString.LessTransitive | src/components/ClassCreateModal.tsx:38 | string order is transitive |
| JsString.LessTotal | src/components/ClassCreateModal.tsx:38 | distinct strings are ordered one way or the other, so `>=` is the negation of `<` |
| JsString.LessAtFirstDifference | src/components/ClassCreateModal.tsx:38 | equal-length strings compare as their first differing characters |
| JsString.MinuteOfDay | src/components/ClassCreateModal.tsx:38 | an "HH:MM" time maps to a minute below 24 * 60 |
| JsString.TimeOrder | src/components/ClassCreateModal.tsx:38-41 | for zero-padded "HH:MM" times, string `<` is chronological order |
| JsString.DigitChar | src/utils/dataManager.ts:346 | the character is a digit whose value is d |
| JsString.Decimal | src/utils/dataManager.ts:346 | `String(n)` is non-empty and all digits |
| JsString.DecimalRoundTrip | src/utils/dataManager.ts:346 | reading back `String(n)` gives n |
| JsString.PadStart | src/utils/dataManager.ts:346 | the length is max(l, n); the input is the suffix and everything before it is the pad character |
| JsString.LeadingZerosValue | src/utils/dataManager.ts:346 | leading zeros do not change a digit string's value |
| JsString.ZerosValue | src/utils/dataManager.ts:346 | a string of zeros has value 0 |
| JsString.PaddedDecimalValue | src/utils/dataManager.ts:346 | a zero-padded `String(n)` is all digits and reads back as n |
| LocalStore.SetAuth | src/utils/dataManager.ts:293-297 | reading back gives the pair, or None when the id or name is empty; no other key changes |
| LocalStore.ClearAuth | src/utils/dataManager.ts:311-315 | reading back gives None; no other key changes |
| LocalStore.DataManager.constructor | src/utils/dataManager.ts:320 | empty storage and empty session keys, satisfying the invariant |
| LocalStore.DataManager.GetStudents | src/utils/dataManager.ts:113-120 | returns the stored students, or stores and returns the seed when the key is absent |
| LocalStore.DataManager.GetClasses | src/utils/dataManager.ts:150-157 | returns the stored sessions, or stores and returns the seed when the key is absent |
| LocalStore.DataManager.GetAttendanceRecords | src/utils/dataManager.ts:188-191 | the stored records, or [] when the key is absent; nothing is stored |
| LocalStore.DataManager.GetActiveStudentsCount | src/utils/dataManager.ts:126-128 | the active count of the (possibly seeded) students |
| LocalStore.DataManager.ValidateStudentLogin | src/utils/dataManager.ts:131-147 | the result is `Login` on the students; the only write is the students seed |
| LocalStore.DataManager.AddClass | src/utils/dataManager.ts:163-180 | true iff no session has the date; on false the sessions are unchanged; on true exactly one session is appended, with count 0 and total = active students; the invariant is kept |
| LocalStore.DataManager.GetClassByDate | src/utils/dataManager.ts:182-185 | the first session with the date, or None; the only write is the seed |
| LocalStore.DataManager.UpdateClassAttendanceCount | src/utils/dataManager.ts:261-271 | the sessions become `Recount` of the old sessions; called with only date d stale, it restores the invariant |
| LocalStore.DataManager.AddAttendanceRecord | src/utils/dataManager.ts:198-239 | true iff a session has the date, a student has the id and the pair has no record; on false no records or sessions change; on true one 'present' record with the student's name is appended, it is the only record of the pair, and the sessions are recounted |
| LocalStore.DataManager.RemoveAttendanceRecord | src/utils/dataManager.ts:242-258 | true iff a record for the pair exists; on false nothing is written; on true the first match is spliced out, the rest stay in order, and the sessions are recounted |
| LocalStore.DataManager.GetStudentAttendanceRecords | src/utils/dataManager.ts:274-277 | the records of the student, in order |
| LocalStore.DataManager.GetAttendanceByDate | src/utils/dataManager.ts:280-283 | the records of the date, in order |
| LocalStore.DataManager.ResetData | src/utils/dataManager.ts:286-290 | all three keys removed, so the views are again the seed students, the seed sessions and no records |
| LocalStore.DataManager.SetStudentAuth | src/utils/dataManager.ts:293-297 | the session keys become `SetAuth` of the old ones |
| LocalStore.DataManager.GetStudentAuth | src/utils/dataManager.ts:299-309 | the result is read from the session keys; by `SetAuth` and `ClearAuth` it is the stored pair after a set with a non-empty id and name, and None after a clear |
| LocalStore.DataManager.ClearStudentAuth | src/utils/dataManager.ts:311-315 | the session keys become `ClearAuth` of the old ones |
| LocalStore.DataManager.AddStudent | src/utils/dataManager.ts:341-353 | always true; appends the student with id "S" followed by count + 1 padded to three digits, without a handle check; the invariant is kept |
| StudentLogin.FieldsFilled | src/pages/StudentLogin.tsx:47 | filled exactly when the handle and the name each have a character that is not whitespace and both password fields are non-empty (a password of spaces counts as filled) |
| StudentLogin.ValidateSignup | src/pages/StudentLogin.tsx:47-77 | each refusal holds iff its check fails and every earlier check passes (missing field, mismatch, shorter than 4, taken handle); on success, the trimmed name and handle, the untrimmed password and active |
| StudentLogin.SignupThenLogin | src/pages/StudentLogin.tsx:72-79 | once an accepted sign-up is stored, its handle and chosen password log it in, and no other password does |
| StudentLogin.SignupKeepsHandlesDistinct | src/pages/StudentLogin.tsx:62-69 | adding only students that pass the guard chain keeps login handles distinct |
| StudentLogin.UncheckedAddDuplicatesHandle | src/utils/dataManager.ts:341-353 | `addStudent` alone accepts a taken handle: uniqueness breaks and the newcomer cannot log in with their own password |
| StudentLogin.DefaultHandlesDistinct | src/utils/dataManager.ts:40-51 | the seeded handles are distinct |
| StudentLogin.HandleSignup | src/pages/StudentLogin.tsx:41-108 | the outcome is `ValidateSignup` on the current students; a refusal adds nobody and keeps both forms; success appends the student, clears the form, fills the login form's handle with the new trimmed handle, lets the student log in with it, and keeps handles distinct |
| ClassCreateModal.OptionalTrimmed | src/components/ClassCreateModal.tsx:44 | None iff the announcement is blank, otherwise its trim |
| ClassCreateModal.ValidateClassForm | src/components/ClassCreateModal.tsx:33-44 | refused for a blank name iff it is blank; refused for the times iff the name is filled and not start < end; otherwise the call with the trimmed name and optional trimmed announcement |
| ClassCreateModal.AcceptsChronologicalTimes | src/components/ClassCreateModal.tsx:38-41 | for "HH:MM" times, accepted iff the name is not blank and the end is later in the day than the start |
| ClassCreateModal.RejectsEqualTimes | src/components/ClassCreateModal.tsx:38-41 | equal start and end times are always refused |
| ClassCreateModal.CallIsTrimmed | src/components/ClassCreateModal.tsx:44 | an accepted call carries a non-empty trimmed name and, if present, a non-empty trimmed announcement |
| ClassCreateModal.ClassForm.constructor | src/components/ClassCreateModal.tsx:20-24 | the form opens reset: empty name, 09:00, 18:00, empty announcement, no error |
| ClassCreateModal.ClassForm.HandleSubmit | src/components/ClassCreateModal.tsx:28-53 | the call made is `ValidateClassForm` of the fields; after a call the form is reset; after a refusal the fields are kept and the error is set |
| ClassCreateModal.ClassForm.HandleCancel | src/components/ClassCreateModal.tsx:55-62 | the form is reset |
| Scenarios.CheckInThenCancelTwice | src/utils/dataManager.ts:198-258 | after a successful check-in, the cancel succeeds, a second cancel fails, and the records and sessions are as before; after a refused check-in nothing is cancelled and nothing changes |
| Scenarios.RecountRestores | src/utils/dataManager.ts:261-271 | with right counts, recounting after any intermediate recount gives back the sessions |
| Scenarios.AddClassTwice | src/utils/dataManager.ts:163-180 | adding an unused date twice: the first succeeds, the second is refused, and exactly one session was appended |
| Scenarios.CreateClassThroughForm | src/pages/AdminDashboard.tsx:47-55 | a session is added exactly when the form passes and the date has no session; it is the call's session with the trimmed name and count 0; a refused form or a taken date leaves the sessions unchanged; the form is reset whenever it passed |
| Scenarios.AddClassThenResetScenario | src/utils/dataManager.ts:286-290 | on a fresh store, adding a session and then resetting gives back exactly the seed sessions |
| Scenarios.AddStudentThenLoginScenario | src/utils/dataManager.ts:341-353 | on a fresh store, a student added through the facade gets id S011 and logs in with their own password and not a wrong one; a seeded student logs in with "1234" |
| Scenarios.SeededHandlesStartLow | src/utils/dataManager.ts:40-51 | a handle whose third character is not '0' or '1' is not among the seeded handles |
| Scenarios.SeededLoginAfterAppend | src/utils/dataManager.ts:131-147 | after any append, the first seeded student still logs in with the default password |
| SharedSeed.AddClassAsWritten | src/utils/dataManager.ts:150-180 | as written: true iff the date is unused; the returned sessions gain the new session, and on an absent key the in-memory seed gains it too |
| SharedSeed.ResetKeepsFirstAddedSession | src/utils/dataManager.ts:150-180 | on a fresh store, addClass then resetData gives the seed plus the added session, not the seed |

## Left out

- The remote backend (`supabaseDataManager`) and the facade's development-mode switch are not part of this model. Only the local branch of each facade method is modelled. On the remote branch, `removeAttendanceRecord` always returns false (src/utils/dataManager.ts:422-430).
- JSON serialisation through `localStorage` is not modelled. Each table is a field holding its value, so a read returns exactly what was last written.
- The clock helpers are left out: the three seed dates are constructor parameters. The constructor requires them to be pairwise distinct, as the clock gives them.
- `LocalStore.DataManager.AddAttendanceRecord` takes the check-in time as a parameter. `toLocaleTimeString` is clock and locale dependent.
- The bulk setters `setStudents`, `setClasses` and `setAttendanceRecords` are omitted. They can break every invariant above.
- `JsString.Less` compares Unicode scalar values, not UTF-16 code units. `MinPasswordLength` counts scalar values too. The two agree on text of characters from the Basic Multilingual Plane, which is what a time input produces. A password field accepts any text, so they can differ. For example, "😀😀" has JavaScript length 4 and passes the length check at src/pages/StudentLogin.tsx:57. In the model it has length 2, and `ValidateSignup` refuses it with `PasswordTooShort`.
- Error messages are abstracted to error kinds (`SignupError`, `FormError`). The exact Korean texts are not modelled.
- The React side effects are left out: `alert`, `navigate`, `onClose`, the modal-open flag, the reloaded student list and the dashboard's `loadData`. The login-form pre-fill `setStudentId(newStudent.studentId)` (src/pages/StudentLogin.tsx:96) is modelled as the `loginHandle` result of `StudentLogin.HandleSignup`. In `StudentLogin.HandleSignup`, the branch where `addStudent` reports failure cannot happen locally, and the `catch` branches are not modelled.
- `getStudentAuth` tests each key with `!`. An empty stored string therefore reads as missing, and `SetAuth` states this.
- Login handles are meant to be unique, since login picks the first active student with the handle. The code enforces this only in the sign-up handler, because `addStudent` does not check. The model follows the code: `DataManager.Valid()` does not include handle uniqueness. `StudentLogin.HandleSignup` preserves it, and `StudentLogin.UncheckedAddDuplicatesHandle` shows that `addStudent` alone breaks it.
- `LocalStore.DataManager.AddAttendanceRecord` and `LocalStore.DataManager.RemoveAttendanceRecord` state the new sessions as `Recount` of the old ones. The session-by-session "+1 / −1, others unchanged" form is proved separately in `Attendance.RecountShifts`, `Attendance.RecordPushedWellFormed` and `Attendance.RecordRemovedWellFormed`.
- Page reloads are not modelled. `localStorage` survives a reload, but `DEFAULT_CLASSES` and its seed dates (src/utils/dataManager.ts:81-109) are recomputed from the clock, and the in-memory seed starts afresh. `LocalStore.DataManager.constructor` models only a first load with empty storage, not a reload over stored tables.
- The main model treats seed data as immutable values. The aliasing of the in-memory seed array is modelled only in `SharedSeed` (see Findings).
- Dafny strings here are sequences of characters without normalisation. `trim` uses the ECMAScript whitespace set, enumerated.

## Findings

| source | as written | input that shows it | evidently intended | confidence | as-written member | corrected member |
|---|---|---|---|---|---|---|
| src/utils/dataManager.ts:150-180 | on an absent sessions key, `getClasses` returns the seed array itself; `addClass` pushes onto it, so the in-memory seed grows, and after `resetData` the next read seeds the added session again | fresh store, `addClass` for a date other than the three seed dates, then `resetData` and `getClasses`: four sessions. The grown seed lasts only until the next page reload. `resetData` is marked for development use, and no screen calls it (only the facade at src/utils/dataManager.ts:479-485 forwards it) | `resetData` restores the three seed sessions (the seed is never modified) | not executed | SharedSeed.ResetKeepsFirstAddedSession | Scenarios.AddClassThenResetScenario |
