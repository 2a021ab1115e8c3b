/** Entities of the attendance data layer, its seed data and the pure
    queries (`find`/`filter` expressions) the storage operations are built
    from, together with the invariants the operations keep. */
module Attendance {
  import opened Wrappers
  import opened JsArray
  import opened JsString

  /** A student. `id` is generated by the data layer; `studentId` is the
      login handle the student types. An absent password means the
      system-wide default applies. */
  datatype Student = Student(id: string, name: string, studentId: string, password: Option<string>, active: bool)

  /** A student's fields without the generated `id`, as `addStudent` takes them. */
  datatype NewStudent = NewStudent(name: string, studentId: string, password: Option<string>, active: bool)

  /** A class session, keyed by its date. `attendanceCount` caches the number
      of attendance records for that date; `totalStudents` is the number of
      active students when the session was created. */
  datatype ClassData = ClassData(
    date: string, className: string, startTime: string, endTime: string,
    announcement: Option<string>, attendanceCount: nat, totalStudents: nat)

  /** A session without its two derived fields, as `addClass` takes it. */
  datatype NewClass = NewClass(
    date: string, className: string, startTime: string, endTime: string,
    announcement: Option<string>)

  datatype Status = Present

  /** A check-in: `studentId` refers to `Student.id` (not the login handle),
      `studentName` is copied from the student when the record is made. */
  datatype AttendanceRecord = AttendanceRecord(
    studentId: string, studentName: string, classDate: string,
    attendanceTime: string, status: Status)

  /** The password of every student whose stored password is absent or empty. */
  const DefaultPassword: string := "1234"

  /** The ten seeded students: ids and handles S001 to S010, no password, all active. */
  const DefaultStudents: seq<Student> := [
    Student("S001", "김철수", "S001", None, true),
    Student("S002", "박영희", "S002", None, true),
    Student("S003", "이민수", "S003", None, true),
    Student("S004", "정수진", "S004", None, true),
    Student("S005", "최동욱", "S005", None, true),
    Student("S006", "한지영", "S006", None, true),
    Student("S007", "송민호", "S007", None, true),
    Student("S008", "윤서연", "S008", None, true),
    Student("S009", "강태현", "S009", None, true),
    Student("S010", "조은비", "S010", None, true)
  ]

  /** The three seeded sessions, dated yesterday, today and tomorrow of the
      moment the data layer is loaded. */
  function DefaultClasses(yesterday: string, today: string, tomorrow: string): (r: seq<ClassData>)
    ensures |r| == 3 && r[0].date == yesterday && r[1].date == today && r[2].date == tomorrow
    ensures forall i :: 0 <= i < |r| ==> r[i].attendanceCount == 0 && r[i].totalStudents == 10
  {
    [ ClassData(yesterday, "React 기초반", "09:00", "18:00",
        Some("실습 위주의 수업입니다. 노트북을 준비해 주세요."), 0, 10),
      ClassData(today, "웹개발 심화과정", "10:00", "17:00",
        Some("프로젝트 발표가 있습니다. 준비해 오세요."), 0, 10),
      ClassData(tomorrow, "TypeScript 마스터", "14:00", "18:00",
        Some("최신 TypeScript 5.0 기능을 다룹니다."), 0, 10) ]
  }

  /** A date other than the three seed dates has no seeded session. */
  lemma UnseededDate(yesterday: string, today: string, tomorrow: string, d: string)
    requires d != yesterday && d != today && d != tomorrow
    ensures ClassIndex(DefaultClasses(yesterday, today, tomorrow), d).None?
  {
    var seed := DefaultClasses(yesterday, today, tomorrow);
    assert forall j :: 0 <= j < |seed| ==> seed[j].date in [yesterday, today, tomorrow];
  }

  // ---------------------------------------------------------------------
  // Generated student ids
  // ---------------------------------------------------------------------

  /** The id `addStudent` gives the student appended to a list of `count`
      students: "S" followed by count + 1, zero padded to three digits. */
  function StudentIdFor(count: nat): (id: string)
    ensures |id| >= 4 && id[0] == 'S'
  {
    "S" + PadStart(Decimal(count + 1), 3, '0')
  }

  /** Different list lengths give different ids, also beyond 999 students
      where the number outgrows the padding. */
  lemma StudentIdInjective(a: nat, b: nat)
    requires StudentIdFor(a) == StudentIdFor(b)
    ensures a == b
  {
    StudentIdNumber(a);
    StudentIdNumber(b);
  }

  /** The digits after the "S" of a generated id read back as count + 1. */
  lemma StudentIdNumber(count: nat)
    ensures forall i :: 1 <= i < |StudentIdFor(count)| ==> IsDigit(StudentIdFor(count)[i])
    ensures DigitsValue(StudentIdFor(count)[1..]) == count + 1
  {
    var p := PadStart(Decimal(count + 1), 3, '0');
    assert StudentIdFor(count)[1..] == p;
    PaddedDecimalValue(count + 1, 3);
  }

  /** A student list in which the student at position i has the id
      `addStudent` generates for position i. */
  ghost predicate IdsFollowPosition(sv: seq<Student>) {
    forall i :: 0 <= i < |sv| ==> sv[i].id == StudentIdFor(i)
  }

  /** Such a list never holds two students with the same id. */
  lemma IdsFollowPositionDistinct(sv: seq<Student>, i: nat, j: nat)
    requires IdsFollowPosition(sv)
    requires i < |sv| && j < |sv| && i != j
    ensures sv[i].id != sv[j].id
  {
    if sv[i].id == sv[j].id { StudentIdInjective(i, j); }
  }

  lemma DefaultIdsFollowPosition()
    ensures IdsFollowPosition(DefaultStudents)
  {
    forall i | 0 <= i < |DefaultStudents|
      ensures DefaultStudents[i].id == StudentIdFor(i)
    {
      if i < 9 { OneDigitStudentId(i); } else { TenthStudentId(); }
    }
  }

  /** The first nine generated ids are "S00" and one digit. */
  lemma OneDigitStudentId(count: nat)
    requires count < 9
    ensures StudentIdFor(count) == ['S', '0', '0', DigitChar(count + 1)]
  {
    assert Decimal(count + 1) == [DigitChar(count + 1)];
    assert PadStart([DigitChar(count + 1)], 3, '0') == ['0', '0', DigitChar(count + 1)];
  }

  lemma TenthStudentId()
    ensures StudentIdFor(9) == "S010"
  {
    assert Decimal(10) == "10" by { assert Decimal(1) == "1"; }
    assert PadStart("10", 3, '0') == "010";
  }

  /** The id of the first student added to the seed. */
  lemma EleventhStudentId()
    ensures StudentIdFor(10) == "S011"
  {
    assert Decimal(11) == "11" by { assert Decimal(1) == "1"; }
    assert PadStart("11", 3, '0') == "011";
  }

  /** The student `addStudent` stores: the given fields plus the id. */
  function WithId(s: NewStudent, id: string): Student {
    Student(id, s.name, s.studentId, s.password, s.active)
  }

  // ---------------------------------------------------------------------
  // Queries over students
  // ---------------------------------------------------------------------

  /** `getActiveStudentsCount`: the number of active students. */
  function ActiveCount(sv: seq<Student>): (n: nat)
    ensures n <= |sv|
    ensures n == |sv| <== forall i :: 0 <= i < |sv| ==> sv[i].active
    ensures n == 0 <== forall i :: 0 <= i < |sv| ==> !sv[i].active
  {
    if sv == [] then 0 else (if sv[0].active then 1 else 0) + ActiveCount(sv[1..])
  }

  /** Appending a student raises the active count by one exactly when that
      student is active. */
  lemma {:induction false} ActiveCountPush(sv: seq<Student>, s: Student)
    ensures ActiveCount(sv + [s]) == ActiveCount(sv) + (if s.active then 1 else 0)
  {
    if sv != [] {
      assert (sv + [s])[1..] == sv[1..] + [s];
      ActiveCountPush(sv[1..], s);
    } else {
      assert [s][1..] == [];
    }
  }

  /** `students.find(s => s.id === id)`. */
  function StudentById(sv: seq<Student>, id: string): (r: Option<Student>)
    ensures r.None? <==> forall i :: 0 <= i < |sv| ==> sv[i].id != id
    ensures r.Some? ==> exists i :: 0 <= i < |sv| && sv[i] == r.value && sv[i].id == id && forall j :: 0 <= j < i ==> sv[j].id != id
  {
    match FindIndex(sv, (s: Student) => s.id == id)
    case None => None
    case Some(i) => Some(sv[i])
  }

  /** A list in which no two students share a login handle. */
  ghost predicate HandlesDistinct(sv: seq<Student>) {
    forall i, j :: 0 <= i < j < |sv| ==> sv[i].studentId != sv[j].studentId
  }

  /** Some student has the login handle `h`: exactly when
      `students.find(s => s.studentId === h)` finds a student. */
  predicate HasHandle(sv: seq<Student>, h: string)
    ensures HasHandle(sv, h) <==> FindIndex(sv, (s: Student) => s.studentId == h).Some?
  {
    exists i :: 0 <= i < |sv| && sv[i].studentId == h
  }

  /** Index of the student `validateStudentLogin` picks: the first whose
      handle is `h` and who is active. */
  function LoginIndex(sv: seq<Student>, h: string): (r: Option<nat>)
    ensures r.Some? ==> r.value < |sv| && sv[r.value].studentId == h && sv[r.value].active
    ensures r.Some? ==> forall j :: 0 <= j < r.value ==> !(sv[j].studentId == h && sv[j].active)
    ensures r.None? <==> forall j :: 0 <= j < |sv| ==> !(sv[j].studentId == h && sv[j].active)
  {
    FindIndex(sv, (s: Student) => s.studentId == h && s.active)
  }

  /** `student.password || '1234'`. */
  function EffectivePassword(p: Option<string>): (r: string)
    ensures r != ""
    ensures p.Some? && p.value != "" ==> r == p.value
    ensures p.None? || p.value == "" ==> r == DefaultPassword
  {
    if p.Some? && p.value != "" then p.value else DefaultPassword
  }

  /** `validateStudentLogin(h, p)`: the first active student with handle `h`,
      if `p` is that student's effective password; None otherwise. An
      inactive student with the handle is skipped, not rejected. */
  function Login(sv: seq<Student>, h: string, p: string): (r: Option<Student>)
    ensures r.Some? ==> r.value in sv && r.value.studentId == h && r.value.active
    ensures r.Some? ==> EffectivePassword(r.value.password) == p
    ensures (forall j :: 0 <= j < |sv| ==> !(sv[j].studentId == h && sv[j].active)) ==> r.None?
    ensures forall i :: 0 <= i < |sv| && sv[i].studentId == h && sv[i].active
                        && (forall j :: 0 <= j < i ==> !(sv[j].studentId == h && sv[j].active))
                        ==> r == (if EffectivePassword(sv[i].password) == p then Some(sv[i]) else None)
  {
    match LoginIndex(sv, h)
    case None => None
    case Some(i) => if EffectivePassword(sv[i].password) == p then Some(sv[i]) else None
  }

  /** A student appended to a list that holds no student with the same
      handle can log in with a non-empty password of their own. */
  lemma LoginAfterAppend(sv: seq<Student>, s: Student)
    requires !HasHandle(sv, s.studentId)
    requires s.active && s.password.Some? && s.password.value != ""
    ensures Login(sv + [s], s.studentId, s.password.value) == Some(s)
    ensures forall p :: p != s.password.value ==> Login(sv + [s], s.studentId, p) == None
  {
    var t := sv + [s];
    assert t[|sv|] == s;
    forall j | 0 <= j < |sv| ensures !(t[j].studentId == s.studentId && t[j].active) {
      assert t[j] == sv[j];
    }
  }

  // ---------------------------------------------------------------------
  // Queries over classes
  // ---------------------------------------------------------------------

  /** `classes.findIndex(cls => cls.date === d)`. */
  function ClassIndex(cv: seq<ClassData>, d: string): (r: Option<nat>)
    ensures r.Some? ==> r.value < |cv| && cv[r.value].date == d
    ensures r.Some? ==> forall j :: 0 <= j < r.value ==> cv[j].date != d
    ensures r.None? <==> forall j :: 0 <= j < |cv| ==> cv[j].date != d
  {
    FindIndex(cv, (c: ClassData) => c.date == d)
  }

  /** `getClassByDate(d)` on a class list: the first session dated `d`. */
  function ClassByDate(cv: seq<ClassData>, d: string): (r: Option<ClassData>)
    ensures r.None? <==> forall j :: 0 <= j < |cv| ==> cv[j].date != d
    ensures r.Some? ==> r.value in cv && r.value.date == d
  {
    match ClassIndex(cv, d)
    case None => None
    case Some(i) => Some(cv[i])
  }

  /** No two sessions share a date. */
  ghost predicate DatesDistinct(cv: seq<ClassData>) {
    forall i, j :: 0 <= i < j < |cv| ==> cv[i].date != cv[j].date
  }

  /** In a list with distinct dates the session dated `d`, if any, is the
      one at `ClassIndex`, and every session dated `d` is that one. */
  lemma DistinctDatesIndex(cv: seq<ClassData>, d: string, i: nat)
    requires DatesDistinct(cv)
    requires i < |cv| && cv[i].date == d
    ensures ClassIndex(cv, d) == Some(i)
  {
  }

  /** The session `addClass` appends. */
  function NewSession(c: NewClass, activeStudents: nat): ClassData {
    ClassData(c.date, c.className, c.startTime, c.endTime, c.announcement, 0, activeStudents)
  }

  /** Appending a session with a fresh date keeps the dates distinct. */
  lemma AppendFreshDate(cv: seq<ClassData>, c: ClassData)
    requires DatesDistinct(cv)
    requires ClassIndex(cv, c.date).None?
    ensures DatesDistinct(cv + [c])
  {
  }

  // ---------------------------------------------------------------------
  // Queries over attendance records
  // ---------------------------------------------------------------------

  /** `getAttendanceByDate(d)`: the records dated `d`, in order. */
  function RecordsOnDate(rv: seq<AttendanceRecord>, d: string): (r: seq<AttendanceRecord>)
    ensures |r| <= |rv|
    ensures forall j :: 0 <= j < |r| ==> r[j] in rv && r[j].classDate == d
    ensures forall j :: 0 <= j < |rv| && rv[j].classDate == d ==> rv[j] in r
  {
    Filter(rv, (x: AttendanceRecord) => x.classDate == d)
  }

  /** `getStudentAttendanceRecords(id)`: the records of student `id`, in order. */
  function RecordsOfStudent(rv: seq<AttendanceRecord>, id: string): (r: seq<AttendanceRecord>)
    ensures |r| <= |rv|
    ensures forall j :: 0 <= j < |r| ==> r[j] in rv && r[j].studentId == id
    ensures forall j :: 0 <= j < |rv| && rv[j].studentId == id ==> rv[j] in r
  {
    Filter(rv, (x: AttendanceRecord) => x.studentId == id)
  }

  /** The number of records dated `d`, that is
      `records.filter(record => record.classDate === d).length`. */
  function CountOnDate(rv: seq<AttendanceRecord>, d: string): (n: nat)
    ensures n <= |rv|
    ensures n == 0 <==> forall j :: 0 <= j < |rv| ==> rv[j].classDate != d
  {
    var p := (x: AttendanceRecord) => x.classDate == d;
    assert (forall j :: 0 <= j < |rv| ==> rv[j].classDate != d) ==> Filter(rv, p) == [] by {
      if forall j :: 0 <= j < |rv| ==> rv[j].classDate != d { FilterNone(rv, p); }
    }
    |RecordsOnDate(rv, d)|
  }

  lemma CountOnDatePush(rv: seq<AttendanceRecord>, x: AttendanceRecord, d: string)
    ensures CountOnDate(rv + [x], d) == CountOnDate(rv, d) + (if x.classDate == d then 1 else 0)
  {
    FilterPushCount(rv, x, (y: AttendanceRecord) => y.classDate == d);
  }

  lemma CountOnDateRemove(rv: seq<AttendanceRecord>, i: nat, d: string)
    requires i < |rv|
    ensures CountOnDate(RemoveAt(rv, i), d) == CountOnDate(rv, d) - (if rv[i].classDate == d then 1 else 0)
  {
    RemoveAtCount(rv, i, (y: AttendanceRecord) => y.classDate == d);
  }

  /** `records.findIndex(r => r.studentId === id && r.classDate === d)`. */
  function RecordIndex(rv: seq<AttendanceRecord>, id: string, d: string): (r: Option<nat>)
    ensures r.Some? ==> r.value < |rv| && rv[r.value].studentId == id && rv[r.value].classDate == d
    ensures r.Some? ==> forall j :: 0 <= j < r.value ==> !(rv[j].studentId == id && rv[j].classDate == d)
    ensures r.None? <==> forall j :: 0 <= j < |rv| ==> !(rv[j].studentId == id && rv[j].classDate == d)
  {
    FindIndex(rv, (x: AttendanceRecord) => x.studentId == id && x.classDate == d)
  }

  /** At most one record per (student id, date). */
  ghost predicate PairsUnique(rv: seq<AttendanceRecord>) {
    forall i, j :: 0 <= i < j < |rv| ==> !(rv[i].studentId == rv[j].studentId && rv[i].classDate == rv[j].classDate)
  }

  /** Checking in and then cancelling the same (student, date) pair gives
      back the records and every per-date count, and afterwards there is no
      record left for a second cancel to remove. */
  lemma CheckInThenCancel(rv: seq<AttendanceRecord>, x: AttendanceRecord)
    requires RecordIndex(rv, x.studentId, x.classDate).None?
    ensures RecordIndex(rv + [x], x.studentId, x.classDate) == Some(|rv|)
    ensures RemoveAt(rv + [x], |rv|) == rv
    ensures forall d :: CountOnDate(RemoveAt(rv + [x], |rv|), d) == CountOnDate(rv, d)
    ensures RecordIndex(RemoveAt(rv + [x], |rv|), x.studentId, x.classDate).None?
  {
    var t := rv + [x];
    assert t[|rv|] == x;
    forall j | 0 <= j < |rv| ensures !(t[j].studentId == x.studentId && t[j].classDate == x.classDate) {
      assert t[j] == rv[j];
    }
    RemovePushed(rv, x);
  }

  // ---------------------------------------------------------------------
  // Invariants linking the three tables
  // ---------------------------------------------------------------------

  /** Every session's cached count is the number of records on its date,
      except possibly for the sessions dated `d` (whose count is about to be
      recomputed). */
  ghost predicate CountsMatchExcept(cv: seq<ClassData>, rv: seq<AttendanceRecord>, d: string) {
    forall i :: 0 <= i < |cv| && cv[i].date != d ==> cv[i].attendanceCount == CountOnDate(rv, cv[i].date)
  }

  /** Every session's cached count is the number of records on its date. */
  ghost predicate CountsMatch(cv: seq<ClassData>, rv: seq<AttendanceRecord>) {
    forall i :: 0 <= i < |cv| ==> cv[i].attendanceCount == CountOnDate(rv, cv[i].date)
  }

  /** Every record points at an existing session and an existing student. */
  ghost predicate RecordsReferenced(rv: seq<AttendanceRecord>, cv: seq<ClassData>, sv: seq<Student>) {
    forall i :: 0 <= i < |rv| ==> HasSession(cv, rv[i].classDate) && HasStudent(sv, rv[i].studentId)
  }

  /** Some session is dated `d`: `ClassIndex(cv, d)` is not None. */
  ghost predicate HasSession(cv: seq<ClassData>, d: string) {
    exists i :: 0 <= i < |cv| && cv[i].date == d
  }

  /** Some student has id `id`: `StudentById(sv, id)` is not None. */
  ghost predicate HasStudent(sv: seq<Student>, id: string) {
    exists i :: 0 <= i < |sv| && sv[i].id == id
  }

  /** The invariant of the three tables apart from the cached counts: ids
      follow positions, session dates are distinct, there is at most one
      record per (student, date) and every record refers to a session and a
      student. */
  ghost predicate TablesWellFormed(sv: seq<Student>, cv: seq<ClassData>, rv: seq<AttendanceRecord>) {
    && IdsFollowPosition(sv)
    && DatesDistinct(cv)
    && PairsUnique(rv)
    && RecordsReferenced(rv, cv, sv)
  }

  /** The full invariant: well formed, and every cached count right. */
  ghost predicate TablesValid(sv: seq<Student>, cv: seq<ClassData>, rv: seq<AttendanceRecord>) {
    TablesWellFormed(sv, cv, rv) && CountsMatch(cv, rv)
  }

  /** The seed tables, with no records, satisfy the invariant. */
  lemma SeedValid(yesterday: string, today: string, tomorrow: string)
    requires yesterday != today && today != tomorrow && yesterday != tomorrow
    ensures TablesValid(DefaultStudents, DefaultClasses(yesterday, today, tomorrow), [])
  {
    DefaultIdsFollowPosition();
  }

  /** A date without a session has no records. */
  lemma NoSessionNoRecords(sv: seq<Student>, cv: seq<ClassData>, rv: seq<AttendanceRecord>, d: string)
    requires RecordsReferenced(rv, cv, sv)
    requires ClassIndex(cv, d).None?
    ensures CountOnDate(rv, d) == 0
  {
    forall j | 0 <= j < |rv| ensures rv[j].classDate != d {
      var i :| 0 <= i < |cv| && cv[i].date == rv[j].classDate;
    }
    FilterNone(rv, (x: AttendanceRecord) => x.classDate == d);
  }

  /** `addClass` on the tables: appending a session with a fresh date and
      count 0 keeps the invariant. */
  lemma SessionAppendedValid(sv: seq<Student>, cv: seq<ClassData>, rv: seq<AttendanceRecord>, c: ClassData)
    requires TablesValid(sv, cv, rv)
    requires ClassIndex(cv, c.date).None? && c.attendanceCount == 0
    ensures TablesValid(sv, cv + [c], rv)
  {
    NoSessionNoRecords(sv, cv, rv, c.date);
    AppendFreshDate(cv, c);
    SessionAppendedReferenced(sv, cv, rv, c);
    SessionAppendedCounts(cv, rv, c);
  }

  lemma SessionAppendedReferenced(sv: seq<Student>, cv: seq<ClassData>, rv: seq<AttendanceRecord>, c: ClassData)
    requires RecordsReferenced(rv, cv, sv)
    ensures RecordsReferenced(rv, cv + [c], sv)
  {
    forall j | 0 <= j < |rv| ensures HasSession(cv + [c], rv[j].classDate) {
      var i :| 0 <= i < |cv| && cv[i].date == rv[j].classDate;
      assert (cv + [c])[i] == cv[i];
    }
  }

  lemma SessionAppendedCounts(cv: seq<ClassData>, rv: seq<AttendanceRecord>, c: ClassData)
    requires CountsMatch(cv, rv)
    requires c.attendanceCount == CountOnDate(rv, c.date)
    ensures CountsMatch(cv + [c], rv)
  {
    var t := cv + [c];
    forall i | 0 <= i < |t| ensures t[i].attendanceCount == CountOnDate(rv, t[i].date) {
      if i < |cv| { assert t[i] == cv[i]; }
    }
  }

  /** Local `addStudent` on the tables: appending a student with the
      generated id keeps the invariant. */
  lemma StudentAppendedValid(sv: seq<Student>, cv: seq<ClassData>, rv: seq<AttendanceRecord>, s: Student)
    requires TablesValid(sv, cv, rv)
    requires s.id == StudentIdFor(|sv|)
    ensures TablesValid(sv + [s], cv, rv)
  {
    forall j | 0 <= j < |rv| ensures HasStudent(sv + [s], rv[j].studentId) {
      var i :| 0 <= i < |sv| && sv[i].id == rv[j].studentId;
      assert (sv + [s])[i] == sv[i];
    }
  }

  /** Pushing a record for an existing session and student, with no record
      yet for that pair, keeps the tables well formed; the count of its date
      goes up by one and every other count stays right. */
  lemma RecordPushedWellFormed(sv: seq<Student>, cv: seq<ClassData>, rv: seq<AttendanceRecord>, x: AttendanceRecord)
    requires TablesValid(sv, cv, rv)
    requires ClassIndex(cv, x.classDate).Some? && StudentById(sv, x.studentId).Some?
    requires RecordIndex(rv, x.studentId, x.classDate).None?
    ensures TablesWellFormed(sv, cv, rv + [x])
    ensures forall j :: 0 <= j < |rv + [x]| && (rv + [x])[j].studentId == x.studentId && (rv + [x])[j].classDate == x.classDate
              ==> j == |rv|
    ensures CountsMatchExcept(cv, rv + [x], x.classDate)
    ensures CountOnDate(rv + [x], x.classDate) == CountOnDate(rv, x.classDate) + 1
  {
    PushedPairsUnique(rv, x);
    PushedReferenced(sv, cv, rv, x);
    PushedCounts(cv, rv, x);
  }

  lemma PushedPairsUnique(rv: seq<AttendanceRecord>, x: AttendanceRecord)
    requires PairsUnique(rv)
    requires RecordIndex(rv, x.studentId, x.classDate).None?
    ensures PairsUnique(rv + [x])
    ensures forall j :: 0 <= j < |rv + [x]| && (rv + [x])[j].studentId == x.studentId && (rv + [x])[j].classDate == x.classDate
              ==> j == |rv|
  {
    var t := rv + [x];
    forall i, j | 0 <= i < j < |t|
      ensures !(t[i].studentId == t[j].studentId && t[i].classDate == t[j].classDate)
    {
      if j < |rv| { assert t[i] == rv[i] && t[j] == rv[j]; } else { assert t[i] == rv[i]; }
    }
    forall j | 0 <= j < |rv| ensures t[j] == rv[j] { }
  }

  lemma PushedReferenced(sv: seq<Student>, cv: seq<ClassData>, rv: seq<AttendanceRecord>, x: AttendanceRecord)
    requires RecordsReferenced(rv, cv, sv)
    requires ClassIndex(cv, x.classDate).Some? && StudentById(sv, x.studentId).Some?
    ensures RecordsReferenced(rv + [x], cv, sv)
  {
    var t := rv + [x];
    forall j | 0 <= j < |t|
      ensures ClassIndex(cv, t[j].classDate).Some? && StudentById(sv, t[j].studentId).Some?
    {
      if j < |rv| { assert t[j] == rv[j]; }
    }
  }

  lemma PushedCounts(cv: seq<ClassData>, rv: seq<AttendanceRecord>, x: AttendanceRecord)
    requires CountsMatch(cv, rv)
    ensures CountsMatchExcept(cv, rv + [x], x.classDate)
    ensures CountOnDate(rv + [x], x.classDate) == CountOnDate(rv, x.classDate) + 1
  {
    forall i | 0 <= i < |cv| && cv[i].date != x.classDate
      ensures cv[i].attendanceCount == CountOnDate(rv + [x], cv[i].date)
    {
      CountOnDatePush(rv, x, cv[i].date);
    }
    CountOnDatePush(rv, x, x.classDate);
  }

  /** Removing record `k` keeps the tables well formed; the count of its
      date goes down by one and every other count stays right. */
  lemma RecordRemovedWellFormed(sv: seq<Student>, cv: seq<ClassData>, rv: seq<AttendanceRecord>, k: nat)
    requires TablesValid(sv, cv, rv)
    requires k < |rv|
    ensures TablesWellFormed(sv, cv, RemoveAt(rv, k))
    ensures CountsMatchExcept(cv, RemoveAt(rv, k), rv[k].classDate)
    ensures CountOnDate(RemoveAt(rv, k), rv[k].classDate) == CountOnDate(rv, rv[k].classDate) - 1
  {
    RemovedPairsUnique(rv, k);
    RemovedReferenced(sv, cv, rv, k);
    RemovedCounts(cv, rv, k);
  }

  lemma RemovedPairsUnique(rv: seq<AttendanceRecord>, k: nat)
    requires PairsUnique(rv) && k < |rv|
    ensures PairsUnique(RemoveAt(rv, k))
  {
    var rest := RemoveAt(rv, k);
    forall i, j | 0 <= i < j < |rest|
      ensures !(rest[i].studentId == rest[j].studentId && rest[i].classDate == rest[j].classDate)
    {
      assert rest[i] == rv[if i < k then i else i + 1];
      assert rest[j] == rv[if j < k then j else j + 1];
    }
  }

  lemma RemovedReferenced(sv: seq<Student>, cv: seq<ClassData>, rv: seq<AttendanceRecord>, k: nat)
    requires RecordsReferenced(rv, cv, sv) && k < |rv|
    ensures RecordsReferenced(RemoveAt(rv, k), cv, sv)
  {
    var rest := RemoveAt(rv, k);
    forall j | 0 <= j < |rest| ensures rest[j] == rv[if j < k then j else j + 1] { }
  }

  lemma RemovedCounts(cv: seq<ClassData>, rv: seq<AttendanceRecord>, k: nat)
    requires CountsMatch(cv, rv) && k < |rv|
    ensures CountsMatchExcept(cv, RemoveAt(rv, k), rv[k].classDate)
    ensures CountOnDate(RemoveAt(rv, k), rv[k].classDate) == CountOnDate(rv, rv[k].classDate) - 1
  {
    forall i | 0 <= i < |cv| && cv[i].date != rv[k].classDate
      ensures cv[i].attendanceCount == CountOnDate(RemoveAt(rv, k), cv[i].date)
    {
      CountOnDateRemove(rv, k, cv[i].date);
    }
    CountOnDateRemove(rv, k, rv[k].classDate);
  }

  /** `updateClassAttendanceCount(d)` on the tables: the first session dated
      `d` gets the number of records dated `d`; without such a session the
      list is unchanged. */
  function Recount(cv: seq<ClassData>, rv: seq<AttendanceRecord>, d: string): (r: seq<ClassData>)
    ensures |r| == |cv|
    ensures forall i :: 0 <= i < |cv| ==> r[i].date == cv[i].date
    ensures DatesDistinct(cv) ==>
      forall i :: 0 <= i < |cv| ==>
        r[i] == if cv[i].date == d then cv[i].(attendanceCount := CountOnDate(rv, d)) else cv[i]
  {
    match ClassIndex(cv, d)
    case None => cv
    case Some(i) => cv[i := cv[i].(attendanceCount := CountOnDate(rv, d))]
  }

  /** Two session lists with the same dates position by position answer
      every lookup by date alike. */
  lemma SameDatesSameIndex(cv: seq<ClassData>, cv': seq<ClassData>)
    requires |cv| == |cv'|
    requires forall i :: 0 <= i < |cv| ==> cv[i].date == cv'[i].date
    ensures forall d :: ClassIndex(cv, d) == ClassIndex(cv', d)
  {
    forall d ensures ClassIndex(cv, d) == ClassIndex(cv', d) { }
  }

  /** When record changes moved the count of date `d` by `delta` and the
      counts were right before, recounting moves the cached count of the
      session dated `d` by `delta` and leaves every other session alone. */
  lemma RecountShifts(cv: seq<ClassData>, rv: seq<AttendanceRecord>, rv': seq<AttendanceRecord>, d: string, delta: int)
    requires DatesDistinct(cv) && CountsMatch(cv, rv)
    requires CountOnDate(rv', d) == CountOnDate(rv, d) + delta
    ensures forall i :: 0 <= i < |cv| ==>
      Recount(cv, rv', d)[i] == if cv[i].date == d then cv[i].(attendanceCount := cv[i].attendanceCount + delta) else cv[i]
  {
  }

  /** Recomputing the one count that may be stale restores the invariant. */
  lemma RecountValid(sv: seq<Student>, cv: seq<ClassData>, rv: seq<AttendanceRecord>, d: string)
    requires TablesWellFormed(sv, cv, rv) && CountsMatchExcept(cv, rv, d)
    ensures TablesValid(sv, Recount(cv, rv, d), rv)
  {
    SameDatesSameIndex(cv, Recount(cv, rv, d));
  }
}
