/** The local-storage data manager: three stored tables (students, class
    sessions, attendance records), each either absent or holding a list,
    and the ephemeral student-session keys. Reading an absent students or
    sessions table stores and returns the seed data; reading an absent
    records table returns an empty list and stores nothing. */
module LocalStore {
  import opened Wrappers
  import opened JsArray
  import opened Attendance

  /** The pair `getStudentAuth` returns. */
  datatype AuthInfo = AuthInfo(studentId: string, studentName: string)

  const StudentIdKey: string := "studentId"
  const StudentNameKey: string := "studentName"
  const StudentTokenKey: string := "studentToken"
  const AuthenticatedToken: string := "authenticated"

  /** `getStudentAuth` on the key/value store: the stored id and name, or
      None when any of the three keys is missing or empty. */
  function AuthFrom(m: map<string, string>): Option<AuthInfo> {
    if StudentIdKey in m && m[StudentIdKey] != ""
       && StudentNameKey in m && m[StudentNameKey] != ""
       && StudentTokenKey in m && m[StudentTokenKey] != ""
    then Some(AuthInfo(m[StudentIdKey], m[StudentNameKey]))
    else None
  }

  /** `setStudentAuth(id, name)` on the key/value store. Reading back gives
      the pair, unless the id or the name is empty (an empty string reads
      as missing); no other key changes. */
  function SetAuth(m: map<string, string>, id: string, name: string): (m': map<string, string>)
    ensures AuthFrom(m') == if id != "" && name != "" then Some(AuthInfo(id, name)) else None
    ensures forall k :: k != StudentIdKey && k != StudentNameKey && k != StudentTokenKey ==>
              (k in m' <==> k in m) && (k in m ==> m'[k] == m[k])
  {
    m[StudentIdKey := id][StudentNameKey := name][StudentTokenKey := AuthenticatedToken]
  }

  /** `clearStudentAuth()` on the key/value store: reading back gives None;
      no other key changes. */
  function ClearAuth(m: map<string, string>): (m': map<string, string>)
    ensures AuthFrom(m') == None
    ensures forall k :: k != StudentIdKey && k != StudentNameKey && k != StudentTokenKey ==>
              (k in m' <==> k in m) && (k in m ==> m'[k] == m[k])
  {
    m - {StudentIdKey, StudentNameKey, StudentTokenKey}
  }

  class DataManager {
    /** The stored tables; None is an absent storage key. */
    var students: Option<seq<Student>>
    var classes: Option<seq<ClassData>>
    var records: Option<seq<AttendanceRecord>>
    /** The ephemeral keys of the student session. */
    var auth: map<string, string>

    /** The seed dates, computed from the clock when the module loads. */
    const yesterday: string
    const today: string
    const tomorrow: string

    /** What `getStudents` returns: the stored list or the seed. */
    function StudentsView(): seq<Student> reads this`students {
      students.GetOr(DefaultStudents)
    }

    /** What `getClasses` returns: the stored list or the seed. */
    function ClassesView(): seq<ClassData> reads this`classes {
      classes.GetOr(DefaultClasses(yesterday, today, tomorrow))
    }

    /** What `getAttendanceRecords` returns: the stored list or []. */
    function RecordsView(): seq<AttendanceRecord> reads this`records {
      records.GetOr([])
    }

    /** Everything but the cached counts: the seed dates are distinct and
        the tables are well formed. */
    ghost predicate Structural() reads this {
      && yesterday != today && today != tomorrow && yesterday != tomorrow
      && TablesWellFormed(StudentsView(), ClassesView(), RecordsView())
    }

    /** The invariant of the data layer, including that every session's
        attendance count equals the number of records on its date. */
    ghost predicate Valid() reads this {
      Structural() && CountsMatch(ClassesView(), RecordsView())
    }

    /** Empty storage. The three seed dates of one clock reading are
        different calendar dates. */
    constructor (yesterday: string, today: string, tomorrow: string)
      requires yesterday != today && today != tomorrow && yesterday != tomorrow
      ensures Valid()
      ensures students.None? && classes.None? && records.None? && auth == map[]
      ensures this.yesterday == yesterday && this.today == today && this.tomorrow == tomorrow
    {
      this.yesterday := yesterday;
      this.today := today;
      this.tomorrow := tomorrow;
      students, classes, records := None, None, None;
      auth := map[];
      new;
      SeedValid(yesterday, today, tomorrow);
    }

    /** `getStudents()`: returns the students, storing the seed when the key
        is absent. */
    method GetStudents() returns (r: seq<Student>)
      requires Valid()
      modifies this`students
      ensures Valid()
      ensures r == old(StudentsView()) && students == Some(r)
      ensures old(students).None? ==> r == DefaultStudents
    {
      if students.None? {
        students := Some(DefaultStudents);
        return DefaultStudents;
      }
      r := students.value;
    }

    /** `getClasses()`: returns the sessions, storing the seed when the key
        is absent. */
    method GetClasses() returns (r: seq<ClassData>)
      requires Valid()
      modifies this`classes
      ensures Valid()
      ensures r == old(ClassesView()) && classes == Some(r)
      ensures old(classes).None? ==> r == DefaultClasses(yesterday, today, tomorrow)
    {
      if classes.None? {
        var seed := DefaultClasses(yesterday, today, tomorrow);
        classes := Some(seed);
        return seed;
      }
      r := classes.value;
    }

    /** `getAttendanceRecords()`: the stored records, or [] when the key is
        absent; nothing is stored. */
    method GetAttendanceRecords() returns (r: seq<AttendanceRecord>)
      ensures records.None? ==> r == []
      ensures records.Some? ==> r == records.value
    {
      r := if records.Some? then records.value else [];
    }

    /** `getActiveStudentsCount()`. */
    method GetActiveStudentsCount() returns (n: nat)
      requires Valid()
      modifies this`students
      ensures Valid()
      ensures n == ActiveCount(old(StudentsView())) && students == Some(old(StudentsView()))
    {
      var sv := GetStudents();
      n := ActiveCount(sv);
    }

    /** `validateStudentLogin(handle, password)`. */
    method ValidateStudentLogin(handle: string, password: string) returns (r: Option<Student>)
      requires Valid()
      modifies this`students
      ensures Valid()
      ensures r == Login(old(StudentsView()), handle, password)
      ensures students == Some(old(StudentsView()))
    {
      var sv := GetStudents();
      match LoginIndex(sv, handle)
      case None =>
        return None;
      case Some(i) =>
        var stored := EffectivePassword(sv[i].password);
        if stored == password {
          return Some(sv[i]);
        }
        return None;
    }

    /** `addClass(c)`: rejects a date that already has a session; otherwise
        appends the session with count 0 and the current number of active
        students. */
    method AddClass(c: NewClass) returns (ok: bool)
      requires Valid()
      modifies this`classes, this`students
      ensures Valid()
      ensures ok <==> ClassIndex(old(ClassesView()), c.date).None?
      ensures !ok ==> classes == Some(old(ClassesView())) && students == old(students)
      ensures ok ==> classes == Some(old(ClassesView()) + [NewSession(c, ActiveCount(old(StudentsView())))])
      ensures ok ==> students == Some(old(StudentsView()))
      ensures records == old(records)
    {
      var cv := GetClasses();
      if ClassIndex(cv, c.date).Some? {
        return false;
      }
      var n := GetActiveStudentsCount();
      var session := NewSession(c, n);
      SessionAppendedValid(StudentsView(), cv, RecordsView(), session);
      classes := Some(cv + [session]);
      return true;
    }

    /** `getClassByDate(d)`. */
    method GetClassByDate(d: string) returns (r: Option<ClassData>)
      requires Valid()
      modifies this`classes
      ensures Valid()
      ensures r == ClassByDate(old(ClassesView()), d)
      ensures classes == Some(old(ClassesView()))
    {
      var cv := GetClasses();
      r := ClassByDate(cv, d);
    }

    /** `updateClassAttendanceCount(d)`: sets the count of the session dated
        `d` to the number of records dated `d`; the other sessions, and a
        store without such a session, are left as they are (the sessions
        table is still written, seeded if absent). Called after a change to
        the records of date `d`, it restores the count invariant. */
    method UpdateClassAttendanceCount(d: string)
      requires Structural() && CountsMatchExcept(ClassesView(), RecordsView(), d)
      modifies this`classes
      ensures Valid()
      ensures classes == Some(Recount(old(ClassesView()), RecordsView(), d))
    {
      var cv := if classes.Some? then classes.value else DefaultClasses(yesterday, today, tomorrow);
      var rv := GetAttendanceRecords();
      RecountValid(StudentsView(), cv, rv, d);
      match ClassIndex(cv, d)
      case None =>
        classes := Some(cv);
      case Some(i) =>
        var count := |RecordsOnDate(rv, d)|;
        classes := Some(cv[i := cv[i].(attendanceCount := count)]);
    }

    /** `addAttendanceRecord(id, d)`, checked in at `time`: rejects a date
        without a session, an id (not a login handle) no student has, and a
        second record for the pair; otherwise appends a 'present' record with
        the student's name and recomputes that session's count. */
    method AddAttendanceRecord(id: string, d: string, time: string) returns (ok: bool)
      requires Valid()
      modifies this`classes, this`students, this`records
      ensures Valid()
      ensures ok <==> ClassByDate(old(ClassesView()), d).Some?
                      && StudentById(old(StudentsView()), id).Some?
                      && RecordIndex(old(RecordsView()), id, d).None?
      ensures StudentsView() == old(StudentsView())
      ensures students == if ClassByDate(old(ClassesView()), d).Some? then Some(old(StudentsView())) else old(students)
      ensures !ok ==> records == old(records) && classes == Some(old(ClassesView()))
      ensures ok ==> records == Some(old(RecordsView()) + [AttendanceRecord(id, StudentById(old(StudentsView()), id).value.name, d, time, Present)])
      ensures ok ==> forall j :: 0 <= j < |RecordsView()| && RecordsView()[j].studentId == id && RecordsView()[j].classDate == d ==> j == |old(RecordsView())|
      ensures ok ==> classes == Some(Recount(old(ClassesView()), RecordsView(), d))
    {
      var classInfo := GetClassByDate(d);
      if classInfo.None? {
        return false;
      }
      var rv := GetAttendanceRecords();
      var sv := GetStudents();
      var student := StudentById(sv, id);
      if student.None? {
        return false;
      }
      if RecordIndex(rv, id, d).Some? {
        return false;
      }
      var rec := AttendanceRecord(id, student.value.name, d, time, Present);
      RecordPushedWellFormed(sv, ClassesView(), rv, rec);
      records := Some(rv + [rec]);
      UpdateClassAttendanceCount(d);
      return true;
    }

    /** `removeAttendanceRecord(id, d)`: false, with nothing written, when no
        record for the pair exists; otherwise removes the first such record,
        keeps the others in order and recomputes that session's count. */
    method RemoveAttendanceRecord(id: string, d: string) returns (ok: bool)
      requires Valid()
      modifies this`classes, this`records
      ensures Valid()
      ensures ok <==> RecordIndex(old(RecordsView()), id, d).Some?
      ensures !ok ==> records == old(records) && classes == old(classes)
      ensures ok ==> records == Some(RemoveAt(old(RecordsView()), RecordIndex(old(RecordsView()), id, d).value))
      ensures ok ==> classes == Some(Recount(old(ClassesView()), RecordsView(), d))
    {
      var rv := GetAttendanceRecords();
      var found := RecordIndex(rv, id, d);
      if found.None? {
        return false;
      }
      var k := found.value;
      RecordRemovedWellFormed(StudentsView(), ClassesView(), rv, k);
      records := Some(RemoveAt(rv, k));
      UpdateClassAttendanceCount(d);
      return true;
    }

    /** `getStudentAttendanceRecords(id)`. */
    method GetStudentAttendanceRecords(id: string) returns (r: seq<AttendanceRecord>)
      ensures r == RecordsOfStudent(RecordsView(), id)
    {
      var rv := GetAttendanceRecords();
      r := RecordsOfStudent(rv, id);
    }

    /** `getAttendanceByDate(d)`. */
    method GetAttendanceByDate(d: string) returns (r: seq<AttendanceRecord>)
      ensures r == RecordsOnDate(RecordsView(), d)
    {
      var rv := GetAttendanceRecords();
      r := RecordsOnDate(rv, d);
    }

    /** `resetData()`: removes the three table keys, so the next reads seed
        again. */
    method ResetData()
      requires Valid()
      modifies this`students, this`classes, this`records
      ensures Valid()
      ensures students.None? && classes.None? && records.None?
      ensures StudentsView() == DefaultStudents && RecordsView() == []
      ensures ClassesView() == DefaultClasses(yesterday, today, tomorrow)
    {
      students, classes, records := None, None, None;
      SeedValid(yesterday, today, tomorrow);
    }

    /** `setStudentAuth(id, name)`. */
    method SetStudentAuth(id: string, name: string)
      modifies this`auth
      ensures auth == SetAuth(old(auth), id, name)
    {
      auth := auth[StudentIdKey := id];
      auth := auth[StudentNameKey := name];
      auth := auth[StudentTokenKey := AuthenticatedToken];
    }

    /** `getStudentAuth()`. */
    method GetStudentAuth() returns (r: Option<AuthInfo>)
      ensures r == AuthFrom(auth)
    {
      var id := if StudentIdKey in auth then auth[StudentIdKey] else "";
      var name := if StudentNameKey in auth then auth[StudentNameKey] else "";
      var token := if StudentTokenKey in auth then auth[StudentTokenKey] else "";
      if id == "" || name == "" || token == "" {
        return None;
      }
      return Some(AuthInfo(id, name));
    }

    /** `clearStudentAuth()`. */
    method ClearStudentAuth()
      modifies this`auth
      ensures auth == ClearAuth(old(auth))
    {
      auth := auth - {StudentIdKey, StudentNameKey, StudentTokenKey};
    }

    /** The local branch of the facade's `addStudent(s)`: appends `s` with the
        id generated from the current number of students, without checking
        the login handle, and reports success. */
    method AddStudent(s: NewStudent) returns (ok: bool)
      requires Valid()
      modifies this`students
      ensures Valid()
      ensures ok
      ensures students == Some(old(StudentsView()) + [WithId(s, StudentIdFor(|old(StudentsView())|))])
    {
      var sv := GetStudents();
      var student := WithId(s, StudentIdFor(|sv|));
      StudentAppendedValid(sv, ClassesView(), RecordsView(), student);
      students := Some(sv + [student]);
      return true;
    }
  }
}
