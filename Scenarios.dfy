/** Clients of the data layer that use nothing but the method contracts:
    check-in and cancel, adding a session twice, adding and resetting, adding
    a student and logging in, and creating a session through the class form. */
module Scenarios {
  import opened Wrappers
  import opened JsArray
  import opened Attendance
  import opened LocalStore
  import opened StudentLogin
  import opened JsString
  import opened ClassCreateModal

  /** Checking in and then cancelling leaves the records and the sessions
      as they were (up to the first read having stored the seed), and a
      second cancel finds nothing. */
  method CheckInThenCancelTwice(dm: DataManager, id: string, d: string, time: string)
    returns (added: bool, removed: bool, removedAgain: bool)
    requires dm.Valid()
    modifies dm`students, dm`classes, dm`records
    ensures dm.Valid()
    ensures added ==> removed && !removedAgain
    ensures added ==> dm.RecordsView() == old(dm.RecordsView()) && dm.ClassesView() == old(dm.ClassesView())
    ensures !added ==> !removed && !removedAgain
    ensures !added ==> dm.RecordsView() == old(dm.RecordsView()) && dm.ClassesView() == old(dm.ClassesView())
  {
    ghost var rv0, cv0 := dm.RecordsView(), dm.ClassesView();
    added := dm.AddAttendanceRecord(id, d, time);
    if !added {
      return added, false, false;
    }
    ghost var x := AttendanceRecord(id, StudentById(dm.StudentsView(), id).value.name, d, time, Present);
    CheckInThenCancel(rv0, x);
    removed := dm.RemoveAttendanceRecord(id, d);
    assert dm.RecordsView() == rv0;
    RecountRestores(cv0, rv0, d);
    removedAgain := dm.RemoveAttendanceRecord(id, d);
  }

  /** Recounting a date whose count is already right changes nothing, and
      recounting twice with the same records is recounting once. */
  lemma RecountRestores(cv: seq<ClassData>, rv: seq<AttendanceRecord>, d: string)
    requires DatesDistinct(cv) && CountsMatch(cv, rv)
    ensures forall rv' :: Recount(Recount(cv, rv', d), rv, d) == cv
  {
    forall rv' ensures Recount(Recount(cv, rv', d), rv, d) == cv {
      var once := Recount(cv, rv', d);
      assert DatesDistinct(once);
      var twice := Recount(once, rv, d);
      assert |twice| == |cv|;
      forall i | 0 <= i < |cv| ensures twice[i] == cv[i] { }
    }
  }

  /** The same date added twice: the first call succeeds, the second is
      refused, and the sessions gained exactly one entry, carrying that
      date. */
  method AddClassTwice(dm: DataManager, c: NewClass) returns (first: bool, second: bool)
    requires dm.Valid()
    requires ClassIndex(dm.ClassesView(), c.date).None?
    modifies dm`classes, dm`students
    ensures dm.Valid()
    ensures first && !second
    ensures dm.ClassesView() == old(dm.ClassesView()) + [NewSession(c, ActiveCount(old(dm.StudentsView())))]
  {
    first := dm.AddClass(c);
    ghost var cv := dm.ClassesView();
    assert cv[|cv| - 1].date == c.date;
    second := dm.AddClass(c);
  }

  /** The admin dashboard creating a session through the class form: the
      form's submit handler validates the fields, and the call it makes is
      handed to `addClass`. A session is added exactly when the form passes
      and the day has none yet; it carries the trimmed name, and the form is
      reset whenever the form passed, even if the day was taken. */
  method CreateClassThroughForm(dm: DataManager, form: ClassForm, date: string) returns (created: bool)
    requires dm.Valid()
    modifies dm`classes, dm`students, form
    ensures dm.Valid()
    ensures var v := ValidateClassForm(date, old(form.className), old(form.startTime), old(form.endTime), old(form.announcement));
            && (created <==> v.Success? && ClassIndex(old(dm.ClassesView()), date).None?)
            && (v.Success? ==> form.IsReset())
            && (created ==> dm.ClassesView() == old(dm.ClassesView()) + [NewSession(ToNewClass(v.value), ActiveCount(old(dm.StudentsView())))])
    ensures !created ==> dm.ClassesView() == old(dm.ClassesView())
    ensures created ==> var s := dm.ClassesView()[|dm.ClassesView()| - 1];
                        s.date == date && s.className == Trim(old(form.className)) && s.className != ""
                        && s.attendanceCount == 0
  {
    var call := form.HandleSubmit(date);
    if call.None? {
      return false;
    }
    created := dm.AddClass(ToNewClass(call.value));
  }

  /** Adding a session on a fresh store and then resetting gives back the
      seeded sessions only. */
  method AddClassThenResetScenario(yesterday: string, today: string, tomorrow: string, c: NewClass)
    returns (added: bool, sessions: seq<ClassData>)
    requires yesterday != today && today != tomorrow && yesterday != tomorrow
    requires c.date != yesterday && c.date != today && c.date != tomorrow
    ensures added && sessions == DefaultClasses(yesterday, today, tomorrow)
  {
    var dm := new DataManager(yesterday, today, tomorrow);
    UnseededDate(yesterday, today, tomorrow, c.date);
    added := dm.AddClass(c);
    dm.ResetData();
    sessions := dm.GetClasses();
  }

  /** A student added by the facade logs in with their own password and
      not with a wrong one; a seeded student logs in with the default. */
  method AddStudentThenLoginScenario(yesterday: string, today: string, tomorrow: string)
    returns (good: Option<Student>, bad: Option<Student>, seeded: Option<Student>)
    requires yesterday != today && today != tomorrow && yesterday != tomorrow
    ensures good.Some? && good.value.name == "Kim" && good.value.id == "S011"
    ensures bad.None?
    ensures seeded == Some(DefaultStudents[0])
  {
    var dm := new DataManager(yesterday, today, tomorrow);
    var ok := dm.AddStudent(NewStudent("Kim", "S099", Some("ab12"), true));
    var kim := WithId(NewStudent("Kim", "S099", Some("ab12"), true), StudentIdFor(10));
    assert dm.StudentsView() == DefaultStudents + [kim];
    SeededHandlesStartLow("S099");
    LoginAfterAppend(DefaultStudents, kim);
    EleventhStudentId();
    good := dm.ValidateStudentLogin("S099", "ab12");
    bad := dm.ValidateStudentLogin("S099", "wrong");
    SeededLoginAfterAppend(kim);
    seeded := dm.ValidateStudentLogin("S001", DefaultPassword);
  }

  /** The seeded handles are "S00x" or "S010", so a handle whose third
      character is neither '0' nor '1' is not taken. */
  lemma SeededHandlesStartLow(h: string)
    requires |h| >= 3 && h[2] != '0' && h[2] != '1'
    ensures !HasHandle(DefaultStudents, h)
  {
    forall i | 0 <= i < |DefaultStudents| ensures DefaultStudents[i].studentId[2] in "01" { }
    assert forall i :: 0 <= i < |DefaultStudents| ==> DefaultStudents[i].studentId != h;
  }

  /** Appending a student leaves the first seeded student able to log in
      with the default password. */
  lemma SeededLoginAfterAppend(s: Student)
    ensures Login(DefaultStudents + [s], "S001", DefaultPassword) == Some(DefaultStudents[0])
  {
    var t := DefaultStudents + [s];
    assert t[0] == DefaultStudents[0];
  }
}
