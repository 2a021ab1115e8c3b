/** The sign-up handler of the student login page: a chain of guards whose
    first failure decides the outcome, then the new student is handed to
    the data layer's `addStudent`. The duplicate-handle guard here is the
    only place login handles are kept unique. */
module StudentLogin {
  import opened Wrappers
  import opened JsString
  import opened Attendance
  import opened LocalStore

  /** The four fields of the sign-up form, as typed. */
  datatype SignupForm = SignupForm(studentId: string, name: string, password: string, confirmPassword: string)

  const EmptySignupForm: SignupForm := SignupForm("", "", "", "")

  const MinPasswordLength: nat := 4

  /** The reasons a sign-up is refused, in the order they are checked. */
  datatype SignupError = MissingField | PasswordMismatch | PasswordTooShort | DuplicateStudentId

  /** Every field is filled in: handle and name after trimming, the two
      password fields as typed. So the handle and the name need a character
      that is not whitespace, while a password of spaces counts as filled. */
  predicate FieldsFilled(f: SignupForm)
    ensures FieldsFilled(f) <==>
              && !AllWhitespace(f.studentId) && !AllWhitespace(f.name)
              && f.password != "" && f.confirmPassword != ""
  {
    Trim(f.studentId) != "" && Trim(f.name) != "" && f.password != "" && f.confirmPassword != ""
  }

  /** The guard chain of `handleSignup` against the current students, and
      the student it would add. */
  function ValidateSignup(f: SignupForm, sv: seq<Student>): (r: Result<NewStudent, SignupError>)
    ensures r == Failure(MissingField) <==> !FieldsFilled(f)
    ensures r == Failure(PasswordMismatch) <==> FieldsFilled(f) && f.password != f.confirmPassword
    ensures r == Failure(PasswordTooShort) <==>
              FieldsFilled(f) && f.password == f.confirmPassword && |f.password| < MinPasswordLength
    ensures r == Failure(DuplicateStudentId) <==>
              FieldsFilled(f) && f.password == f.confirmPassword && |f.password| >= MinPasswordLength
              && HasHandle(sv, Trim(f.studentId))
    ensures r.Success? ==> r.value == NewStudent(Trim(f.name), Trim(f.studentId), Some(f.password), true)
  {
    if !FieldsFilled(f) then Failure(MissingField)
    else if f.password != f.confirmPassword then Failure(PasswordMismatch)
    else if |f.password| < MinPasswordLength then Failure(PasswordTooShort)
    else if HasHandle(sv, Trim(f.studentId)) then Failure(DuplicateStudentId)
    else Success(NewStudent(Trim(f.name), Trim(f.studentId), Some(f.password), true))
  }

  /** An accepted sign-up, once stored, can log in with the handle and the
      password just chosen, and with no other password. */
  lemma SignupThenLogin(f: SignupForm, sv: seq<Student>)
    requires ValidateSignup(f, sv).Success?
    ensures var s := WithId(ValidateSignup(f, sv).value, StudentIdFor(|sv|));
            && Login(sv + [s], Trim(f.studentId), f.password) == Some(s)
            && forall p :: p != f.password ==> Login(sv + [s], Trim(f.studentId), p) == None
  {
    var s := WithId(ValidateSignup(f, sv).value, StudentIdFor(|sv|));
    LoginAfterAppend(sv, s);
  }

  /** Adding only students that pass the guard chain keeps login handles
      distinct. */
  lemma SignupKeepsHandlesDistinct(f: SignupForm, sv: seq<Student>, id: string)
    requires HandlesDistinct(sv)
    requires ValidateSignup(f, sv).Success?
    ensures HandlesDistinct(sv + [WithId(ValidateSignup(f, sv).value, id)])
  {
    var t := sv + [WithId(ValidateSignup(f, sv).value, id)];
    forall i, j | 0 <= i < j < |t| ensures t[i].studentId != t[j].studentId {
      assert t[i] == sv[i];
      if j < |sv| { assert t[j] == sv[j]; }
    }
  }

  /** Without the guard, `addStudent` accepts a taken handle: appending a
      second "S001" to the seed students breaks handle uniqueness, and the
      newcomer cannot log in with their own password because the seeded S001
      is found first. */
  lemma UncheckedAddDuplicatesHandle()
    ensures var s := WithId(NewStudent("Kim", "S001", Some("ab12"), true), StudentIdFor(|DefaultStudents|));
            && !HandlesDistinct(DefaultStudents + [s])
            && Login(DefaultStudents + [s], "S001", "ab12") == None
            && Login(DefaultStudents + [s], "S001", DefaultPassword) == Some(DefaultStudents[0])
  {
    var s := WithId(NewStudent("Kim", "S001", Some("ab12"), true), StudentIdFor(|DefaultStudents|));
    var t := DefaultStudents + [s];
    assert t[0] == DefaultStudents[0] && t[0].studentId == "S001" && t[0].active;
    assert t[10] == s;
  }

  /** The seeded students have distinct login handles. */
  lemma DefaultHandlesDistinct()
    ensures HandlesDistinct(DefaultStudents)
  {
    forall i, j | 0 <= i < j < |DefaultStudents|
      ensures DefaultStudents[i].studentId != DefaultStudents[j].studentId
    {
      assert DefaultStudents[i].studentId[1..] != DefaultStudents[j].studentId[1..];
    }
  }

  /** `handleSignup` on the data layer: runs the guards in order and, when
      they all pass, adds the student, clears the form and fills the login
      form's handle field (`typed` before, `loginHandle` after) with the new
      handle. The three form guards touch no storage; the duplicate check
      reads (and so may seed) the students; a refused sign-up adds nobody
      and keeps both forms. */
  method HandleSignup(dm: DataManager, f: SignupForm, typed: string)
    returns (r: Result<NewStudent, SignupError>, form: SignupForm, loginHandle: string)
    requires dm.Valid()
    modifies dm`students
    ensures dm.Valid()
    ensures r == ValidateSignup(f, old(dm.StudentsView()))
    ensures form == if r.Success? then EmptySignupForm else f
    ensures loginHandle == if r.Success? then Trim(f.studentId) else typed
    ensures r.Success? ==> Login(dm.StudentsView(), loginHandle, f.password).Some?
    ensures r.Failure? && r.error != DuplicateStudentId ==> dm.students == old(dm.students)
    ensures r.Failure? ==> dm.StudentsView() == old(dm.StudentsView())
    ensures r.Success? ==> dm.students == Some(old(dm.StudentsView()) + [WithId(r.value, StudentIdFor(|old(dm.StudentsView())|))])
    ensures r.Success? ==> Login(dm.StudentsView(), r.value.studentId, f.password)
                           == Some(WithId(r.value, StudentIdFor(|old(dm.StudentsView())|)))
    ensures HandlesDistinct(old(dm.StudentsView())) ==> HandlesDistinct(dm.StudentsView())
  {
    if Trim(f.studentId) == "" || Trim(f.name) == "" || f.password == "" || f.confirmPassword == "" {
      return Failure(MissingField), f, typed;
    }
    if f.password != f.confirmPassword {
      return Failure(PasswordMismatch), f, typed;
    }
    if |f.password| < MinPasswordLength {
      return Failure(PasswordTooShort), f, typed;
    }
    var sv := dm.GetStudents();
    var handle := Trim(f.studentId);
    if exists i :: 0 <= i < |sv| && sv[i].studentId == handle {
      return Failure(DuplicateStudentId), f, typed;
    }
    var s := NewStudent(Trim(f.name), handle, Some(f.password), true);
    var ok := dm.AddStudent(s);
    SignupThenLogin(f, sv);
    if HandlesDistinct(sv) {
      SignupKeepsHandlesDistinct(f, sv, StudentIdFor(|sv|));
    }
    if ok {
      form, loginHandle := EmptySignupForm, handle;
    } else {
      form, loginHandle := f, typed;
    }
    r := Success(s);
  }
}
