/** The class-creation modal: its submit handler validates the form, passes
    the cleaned-up fields to the `onCreateClass` callback and resets the
    form; its cancel handler resets the form. */
module ClassCreateModal {
  import opened Wrappers
  import opened JsString
  import opened Attendance

  /** The arguments of one `onCreateClass(date, className, startTime,
      endTime, announcement)` call. */
  datatype CreateClassCall = CreateClassCall(
    date: string, className: string, startTime: string, endTime: string,
    announcement: Option<string>)

  /** The form's error message, by its meaning. */
  datatype FormError = NoError | MissingClassName | EndNotAfterStart

  const DefaultStartTime: string := "09:00"
  const DefaultEndTime: string := "18:00"

  /** `announcement.trim() || undefined`. */
  function OptionalTrimmed(s: string): (r: Option<string>)
    ensures r.None? <==> AllWhitespace(s)
    ensures r.Some? ==> r.value == Trim(s)
  {
    var t := Trim(s);
    if t == "" then None else Some(t)
  }

  /** The checks of `handleSubmit`, in order, and the call it makes when
      they pass. The times are compared as strings. */
  function ValidateClassForm(date: string, className: string, startTime: string, endTime: string,
                             announcement: string): (r: Result<CreateClassCall, FormError>)
    ensures r == Failure(MissingClassName) <==> AllWhitespace(className)
    ensures r == Failure(EndNotAfterStart) <==> !AllWhitespace(className) && !Less(startTime, endTime)
    ensures r.Failure? ==> r.error != NoError
    ensures r.Success? ==> r.value == CreateClassCall(date, Trim(className), startTime, endTime, OptionalTrimmed(announcement))
  {
    if Trim(className) == "" then Failure(MissingClassName)
    else if !Less(startTime, endTime) then Failure(EndNotAfterStart)
    else Success(CreateClassCall(date, Trim(className), startTime, endTime, OptionalTrimmed(announcement)))
  }

  /** For times as a time input gives them, the form is accepted exactly
      when the name is not blank and the end is later in the day than the
      start. */
  lemma AcceptsChronologicalTimes(date: string, className: string, startTime: string, endTime: string,
                                  announcement: string)
    requires IsTimeOfDay(startTime) && IsTimeOfDay(endTime)
    ensures ValidateClassForm(date, className, startTime, endTime, announcement).Success?
            <==> !AllWhitespace(className) && MinuteOfDay(startTime) < MinuteOfDay(endTime)
  {
    TimeOrder(startTime, endTime);
  }

  /** Equal start and end times are refused, whatever their form. */
  lemma RejectsEqualTimes(date: string, className: string, t: string, announcement: string)
    ensures ValidateClassForm(date, className, t, t, announcement).Failure?
  {
    LessIrreflexive(t);
  }

  /** What an accepted form passes on is already clean: the name is non-blank
      and trimmed, and a present announcement is non-blank and trimmed. */
  lemma CallIsTrimmed(date: string, className: string, startTime: string, endTime: string,
                      announcement: string)
    requires ValidateClassForm(date, className, startTime, endTime, announcement).Success?
    ensures var c := ValidateClassForm(date, className, startTime, endTime, announcement).value;
            && c.className != "" && Trim(c.className) == c.className
            && (c.announcement.Some? ==> c.announcement.value != "" && Trim(c.announcement.value) == c.announcement.value)
  {
    TrimIdempotent(className);
    TrimIdempotent(announcement);
  }

  /** The session the admin dashboard's `onCreateClass` handler asks
      `addClass` for: the call's five arguments, unchanged. */
  function ToNewClass(c: CreateClassCall): NewClass {
    NewClass(c.date, c.className, c.startTime, c.endTime, c.announcement)
  }

  /** The modal's form state. */
  class ClassForm {
    var className: string
    var startTime: string
    var endTime: string
    var announcement: string
    var error: FormError

    /** The state the form opens in, and returns to after a submit or a cancel. */
    predicate IsReset() reads this {
      && className == "" && startTime == DefaultStartTime && endTime == DefaultEndTime
      && announcement == "" && error == NoError
    }

    constructor ()
      ensures IsReset()
    {
      className, startTime, endTime, announcement, error := "", DefaultStartTime, DefaultEndTime, "", NoError;
    }

    /** `handleSubmit`, for the day `date` the modal was opened on: on a
        refusal sets the error and makes no call, leaving the fields as
        typed; otherwise returns the one call it makes and resets the form. */
    method HandleSubmit(date: string) returns (call: Option<CreateClassCall>)
      modifies this
      ensures call == ValidateClassForm(date, old(className), old(startTime), old(endTime), old(announcement)).ToOption()
      ensures call.Some? ==> IsReset()
      ensures call.None? ==>
                && className == old(className) && startTime == old(startTime) && endTime == old(endTime)
                && announcement == old(announcement)
                && error == ValidateClassForm(date, old(className), old(startTime), old(endTime), old(announcement)).error
    {
      error := NoError;
      if Trim(className) == "" {
        error := MissingClassName;
        return None;
      }
      if !Less(startTime, endTime) {
        error := EndNotAfterStart;
        return None;
      }
      var ann := Trim(announcement);
      call := Some(CreateClassCall(date, Trim(className), startTime, endTime, if ann == "" then None else Some(ann)));
      className := "";
      startTime := DefaultStartTime;
      endTime := DefaultEndTime;
      announcement := "";
      error := NoError;
    }

    /** `handleCancel`: resets the form. */
    method HandleCancel()
      modifies this
      ensures IsReset()
    {
      className := "";
      startTime := DefaultStartTime;
      endTime := DefaultEndTime;
      announcement := "";
      error := NoError;
    }
  }
}
