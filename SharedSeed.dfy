/** The sessions seed as the code holds it in memory. On an absent sessions
    key `getClasses` stores a copy of the seed but returns the seed array
    itself, so `addClass`, which pushes onto what `getClasses` returned,
    also grows the seed. `resetData` only removes the storage key, so the
    next read seeds again from the grown array. This module models that
    behaviour; the rest of the model treats the seed as a value that never
    changes, which is what `resetData` is evidently meant to rely on. */
module SharedSeed {
  import opened Wrappers
  import opened Attendance

  /** The in-memory seed array and the stored sessions table. */
  datatype SessionsState = SessionsState(seed: seq<ClassData>, stored: Option<seq<ClassData>>)

  /** What `getClasses` returns. */
  function Sessions(st: SessionsState): seq<ClassData> {
    st.stored.GetOr(st.seed)
  }

  /** `addClass(c)` as written, `active` being the number of active
      students: a session is appended to the returned array, which on an
      absent key is the seed itself. */
  function AddClassAsWritten(st: SessionsState, c: NewClass, active: nat): (r: (SessionsState, bool))
    ensures r.1 <==> ClassIndex(Sessions(st), c.date).None?
    ensures Sessions(r.0) == if r.1 then Sessions(st) + [NewSession(c, active)] else Sessions(st)
    ensures r.0.seed == if r.1 && st.stored.None? then st.seed + [NewSession(c, active)] else st.seed
  {
    var cv := Sessions(st);
    if ClassIndex(cv, c.date).Some? then
      (st.(stored := Some(cv)), false)
    else
      var grown := cv + [NewSession(c, active)];
      if st.stored.None? then (SessionsState(grown, Some(grown)), true)
      else (st.(stored := Some(grown)), true)
  }

  /** `resetData()` on the sessions: the key is removed, the array stays. */
  function ResetAsWritten(st: SessionsState): SessionsState {
    st.(stored := None)
  }

  /** On a fresh store, adding a session for a new date and then resetting
      does not give back the seed: the added session is still there. */
  lemma ResetKeepsFirstAddedSession(yesterday: string, today: string, tomorrow: string, c: NewClass, active: nat)
    requires c.date != yesterday && c.date != today && c.date != tomorrow
    ensures AddClassAsWritten(SessionsState(DefaultClasses(yesterday, today, tomorrow), None), c, active).1
    ensures Sessions(ResetAsWritten(AddClassAsWritten(SessionsState(DefaultClasses(yesterday, today, tomorrow), None), c, active).0))
            == DefaultClasses(yesterday, today, tomorrow) + [NewSession(c, active)]
    ensures Sessions(ResetAsWritten(AddClassAsWritten(SessionsState(DefaultClasses(yesterday, today, tomorrow), None), c, active).0))
            != DefaultClasses(yesterday, today, tomorrow)
  {
    var seed := DefaultClasses(yesterday, today, tomorrow);
    UnseededDate(yesterday, today, tomorrow, c.date);
    var after := Sessions(ResetAsWritten(AddClassAsWritten(SessionsState(seed, None), c, active).0));
    assert |after| == |seed| + 1;
  }
}
