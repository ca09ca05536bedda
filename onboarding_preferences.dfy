/** The onboarding answers of the web application and the scheduling
    preferences they are saved as: the three lookup tables, their reverse
    lookups, the payload built from the answers, and the sign-up input checks. */
module OnboardingPreferences {
  import opened Wrappers
  import opened Text

  // ---------------------------------------------------------------------------
  // The lookup tables and their reverses
  // ---------------------------------------------------------------------------

  /** `credit_map`: a credit load to its (min, max) credit range. */
  function CreditRange(load: string): Option<(int, int)> {
    if load == "light" then Some((9, 12))
    else if load == "standard" then Some((12, 15))
    else if load == "heavy" then Some((15, 18))
    else None
  }

  /** `_reverse_credit_map`: a stored range back to its credit load. */
  function ReverseCreditMap(minCredits: Option<int>, maxCredits: Option<int>): Option<string> {
    if minCredits == Some(9) && maxCredits == Some(12) then Some("light")
    else if minCredits == Some(12) && maxCredits == Some(15) then Some("standard")
    else if minCredits == Some(15) && maxCredits == Some(18) then Some("heavy")
    else None
  }

  /** Saving a known credit load and reading it back gives the load again ... */
  lemma CreditRoundTrip(load: string)
    requires CreditRange(load).Some?
    ensures ReverseCreditMap(Some(CreditRange(load).value.0), Some(CreditRange(load).value.1)) == Some(load)
  {
  }

  /** ... and every range the reverse recognises is the range of the load it
      names, so the two tables are inverse; any other pair gives None. */
  lemma ReverseCreditExact(minCredits: Option<int>, maxCredits: Option<int>)
    ensures ReverseCreditMap(minCredits, maxCredits).Some? <==>
      exists load :: CreditRange(load).Some? && minCredits == Some(CreditRange(load).value.0)
                     && maxCredits == Some(CreditRange(load).value.1)
    ensures ReverseCreditMap(minCredits, maxCredits).Some? ==>
      var load := ReverseCreditMap(minCredits, maxCredits).value;
      CreditRange(load) == Some((minCredits.value, maxCredits.value))
  {
    if ReverseCreditMap(minCredits, maxCredits).Some? {
      var load := ReverseCreditMap(minCredits, maxCredits).value;
      assert CreditRange(load).Some?;
    }
  }

  /** `time_map`: a schedule preference to a preferred time of day. */
  function TimeOfDay(preference: string): Option<string> {
    if preference == "mornings" then Some("morning")
    else if preference == "afternoons" then Some("afternoon")
    else if preference == "flexible" then Some("flexible")
    else None
  }

  /** `_reverse_time_map` */
  function ReverseTimeMap(timeOfDay: Option<string>): Option<string> {
    if timeOfDay == Some("morning") then Some("mornings")
    else if timeOfDay == Some("afternoon") then Some("afternoons")
    else if timeOfDay == Some("flexible") then Some("flexible")
    else None
  }

  /** The time tables are inverse: round trip both ways, None outside them. */
  lemma TimeMapsInverse(preference: string, timeOfDay: Option<string>)
    ensures TimeOfDay(preference).Some? ==> ReverseTimeMap(TimeOfDay(preference)) == Some(preference)
    ensures ReverseTimeMap(timeOfDay).Some? ==> TimeOfDay(ReverseTimeMap(timeOfDay).value) == timeOfDay
    ensures ReverseTimeMap(timeOfDay).None? <==> timeOfDay !in {Some("morning"), Some("afternoon"), Some("flexible")}
  {
  }

  /** `priority_map`: a priority to a priority focus. */
  function PriorityFocus(priority: string): Option<string> {
    if priority == "major" then Some("major_requirements")
    else if priority == "electives" then Some("electives")
    else if priority == "graduate" then Some("graduation_timeline")
    else None
  }

  /** `_reverse_priority_map` */
  function ReversePriorityMap(focus: Option<string>): Option<string> {
    if focus == Some("major_requirements") then Some("major")
    else if focus == Some("electives") then Some("electives")
    else if focus == Some("graduation_timeline") then Some("graduate")
    else None
  }

  /** The priority tables are inverse: round trip both ways, None outside them. */
  lemma PriorityMapsInverse(priority: string, focus: Option<string>)
    ensures PriorityFocus(priority).Some? ==> ReversePriorityMap(PriorityFocus(priority)) == Some(priority)
    ensures ReversePriorityMap(focus).Some? ==> PriorityFocus(ReversePriorityMap(focus).value) == focus
    ensures ReversePriorityMap(focus).None? <==>
      focus !in {Some("major_requirements"), Some("electives"), Some("graduation_timeline")}
  {
  }

  // ---------------------------------------------------------------------------
  // The scheduling-preferences payload
  // ---------------------------------------------------------------------------

  /** The fields of `sched_payload` that depend on the answers (None: absent). */
  datatype SchedulingPayload = SchedulingPayload(
    userId: string, planningMode: Option<string>, creditsMin: Option<int>, creditsMax: Option<int>,
    timeOfDay: Option<string>, workStatus: Option<string>, priorityFocus: Option<string>,
    collectedFields: seq<string>)

  /** The order in which the payload records what it collected. */
  const FieldOrder: seq<string> := ["planning_mode", "credits", "time_preference", "work_status", "focus"]

  /** `[field]` when `present`, else nothing. */
  function Include(present: bool, field: string): seq<string> {
    if present then [field] else []
  }

  predicate KnownCreditLoad(answers: map<string, string>) {
    "credit_load" in answers && CreditRange(answers["credit_load"]).Some?
  }

  predicate KnownTimePreference(answers: map<string, string>) {
    "schedule_preference" in answers && TimeOfDay(answers["schedule_preference"]).Some?
  }

  predicate KnownPriority(answers: map<string, string>) {
    "priority" in answers && PriorityFocus(answers["priority"]).Some?
  }

  /** The payload `_save_onboarding_to_scheduling_preferences` sends for
      `answers`, before the upsert adds the timestamp. */
  function PayloadOf(userId: string, answers: map<string, string>): SchedulingPayload {
    SchedulingPayload(
      userId,
      if "planning_mode" in answers then Some(answers["planning_mode"]) else None,
      if KnownCreditLoad(answers) then Some(CreditRange(answers["credit_load"]).value.0) else None,
      if KnownCreditLoad(answers) then Some(CreditRange(answers["credit_load"]).value.1) else None,
      if KnownTimePreference(answers) then TimeOfDay(answers["schedule_preference"]) else None,
      if "work_status" in answers then Some(answers["work_status"]) else None,
      if KnownPriority(answers) then PriorityFocus(answers["priority"]) else None,
      Include("planning_mode" in answers, "planning_mode") + Include(KnownCreditLoad(answers), "credits")
      + Include(KnownTimePreference(answers), "time_preference") + Include("work_status" in answers, "work_status")
      + Include(KnownPriority(answers), "focus"))
  }

  /** `_save_onboarding_to_scheduling_preferences` up to the upsert: each
      known answer is mapped into the payload and its field appended. */
  method BuildSchedulingPayload(userId: string, answers: map<string, string>) returns (p: SchedulingPayload)
    ensures p == PayloadOf(userId, answers)
  {
    var planningMode: Option<string> := None;
    var creditsMin: Option<int> := None;
    var creditsMax: Option<int> := None;
    var timeOfDay: Option<string> := None;
    var workStatus: Option<string> := None;
    var priorityFocus: Option<string> := None;
    var collected: seq<string> := [];

    if "planning_mode" in answers {
      planningMode := Some(answers["planning_mode"]);
      collected := collected + ["planning_mode"];
    }
    assert collected == Include("planning_mode" in answers, "planning_mode");
    if "credit_load" in answers && CreditRange(answers["credit_load"]).Some? {
      var (lo, hi) := CreditRange(answers["credit_load"]).value;
      creditsMin, creditsMax := Some(lo), Some(hi);
      collected := collected + ["credits"];
    }
    assert collected == Include("planning_mode" in answers, "planning_mode") + Include(KnownCreditLoad(answers), "credits");
    if "schedule_preference" in answers && TimeOfDay(answers["schedule_preference"]).Some? {
      timeOfDay := TimeOfDay(answers["schedule_preference"]);
      collected := collected + ["time_preference"];
    }
    assert collected == Include("planning_mode" in answers, "planning_mode") + Include(KnownCreditLoad(answers), "credits")
      + Include(KnownTimePreference(answers), "time_preference");
    if "work_status" in answers {
      workStatus := Some(answers["work_status"]);
      collected := collected + ["work_status"];
    }
    assert collected == Include("planning_mode" in answers, "planning_mode") + Include(KnownCreditLoad(answers), "credits")
      + Include(KnownTimePreference(answers), "time_preference") + Include("work_status" in answers, "work_status");
    if "priority" in answers && PriorityFocus(answers["priority"]).Some? {
      priorityFocus := PriorityFocus(answers["priority"]);
      collected := collected + ["focus"];
    }
    p := SchedulingPayload(userId, planningMode, creditsMin, creditsMax, timeOfDay, workStatus,
                           priorityFocus, collected);
  }

  /** Credits are collected, with both bounds, exactly for a known credit
      load, and the stored range reads back as that load. */
  lemma PayloadCredits(userId: string, answers: map<string, string>)
    ensures var p := PayloadOf(userId, answers);
      && ("credits" in p.collectedFields <==> KnownCreditLoad(answers))
      && (p.creditsMin.Some? <==> KnownCreditLoad(answers))
      && (p.creditsMax.Some? <==> KnownCreditLoad(answers))
      && (KnownCreditLoad(answers) ==> ReverseCreditMap(p.creditsMin, p.creditsMax) == Some(answers["credit_load"]))
  {
    var p := PayloadOf(userId, answers);
    assert "credits" in p.collectedFields <==> KnownCreditLoad(answers);
  }

  /** An unrecognised schedule preference adds nothing; a recognised one is
      collected and reads back as the answer. */
  lemma PayloadTimePreference(userId: string, answers: map<string, string>)
    ensures var p := PayloadOf(userId, answers);
      && ("time_preference" in p.collectedFields <==> KnownTimePreference(answers))
      && (p.timeOfDay.Some? <==> KnownTimePreference(answers))
      && (KnownTimePreference(answers) ==> ReverseTimeMap(p.timeOfDay) == Some(answers["schedule_preference"]))
  {
    var p := PayloadOf(userId, answers);
    assert "time_preference" in p.collectedFields <==> KnownTimePreference(answers);
  }

  /** An unrecognised priority adds nothing; a recognised one is collected as
      `focus` and reads back as the answer. */
  lemma PayloadPriority(userId: string, answers: map<string, string>)
    ensures var p := PayloadOf(userId, answers);
      && ("focus" in p.collectedFields <==> KnownPriority(answers))
      && (p.priorityFocus.Some? <==> KnownPriority(answers))
      && (KnownPriority(answers) ==> ReversePriorityMap(p.priorityFocus) == Some(answers["priority"]))
  {
    var p := PayloadOf(userId, answers);
    assert "focus" in p.collectedFields <==> KnownPriority(answers);
  }

  /** Planning mode and work status are copied whenever present. */
  lemma PayloadCopiedFields(userId: string, answers: map<string, string>)
    ensures var p := PayloadOf(userId, answers);
      && ("planning_mode" in p.collectedFields <==> "planning_mode" in answers)
      && ("work_status" in p.collectedFields <==> "work_status" in answers)
      && ("planning_mode" in answers ==> p.planningMode == Some(answers["planning_mode"]))
      && ("work_status" in answers ==> p.workStatus == Some(answers["work_status"]))
  {
    var p := PayloadOf(userId, answers);
    assert "planning_mode" in p.collectedFields <==> "planning_mode" in answers;
    assert "work_status" in p.collectedFields <==> "work_status" in answers;
  }

  /** Appending `order[j]` or nothing keeps the picks ordered. */
  lemma ExtendPicks(xs: seq<string>, order: seq<string>, idx: seq<nat>, present: bool, j: nat)
    returns (idx': seq<nat>)
    requires j < |order| && PicksBelow(xs, order, idx, j)
    ensures PicksBelow(xs + Include(present, order[j]), order, idx', j + 1)
  {
    if present {
      idx' := idx + [j];
    } else {
      idx' := idx;
      assert xs + Include(present, order[j]) == xs;
    }
  }

  /** The collected fields name each field at most once, in the fixed order. */
  lemma PayloadFieldsOrdered(userId: string, answers: map<string, string>)
    ensures OrderedSublist(PayloadOf(userId, answers).collectedFields, FieldOrder)
  {
    var i0 := Include("planning_mode" in answers, FieldOrder[0]);
    var i1 := Include(KnownCreditLoad(answers), FieldOrder[1]);
    var i2 := Include(KnownTimePreference(answers), FieldOrder[2]);
    var i3 := Include("work_status" in answers, FieldOrder[3]);
    var i4 := Include(KnownPriority(answers), FieldOrder[4]);
    var idx := ExtendPicks([], FieldOrder, [], "planning_mode" in answers, 0);
    assert [] + i0 == i0;
    idx := ExtendPicks(i0, FieldOrder, idx, KnownCreditLoad(answers), 1);
    idx := ExtendPicks(i0 + i1, FieldOrder, idx, KnownTimePreference(answers), 2);
    idx := ExtendPicks(i0 + i1 + i2, FieldOrder, idx, "work_status" in answers, 3);
    idx := ExtendPicks(i0 + i1 + i2 + i3, FieldOrder, idx, KnownPriority(answers), 4);
    assert PayloadOf(userId, answers).collectedFields == i0 + i1 + i2 + i3 + i4;
    assert PicksBelow(i0 + i1 + i2 + i3 + i4, FieldOrder, idx, |FieldOrder|);
  }

  // ---------------------------------------------------------------------------
  // Sign-up input checks
  // ---------------------------------------------------------------------------

  datatype SignUpError = NotChapmanEmail | PasswordTooShort

  /** The checks `sign_up` makes before any call to the account store; an
      absent field reads as "". Ok means the store is contacted. */
  function SignUpInputCheck(email: Option<string>, password: Option<string>): (r: Result<(), SignUpError>)
    ensures r.Ok? <==> EndsWith(email.GetOr(""), "@chapman.edu") && |password.GetOr("")| >= 6
    ensures r == Err(PasswordTooShort) ==> EndsWith(email.GetOr(""), "@chapman.edu")
  {
    var e := email.GetOr("");
    var pw := password.GetOr("");
    if !EndsWith(e, "@chapman.edu") then Err(NotChapmanEmail)
    else if |pw| < 6 then Err(PasswordTooShort)
    else Ok(())
  }
}
