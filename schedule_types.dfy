/** The schedule builder's value types: days, time slots, class sections,
    degree requirements, badges and validation results, with the time-overlap
    rule every conflict check is built on. */
module ScheduleTypes {
  import opened Wrappers
  import opened Text

  /** The seven meeting days, in the order every loop visits them. */
  datatype Day = M | Tu | W | Th | F | Sa | Su

  const AllDays: seq<Day> := [M, Tu, W, Th, F, Sa, Su]

  /** The enum value of a day ("M", "Tu", …). */
  function DayName(d: Day): string {
    match d
    case M => "M" case Tu => "Tu" case W => "W" case Th => "Th"
    case F => "F" case Sa => "Sa" case Su => "Su"
  }

  /** Position of a day in the weekly order. */
  function DayIndex(d: Day): (k: nat)
    ensures k < |AllDays| && AllDays[k] == d
  {
    match d
    case M => 0 case Tu => 1 case W => 2 case Th => 3
    case F => 4 case Sa => 5 case Su => 6
  }

  /** Parses a day's enum value back; the inverse of DayName. */
  function DayFromName(s: string): (r: Option<Day>)
    ensures r.Some? ==> DayName(r.value) == s
  {
    if s == "M" then Some(M) else if s == "Tu" then Some(Tu)
    else if s == "W" then Some(W) else if s == "Th" then Some(Th)
    else if s == "F" then Some(F) else if s == "Sa" then Some(Sa)
    else if s == "Su" then Some(Su) else None
  }

  lemma {:induction false} DayNameRoundTrip(d: Day)
    ensures DayFromName(DayName(d)) == Some(d)
  {
    match d
    case M => case Tu => case W => case Th => case F => case Sa => case Su =>
  }

  datatype RequirementType = MajorCore | MajorElective | GeneralEducation | Minor | Concentration | Other

  /** The enum value stored in badges and grouping keys. */
  function TypeValue(t: RequirementType): string {
    match t
    case MajorCore => "major_core"
    case MajorElective => "major_elective"
    case GeneralEducation => "ge"
    case Minor => "minor"
    case Concentration => "concentration"
    case Other => "other"
  }

  /** The CSS colour class of each requirement type. */
  function RequirementColor(t: RequirementType): string {
    match t
    case MajorCore => "blue"
    case MajorElective => "indigo"
    case GeneralEducation => "green"
    case Minor => "purple"
    case Concentration => "orange"
    case Other => "gray"
  }

  /** Every requirement type has its own colour, so a badge's colour tells its type. */
  lemma RequirementColorInjective(a: RequirementType, b: RequirementType)
    ensures RequirementColor(a) == RequirementColor(b) ==> a == b
  {
  }

  /** One meeting, in minutes from midnight. */
  datatype TimeSlot = TimeSlot(startTime: int, endTime: int)

  /** Two meetings overlap when each starts before the other ends. */
  predicate Overlaps(a: TimeSlot, b: TimeSlot) {
    a.startTime < b.endTime && a.endTime > b.startTime
  }

  /** Overlap does not depend on which slot asks. */
  lemma OverlapsSymmetric(a: TimeSlot, b: TimeSlot)
    ensures Overlaps(a, b) <==> Overlaps(b, a)
  {
  }

  /** A meeting that ends exactly when the other begins does not overlap it. */
  lemma BackToBackNoOverlap(a: TimeSlot, b: TimeSlot)
    requires a.endTime <= b.startTime
    ensures !Overlaps(a, b) && !Overlaps(b, a)
  {
  }

  /** The attribute names of a serialised time slot. */
  function SlotToDict(t: TimeSlot): map<string, int> {
    map["startTime" := t.startTime, "endTime" := t.endTime]
  }

  /** The time slots of each day of the week. */
  datatype DaysOccurring = DaysOccurring(
    m: seq<TimeSlot>, tu: seq<TimeSlot>, w: seq<TimeSlot>, th: seq<TimeSlot>,
    f: seq<TimeSlot>, sa: seq<TimeSlot>, su: seq<TimeSlot>)

  const NoDays := DaysOccurring([], [], [], [], [], [], [])

  /** The slots on one day (`getattr(days, day)`). */
  function SlotsOn(d: DaysOccurring, day: Day): seq<TimeSlot> {
    match day
    case M => d.m case Tu => d.tu case W => d.w case Th => d.th
    case F => d.f case Sa => d.sa case Su => d.su
  }

  /** The dictionaries of a list of slots. */
  function SlotDicts(xs: seq<TimeSlot>): (r: seq<map<string, int>>)
    ensures |r| == |xs| && forall i :: 0 <= i < |xs| ==> r[i] == SlotToDict(xs[i])
  {
    seq(|xs|, i requires 0 <= i < |xs| => SlotToDict(xs[i]))
  }

  /** Day-keyed dictionary form: every day is present, with its slots' dicts. */
  function DaysToDict(d: DaysOccurring): map<string, seq<map<string, int>>> {
    map["M" := SlotDicts(d.m), "Tu" := SlotDicts(d.tu), "W" := SlotDicts(d.w),
        "Th" := SlotDicts(d.th), "F" := SlotDicts(d.f), "Sa" := SlotDicts(d.sa),
        "Su" := SlotDicts(d.su)]
  }

  predicate InWeekOrder(ds: seq<Day>) {
    forall i, j :: 0 <= i < j < |ds| ==> DayIndex(ds[i]) < DayIndex(ds[j])
  }

  /** The days of `ds` that have at least one slot, keeping their order. */
  function DaysWithSlots(d: DaysOccurring, ds: seq<Day>): seq<Day> {
    if ds == [] then []
    else
      var rest := DaysWithSlots(d, ds[1..]);
      if SlotsOn(d, ds[0]) != [] then [ds[0]] + rest else rest
  }

  /** The filter keeps exactly the days with slots, in the order given. */
  lemma {:induction false} DaysWithSlotsExact(d: DaysOccurring, ds: seq<Day>)
    requires InWeekOrder(ds)
    ensures forall day :: day in DaysWithSlots(d, ds) <==> day in ds && SlotsOn(d, day) != []
    ensures InWeekOrder(DaysWithSlots(d, ds))
    decreases |ds|
  {
    if ds != [] {
      var tail := ds[1..];
      assert InWeekOrder(tail) by {
        forall i, j | 0 <= i < j < |tail| ensures DayIndex(tail[i]) < DayIndex(tail[j]) {
          assert tail[i] == ds[i + 1] && tail[j] == ds[j + 1];
        }
      }
      DaysWithSlotsExact(d, tail);
      var rest := DaysWithSlots(d, tail);
      assert forall day :: day in ds <==> day == ds[0] || day in tail;
      if SlotsOn(d, ds[0]) != [] {
        var r := [ds[0]] + rest;
        forall i, j | 0 <= i < j < |r| ensures DayIndex(r[i]) < DayIndex(r[j]) {
          if i == 0 {
            assert r[j] in tail;
            var k :| 0 <= k < |tail| && tail[k] == r[j];
            assert ds[k + 1] == r[j];
          } else {
            assert r[i] == rest[i - 1] && r[j] == rest[j - 1];
          }
        }
      }
    }
  }

  /** The week lists every day once, in weekly order. */
  lemma AllDaysInOrder()
    ensures forall day :: day in AllDays
    ensures InWeekOrder(AllDays)
  {
    forall day ensures day in AllDays { assert AllDays[DayIndex(day)] == day; }
    forall i, j | 0 <= i < j < |AllDays| ensures DayIndex(AllDays[i]) < DayIndex(AllDays[j]) {
      assert DayIndex(AllDays[i]) == i && DayIndex(AllDays[j]) == j;
    }
  }

  /** `get_active_days`: the days that have at least one slot, in weekly order,
      each once. */
  function ActiveDays(d: DaysOccurring): (r: seq<Day>)
    ensures forall day :: day in r <==> SlotsOn(d, day) != []
    ensures InWeekOrder(r)
  {
    AllDaysInOrder();
    DaysWithSlotsExact(d, AllDays);
    DaysWithSlots(d, AllDays)
  }

  /** Start/end timestamps of the term and the weekly meetings. */
  datatype OccurrenceData = OccurrenceData(starts: int, ends: int, daysOccurring: DaysOccurring)

  /** The immutable part of a class section (one row of the catalog). */
  datatype SectionData = SectionData(
    id: string, code: string, subject: string, number: string, section: string,
    title: string, credits: real, displayDays: string, displayTime: string,
    location: string, professor: string, professorRating: Option<real>,
    semester: string, semestersOffered: seq<string>, occurrenceData: OccurrenceData)

  function WeeklySlots(a: SectionData, day: Day): seq<TimeSlot> {
    SlotsOn(a.occurrenceData.daysOccurring, day)
  }

  /** A badge shown on a class card: which requirement the class satisfies. */
  datatype RequirementBadge = RequirementBadge(
    reqType: RequirementType, labelText: string, shortLabel: string, color: string)

  /** A class section.  Its catalog data never changes; the list of badges is
      overwritten in place by the requirement matcher. */
  class ClassSection {
    const data: SectionData
    var requirementsSatisfied: seq<RequirementBadge>

    constructor (data: SectionData)
      ensures this.data == data && requirementsSatisfied == []
    {
      this.data := data;
      requirementsSatisfied := [];
    }
  }

  /** Some slot of `xs` overlaps some slot of `ys`. */
  predicate SlotsConflict(xs: seq<TimeSlot>, ys: seq<TimeSlot>) {
    exists i, j :: 0 <= i < |xs| && 0 <= j < |ys| && Overlaps(xs[i], ys[j])
  }

  /** Two sections conflict when, on some day, a slot of one overlaps a slot of the other. */
  predicate Conflicts(a: SectionData, b: SectionData) {
    exists day :: SlotsConflict(WeeklySlots(a, day), WeeklySlots(b, day))
  }

  /** Conflict is symmetric. */
  lemma ConflictsSymmetric(a: SectionData, b: SectionData)
    ensures Conflicts(a, b) <==> Conflicts(b, a)
  {
    if Conflicts(a, b) {
      var day :| SlotsConflict(WeeklySlots(a, day), WeeklySlots(b, day));
      var i, j :| 0 <= i < |WeeklySlots(a, day)| && 0 <= j < |WeeklySlots(b, day)|
        && Overlaps(WeeklySlots(a, day)[i], WeeklySlots(b, day)[j]);
      assert Overlaps(WeeklySlots(b, day)[j], WeeklySlots(a, day)[i]);
      assert SlotsConflict(WeeklySlots(b, day), WeeklySlots(a, day));
    }
    if Conflicts(b, a) {
      var day :| SlotsConflict(WeeklySlots(b, day), WeeklySlots(a, day));
      var i, j :| 0 <= i < |WeeklySlots(b, day)| && 0 <= j < |WeeklySlots(a, day)|
        && Overlaps(WeeklySlots(b, day)[i], WeeklySlots(a, day)[j]);
      assert Overlaps(WeeklySlots(a, day)[j], WeeklySlots(b, day)[i]);
      assert SlotsConflict(WeeklySlots(a, day), WeeklySlots(b, day));
    }
  }

  /** A section without meetings conflicts with nothing. */
  lemma NoMeetingsNoConflict(a: SectionData, b: SectionData)
    requires forall day :: WeeklySlots(a, day) == []
    ensures !Conflicts(a, b) && !Conflicts(b, a)
  {
    ConflictsSymmetric(a, b);
  }

  /** A section with a proper meeting (start before end) conflicts with itself. */
  lemma ProperMeetingSelfConflict(a: SectionData, day: Day, i: nat)
    requires i < |WeeklySlots(a, day)|
    requires WeeklySlots(a, day)[i].startTime < WeeklySlots(a, day)[i].endTime
    ensures Conflicts(a, a)
  {
    assert Overlaps(WeeklySlots(a, day)[i], WeeklySlots(a, day)[i]);
    assert SlotsConflict(WeeklySlots(a, day), WeeklySlots(a, day));
  }

  /** `has_conflict_with`: visits the days in order and every slot pair,
      answering on the first overlap found. */
  method HasConflictWith(a: SectionData, b: SectionData) returns (r: bool)
    ensures r <==> Conflicts(a, b)
  {
    var k := 0;
    while k < |AllDays|
      invariant 0 <= k <= |AllDays|
      invariant forall q :: 0 <= q < k ==> !SlotsConflict(WeeklySlots(a, AllDays[q]), WeeklySlots(b, AllDays[q]))
    {
      var mine := WeeklySlots(a, AllDays[k]);
      var theirs := WeeklySlots(b, AllDays[k]);
      var i := 0;
      while i < |mine|
        invariant 0 <= i <= |mine|
        invariant forall p, j :: 0 <= p < i && 0 <= j < |theirs| ==> !Overlaps(mine[p], theirs[j])
      {
        var j := 0;
        while j < |theirs|
          invariant 0 <= j <= |theirs|
          invariant forall q :: 0 <= q < j ==> !Overlaps(mine[i], theirs[q])
        {
          if Overlaps(mine[i], theirs[j]) {
            assert SlotsConflict(WeeklySlots(a, AllDays[k]), WeeklySlots(b, AllDays[k]));
            return true;
          }
          j := j + 1;
        }
        i := i + 1;
      }
      k := k + 1;
    }
    forall day ensures !SlotsConflict(WeeklySlots(a, day), WeeklySlots(b, day)) {
      assert AllDays[DayIndex(day)] == day;
    }
    return false;
  }

  /** A degree requirement the student still needs.  Optional text fields
      are "" when absent. */
  datatype DegreeRequirement = DegreeRequirement(
    reqType: RequirementType, labelText: string, subject: string, number: string,
    title: string, creditsNeeded: real, area: string)

  /** One pair of conflicting sections in a validated schedule. */
  datatype ConflictInfo = ConflictInfo(
    classId1: string, classId2: string, day: Day, timeRange: string, message: string)

  /** The credit-load warnings of a validated schedule, carrying the total. */
  datatype Warning = ExceedsTypicalMaximum(total: real) | BelowFullTime(total: real)

  datatype ScheduleValidation = ScheduleValidation(
    valid: bool, conflicts: seq<ConflictInfo>, totalCredits: real, warnings: seq<Warning>)
}
