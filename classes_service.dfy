/** The class catalog: parsing catalog rows into sections, the memoised
    catalog, lookups, search with pagination, the sorted subject list and
    schedule validation (conflicts, credit total, credit-load warnings). */
module ClassesService {
  import opened Wrappers
  import opened Text
  import opened ScheduleTypes

  // ---------------------------------------------------------------------------
  // Parsing one catalog row
  // ---------------------------------------------------------------------------

  /** A serialised slot; missing keys read as 0. */
  function ParseTimeSlot(d: map<string, int>): (t: TimeSlot)
    ensures t.startTime == (if "startTime" in d then d["startTime"] else 0)
    ensures t.endTime == (if "endTime" in d then d["endTime"] else 0)
  {
    TimeSlot(if "startTime" in d then d["startTime"] else 0,
             if "endTime" in d then d["endTime"] else 0)
  }

  lemma SlotRoundTrip(t: TimeSlot)
    ensures ParseTimeSlot(SlotToDict(t)) == t
  {
  }

  /** The slots listed under one day key; an absent key means no slots. */
  function ParseDaySlots(d: map<string, seq<map<string, int>>>, key: string): (r: seq<TimeSlot>)
    ensures key !in d ==> r == []
    ensures key in d ==> |r| == |d[key]| && forall i :: 0 <= i < |r| ==> r[i] == ParseTimeSlot(d[key][i])
  {
    if key in d then seq(|d[key]|, i requires 0 <= i < |d[key]| => ParseTimeSlot(d[key][i])) else []
  }

  /** A day-keyed dictionary of slot dictionaries. */
  function ParseDaysOccurring(d: map<string, seq<map<string, int>>>): DaysOccurring {
    DaysOccurring(ParseDaySlots(d, "M"), ParseDaySlots(d, "Tu"), ParseDaySlots(d, "W"),
      ParseDaySlots(d, "Th"), ParseDaySlots(d, "F"), ParseDaySlots(d, "Sa"), ParseDaySlots(d, "Su"))
  }

  /** Parsing the dictionaries of a list of slots gives the list back. */
  lemma SlotListRoundTrip(d: map<string, seq<map<string, int>>>, key: string, xs: seq<TimeSlot>)
    requires key in d && d[key] == SlotDicts(xs)
    ensures ParseDaySlots(d, key) == xs
  {
    forall i | 0 <= i < |xs| ensures ParseDaySlots(d, key)[i] == xs[i] {
      SlotRoundTrip(xs[i]);
    }
  }

  /** Serialising a week of slots and parsing it back gives the same week. */
  lemma {:induction false} DaysRoundTrip(d: DaysOccurring)
    ensures ParseDaysOccurring(DaysToDict(d)) == d
  {
    var m := DaysToDict(d);
    SlotListRoundTrip(m, "M", d.m);
    SlotListRoundTrip(m, "Tu", d.tu);
    SlotListRoundTrip(m, "W", d.w);
    SlotListRoundTrip(m, "Th", d.th);
    SlotListRoundTrip(m, "F", d.f);
    SlotListRoundTrip(m, "Sa", d.sa);
    SlotListRoundTrip(m, "Su", d.su);
  }

  /** The raw occurrence column of a row, after literal evaluation.  `Unusable`
      is an empty cell, text that does not evaluate, or a value that is not a
      dictionary; `Malformed` is a dictionary whose day part is not a dictionary
      of slot dictionaries (reading it raises). */
  datatype OccurrenceField =
    | Unusable
    | Malformed
    | Evaluated(starts: int, ends: int, daysOccurring: map<string, seq<map<string, int>>>)

  const EmptyOccurrence := OccurrenceData(0, 0, NoDays)

  /** `_parse_occurrence_data`; None where reading the value raises. */
  function ParseOccurrenceData(f: OccurrenceField): (r: Option<OccurrenceData>)
    ensures f.Unusable? ==> r == Some(EmptyOccurrence)
    ensures r.None? <==> f.Malformed?
    ensures f.Evaluated? ==> r.Some? && r.value.starts == f.starts && r.value.ends == f.ends
  {
    match f
    case Unusable => Some(EmptyOccurrence)
    case Malformed => None
    case Evaluated(s, e, d) => Some(OccurrenceData(s, e, ParseDaysOccurring(d)))
  }

  /** Credit hours.  An empty cell is 0; a range such as "1-3" takes the number
      after the last dash; anything unparseable is 0.  Never negative, since a
      minus sign always sends the text down the range branch. */
  function ParseCredits(raw: string): (r: real)
    ensures r >= 0.0
    ensures raw == "" ==> r == 0.0
    ensures Contains(raw, "-") ==> r == ParseFloat(AfterLastDash(raw)).GetOr(0.0)
    ensures !Contains(raw, "-") ==> r == ParseFloat(raw).GetOr(0.0)
  {
    if raw == "" then 0.0
    else if Contains(raw, "-") then
      var last := AfterLastDash(raw);
      NotContainsChar(last, '-');
      UnsignedCredits(last)
    else
      NotContainsChar(raw, '-');
      UnsignedCredits(raw)
  }

  /** `raw.split("-")[-1]`: the text after the last dash. */
  function AfterLastDash(raw: string): (r: string)
    ensures !Contains(r, "-")
  {
    var parts := SplitOn(raw, "-");
    parts[|parts| - 1]
  }

  /** `float(t)` or 0 for text without a minus sign, which is never negative. */
  function UnsignedCredits(t: string): (r: real)
    requires forall i :: 0 <= i < |t| ==> t[i] != '-'
    ensures r >= 0.0 && r == ParseFloat(t).GetOr(0.0)
  {
    ParseFloatNoMinus(t);
    ParseFloat(t).GetOr(0.0)
  }

  /** A professor rating: None for a blank cell or text that is not a number. */
  function ParseProfessorRating(raw: string): (r: Option<real>)
    ensures Strip(raw) == "" ==> r.None?
    ensures Strip(raw) != "" ==> r == ParseFloat(raw)
  {
    if raw == "" || Strip(raw) == "" then None else ParseFloat(raw)
  }

  // ---------------------------------------------------------------------------
  // Class codes
  // ---------------------------------------------------------------------------

  predicate IsCodeSeparator(c: char) { c == '-' || c == '_' }

  /** The groups of the primary class-code pattern: capitals, optional spaces,
      digits with an optional capital, a dash or underscore, digits. `rest` is
      what follows the match. */
  datatype CodeMatch = CodeMatch(
    subject: string, spaces: string, number: string, sep: char, section: string, rest: string)

  predicate AllSpace(s: string) { forall k :: 0 <= k < |s| ==> IsSpace(s[k]) }

  /** Digits, optionally followed by one capital. */
  predicate CourseNumber(n: string) {
    n != [] && IsDigit(n[0])
    && (AllDigits(n) || (AllDigits(n[..|n| - 1]) && IsUpper(n[|n| - 1])))
  }

  /** The conditions the pattern imposes on the pieces of a match. */
  predicate WellFormedCodeMatch(m: CodeMatch) {
    m.subject != [] && AllUpper(m.subject) && AllSpace(m.spaces)
    && CourseNumber(m.number) && IsCodeSeparator(m.sep)
    && m.section != [] && AllDigits(m.section)
    && (m.rest == [] || !IsDigit(m.rest[0]))
  }

  function Assemble(m: CodeMatch): string {
    m.subject + m.spaces + m.number + [m.sep] + m.section + m.rest
  }

  /** Where the number group ends: after the digits, one optional capital
      that is directly followed by the separator. None when no separator follows. */
  function NumberEnd(code: string, i3: nat): (r: Option<nat>)
    requires i3 <= |code|
    ensures r.Some? ==> i3 <= r.value <= i3 + 1 && r.value < |code| && IsCodeSeparator(code[r.value])
    ensures r.Some? && r.value == i3 + 1 ==> IsUpper(code[i3])
  {
    if i3 + 1 < |code| && IsUpper(code[i3]) && IsCodeSeparator(code[i3 + 1]) then Some(i3 + 1)
    else if i3 < |code| && IsCodeSeparator(code[i3]) then Some(i3)
    else None
  }

  /** Where the pattern's pieces end: subject, spaces, number, section. */
  function CodeBounds(code: string): Option<(nat, nat, nat, nat)> {
    var i1 := UpperRun(code, 0);
    var i2 := i1 + SpaceRun(code, i1);
    var i3 := i2 + DigitRun(code, i2);
    if i1 == 0 || i3 == i2 then None
    else
      match NumberEnd(code, i3)
      case None => None
      case Some(numEnd) =>
        var i6 := numEnd + 1 + DigitRun(code, numEnd + 1);
        if i6 == numEnd + 1 then None else Some((i1, i2, numEnd, i6))
  }

  /** Character-level facts about a successful split of `code`. */
  predicate BoundsFit(code: string, i1: nat, i2: nat, numEnd: nat, i6: nat) {
    0 < i1 <= i2 < numEnd && numEnd + 1 < i6 <= |code|
    && (forall k :: 0 <= k < i1 ==> IsUpper(code[k]))
    && (forall k :: i1 <= k < i2 ==> IsSpace(code[k]))
    && IsDigit(code[i2])
    && (forall k :: i2 <= k < numEnd - 1 ==> IsDigit(code[k]))
    && (IsDigit(code[numEnd - 1]) || IsUpper(code[numEnd - 1]))
    && IsCodeSeparator(code[numEnd])
    && (forall k :: numEnd < k < i6 ==> IsDigit(code[k]))
    && (i6 < |code| ==> !IsDigit(code[i6]))
  }

  lemma CodeBoundsFit(code: string)
    requires CodeBounds(code).Some?
    ensures var (i1, i2, numEnd, i6) := CodeBounds(code).value; BoundsFit(code, i1, i2, numEnd, i6)
  {
    var i1 := UpperRun(code, 0);
    var i2 := i1 + SpaceRun(code, i1);
    var i3 := i2 + DigitRun(code, i2);
    var numEnd := NumberEnd(code, i3).value;
    var i6 := numEnd + 1 + DigitRun(code, numEnd + 1);
    assert CodeBounds(code) == Some((i1, i2, numEnd, i6));
    RunsFit(code, i1, i2, i3, numEnd, i6);
  }

  /** The runs CodeBounds measures meet the pattern's character conditions. */
  lemma RunsFit(code: string, i1: nat, i2: nat, i3: nat, numEnd: nat, i6: nat)
    requires i1 == UpperRun(code, 0) && i2 == i1 + SpaceRun(code, i1) && i3 == i2 + DigitRun(code, i2)
    requires 0 < i1 && i2 < i3 && NumberEnd(code, i3) == Some(numEnd)
    requires i6 == numEnd + 1 + DigitRun(code, numEnd + 1) && numEnd + 1 < i6
    ensures BoundsFit(code, i1, i2, numEnd, i6)
  {
    UpperRunMaximal(code, 0);
    SpaceRunMaximal(code, i1);
    DigitRunMaximal(code, i2);
    DigitRunMaximal(code, numEnd + 1);
    assert IsDigit(code[i2]);
    if numEnd == i3 {
      assert IsDigit(code[numEnd - 1]);
    } else {
      assert IsUpper(code[numEnd - 1]);
    }
  }

  /** The pattern anchored at the start of the code; None where it does not match. */
  function MatchClassCode(code: string): Option<CodeMatch> {
    match CodeBounds(code)
    case None => None
    case Some((i1, i2, numEnd, i6)) =>
      Some(CodeMatch(code[..i1], code[i1..i2], code[i2..numEnd], code[numEnd], code[numEnd + 1..i6], code[i6..]))
  }

  /** What the pattern finds is a well-formed split of the whole code. */
  lemma MatchClassCodeSound(code: string)
    ensures var r := MatchClassCode(code);
      r.Some? ==> WellFormedCodeMatch(r.value) && Assemble(r.value) == code
  {
    if CodeBounds(code).Some? {
      var (i1, i2, numEnd, i6) := CodeBounds(code).value;
      CodeBoundsFit(code);
      BoundsPieces(code, i1, i2, numEnd, i6);
    }
  }

  /** The pieces cut at fitting bounds satisfy the pattern and reassemble the code. */
  lemma BoundsPieces(code: string, i1: nat, i2: nat, numEnd: nat, i6: nat)
    requires BoundsFit(code, i1, i2, numEnd, i6)
    ensures var m := CodeMatch(code[..i1], code[i1..i2], code[i2..numEnd], code[numEnd], code[numEnd + 1..i6], code[i6..]);
      WellFormedCodeMatch(m) && Assemble(m) == code
  {
    var number := code[i2..numEnd];
    assert number[..|number| - 1] == code[i2..numEnd - 1];
    assert forall k :: 0 <= k < |number| ==> number[k] == code[i2 + k];
    assert AllDigits(number[..|number| - 1]);
    assert CourseNumber(number) by {
      if IsDigit(code[numEnd - 1]) { assert AllDigits(number); }
    }
    var section := code[numEnd + 1..i6];
    assert forall k :: 0 <= k < |section| ==> section[k] == code[numEnd + 1 + k];
    assert AllDigits(section);
    assert code == code[..i1] + code[i1..i2] + code[i2..numEnd] + [code[numEnd]] + code[numEnd + 1..i6] + code[i6..];
  }

  /** The pattern matches exactly the codes that decompose as a match does,
      and the decomposition is unique: a well-formed split is what it finds. */
  lemma {:induction false} MatchClassCodeComplete(m: CodeMatch)
    requires WellFormedCodeMatch(m)
    ensures MatchClassCode(Assemble(m)) == Some(m)
  {
    var code := Assemble(m);
    var i1 := |m.subject|;
    var i2 := i1 + |m.spaces|;
    var numEnd := i2 + |m.number|;
    var i6 := numEnd + 1 + |m.section|;
    AssembleBounds(m);
    AssembleSlices(m);
    MatchFromBounds(code, m, i1, i2, numEnd, i6);
  }

  /** The bounds CodeBounds finds on an assembled match are its piece boundaries. */
  lemma AssembleBounds(m: CodeMatch)
    requires WellFormedCodeMatch(m)
    ensures var numEnd := |m.subject| + |m.spaces| + |m.number|;
      CodeBounds(Assemble(m)) == Some((|m.subject|, |m.subject| + |m.spaces|, numEnd, numEnd + 1 + |m.section|))
  {
    var code := Assemble(m);
    var i1 := |m.subject|;
    var i2 := i1 + |m.spaces|;
    var numEnd := i2 + |m.number|;
    var i6 := numEnd + 1 + |m.section|;
    var i3 := if AllDigits(m.number) then numEnd else numEnd - 1;
    AssembleRunLengths(m);
    CodeBoundsAt(code, i1, i2, i3, numEnd, i6);
  }

  lemma MatchFromBounds(code: string, m: CodeMatch, i1: nat, i2: nat, numEnd: nat, i6: nat)
    requires i1 <= i2 <= numEnd < i6 <= |code|
    requires CodeBounds(code) == Some((i1, i2, numEnd, i6))
    requires code[..i1] == m.subject && code[i1..i2] == m.spaces && code[i2..numEnd] == m.number
    requires code[numEnd] == m.sep && code[numEnd + 1..i6] == m.section && code[i6..] == m.rest
    ensures MatchClassCode(code) == Some(m)
  {
  }

  /** The character classes met in an assembled match, run by run. */
  lemma AssembleRuns(m: CodeMatch)
    requires WellFormedCodeMatch(m)
    ensures var code := Assemble(m);
      var i1 := |m.subject|;
      var i2 := i1 + |m.spaces|;
      var numEnd := i2 + |m.number|;
      var i6 := numEnd + 1 + |m.section|;
      var i3 := if AllDigits(m.number) then numEnd else numEnd - 1;
      0 < i1 <= i2 < i3 <= numEnd < i6 <= |code|
      && (forall k :: 0 <= k < i1 ==> IsUpper(code[k])) && !IsUpper(code[i1])
      && (forall k :: i1 <= k < i2 ==> IsSpace(code[k])) && !IsSpace(code[i2])
      && (forall k :: i2 <= k < i3 ==> IsDigit(code[k])) && !IsDigit(code[i3])
      && NumberEnd(code, i3) == Some(numEnd)
      && (forall k :: numEnd + 1 <= k < i6 ==> IsDigit(code[k]))
      && (i6 < |code| ==> !IsDigit(code[i6]))
  {
    AssembleIndexing(m);
  }

  /** The run lengths CodeBounds computes on an assembled match. */
  lemma AssembleRunLengths(m: CodeMatch)
    requires WellFormedCodeMatch(m)
    ensures var code := Assemble(m);
      var i1 := |m.subject|;
      var i2 := i1 + |m.spaces|;
      var numEnd := i2 + |m.number|;
      var i3 := if AllDigits(m.number) then numEnd else numEnd - 1;
      0 < i1 <= i2 < i3 <= numEnd < numEnd + 1 + |m.section| <= |code|
      && NumberEnd(code, i3) == Some(numEnd)
      && UpperRun(code, 0) == i1 && SpaceRun(code, i1) == i2 - i1 && DigitRun(code, i2) == i3 - i2
      && DigitRun(code, numEnd + 1) == |m.section|
  {
    var code := Assemble(m);
    var i1 := |m.subject|;
    var i2 := i1 + |m.spaces|;
    var numEnd := i2 + |m.number|;
    var i3 := if AllDigits(m.number) then numEnd else numEnd - 1;
    AssembleRuns(m);
    UpperRunExact(code, 0, i1);
    SpaceRunExact(code, i1, i2 - i1);
    DigitRunExact(code, i2, i3 - i2);
    SectionRun(m);
  }

  lemma SectionRun(m: CodeMatch)
    requires WellFormedCodeMatch(m)
    ensures var start := |m.subject| + |m.spaces| + |m.number| + 1;
      start <= |Assemble(m)| && DigitRun(Assemble(m), start) == |m.section|
  {
    var start := |m.subject| + |m.spaces| + |m.number| + 1;
    var code := Assemble(m);
    assert code == (m.subject + m.spaces + m.number + [m.sep]) + m.section + m.rest;
    assert forall k :: start <= k < start + |m.section| ==> code[k] == m.section[k - start];
    DigitRunExact(code, start, |m.section|);
  }

  /** Cutting an assembled match at its piece boundaries gives the pieces back. */
  lemma AssembleSlices(m: CodeMatch)
    ensures var code := Assemble(m);
      var i1 := |m.subject|;
      var i2 := i1 + |m.spaces|;
      var numEnd := i2 + |m.number|;
      var i6 := numEnd + 1 + |m.section|;
      i6 <= |code|
      && code[..i1] == m.subject && code[i1..i2] == m.spaces && code[i2..numEnd] == m.number
      && code[numEnd] == m.sep && code[numEnd + 1..i6] == m.section && code[i6..] == m.rest
  {
    AssembleIndexing(m);
  }

  /** CodeBounds from the run lengths it computes. */
  lemma CodeBoundsAt(code: string, i1: nat, i2: nat, i3: nat, numEnd: nat, i6: nat)
    requires i1 <= i2 <= i3 <= |code| && numEnd < i6 <= |code|
    requires 0 < i1 == UpperRun(code, 0)
    requires i2 == i1 + SpaceRun(code, i1)
    requires i2 < i3 == i2 + DigitRun(code, i2)
    requires NumberEnd(code, i3) == Some(numEnd)
    requires numEnd + 1 < i6 == numEnd + 1 + DigitRun(code, numEnd + 1)
    ensures CodeBounds(code) == Some((i1, i2, numEnd, i6))
  {
  }

  /** Where each piece of a match sits in the assembled code. */
  lemma AssembleIndexing(m: CodeMatch)
    ensures var code := Assemble(m);
      var i1 := |m.subject|;
      var i2 := i1 + |m.spaces|;
      var numEnd := i2 + |m.number|;
      var i6 := numEnd + 1 + |m.section|;
      |code| == i6 + |m.rest|
      && (forall k :: 0 <= k < i1 ==> code[k] == m.subject[k])
      && (forall k :: i1 <= k < i2 ==> code[k] == m.spaces[k - i1])
      && (forall k :: i2 <= k < numEnd ==> code[k] == m.number[k - i2])
      && code[numEnd] == m.sep
      && (forall k :: numEnd < k < i6 ==> code[k] == m.section[k - numEnd - 1])
      && (forall k :: i6 <= k < |code| ==> code[k] == m.rest[k - i6])
  {
  }

  /** `_parse_class_code`: (subject, number, section). */
  function ParseClassCode(code: string): (string, string, string)
  {
    match MatchClassCode(code)
    case Some(m) => (m.subject, m.number, m.section)
    case None =>
      var parts := Split(ReplaceChar(code, '-', ' '));
      if |parts| >= 3 then (parts[0], parts[1], parts[2])
      else if |parts| == 2 then (parts[0], parts[1], "01")
      else (code, "", "")
  }

  lemma ParseClassCodeExamples()
    ensures ParseClassCode("CPSC 350-03") == ("CPSC", "350", "03")
  {
    var a := CodeMatch("CPSC", " ", "350", '-', "03", "");
    assert AllUpper(a.subject) && AllSpace(a.spaces) && AllDigits(a.number) && AllDigits(a.section);
    assert WellFormedCodeMatch(a);
    assert Assemble(a) == "CPSC 350-03";
    ParseWellFormedCode(a);
  }

  /** A lab section: the capital after the digits stays in the number. */
  lemma ParseLabCodeExample()
    ensures ParseClassCode("BIOL 205L-01") == ("BIOL", "205L", "01")
  {
    var b := CodeMatch("BIOL", " ", "205L", '-', "01", "");
    assert b.number[..|b.number| - 1] == "205";
    assert AllUpper(b.subject) && AllSpace(b.spaces) && AllDigits(b.number[..|b.number| - 1]) && AllDigits(b.section);
    assert WellFormedCodeMatch(b);
    assert Assemble(b) == "BIOL 205L-01";
    ParseWellFormedCode(b);
  }

  /** A code the pattern accepts is parsed into its subject, number and section. */
  lemma ParseWellFormedCode(m: CodeMatch)
    requires WellFormedCodeMatch(m)
    ensures ParseClassCode(Assemble(m)) == (m.subject, m.number, m.section)
  {
    MatchClassCodeComplete(m);
  }

  /** A section's id: its code with spaces and slashes turned into dashes. */
  function SectionId(code: string): (id: string)
    ensures |id| == |code|
    ensures forall i :: 0 <= i < |id| ==> id[i] != ' ' && id[i] != '/'
    ensures forall i :: 0 <= i < |id| && code[i] != ' ' && code[i] != '/' ==> id[i] == code[i]
  {
    ReplaceChar(ReplaceChar(code, ' ', '-'), '/', '-')
  }

  /** One catalog row, column by column.  `classCode` is None when the row has
      no value for the class column (reading it then raises); the semesters
      offered are already evaluated ([] when the text does not evaluate). */
  datatype CatalogRow = CatalogRow(
    classCode: Option<string>, title: string, credits: string, displayDays: string,
    displayTime: string, location: string, professor: string, professorRating: string,
    semester: string, semestersOffered: seq<string>, occurrenceData: OccurrenceField)

  /** `_row_to_class_section`; None where converting the row raises. */
  function RowToSection(row: CatalogRow): (r: Option<SectionData>)
    ensures r.Some? <==> row.classCode.Some? && !row.occurrenceData.Malformed?
    ensures r.Some? ==> r.value.code == row.classCode.value && r.value.id == SectionId(row.classCode.value)
    ensures r.Some? ==> r.value.credits >= 0.0
  {
    match (row.classCode, ParseOccurrenceData(row.occurrenceData))
    case (Some(code), Some(occ)) =>
      var (subject, number, section) := ParseClassCode(code);
      Some(SectionData(SectionId(code), code, subject, number, section, row.title,
        ParseCredits(row.credits), row.displayDays, row.displayTime, row.location,
        row.professor, ParseProfessorRating(row.professorRating), row.semester,
        row.semestersOffered, occ))
    case _ => None
  }

  // ---------------------------------------------------------------------------
  // Loading and the catalog cache
  // ---------------------------------------------------------------------------

  /** Each row converted on its own. */
  function ConvertRows(rows: seq<CatalogRow>): (r: seq<Option<SectionData>>)
    ensures |r| == |rows| && forall i :: 0 <= i < |rows| ==> r[i] == RowToSection(rows[i])
  {
    seq(|rows|, i requires 0 <= i < |rows| => RowToSection(rows[i]))
  }

  /** The ids of a list of sections. */
  function IdSet(xs: seq<SectionData>): set<string> {
    set k | 0 <= k < |xs| :: xs[k].id
  }

  /** The converted rows in order, skipping failed conversions and sections
      whose id was produced by an earlier row (first wins). */
  function FirstPerId(converted: seq<Option<SectionData>>): seq<SectionData> {
    if converted == [] then []
    else
      var kept := FirstPerId(converted[..|converted| - 1]);
      match converted[|converted| - 1]
      case Some(c) => if c.id in IdSet(kept) then kept else kept + [c]
      case None => kept
  }

  /** Deduplication keeps each id once, and only converted rows. */
  lemma {:induction false} FirstPerIdSound(converted: seq<Option<SectionData>>)
    ensures forall i, j :: 0 <= i < j < |FirstPerId(converted)| ==> FirstPerId(converted)[i].id != FirstPerId(converted)[j].id
    ensures forall i :: 0 <= i < |FirstPerId(converted)| ==> Some(FirstPerId(converted)[i]) in converted
    decreases |converted|
  {
    if converted != [] {
      var init := converted[..|converted| - 1];
      FirstPerIdSound(init);
      assert forall x :: x in init ==> x in converted;
      var kept := FirstPerId(init);
      var last := converted[|converted| - 1];
      assert last in converted;
      if last.Some? && last.value.id !in IdSet(kept) {
        var r := kept + [last.value];
        assert FirstPerId(converted) == r;
        assert forall i :: 0 <= i < |kept| ==> kept[i].id in IdSet(kept);
        assert forall i :: 0 <= i < |r| ==> Some(r[i]) in converted by {
          forall i | 0 <= i < |r| ensures Some(r[i]) in converted {
            if i < |kept| { assert r[i] == kept[i]; }
          }
        }
      } else {
        assert FirstPerId(converted) == kept;
      }
    }
  }

  /** The section kept for an id is the earliest converted row with that id. */
  lemma {:induction false} FirstPerIdFirstWins(converted: seq<Option<SectionData>>, k: nat)
    requires k < |converted| && converted[k].Some?
    requires forall j :: 0 <= j < k && converted[j].Some? ==> converted[j].value.id != converted[k].value.id
    ensures converted[k].value in FirstPerId(converted)
    decreases |converted|
  {
    var init := converted[..|converted| - 1];
    var kept := FirstPerId(init);
    if k < |converted| - 1 {
      FirstPerIdFirstWins(init, k);
    } else {
      FirstPerIdIds(init, converted[k].value.id);
    }
  }

  /** An id is kept exactly when some converted row carries it. */
  lemma {:induction false} FirstPerIdIds(converted: seq<Option<SectionData>>, id: string)
    ensures id in IdSet(FirstPerId(converted))
      <==> exists j :: 0 <= j < |converted| && converted[j].Some? && converted[j].value.id == id
    decreases |converted|
  {
    if converted != [] {
      var init := converted[..|converted| - 1];
      var kept := FirstPerId(init);
      FirstPerIdIds(init, id);
      var last := converted[|converted| - 1];
      if last.Some? && last.value.id !in IdSet(kept) {
        IdSetSnoc(kept, last.value);
      }
      if exists j :: 0 <= j < |init| && init[j].Some? && init[j].value.id == id {
        var j :| 0 <= j < |init| && init[j].Some? && init[j].value.id == id;
        assert converted[j] == init[j];
      }
      if exists j :: 0 <= j < |converted| && converted[j].Some? && converted[j].value.id == id {
        var j :| 0 <= j < |converted| && converted[j].Some? && converted[j].value.id == id;
        if j < |init| { assert init[j] == converted[j]; }
      }
    }
  }

  lemma IdSetSnoc(xs: seq<SectionData>, x: SectionData)
    ensures IdSet(xs + [x]) == IdSet(xs) + {x.id}
  {
    var ys := xs + [x];
    forall id | id in IdSet(ys) ensures id in IdSet(xs) + {x.id} {
      var k :| 0 <= k < |ys| && ys[k].id == id;
      if k < |xs| { assert ys[k] == xs[k]; }
    }
    forall id | id in IdSet(xs) + {x.id} ensures id in IdSet(ys) {
      if id == x.id { assert ys[|xs|].id == id; }
      else {
        var k :| 0 <= k < |xs| && xs[k].id == id;
        assert ys[k] == xs[k];
      }
    }
  }

  /** The catalog file's content: None when the file does not exist. */
  type CatalogFile = Option<seq<CatalogRow>>

  /** What `load_all_classes` computes from a file: one section per distinct
      id, the first row with that id winning, in file order. */
  function LoadedSections(file: CatalogFile): (r: seq<SectionData>)
    ensures file.None? ==> r == []
    ensures forall i, j :: 0 <= i < j < |r| ==> r[i].id != r[j].id
  {
    match file
    case None => []
    case Some(rows) =>
      var converted := ConvertRows(rows);
      FirstPerIdSound(converted);
      FirstPerId(converted)
  }

  /** Every loaded section comes from a row, so its credits are never negative. */
  lemma LoadedCreditsNonNegative(file: CatalogFile, i: nat)
    requires i < |LoadedSections(file)|
    ensures LoadedSections(file)[i].credits >= 0.0
  {
    var rows := file.value;
    var converted := ConvertRows(rows);
    FirstPerIdSound(converted);
    var k :| 0 <= k < |converted| && converted[k] == Some(LoadedSections(file)[i]);
    assert RowToSection(rows[k]) == Some(LoadedSections(file)[i]);
  }

  lemma SectionsOfSnoc(cs: seq<ClassSection>, c: ClassSection)
    ensures SectionsOf(cs + [c]) == SectionsOf(cs) + [c.data]
  {
  }

  /** One more row read: the prefix's result, extended by that row when it
      converts and its id is new. */
  lemma FirstPerIdPrefixStep(converted: seq<Option<SectionData>>, i: nat)
    requires i < |converted|
    ensures FirstPerId(converted[..i + 1])
      == if converted[i].Some? && converted[i].value.id !in IdSet(FirstPerId(converted[..i]))
         then FirstPerId(converted[..i]) + [converted[i].value]
         else FirstPerId(converted[..i])
  {
    assert converted[..i + 1][..i] == converted[..i];
  }

  /** The loop of `load_all_classes` over the converted rows: keep the first
      section per id, one fresh object per kept section. */
  method KeepFirstPerId(converted: seq<Option<SectionData>>) returns (classes: seq<ClassSection>)
    ensures SectionsOf(classes) == FirstPerId(converted)
    ensures forall k :: 0 <= k < |classes| ==> fresh(classes[k]) && classes[k].requirementsSatisfied == []
  {
    classes := [];
    var seen: set<string> := {};
    var i := 0;
    while i < |converted|
      invariant 0 <= i <= |converted|
      invariant SectionsOf(classes) == FirstPerId(converted[..i])
      invariant seen == IdSet(SectionsOf(classes))
      invariant forall k :: 0 <= k < |classes| ==> fresh(classes[k]) && classes[k].requirementsSatisfied == []
    {
      var row := converted[i];
      FirstPerIdPrefixStep(converted, i);
      if row.Some? && row.value.id !in seen {
        var section := new ClassSection(row.value);
        SectionsOfSnoc(classes, section);
        IdSetSnoc(SectionsOf(classes), row.value);
        classes := classes + [section];
        seen := seen + {row.value.id};
      }
      i := i + 1;
    }
    assert converted[..i] == converted;
  }

  /** The memoised catalog (`lru_cache(maxsize=1)` around `load_all_classes`). */
  class Catalog {
    var cache: Option<seq<ClassSection>>

    constructor ()
      ensures cache.None?
    {
      cache := None;
    }

    /** `load_all_classes`: the cached list when there is one; otherwise the
        file is read, one fresh section object per distinct id, and cached. */
    method LoadAllClasses(file: CatalogFile) returns (classes: seq<ClassSection>)
      modifies this
      ensures old(cache).Some? ==> classes == old(cache).value && cache == old(cache)
      ensures old(cache).None? ==> cache == Some(classes)
      ensures old(cache).None? ==>
        |classes| == |LoadedSections(file)|
        && (forall i :: 0 <= i < |classes| ==> classes[i].data == LoadedSections(file)[i])
        && (forall i :: 0 <= i < |classes| ==> fresh(classes[i]) && classes[i].requirementsSatisfied == [])
    {
      if cache.Some? {
        return cache.value;
      }
      if file.Some? {
        var converted := ConvertRows(file.value);
        classes := KeepFirstPerId(converted);
      } else {
        classes := [];
      }
      cache := Some(classes);
    }

    /** `clear_cache`: the next load reads the file again. */
    method ClearCache()
      modifies this
      ensures cache.None?
    {
      cache := None;
    }
  }

  // ---------------------------------------------------------------------------
  // Lookups
  // ---------------------------------------------------------------------------

  /** `get_class_by_id` over a loaded catalog: the first section with that id. */
  method FindClassById(classes: seq<ClassSection>, id: string) returns (r: Option<ClassSection>)
    ensures r.Some? <==> exists k :: 0 <= k < |classes| && classes[k].data.id == id
    ensures r.Some? ==> exists k :: 0 <= k < |classes| && classes[k] == r.value && r.value.data.id == id
                          && forall j :: 0 <= j < k ==> classes[j].data.id != id
  {
    var i := 0;
    while i < |classes|
      invariant 0 <= i <= |classes|
      invariant forall j :: 0 <= j < i ==> classes[j].data.id != id
    {
      if classes[i].data.id == id {
        return Some(classes[i]);
      }
      i := i + 1;
    }
    return None;
  }

  /** `get_classes_by_ids`: catalog order, each catalog entry at most once,
      whatever the order or repetition of the requested ids. */
  function ClassesByIds(classes: seq<ClassSection>, ids: seq<string>): (r: seq<ClassSection>)
    ensures forall i :: 0 <= i < |r| ==> r[i] in classes && r[i].data.id in ids
    ensures forall k :: 0 <= k < |classes| && classes[k].data.id in ids ==> classes[k] in r
    ensures |r| <= |classes|
  {
    if classes == [] then []
    else
      var rest := ClassesByIds(classes[1..], ids);
      if classes[0].data.id in ids then [classes[0]] + rest else rest
  }

  /** Positions picked from the tail of a catalog, moved up by one. */
  lemma ShiftPicks(classes: seq<ClassSection>, xs: seq<ClassSection>, prev: seq<nat>) returns (shifted: seq<nat>)
    requires classes != [] && PicksBelow(xs, classes[1..], prev, |classes| - 1)
    ensures PicksBelow(xs, classes, shifted, |classes|)
    ensures 0 !in shifted && forall k :: 1 <= k < |classes| ==> (k in shifted <==> k - 1 in prev)
  {
    shifted := seq(|prev|, i requires 0 <= i < |prev| => prev[i] + 1);
    forall i | 0 <= i < |prev| ensures xs[i] == classes[shifted[i]] {
      assert classes[1..][prev[i]] == classes[shifted[i]];
    }
    forall k | 1 <= k < |classes| ensures k in shifted <==> k - 1 in prev {
      if k - 1 in prev {
        var i :| 0 <= i < |prev| && prev[i] == k - 1;
        assert shifted[i] == k;
      }
    }
  }

  /** Putting the catalog's first entry in front of picks from later positions. */
  lemma PickHead(classes: seq<ClassSection>, xs: seq<ClassSection>, shifted: seq<nat>)
    requires classes != [] && PicksBelow(xs, classes, shifted, |classes|) && 0 !in shifted
    ensures PicksBelow([classes[0]] + xs, classes, [0] + shifted, |classes|)
  {
    var xs', idx' := [classes[0]] + xs, [0] + shifted;
    forall i | 1 <= i < |idx'| ensures idx'[i] == shifted[i - 1] && xs'[i] == xs[i - 1] && idx'[i] > 0 {
      assert shifted[i - 1] in shifted;
    }
  }

  /** The selection keeps the catalog's order and takes each catalog position
      at most once: `idx` lists the positions kept, which are exactly the
      positions whose id was asked for. */
  lemma {:induction false} ClassesByIdsOrdered(classes: seq<ClassSection>, ids: seq<string>) returns (idx: seq<nat>)
    ensures PicksBelow(ClassesByIds(classes, ids), classes, idx, |classes|)
    ensures forall k :: 0 <= k < |classes| ==> (k in idx <==> classes[k].data.id in ids)
  {
    if classes == [] {
      idx := [];
    } else {
      var tail := classes[1..];
      var prev := ClassesByIdsOrdered(tail, ids);
      var rest := ClassesByIds(tail, ids);
      var shifted := ShiftPicks(classes, rest, prev);
      assert forall k :: 1 <= k < |classes| ==> tail[k - 1] == classes[k];
      if classes[0].data.id in ids {
        idx := [0] + shifted;
        PickHead(classes, rest, shifted);
        assert ClassesByIds(classes, ids) == [classes[0]] + rest;
      } else {
        idx := shifted;
        assert ClassesByIds(classes, ids) == rest;
      }
    }
  }

  /** Catalog ids being pairwise distinct, so are the ids of the selection,
      however often an id was asked for. */
  lemma ClassesByIdsDistinct(classes: seq<ClassSection>, ids: seq<string>)
    requires forall i, j :: 0 <= i < j < |classes| ==> classes[i].data.id != classes[j].data.id
    ensures var r := ClassesByIds(classes, ids);
      forall i, j :: 0 <= i < j < |r| ==> r[i].data.id != r[j].data.id
  {
    var r := ClassesByIds(classes, ids);
    var idx := ClassesByIdsOrdered(classes, ids);
    forall i, j | 0 <= i < j < |r| ensures r[i].data.id != r[j].data.id {
      assert r[i] == classes[idx[i]] && r[j] == classes[idx[j]] && idx[i] < idx[j];
    }
  }

  // ---------------------------------------------------------------------------
  // Search
  // ---------------------------------------------------------------------------

  /** Search criteria.  An empty query, subject or day list means no filter on
      it, as Python's truthiness tests make them. */
  datatype SearchQuery = SearchQuery(
    query: string, days: seq<string>, timeStart: Option<int>, timeEnd: Option<int>,
    creditsMin: Option<real>, creditsMax: Option<real>, subject: string)

  /** A slot lies inside the requested window (each bound optional). */
  predicate SlotInWindow(t: TimeSlot, timeStart: Option<int>, timeEnd: Option<int>) {
    (timeStart.None? || t.startTime >= timeStart.value) && (timeEnd.None? || t.endTime <= timeEnd.value)
  }

  predicate SomeSlotInWindow(a: SectionData, timeStart: Option<int>, timeEnd: Option<int>) {
    exists day, i :: 0 <= i < |WeeklySlots(a, day)| && SlotInWindow(WeeklySlots(a, day)[i], timeStart, timeEnd)
  }

  /** Some active day of the section is one of the requested day names. */
  predicate MeetsOnRequestedDay(a: SectionData, days: seq<string>) {
    exists d :: d in ActiveDays(a.occurrenceData.daysOccurring) && DayName(d) in days
  }

  /** The text a query is matched against. */
  function SearchableText(a: SectionData): string {
    Lower(a.code + " " + a.title + " " + a.professor)
  }

  /** Every filter of `search_classes`, as one condition on a section. */
  predicate MatchesSearch(a: SectionData, q: SearchQuery) {
    var ql := Strip(Lower(q.query));
    (ql == "" || Contains(SearchableText(a), ql))
    && (q.subject == "" || a.subject == Upper(q.subject))
    && (q.creditsMin.None? || a.credits >= q.creditsMin.value)
    && (q.creditsMax.None? || a.credits <= q.creditsMax.value)
    && (q.days == [] || MeetsOnRequestedDay(a, q.days))
    && ((q.timeStart.None? && q.timeEnd.None?) || SomeSlotInWindow(a, q.timeStart, q.timeEnd))
  }

  /** The entries whose section satisfies `keep`, in catalog order. */
  function Filter(classes: seq<ClassSection>, keep: SectionData -> bool): (r: seq<ClassSection>)
    ensures |r| <= |classes|
  {
    if classes == [] then []
    else
      var last := classes[|classes| - 1];
      Filter(classes[..|classes| - 1], keep) + (if keep(last.data) then [last] else [])
  }

  lemma {:induction false} FilterMembers(classes: seq<ClassSection>, keep: SectionData -> bool, c: ClassSection)
    ensures c in Filter(classes, keep) <==> c in classes && keep(c.data)
    decreases |classes|
  {
    if classes != [] {
      var init := classes[..|classes| - 1];
      FilterMembers(init, keep, c);
      assert classes == init + [classes[|classes| - 1]];
    }
  }

  lemma {:induction false} FilterAppend(a: seq<ClassSection>, b: seq<ClassSection>, keep: SectionData -> bool)
    ensures Filter(a + b, keep) == Filter(a, keep) + Filter(b, keep)
    decreases |b|
  {
    if b == [] {
      assert a + b == a;
    } else {
      var bi := b[..|b| - 1];
      assert (a + b)[..|a + b| - 1] == a + bi;
      assert (a + b)[|a + b| - 1] == b[|b| - 1];
      FilterAppend(a, bi, keep);
    }
  }

  /** The catalog entries satisfying every filter, in catalog order. */
  function SearchMatches(classes: seq<ClassSection>, q: SearchQuery): seq<ClassSection> {
    Filter(classes, a => MatchesSearch(a, q))
  }

  /** An entry is found exactly when it is in the catalog and passes every filter. */
  lemma SearchMatchesMembers(classes: seq<ClassSection>, q: SearchQuery, c: ClassSection)
    ensures c in SearchMatches(classes, q) <==> c in classes && MatchesSearch(c.data, q)
  {
    FilterMembers(classes, a => MatchesSearch(a, q), c);
  }

  /** Searching a concatenated catalog searches each part: results keep catalog order. */
  lemma SearchMatchesAppend(a: seq<ClassSection>, b: seq<ClassSection>, q: SearchQuery)
    ensures SearchMatches(a + b, q) == SearchMatches(a, q) + SearchMatches(b, q)
  {
    FilterAppend(a, b, x => MatchesSearch(x, q));
  }

  /** The time-window filter: the first slot inside the window decides. */
  method MeetsTimeWindow(a: SectionData, timeStart: Option<int>, timeEnd: Option<int>) returns (ok: bool)
    ensures ok <==> SomeSlotInWindow(a, timeStart, timeEnd)
  {
    var k := 0;
    while k < |AllDays|
      invariant 0 <= k <= |AllDays|
      invariant forall q, i :: 0 <= q < k && 0 <= i < |WeeklySlots(a, AllDays[q])| ==>
        !SlotInWindow(WeeklySlots(a, AllDays[q])[i], timeStart, timeEnd)
    {
      var slots := WeeklySlots(a, AllDays[k]);
      var i := 0;
      while i < |slots|
        invariant 0 <= i <= |slots|
        invariant forall p :: 0 <= p < i ==> !SlotInWindow(slots[p], timeStart, timeEnd)
      {
        var slotOk := true;
        if timeStart.Some? && slots[i].startTime < timeStart.value { slotOk := false; }
        if timeEnd.Some? && slots[i].endTime > timeEnd.value { slotOk := false; }
        if slotOk {
          assert SlotInWindow(WeeklySlots(a, AllDays[k])[i], timeStart, timeEnd);
          return true;
        }
        i := i + 1;
      }
      k := k + 1;
    }
    forall day, i | 0 <= i < |WeeklySlots(a, day)|
      ensures !SlotInWindow(WeeklySlots(a, day)[i], timeStart, timeEnd)
    {
      assert AllDays[DayIndex(day)] == day;
    }
    return false;
  }

  /** `search_classes`: the page `offset .. offset + limit` (Python slice
      semantics) of the matching entries, and how many entries match. */
  method SearchClasses(classes: seq<ClassSection>, q: SearchQuery, limit: int, offset: int)
      returns (page: seq<ClassSection>, total: nat)
    ensures total == |SearchMatches(classes, q)|
    ensures page == PySlice(SearchMatches(classes, q), offset, offset + limit)
  {
    var filtered: seq<ClassSection> := [];
    var queryLower := Strip(Lower(q.query));
    var subjectUpper := Upper(q.subject);
    var i := 0;
    while i < |classes|
      invariant 0 <= i <= |classes|
      invariant filtered == SearchMatches(classes[..i], q)
    {
      var c := classes[i];
      var keep := PassesFilters(c.data, q, queryLower, subjectUpper);
      assert classes[..i + 1][..i] == classes[..i];
      if keep {
        filtered := filtered + [c];
      }
      i := i + 1;
    }
    assert classes[..i] == classes;
    total := |filtered|;
    page := PySlice(filtered, offset, offset + limit);
  }

  /** The filters of one loop turn of `search_classes`, applied in order. */
  method PassesFilters(a: SectionData, q: SearchQuery, queryLower: string, subjectUpper: string)
      returns (keep: bool)
    requires queryLower == Strip(Lower(q.query)) && subjectUpper == Upper(q.subject)
    ensures keep <==> MatchesSearch(a, q)
  {
    keep := true;
    if queryLower != "" && !Contains(SearchableText(a), queryLower) { keep := false; }
    if q.subject != "" && a.subject != subjectUpper { keep := false; }
    if q.creditsMin.Some? && a.credits < q.creditsMin.value { keep := false; }
    if q.creditsMax.Some? && a.credits > q.creditsMax.value { keep := false; }
    if q.days != [] && !MeetsOnRequestedDay(a, q.days) { keep := false; }
    if keep && (q.timeStart.Some? || q.timeEnd.Some?) {
      keep := MeetsTimeWindow(a, q.timeStart, q.timeEnd);
    }
  }

  /** With a non-negative offset and limit, a page holds at most `limit`
      entries and is the run of matches starting at `offset`. */
  lemma SearchPage(matches: seq<ClassSection>, offset: int, limit: int)
    requires offset >= 0 && limit >= 0
    ensures |PySlice(matches, offset, offset + limit)| <= limit
    ensures offset < |matches| && limit > 0 ==> PySlice(matches, offset, offset + limit)[0] == matches[offset]
    ensures offset >= |matches| ==> PySlice(matches, offset, offset + limit) == []
  {
  }

  // ---------------------------------------------------------------------------
  // Subjects
  // ---------------------------------------------------------------------------

  predicate StrictlySorted(s: seq<string>) {
    forall i, j :: 0 <= i < j < |s| ==> LexLess(s[i], s[j])
  }

  /** Inserts `x` into a strictly sorted list, once. */
  function InsertSorted(s: seq<string>, x: string): (r: seq<string>)
    requires StrictlySorted(s)
    ensures StrictlySorted(r)
    ensures forall y :: y in r <==> y in s || y == x
  {
    if s == [] then [x]
    else if s[0] == x then s
    else if LexLess(x, s[0]) then
      InsertBeforeAll(s, x);
      [x] + s
    else
      LexTotal(x, s[0]);
      var rest := InsertSorted(s[1..], x);
      HeadBelowRest(s, x, rest);
      [s[0]] + rest
  }

  lemma InsertBeforeAll(s: seq<string>, x: string)
    requires StrictlySorted(s) && s != [] && LexLess(x, s[0])
    ensures forall j :: 0 <= j < |s| ==> LexLess(x, s[j])
  {
    forall j | 0 < j < |s| ensures LexLess(x, s[j]) {
      LexTransitive(x, s[0], s[j]);
    }
  }

  lemma HeadBelowRest(s: seq<string>, x: string, rest: seq<string>)
    requires StrictlySorted(s) && s != [] && LexLess(s[0], x)
    requires forall y :: y in rest <==> y in s[1..] || y == x
    ensures forall y :: y in rest ==> LexLess(s[0], y)
  {
    forall y | y in rest ensures LexLess(s[0], y) {
      if y != x {
        var j :| 0 <= j < |s[1..]| && s[1..][j] == y;
        assert s[j + 1] == y;
      }
    }
  }

  /** `get_unique_subjects`: each non-empty subject once, in ascending order. */
  function UniqueSubjects(classes: seq<ClassSection>): (r: seq<string>)
    ensures StrictlySorted(r)
  {
    if classes == [] then []
    else
      var rest := UniqueSubjects(classes[..|classes| - 1]);
      var s := classes[|classes| - 1].data.subject;
      if s == "" then rest else InsertSorted(rest, s)
  }

  /** The subject list holds exactly the non-empty subjects of the catalog. */
  lemma {:induction false} UniqueSubjectsMembers(classes: seq<ClassSection>, x: string)
    ensures x in UniqueSubjects(classes) <==>
      x != "" && exists k :: 0 <= k < |classes| && classes[k].data.subject == x
    decreases |classes|
  {
    if classes != [] {
      var init := classes[..|classes| - 1];
      UniqueSubjectsMembers(init, x);
      var s := classes[|classes| - 1].data.subject;
      assert x in UniqueSubjects(classes) <==> x in UniqueSubjects(init) || (s != "" && x == s);
      if x in UniqueSubjects(classes) && x != s {
        var k :| 0 <= k < |init| && init[k].data.subject == x;
        assert classes[k].data.subject == x;
      }
      if x != "" && (exists k :: 0 <= k < |classes| && classes[k].data.subject == x) {
        var k :| 0 <= k < |classes| && classes[k].data.subject == x;
        if k < |init| { assert init[k].data.subject == x; }
      }
    }
  }

  /** `get_classes_by_subject`: the catalog entries of one subject, in catalog order. */
  function ClassesBySubject(classes: seq<ClassSection>, subject: string): seq<ClassSection> {
    Filter(classes, (a: SectionData) => a.subject == Upper(subject))
  }

  /** The subject is compared upper-cased, so "cpsc" and "CPSC" select the same entries;
      an entry is selected exactly when its subject is the upper-cased request. */
  lemma ClassesBySubjectMembers(classes: seq<ClassSection>, subject: string, c: ClassSection)
    ensures c in ClassesBySubject(classes, subject) <==> c in classes && c.data.subject == Upper(subject)
  {
    FilterMembers(classes, (a: SectionData) => a.subject == Upper(subject), c);
  }

  // ---------------------------------------------------------------------------
  // Validation
  // ---------------------------------------------------------------------------

  /** Two-digit zero-padded minutes. */
  function TwoDigits(n: nat): (r: string)
    requires n < 100
    ensures |r| == 2 && AllDigits(r) && DigitsValue(r) == n
  {
    var r := [DigitChar(n / 10), DigitChar(n % 10)];
    assert r[..1] == [DigitChar(n / 10)] && r[..1][..0] == [];
    assert DigitsValue(r[..1]) == n / 10;
    assert DigitsValue(r) == DigitsValue(r[..1]) * 10 + n % 10;
    r
  }

  /** `_minutes_to_time`: hours and minutes by floor division, a 12-hour clock. */
  function MinutesToTime(minutes: int): string {
    var hours := minutes / 60;
    var mins := minutes % 60;
    var period := if hours < 12 then "AM" else "PM";
    var h := if hours == 0 then 12 else if hours > 12 then hours - 12 else hours;
    IntToString(h) + ":" + TwoDigits(mins) + " " + period
  }

  /** Within one day, the text ends in "AM" exactly before noon. */
  lemma MinutesToTimePeriod(minutes: int)
    requires 0 <= minutes < 1440
    ensures EndsWith(MinutesToTime(minutes), "AM") <==> minutes < 720
  {
    var hours := minutes / 60;
    var period := if hours < 12 then "AM" else "PM";
    var r := MinutesToTime(minutes);
    assert r[|r| - 2..] == period;
  }

  /** Reads a "h:mm AM" clock back into minutes from midnight. */
  function ClockToMinutes(s: string): Option<int> {
    match Find(s, ":")
    case None => None
    case Some(k) => ClockFromParts(s[..k], s[k + 1..])
  }

  /** The hour digits and the "mm AM" tail of a clock text, read back. */
  function ClockFromParts(hs: string, rest: string): Option<int> {
    if hs == [] || !AllDigits(hs) || |rest| != 5 || !IsDigit(rest[0]) || !IsDigit(rest[1])
       || rest[2] != ' ' || (rest[3..] != "AM" && rest[3..] != "PM") then None
    else
      var h := DigitsValue(hs);
      var mm := DigitsValue(rest[..2]);
      if h < 1 || h > 12 || mm >= 60 then None
      else Some((h % 12 + (if rest[3..] == "PM" then 12 else 0)) * 60 + mm)
  }

  /** Within one day, the clock text names exactly the minute it came from. */
  lemma {:induction false} MinutesToTimeRoundTrip(minutes: int)
    requires 0 <= minutes < 1440
    ensures ClockToMinutes(MinutesToTime(minutes)) == Some(minutes)
  {
    var hours := minutes / 60;
    var mins := minutes % 60;
    var pm := hours >= 12;
    var period := if pm then "PM" else "AM";
    var h := if hours == 0 then 12 else if hours > 12 then hours - 12 else hours;
    TwelveHourClock(minutes);
    var hs := NatToString(h);
    var mm := TwoDigits(mins);
    assert MinutesToTime(minutes) == hs + ":" + mm + " " + period;
    ClockTextParse(hs, mm, pm);
    assert DigitsValue(hs) == h && DigitsValue(mm) == mins;
  }

  /** The 12-hour clock arithmetic of `_minutes_to_time` is undone by
      `h % 12`, plus 12 hours after noon. */
  lemma TwelveHourClock(minutes: int)
    requires 0 <= minutes < 1440
    ensures var hours := minutes / 60;
      var h := if hours == 0 then 12 else if hours > 12 then hours - 12 else hours;
      1 <= h <= 12 && (h % 12 + (if hours < 12 then 0 else 12)) * 60 + minutes % 60 == minutes
  {
  }

  /** Reading back a clock text built from an hour, two minute digits and a period. */
  lemma ClockTextParse(hs: string, mm: string, pm: bool)
    requires hs != [] && AllDigits(hs) && 1 <= DigitsValue(hs) <= 12
    requires |mm| == 2 && AllDigits(mm) && DigitsValue(mm) < 60
    ensures ClockToMinutes(hs + ":" + mm + " " + (if pm then "PM" else "AM"))
      == Some((DigitsValue(hs) % 12 + (if pm then 12 else 0)) * 60 + DigitsValue(mm))
  {
    var period := if pm then "PM" else "AM";
    var rest := mm + " " + period;
    assert hs + ":" + mm + " " + period == hs + ":" + rest;
    ColonFirst(hs, rest);
    ClockPartsRead(hs, mm, pm);
  }

  lemma ClockPartsRead(hs: string, mm: string, pm: bool)
    requires hs != [] && AllDigits(hs) && 1 <= DigitsValue(hs) <= 12
    requires |mm| == 2 && AllDigits(mm) && DigitsValue(mm) < 60
    ensures ClockFromParts(hs, mm + " " + (if pm then "PM" else "AM"))
      == Some((DigitsValue(hs) % 12 + (if pm then 12 else 0)) * 60 + DigitsValue(mm))
  {
    var period := if pm then "PM" else "AM";
    var rest := mm + " " + period;
    assert rest[..2] == mm;
    assert rest[3..] == period;
    assert (period == "PM") == pm;
  }

  /** In `hs + ":" + t` with an all-digit `hs`, the first colon ends `hs`. */
  lemma ColonFirst(hs: string, t: string)
    requires AllDigits(hs)
    ensures var s := hs + ":" + t;
      Find(s, ":") == Some(|hs|) && s[..|hs|] == hs && s[|hs| + 1..] == t
  {
    var s := hs + ":" + t;
    assert OccursAt(s, ":", |hs|) by { assert s[|hs|..|hs| + 1] == ":"; }
    forall k | 0 <= k < |hs| ensures !OccursAt(s, ":", k) {
      assert s[k..k + 1] == [s[k]];
      assert s[k] == hs[k];
    }
  }

  /** The first slot of `ys` that overlaps `x`. */
  function FirstOverlapWith(x: TimeSlot, ys: seq<TimeSlot>): Option<TimeSlot> {
    if ys == [] then None
    else if Overlaps(x, ys[0]) then Some(ys[0])
    else FirstOverlapWith(x, ys[1..])
  }

  lemma {:induction false} FirstOverlapWithSpec(x: TimeSlot, ys: seq<TimeSlot>)
    ensures FirstOverlapWith(x, ys).Some? ==>
      FirstOverlapWith(x, ys).value in ys && Overlaps(x, FirstOverlapWith(x, ys).value)
    ensures FirstOverlapWith(x, ys).None? <==> forall j :: 0 <= j < |ys| ==> !Overlaps(x, ys[j])
    decreases |ys|
  {
    if ys != [] && !Overlaps(x, ys[0]) {
      FirstOverlapWithSpec(x, ys[1..]);
      assert forall j :: 0 < j < |ys| ==> ys[1..][j - 1] == ys[j];
    }
  }

  /** The first overlapping pair of slots, scanning `xs` then `ys`. */
  function FirstOverlapIn(xs: seq<TimeSlot>, ys: seq<TimeSlot>): Option<(TimeSlot, TimeSlot)> {
    if xs == [] then None
    else
      match FirstOverlapWith(xs[0], ys)
      case Some(y) => Some((xs[0], y))
      case None => FirstOverlapIn(xs[1..], ys)
  }

  lemma {:induction false} FirstOverlapInSpec(xs: seq<TimeSlot>, ys: seq<TimeSlot>)
    ensures FirstOverlapIn(xs, ys).Some? ==>
      FirstOverlapIn(xs, ys).value.0 in xs && FirstOverlapIn(xs, ys).value.1 in ys
      && Overlaps(FirstOverlapIn(xs, ys).value.0, FirstOverlapIn(xs, ys).value.1)
    ensures FirstOverlapIn(xs, ys).None? <==> !SlotsConflict(xs, ys)
    decreases |xs|
  {
    if xs != [] {
      FirstOverlapWithSpec(xs[0], ys);
      if FirstOverlapWith(xs[0], ys).Some? {
        var y := FirstOverlapWith(xs[0], ys).value;
        var j :| 0 <= j < |ys| && ys[j] == y;
        assert Overlaps(xs[0], ys[j]);
      } else {
        FirstOverlapInSpec(xs[1..], ys);
        if SlotsConflict(xs, ys) {
          var i, j :| 0 <= i < |xs| && 0 <= j < |ys| && Overlaps(xs[i], ys[j]);
          assert i > 0;
          assert xs[1..][i - 1] == xs[i];
        }
        if SlotsConflict(xs[1..], ys) {
          var i, j :| 0 <= i < |xs[1..]| && 0 <= j < |ys| && Overlaps(xs[1..][i], ys[j]);
          assert xs[i + 1] == xs[1..][i];
        }
        assert forall t :: t in xs[1..] ==> t in xs;
      }
    }
  }

  /** The first day (weekly order, from `AllDays[k]`) with an overlap, and the
      first overlapping slot pair on it. */
  function FirstOverlapFrom(a: SectionData, b: SectionData, k: nat): Option<(Day, TimeSlot, TimeSlot)>
    requires k <= |AllDays|
    decreases |AllDays| - k
  {
    if k == |AllDays| then None
    else
      var day := AllDays[k];
      match FirstOverlapIn(WeeklySlots(a, day), WeeklySlots(b, day))
      case Some((x, y)) => Some((day, x, y))
      case None => FirstOverlapFrom(a, b, k + 1)
  }

  lemma {:induction false} FirstOverlapFromSpec(a: SectionData, b: SectionData, k: nat)
    requires k <= |AllDays|
    ensures var r := FirstOverlapFrom(a, b, k);
      r.Some? ==> r.value.1 in WeeklySlots(a, r.value.0) && r.value.2 in WeeklySlots(b, r.value.0)
                  && Overlaps(r.value.1, r.value.2)
    ensures FirstOverlapFrom(a, b, k).None? <==>
      forall q :: k <= q < |AllDays| ==> !SlotsConflict(WeeklySlots(a, AllDays[q]), WeeklySlots(b, AllDays[q]))
    decreases |AllDays| - k
  {
    if k < |AllDays| {
      var day := AllDays[k];
      FirstOverlapInSpec(WeeklySlots(a, day), WeeklySlots(b, day));
      if FirstOverlapIn(WeeklySlots(a, day), WeeklySlots(b, day)).None? {
        FirstOverlapFromSpec(a, b, k + 1);
      }
    }
  }

  /** `validate_schedule`'s scan: the first day in weekly order with an
      overlapping pair, and the first such pair on that day. */
  function FirstOverlap(a: SectionData, b: SectionData): Option<(Day, TimeSlot, TimeSlot)> {
    FirstOverlapFrom(a, b, 0)
  }

  /** The scan finds a pair exactly when the sections conflict, and what it
      finds is a real overlap on that day. */
  lemma FirstOverlapSpec(a: SectionData, b: SectionData)
    ensures FirstOverlap(a, b).Some? <==> Conflicts(a, b)
    ensures var r := FirstOverlap(a, b);
      r.Some? ==> r.value.1 in WeeklySlots(a, r.value.0) && r.value.2 in WeeklySlots(b, r.value.0)
                  && Overlaps(r.value.1, r.value.2)
  {
    FirstOverlapFromSpec(a, b, 0);
    if Conflicts(a, b) {
      var day :| SlotsConflict(WeeklySlots(a, day), WeeklySlots(b, day));
      assert AllDays[DayIndex(day)] == day;
    }
  }

  /** The conflict record for a conflicting pair: the first overlap's day and
      the overlapping interval. */
  function ConflictRecord(a: SectionData, b: SectionData): (r: ConflictInfo)
    requires Conflicts(a, b)
    ensures r.classId1 == a.id && r.classId2 == b.id
    ensures SlotsConflict(WeeklySlots(a, r.day), WeeklySlots(b, r.day))
  {
    FirstOverlapSpec(a, b);
    var found := FirstOverlap(a, b).value;
    SlotsConflictWitness(WeeklySlots(a, found.0), WeeklySlots(b, found.0), found.1, found.2);
    RecordAt(a, b, found)
  }

  /** The record text for a pair whose first overlap is `found`. */
  function RecordAt(a: SectionData, b: SectionData, found: (Day, TimeSlot, TimeSlot)): (r: ConflictInfo)
    ensures r.classId1 == a.id && r.classId2 == b.id && r.day == found.0
  {
    var (day, x, y) := found;
    ConflictInfo(a.id, b.id, day, TimeRange(x, y), a.code + " conflicts with " + b.code + " on " + DayName(day))
  }

  /** The `"start - end"` text of the overlap of two slots. */
  function TimeRange(x: TimeSlot, y: TimeSlot): string {
    var from := if x.startTime >= y.startTime then x.startTime else y.startTime;
    var until := if x.endTime <= y.endTime then x.endTime else y.endTime;
    MinutesToTime(from) + " - " + MinutesToTime(until)
  }

  lemma SlotsConflictWitness(xs: seq<TimeSlot>, ys: seq<TimeSlot>, x: TimeSlot, y: TimeSlot)
    requires x in xs && y in ys && Overlaps(x, y)
    ensures SlotsConflict(xs, ys)
  {
    var i :| 0 <= i < |xs| && xs[i] == x;
    var j :| 0 <= j < |ys| && ys[j] == y;
  }

  /** The records for `a` against each later section, in order. */
  function ConflictsAgainst(a: SectionData, later: seq<SectionData>): (r: seq<ConflictInfo>)
    ensures |r| <= |later|
  {
    if later == [] then []
    else RecordIfConflict(a, later[0]) + ConflictsAgainst(a, later[1..])
  }

  /** The pair's record when the two conflict, nothing otherwise. */
  function RecordIfConflict(a: SectionData, b: SectionData): seq<ConflictInfo> {
    if Conflicts(a, b) then [ConflictRecord(a, b)] else []
  }

  /** One record per conflicting pair i < j, ordered by i then j. */
  function ScheduleConflicts(cs: seq<SectionData>): seq<ConflictInfo> {
    if cs == [] then [] else ConflictsAgainst(cs[0], cs[1..]) + ScheduleConflicts(cs[1..])
  }

  predicate PairwiseConflictFree(cs: seq<SectionData>) {
    forall i, j :: 0 <= i < j < |cs| ==> !Conflicts(cs[i], cs[j])
  }

  lemma {:induction false} ConflictsAgainstEmpty(a: SectionData, later: seq<SectionData>)
    ensures ConflictsAgainst(a, later) == [] <==> forall j :: 0 <= j < |later| ==> !Conflicts(a, later[j])
    decreases |later|
  {
    if later != [] {
      ConflictsAgainstEmpty(a, later[1..]);
      assert forall j :: 1 <= j < |later| ==> later[1..][j - 1] == later[j];
    }
  }

  /** A schedule is reported valid exactly when no two of its sections conflict. */
  lemma {:induction false} NoConflictRecordsIffConflictFree(cs: seq<SectionData>)
    ensures ScheduleConflicts(cs) == [] <==> PairwiseConflictFree(cs)
    decreases |cs|
  {
    if cs != [] {
      NoConflictRecordsIffConflictFree(cs[1..]);
      ConflictsAgainstEmpty(cs[0], cs[1..]);
      if PairwiseConflictFree(cs) {
        assert forall j :: 0 <= j < |cs[1..]| ==> !Conflicts(cs[0], cs[1..][j]) by {
          forall j | 0 <= j < |cs[1..]| ensures !Conflicts(cs[0], cs[1..][j]) { assert cs[1..][j] == cs[j + 1]; }
        }
        assert PairwiseConflictFree(cs[1..]) by {
          forall i, j | 0 <= i < j < |cs[1..]| ensures !Conflicts(cs[1..][i], cs[1..][j]) {
            assert cs[1..][i] == cs[i + 1] && cs[1..][j] == cs[j + 1];
          }
        }
      }
      if ScheduleConflicts(cs) == [] {
        forall i, j | 0 <= i < j < |cs| ensures !Conflicts(cs[i], cs[j]) {
          if i == 0 { assert cs[1..][j - 1] == cs[j]; }
          else { assert cs[1..][i - 1] == cs[i] && cs[1..][j - 1] == cs[j]; }
        }
      }
    }
  }

  /** Every record names a conflicting pair, earlier section first. */
  lemma {:induction false} ConflictRecordsSound(cs: seq<SectionData>, e: ConflictInfo)
    requires e in ScheduleConflicts(cs)
    ensures exists i, j :: 0 <= i < j < |cs| && Conflicts(cs[i], cs[j])
              && e.classId1 == cs[i].id && e.classId2 == cs[j].id
    decreases |cs|
  {
    if e in ConflictsAgainst(cs[0], cs[1..]) {
      var j := ConflictsAgainstSound(cs[0], cs[1..], e);
      assert cs[1..][j] == cs[j + 1];
    } else {
      ConflictRecordsSound(cs[1..], e);
      var i, j :| 0 <= i < j < |cs[1..]| && Conflicts(cs[1..][i], cs[1..][j])
                  && e.classId1 == cs[1..][i].id && e.classId2 == cs[1..][j].id;
      assert cs[1..][i] == cs[i + 1] && cs[1..][j] == cs[j + 1];
    }
  }

  lemma {:induction false} ConflictsAgainstSound(a: SectionData, later: seq<SectionData>, e: ConflictInfo)
      returns (j: nat)
    requires e in ConflictsAgainst(a, later)
    ensures j < |later| && Conflicts(a, later[j]) && e.classId1 == a.id && e.classId2 == later[j].id
    decreases |later|
  {
    if Conflicts(a, later[0]) && e.classId1 == a.id && e.classId2 == later[0].id {
      j := 0;
    } else {
      ConflictsAgainstHead(a, later, e);
      var k := ConflictsAgainstSound(a, later[1..], e);
      j := k + 1;
    }
  }

  /** A record for `a` is either the one for the first later section or a
      record against the rest. */
  lemma ConflictsAgainstHead(a: SectionData, later: seq<SectionData>, e: ConflictInfo)
    requires e in ConflictsAgainst(a, later)
    ensures (Conflicts(a, later[0]) && e == ConflictRecord(a, later[0])) || e in ConflictsAgainst(a, later[1..])
  {
  }

  /** Credit-load warnings: above 18 or below 12 credits, never both. */
  function CreditWarnings(total: real): (w: seq<Warning>)
    ensures |w| <= 1
    ensures w == [] <==> 12.0 <= total <= 18.0
  {
    if total > 18.0 then [ExceedsTypicalMaximum(total)]
    else if total < 12.0 then [BelowFullTime(total)]
    else []
  }

  function TotalCredits(cs: seq<ClassSection>): real {
    if cs == [] then 0.0 else cs[0].data.credits + TotalCredits(cs[1..])
  }

  function SectionsOf(cs: seq<ClassSection>): (r: seq<SectionData>)
    ensures |r| == |cs| && forall i :: 0 <= i < |cs| ==> r[i] == cs[i].data
  {
    seq(|cs|, i requires 0 <= i < |cs| => cs[i].data)
  }

  /** The nested scan of `validate_schedule` for the first overlap, stopping at
      the first one found. */
  method FindFirstOverlap(a: SectionData, b: SectionData) returns (r: Option<(Day, TimeSlot, TimeSlot)>)
    ensures r == FirstOverlap(a, b)
  {
    var k := 0;
    while k < |AllDays|
      invariant 0 <= k <= |AllDays|
      invariant FirstOverlapFrom(a, b, k) == FirstOverlapFrom(a, b, 0)
    {
      var day := AllDays[k];
      var slots1 := WeeklySlots(a, day);
      var slots2 := WeeklySlots(b, day);
      var i := 0;
      while i < |slots1|
        invariant 0 <= i <= |slots1|
        invariant FirstOverlapIn(slots1[i..], slots2) == FirstOverlapIn(slots1, slots2)
      {
        var j := 0;
        while j < |slots2|
          invariant 0 <= j <= |slots2|
          invariant FirstOverlapWith(slots1[i], slots2[j..]) == FirstOverlapWith(slots1[i], slots2)
        {
          assert slots2[j..][1..] == slots2[j + 1..];
          if Overlaps(slots1[i], slots2[j]) {
            return Some((day, slots1[i], slots2[j]));
          }
          j := j + 1;
        }
        assert slots1[i..][1..] == slots1[i + 1..];
        i := i + 1;
      }
      k := k + 1;
    }
    return None;
  }

  /** `validate_schedule`: the selected sections, one conflict record per
      conflicting pair, their credit total and the credit-load warning. */
  method ValidateSchedule(catalog: seq<ClassSection>, ids: seq<string>) returns (v: ScheduleValidation)
    ensures var cs := ClassesByIds(catalog, ids);
      v.conflicts == ScheduleConflicts(SectionsOf(cs))
      && v.totalCredits == TotalCredits(cs)
      && v.warnings == CreditWarnings(TotalCredits(cs))
    ensures v.valid <==> PairwiseConflictFree(SectionsOf(ClassesByIds(catalog, ids)))
  {
    var cs := ClassesByIds(catalog, ids);
    var sections := SectionsOf(cs);
    var conflicts := AllConflictRecords(sections);
    NoConflictRecordsIffConflictFree(sections);
    var total := TotalCredits(cs);
    v := ScheduleValidation(|conflicts| == 0, conflicts, total, CreditWarnings(total));
  }

  /** The outer loop of `validate_schedule`: each section against the later ones. */
  method AllConflictRecords(sections: seq<SectionData>) returns (conflicts: seq<ConflictInfo>)
    ensures conflicts == ScheduleConflicts(sections)
  {
    conflicts := [];
    var i := 0;
    while i < |sections|
      invariant 0 <= i <= |sections|
      invariant conflicts + ScheduleConflicts(sections[i..]) == ScheduleConflicts(sections)
    {
      var inner := RecordsAgainst(sections[i], sections, i + 1);
      ScheduleConflictsStep(sections, i);
      assert conflicts + (inner + ScheduleConflicts(sections[i + 1..]))
          == (conflicts + inner) + ScheduleConflicts(sections[i + 1..]);
      conflicts := conflicts + inner;
      i := i + 1;
    }
    assert sections[i..] == [];
  }

  lemma ScheduleConflictsStep(sections: seq<SectionData>, i: nat)
    requires i < |sections|
    ensures ScheduleConflicts(sections[i..])
      == ConflictsAgainst(sections[i], sections[i + 1..]) + ScheduleConflicts(sections[i + 1..])
  {
    assert sections[i..][0] == sections[i] && sections[i..][1..] == sections[i + 1..];
  }

  /** The inner loop of `validate_schedule`: `a` against `sections[from..]`. */
  method RecordsAgainst(a: SectionData, sections: seq<SectionData>, from: nat) returns (inner: seq<ConflictInfo>)
    requires from <= |sections|
    ensures inner == ConflictsAgainst(a, sections[from..])
  {
    inner := [];
    var later := sections[from..];
    while later != []
      invariant inner + ConflictsAgainst(a, later) == ConflictsAgainst(a, sections[from..])
    {
      var es := PairEntries(a, later[0]);
      Associative(inner, es, ConflictsAgainst(a, later[1..]));
      inner := inner + es;
      later := later[1..];
    }
  }

  /** One step of the inner loop: test the pair, record it when it conflicts. */
  method PairEntries(a: SectionData, b: SectionData) returns (es: seq<ConflictInfo>)
    ensures es == RecordIfConflict(a, b)
  {
    var conflicting := HasConflictWith(a, b);
    if conflicting {
      var e := ConflictEntry(a, b);
      es := [e];
    } else {
      es := [];
    }
  }

  /** The record for one conflicting pair, located by the nested scan. */
  method ConflictEntry(a: SectionData, b: SectionData) returns (e: ConflictInfo)
    requires Conflicts(a, b)
    ensures e == ConflictRecord(a, b)
  {
    FirstOverlapSpec(a, b);
    var found := FindFirstOverlap(a, b);
    var (day, x, y) := found.value;
    var from := if x.startTime >= y.startTime then x.startTime else y.startTime;
    var until := if x.endTime <= y.endTime then x.endTime else y.endTime;
    e := ConflictInfo(a.id, b.id, day, MinutesToTime(from) + " - " + MinutesToTime(until),
      a.code + " conflicts with " + b.code + " on " + DayName(day));
    assert e == RecordAt(a, b, found.value);
  }
}
