/** Degree progress against the matched catalog program
    (backend/app/services/chat_service.py): the course codes a parsed
    transcript reports as completed or in progress, and a status for each
    requirement section of the program that names courses. */
module DegreeStatus {
  import opened Wrappers
  import opened Text
  import opened ChatCatalog

  // ---------------------------------------------------------------------------
  // Transcript course codes
  // ---------------------------------------------------------------------------

  /** A parsed transcript course; a missing field is "". */
  datatype TranscriptCourse = TranscriptCourse(subject: string, number: string, title: string)

  /** The parsed transcript's courses; a missing list is []. */
  datatype Transcript = Transcript(completed: seq<TranscriptCourse>, inProgress: seq<TranscriptCourse>)

  /** The code of a transcript course: subject and number when both are
      present, else `([A-Z]{3,4})\s*(\d+[A-Z]?)` at the start of the title. */
  function CodeFromCourse(c: TranscriptCourse): (r: Option<string>)
    ensures r.Some? ==> r.value != []
  {
    var subj := Strip(c.subject);
    var num := Strip(c.number);
    if subj != [] && num != [] then Some(Upper(subj) + " " + Upper(num))
    else
      match MatchCourseCode(Strip(c.title), 3, 4)
      case Some((letters, number)) => Some(Upper(letters + " " + number))
      case None => None
  }

  /** A code read from a title is already in the catalog's form. */
  lemma TitleCodeCanonical(c: TranscriptCourse)
    requires Strip(c.subject) == [] || Strip(c.number) == []
    requires CodeFromCourse(c).Some?
    ensures CourseCode(CodeFromCourse(c).value)
  {
    MatchedCourseCode(Strip(c.title));
  }

  /** The codes of `courses` that yield one, as a set. */
  function CodesOf(courses: seq<TranscriptCourse>): set<string> {
    ValueSet(courses, CodeFromCourse)
  }

  /** A code is collected exactly when some course yields it. */
  lemma CodesOfMembers(courses: seq<TranscriptCourse>, code: string)
    ensures code in CodesOf(courses) <==>
      exists i :: 0 <= i < |courses| && CodeFromCourse(courses[i]) == Some(code)
  {
    ValueSetMembers(courses, CodeFromCourse, code);
  }

  /** One pass of `_extract_transcript_course_codes`: the codes of `courses`. */
  method CollectCodes(courses: seq<TranscriptCourse>) returns (codes: set<string>)
    ensures codes == CodesOf(courses)
  {
    codes := {};
    for i := 0 to |courses|
      invariant codes == ValueSet(courses[..i], CodeFromCourse)
    {
      var code := CodeFromCourse(courses[i]);
      ValueSetStep(courses, CodeFromCourse, i);
      if code.Some? && code.value != [] {
        codes := codes + {code.value};
      }
    }
    assert courses[..|courses|] == courses;
  }

  /** `_extract_transcript_course_codes`: the completed and the in-progress codes. */
  method ExtractTranscriptCodes(t: Transcript) returns (completed: set<string>, inProgress: set<string>)
    ensures completed == CodesOf(t.completed)
    ensures inProgress == CodesOf(t.inProgress)
  {
    completed := CollectCodes(t.completed);
    inProgress := CollectCodes(t.inProgress);
  }

  // ---------------------------------------------------------------------------
  // Requirement-section codes
  // ---------------------------------------------------------------------------

  /** The code of a catalog item: a course item's `code`, else its
      `course_code`, stripped and upper-cased, read with
      `([A-Z]{3,4})\s*(\d+[A-Z]?)`. */
  function ItemCode(item: ContentItem): Option<string> {
    match item
    case OtherItem => None
    case CourseItem(code, courseCode) =>
      var raw := Strip(if code != "" then code else courseCode);
      if raw == "" then None
      else
        match MatchCourseCode(Upper(raw), 3, 4)
        case Some((letters, number)) => Some(letters + " " + number)
        case None => None
  }

  /** A code in the catalog's form reads as itself from a catalog item and
      from a transcript course that gives it as subject and number, so
      the two sides compare equal. */
  lemma CanonicalCodeAgrees(letters: string, number: string, title: string)
    requires 3 <= |letters| <= 4 && AllUpper(letters) && CourseNumber(number)
    ensures ItemCode(CourseItem(letters + " " + number, "")) == Some(letters + " " + number)
    ensures CodeFromCourse(TranscriptCourse(letters, number, title)) == Some(letters + " " + number)
  {
    JoinedCourseCode(letters, number);
    CourseCodeMatches(letters, number);
  }

  /** The codes of a section's course items, in order. */
  function SectionCodes(content: seq<ContentItem>): seq<string> {
    ValueSeq(content, ItemCode)
  }

  /** The loop of `_section_status` that gathers a section's codes. */
  method GatherCodes(content: seq<ContentItem>) returns (codes: seq<string>)
    ensures codes == SectionCodes(content)
  {
    codes := [];
    for i := 0 to |content|
      invariant codes == ValueSeq(content[..i], ItemCode)
    {
      var code := ItemCode(content[i]);
      ValueSeqStep(content, ItemCode, i);
      if code.Some? {
        codes := codes + [code.value];
      }
    }
    assert content[..|content|] == content;
  }

  // ---------------------------------------------------------------------------
  // Section status
  // ---------------------------------------------------------------------------

  datatype SectionStatus = Complete | InProgress | NotStarted

  /** `any(c in s for c in codes)` */
  function AnyIn(codes: seq<string>, s: set<string>): bool {
    if codes == [] then false
    else AnyIn(codes[..|codes| - 1], s) || codes[|codes| - 1] in s
  }

  /** `all(c in s for c in codes)` */
  function AllIn(codes: seq<string>, s: set<string>): bool {
    if codes == [] then true
    else AllIn(codes[..|codes| - 1], s) && codes[|codes| - 1] in s
  }

  /** `any` holds exactly when the codes meet the set. */
  lemma {:induction false} AnyInIff(codes: seq<string>, s: set<string>)
    ensures AnyIn(codes, s) <==> exists c :: c in s && c in codes
  {
    if codes != [] {
      var n := |codes| - 1;
      AnyInIff(codes[..n], s);
      assert codes == codes[..n] + [codes[n]];
    }
  }

  /** `all` holds exactly when every code is in the set. */
  lemma {:induction false} AllInIff(codes: seq<string>, s: set<string>)
    ensures AllIn(codes, s) <==> forall c :: c in codes ==> c in s
  {
    if codes != [] {
      var n := |codes| - 1;
      AllInIff(codes[..n], s);
      assert codes == codes[..n] + [codes[n]];
    }
  }

  /** The status chain of `_section_status` for a non-empty code list. */
  function Classify(codes: seq<string>, completed: set<string>, inProgress: set<string>): SectionStatus {
    if AllIn(codes, completed) then Complete
    else if AnyIn(codes, inProgress) || AnyIn(codes, completed) then InProgress
    else NotStarted
  }

  /** `_section_status` on the codes a section names: None without codes. */
  function StatusOf(codes: seq<string>, completed: set<string>, inProgress: set<string>): Option<SectionStatus> {
    if codes == [] then None else Some(Classify(codes, completed, inProgress))
  }

  /** A section with codes is complete when all of them are completed, in
      progress when some code is completed or in progress, and not started
      when none is. */
  lemma StatusOfSpec(codes: seq<string>, completed: set<string>, inProgress: set<string>)
    ensures StatusOf(codes, completed, inProgress).None? <==> codes == []
    ensures StatusOf(codes, completed, inProgress) == Some(Complete) <==>
      codes != [] && forall c :: c in codes ==> c in completed
    ensures StatusOf(codes, completed, inProgress) == Some(NotStarted) <==>
      codes != [] && forall c :: c in codes ==> c !in completed && c !in inProgress
    ensures StatusOf(codes, completed, inProgress) == Some(InProgress) <==>
      && (exists c :: c in codes && c !in completed)
      && (exists c :: c in codes && (c in completed || c in inProgress))
  {
    AllInIff(codes, completed);
    AnyInIff(codes, completed);
    AnyInIff(codes, inProgress);
  }

  /** How far along a status is. */
  function Rank(st: SectionStatus): nat {
    match st
    case NotStarted => 0
    case InProgress => 1
    case Complete => 2
  }

  /** More completed or in-progress courses never set a section back. */
  lemma StatusMonotone(codes: seq<string>, completed: set<string>, inProgress: set<string>,
                       completed': set<string>, inProgress': set<string>)
    requires codes != []
    requires completed <= completed' && inProgress <= inProgress'
    ensures Rank(Classify(codes, completed, inProgress)) <= Rank(Classify(codes, completed', inProgress'))
  {
    StatusOfSpec(codes, completed, inProgress);
    StatusOfSpec(codes, completed', inProgress');
  }

  /** The status depends on the set of codes only, not their order or repeats. */
  lemma StatusBySet(codes: seq<string>, codes': seq<string>, completed: set<string>, inProgress: set<string>)
    requires forall c :: c in codes <==> c in codes'
    ensures StatusOf(codes, completed, inProgress) == StatusOf(codes', completed, inProgress)
  {
    StatusOfSpec(codes, completed, inProgress);
    StatusOfSpec(codes', completed, inProgress);
  }

  /** `_section_status`: gathers the section's codes and classifies them. */
  method SectionStatusOf(section: RequirementSection, completed: set<string>, inProgress: set<string>)
    returns (st: Option<SectionStatus>)
    ensures st == StatusOf(SectionCodes(section.content), completed, inProgress)
  {
    var codes := GatherCodes(section.content);
    if codes == [] {
      return None;
    }
    var anyCompleted := AnyIn(codes, completed);
    var anyInProgress := AnyIn(codes, inProgress);
    var allCompleted := AllIn(codes, completed);
    if allCompleted {
      return Some(Complete);
    }
    if anyInProgress || anyCompleted {
      return Some(InProgress);
    }
    return Some(NotStarted);
  }

  // ---------------------------------------------------------------------------
  // Status list
  // ---------------------------------------------------------------------------

  /** One entry of the status list. */
  datatype StatusEntry = StatusEntry(title: string, status: SectionStatus)

  /** A section's title, or "Untitled requirement block" when it has none. */
  function TitleOf(section: RequirementSection): string {
    if section.title != "" then section.title else "Untitled requirement block"
  }

  /** The status list for `sections`, in order, skipping sections without codes. */
  function StatusList(sections: seq<RequirementSection>, completed: set<string>, inProgress: set<string>): seq<StatusEntry> {
    if sections == [] then []
    else
      var last := sections[|sections| - 1];
      StatusList(sections[..|sections| - 1], completed, inProgress)
        + (match StatusOf(SectionCodes(last.content), completed, inProgress)
           case Some(st) => [StatusEntry(TitleOf(last), st)]
           case None => [])
  }

  /** `_compute_degree_status`: nothing without a matched program, else the
      status list of its sections against the transcript's codes. */
  function DegreeStatusOf(t: Transcript, context: Option<Program>): seq<StatusEntry> {
    match context
    case None => []
    case Some(p) => StatusList(p.requirements, CodesOf(t.completed), CodesOf(t.inProgress))
  }

  /** `_compute_degree_status`. */
  method ComputeDegreeStatus(t: Transcript, context: Option<Program>) returns (statuses: seq<StatusEntry>)
    ensures statuses == DegreeStatusOf(t, context)
  {
    if context.None? {
      return [];
    }
    var requirements := context.value.requirements;
    if requirements == [] {
      return [];
    }
    var completed, inProgress := ExtractTranscriptCodes(t);
    statuses := [];
    for i := 0 to |requirements|
      invariant statuses == StatusList(requirements[..i], completed, inProgress)
    {
      assert requirements[..i + 1][..i] == requirements[..i];
      var section := requirements[i];
      var title := TitleOf(section);
      var st := SectionStatusOf(section, completed, inProgress);
      if st.None? {
        continue;
      }
      statuses := statuses + [StatusEntry(title, st.value)];
    }
    assert requirements[..|requirements|] == requirements;
  }

  /** A section names courses when some item yields a code. */
  predicate HasCodes(section: RequirementSection) {
    SectionCodes(section.content) != []
  }

  /** The entry of a section that names courses. */
  function EntryOf(section: RequirementSection, completed: set<string>, inProgress: set<string>): StatusEntry
    requires HasCodes(section)
  {
    StatusEntry(TitleOf(section), Classify(SectionCodes(section.content), completed, inProgress))
  }

  /** The status list is, entry by entry, the sections that name courses,
      in their order. */
  lemma {:induction false} StatusListSpec(sections: seq<RequirementSection>, completed: set<string>, inProgress: set<string>)
    ensures var kept := Keep(sections, HasCodes);
      && |StatusList(sections, completed, inProgress)| == |kept|
      && forall k :: 0 <= k < |kept| ==>
           HasCodes(kept[k]) && StatusList(sections, completed, inProgress)[k] == EntryOf(kept[k], completed, inProgress)
  {
    if sections != [] {
      var n := |sections| - 1;
      StatusListSpec(sections[..n], completed, inProgress);
      KeepMembers(sections[..n], HasCodes, sections[n]);
      var kept := Keep(sections[..n], HasCodes);
      assert forall k :: 0 <= k < |kept| ==> kept[k] in kept;
      forall k | 0 <= k < |kept| ensures HasCodes(kept[k]) {
        KeepMembers(sections[..n], HasCodes, kept[k]);
      }
    }
  }

  /** Sections without codes are left out and the rest keep their order. */
  lemma StatusListOrdered(sections: seq<RequirementSection>)
    ensures OrderedSublist(Keep(sections, HasCodes), sections)
    ensures forall s :: s in Keep(sections, HasCodes) <==> s in sections && HasCodes(s)
  {
    var _ := KeepOrdered(sections, HasCodes);
    forall s ensures s in Keep(sections, HasCodes) <==> s in sections && HasCodes(s) {
      KeepMembers(sections, HasCodes, s);
    }
  }
}
