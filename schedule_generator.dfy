/** Candidate selection for schedule generation: which catalog classes are
    offered to the completion oracle, how candidates are grouped per
    requirement, and how the oracle's untrusted reply is repaired into a
    conflict-free list of known class ids. */
module ScheduleGenerator {
  import opened Wrappers
  import opened Text
  import opened ScheduleTypes

  // ---------------------------------------------------------------------------
  // Required subjects and course codes
  // ---------------------------------------------------------------------------

  /** TECHNICAL_CORE_ELECTIVE_SUBJECTS: what a "VARIOUS" technical, core or
      elective requirement stands for. */
  const TechnicalCoreElectiveSubjects: set<string> :=
    {"CPSC", "CS", "ENGR", "EENG", "MATH", "PHYS", "DATA", "CSCE", "ECE", "EE"}

  /** A label naming a technical, core or elective requirement. */
  predicate TechnicalLabel(labelText: string) {
    var l := Lower(labelText);
    Contains(l, "technical") || Contains(l, "core") || Contains(l, "elective")
  }

  /** The subjects one requirement contributes: none without a subject, the
      technical set or nothing for "VARIOUS", else the upper-cased subject. */
  function SubjectsOf(r: DegreeRequirement): set<string> {
    if r.subject == "" then {}
    else if Upper(r.subject) == "VARIOUS" then
      (if TechnicalLabel(r.labelText) then TechnicalCoreElectiveSubjects else {})
    else {Upper(r.subject)}
  }

  /** The union of the subjects of all requirements. */
  function RequiredSubjects(reqs: seq<DegreeRequirement>): set<string>
    decreases |reqs|
  {
    if reqs == [] then {}
    else RequiredSubjects(reqs[..|reqs| - 1]) + SubjectsOf(reqs[|reqs| - 1])
  }

  /** A subject is required exactly when some requirement contributes it. */
  lemma {:induction false} RequiredSubjectsSpec(reqs: seq<DegreeRequirement>, s: string)
    ensures s in RequiredSubjects(reqs) <==> exists i :: 0 <= i < |reqs| && s in SubjectsOf(reqs[i])
    decreases |reqs|
  {
    if reqs != [] {
      var n := |reqs| - 1;
      RequiredSubjectsSpec(reqs[..n], s);
      assert forall i :: 0 <= i < n ==> reqs[..n][i] == reqs[i];
      if s in SubjectsOf(reqs[n]) {
        assert exists i :: 0 <= i < |reqs| && s in SubjectsOf(reqs[i]);
      }
    }
  }

  /** A "VARIOUS" requirement with a technical, core or elective label brings
      in every technical subject. */
  lemma VariousTechnicalExpands(reqs: seq<DegreeRequirement>, i: nat)
    requires i < |reqs| && Upper(reqs[i].subject) == "VARIOUS" && TechnicalLabel(reqs[i].labelText)
    ensures TechnicalCoreElectiveSubjects <= RequiredSubjects(reqs)
  {
    assert reqs[i].subject != "";
    forall s | s in TechnicalCoreElectiveSubjects ensures s in RequiredSubjects(reqs) {
      RequiredSubjectsSpec(reqs, s);
    }
  }

  /** Any other "VARIOUS" requirement contributes nothing. */
  lemma VariousOtherDropped(r: DegreeRequirement)
    requires Upper(r.subject) == "VARIOUS" && !TechnicalLabel(r.labelText)
    ensures SubjectsOf(r) == {}
  {
    assert r.subject != "";
  }

  /** "VARIOUS" is never taken literally: a required subject is a technical
      subject or some requirement's upper-cased subject. */
  lemma RequiredSubjectsShape(reqs: seq<DegreeRequirement>, s: string)
    requires s in RequiredSubjects(reqs)
    ensures s != "VARIOUS"
    ensures s in TechnicalCoreElectiveSubjects || exists i :: 0 <= i < |reqs| && s == Upper(reqs[i].subject)
  {
    var i := RequiredSubjectWitness(reqs, s);
    SubjectOfShape(reqs[i], s);
  }

  lemma SubjectOfShape(r: DegreeRequirement, s: string)
    requires s in SubjectsOf(r)
    ensures s != "VARIOUS"
    ensures s in TechnicalCoreElectiveSubjects || s == Upper(r.subject)
  {
  }

  /** The requirement a required subject comes from. */
  lemma {:induction false} RequiredSubjectWitness(reqs: seq<DegreeRequirement>, s: string) returns (i: nat)
    requires s in RequiredSubjects(reqs)
    ensures i < |reqs| && s in SubjectsOf(reqs[i])
    decreases |reqs|
  {
    var n := |reqs| - 1;
    if s in SubjectsOf(reqs[n]) {
      i := n;
    } else {
      i := RequiredSubjectWitness(reqs[..n], s);
      assert reqs[..n][i] == reqs[i];
    }
  }

  /** `_extract_required_subjects`: the loop that updates a set. */
  method ExtractRequiredSubjects(reqs: seq<DegreeRequirement>) returns (subjects: set<string>)
    ensures subjects == RequiredSubjects(reqs)
  {
    subjects := {};
    var i := 0;
    while i < |reqs|
      invariant 0 <= i <= |reqs|
      invariant subjects == RequiredSubjects(reqs[..i])
    {
      var r := reqs[i];
      assert reqs[..i + 1][..i] == reqs[..i];
      if r.subject != "" {
        var upper := Upper(r.subject);
        if upper == "VARIOUS" {
          if TechnicalLabel(r.labelText) {
            subjects := subjects + TechnicalCoreElectiveSubjects;
          }
        } else {
          subjects := subjects + {upper};
        }
      }
      i := i + 1;
    }
    assert reqs[..i] == reqs;
  }

  /** The "SUBJ NUM" code of a requirement that names both parts. */
  function RequiredCode(r: DegreeRequirement): Option<string> {
    if r.subject != "" && r.number != "" then Some(Upper(r.subject) + " " + r.number) else None
  }

  /** `_extract_required_course_codes`, as a set. */
  function RequiredCourseCodes(reqs: seq<DegreeRequirement>): set<string> {
    ValueSet(reqs, RequiredCode)
  }

  /** A code is required exactly when some requirement with both a subject
      and a number spells it. */
  lemma RequiredCourseCodesSpec(reqs: seq<DegreeRequirement>, code: string)
    ensures code in RequiredCourseCodes(reqs) <==>
      exists i :: 0 <= i < |reqs| && reqs[i].subject != "" && reqs[i].number != ""
                  && code == Upper(reqs[i].subject) + " " + reqs[i].number
  {
    ValueSetMembers(reqs, RequiredCode, code);
  }

  method ExtractRequiredCourseCodes(reqs: seq<DegreeRequirement>) returns (codes: set<string>)
    ensures codes == RequiredCourseCodes(reqs)
  {
    codes := {};
    var i := 0;
    while i < |reqs|
      invariant 0 <= i <= |reqs|
      invariant codes == ValueSet(reqs[..i], RequiredCode)
    {
      ValueSetStep(reqs, RequiredCode, i);
      var r := reqs[i];
      if r.subject != "" && r.number != "" {
        codes := codes + {Upper(r.subject) + " " + r.number};
      }
      i := i + 1;
    }
    assert reqs[..i] == reqs;
  }

  // ---------------------------------------------------------------------------
  // Course level and administrative placeholders
  // ---------------------------------------------------------------------------

  /** The digits of `s`, in order (`''.join(c for c in s if c.isdigit())`). */
  function DigitsIn(s: string): (r: string)
    ensures AllDigits(r) && |r| <= |s|
    decreases |s|
  {
    if s == [] then []
    else DigitsIn(s[..|s| - 1]) + (if IsDigit(s[|s| - 1]) then [s[|s| - 1]] else [])
  }

  /** `_is_graduate_level_course`: the number its digits spell is 500 or more;
      a number without digits is not graduate level. */
  predicate IsGraduateLevelCourse(number: string) {
    var d := DigitsIn(number);
    d != [] && DigitsValue(d) >= 500
  }

  lemma {:induction false} DigitsInAllDigits(s: string)
    requires AllDigits(s)
    ensures DigitsIn(s) == s
    decreases |s|
  {
    if s != [] {
      DigitsInAllDigits(s[..|s| - 1]);
      assert s == s[..|s| - 1] + [s[|s| - 1]];
    }
  }

  lemma {:induction false} DigitsInAppend(s: string, t: string)
    ensures DigitsIn(s + t) == DigitsIn(s) + DigitsIn(t)
    decreases |t|
  {
    if t == [] {
      assert s + t == s;
    } else {
      var n := |t| - 1;
      assert (s + t)[..|s + t| - 1] == s + t[..n];
      DigitsInAppend(s, t[..n]);
    }
  }

  /** A three-digit number with a letter suffix is read by its digits: it is
      graduate level exactly when its first digit is 5 or more. */
  lemma GraduateLevelByDigits(digits: string, suffix: string)
    requires |digits| == 3 && AllDigits(digits)
    requires forall k :: 0 <= k < |suffix| ==> !IsDigit(suffix[k])
    ensures IsGraduateLevelCourse(digits + suffix) <==> digits[0] >= '5'
  {
    DigitsInAppend(digits, suffix);
    DigitsInAllDigits(digits);
    NoDigitsIn(suffix);
    assert digits + [] == digits;
    assert digits[..3][..2] == digits[..2] && digits[..2][..1] == digits[..1] && digits[..1][..0] == [];
    assert DigitsValue(digits[..1]) == DigitValue(digits[0]);
    assert DigitsValue(digits[..2]) == DigitValue(digits[0]) * 10 + DigitValue(digits[1]);
    assert digits[..3] == digits;
    assert DigitsValue(digits) == DigitValue(digits[0]) * 100 + DigitValue(digits[1]) * 10 + DigitValue(digits[2]);
  }

  lemma {:induction false} NoDigitsIn(s: string)
    requires forall k :: 0 <= k < |s| ==> !IsDigit(s[k])
    ensures DigitsIn(s) == []
    decreases |s|
  {
    if s != [] {
      NoDigitsIn(s[..|s| - 1]);
    }
  }

  /** "510" and "501L" are graduate level, "230" and "101L" are not. */
  lemma GraduateLevelExamples()
    ensures IsGraduateLevelCourse("510") && IsGraduateLevelCourse("501L")
    ensures !IsGraduateLevelCourse("230") && !IsGraduateLevelCourse("101L")
  {
    assert "510" == "510" + [];
    GraduateLevelByDigits("510", "");
    assert "501L" == "501" + "L";
    GraduateLevelByDigits("501", "L");
    assert "230" == "230" + [];
    GraduateLevelByDigits("230", "");
    assert "101L" == "101" + "L";
    GraduateLevelByDigits("101", "L");
  }

  /** A number without digits is never graduate level. */
  lemma NoDigitsNotGraduate(number: string)
    requires forall k :: 0 <= k < |number| ==> !IsDigit(number[k])
    ensures !IsGraduateLevelCourse(number)
  {
    NoDigitsIn(number);
  }

  /** The title keywords of administrative placeholder courses. */
  const PlaceholderKeywords: seq<string> :=
    ["extended continuous enrollment", "continuous enrollment", "extended enrollment"]

  /** `_is_administrative_placeholder_course`: a placeholder keyword in the
      lower-cased title, or a number whose last character is B or b. */
  predicate IsAdministrativePlaceholder(c: SectionData) {
    (exists k :: 0 <= k < |PlaceholderKeywords| && Contains(Lower(c.title), PlaceholderKeywords[k]))
    || EndsWith(c.number, "B") || EndsWith(c.number, "b")
  }

  /** Only the last character of the number is looked at, and only for B:
      a lab suffix such as "205L" is no placeholder. */
  lemma PlaceholderSuffix(c: SectionData)
    requires c.number != []
    requires forall k :: 0 <= k < |PlaceholderKeywords| ==> !Contains(Lower(c.title), PlaceholderKeywords[k])
    ensures IsAdministrativePlaceholder(c) <==> c.number[|c.number| - 1] in {'B', 'b'}
  {
    var n := c.number;
    assert EndsWith(n, "B") <==> n[|n| - 1..] == ['B'];
    assert EndsWith(n, "b") <==> n[|n| - 1..] == ['b'];
  }

  /** "extended continuous enrollment" contains "continuous enrollment", so
      the first keyword adds nothing to the test. */
  lemma FirstKeywordRedundant(c: SectionData)
    ensures IsAdministrativePlaceholder(c) <==>
      Contains(Lower(c.title), "continuous enrollment") || Contains(Lower(c.title), "extended enrollment")
      || EndsWith(c.number, "B") || EndsWith(c.number, "b")
  {
    var t := Lower(c.title);
    if Contains(t, PlaceholderKeywords[0]) {
      var big := PlaceholderKeywords[0];
      assert big[9..] == PlaceholderKeywords[1];
      ContainsAt(big, PlaceholderKeywords[1], 9);
      ContainsTransitive(t, big, PlaceholderKeywords[1]);
    }
    if Contains(t, "continuous enrollment") {
      assert Contains(t, PlaceholderKeywords[1]);
    }
    if Contains(t, "extended enrollment") {
      assert Contains(t, PlaceholderKeywords[2]);
    }
  }

  // ---------------------------------------------------------------------------
  // Courses valid for a program
  // ---------------------------------------------------------------------------

  /** One entry of the course-to-program mapping; a missing `program` or
      `catalog_type` is "". The entry's year is never consulted. */
  datatype ProgramEntry = ProgramEntry(program: string, catalogType: string, year: string)

  /** Course code to the programs that list it. */
  type ProgramMapping = map<string, seq<ProgramEntry>>

  /** Either lower-cased name contains the other. */
  predicate NamesMatch(programName: string, entryName: string) {
    Contains(Lower(entryName), Lower(programName)) || Contains(Lower(programName), Lower(entryName))
  }

  /** An entry that admits the course for the program. */
  predicate Admits(e: ProgramEntry, programName: string, isGraduate: bool) {
    NamesMatch(programName, e.program) && (!isGraduate || e.catalogType == "graduate")
  }

  predicate SomeEntryAdmits(entries: seq<ProgramEntry>, programName: string, isGraduate: bool) {
    exists k :: 0 <= k < |entries| && Admits(entries[k], programName, isGraduate)
  }

  /** `_get_valid_courses_for_program`: nothing for an empty name; otherwise
      the codes with some admitting entry. */
  function ValidCoursesForProgram(mapping: ProgramMapping, programName: string, isGraduate: bool): set<string> {
    if programName == "" then {}
    else set code | code in mapping && SomeEntryAdmits(mapping[code], programName, isGraduate)
  }

  /** The scan of one course's entries: skip those of another catalog type,
      stop at the first admitting one. */
  method AnyEntryAdmits(entries: seq<ProgramEntry>, programName: string, isGraduate: bool) returns (ok: bool)
    ensures ok == SomeEntryAdmits(entries, programName, isGraduate)
  {
    var lowerName := Lower(programName);
    var k := 0;
    while k < |entries|
      invariant 0 <= k <= |entries|
      invariant forall j :: 0 <= j < k ==> !Admits(entries[j], programName, isGraduate)
    {
      var progName := Lower(entries[k].program);
      if Contains(progName, lowerName) || Contains(lowerName, progName) {
        if isGraduate && entries[k].catalogType != "graduate" {
          k := k + 1;
          continue;
        }
        return true;
      }
      k := k + 1;
    }
    return false;
  }

  /** The loop over the mapping's items, in whatever order they come. */
  method GetValidCoursesForProgram(mapping: ProgramMapping, programName: string, isGraduate: bool)
    returns (valid: set<string>)
    ensures valid == ValidCoursesForProgram(mapping, programName, isGraduate)
  {
    if programName == "" {
      return {};
    }
    valid := {};
    var todo := mapping.Keys;
    while todo != {}
      invariant todo <= mapping.Keys
      invariant valid == set code | code in mapping && code !in todo && SomeEntryAdmits(mapping[code], programName, isGraduate)
      decreases todo
    {
      var code :| code in todo;
      var ok := AnyEntryAdmits(mapping[code], programName, isGraduate);
      if ok {
        valid := valid + {code};
      }
      todo := todo - {code};
    }
  }

  /** Matching is case-blind and works in both directions, so an entry with
      no program name matches every program, and the catalog-type test only
      applies to graduate students. */
  lemma ProgramMatchingRules(mapping: ProgramMapping, programName: string, code: string, k: nat)
    requires programName != "" && code in mapping && k < |mapping[code]|
    requires mapping[code][k].program == ""
    ensures code in ValidCoursesForProgram(mapping, programName, false)
    ensures mapping[code][k].catalogType == "graduate" ==> code in ValidCoursesForProgram(mapping, programName, true)
  {
    ContainsAt(Lower(programName), Lower(mapping[code][k].program), 0);
    assert Admits(mapping[code][k], programName, false);
  }

  /** For a graduate student only graduate-catalog entries count. */
  lemma GraduateNeedsGraduateCatalog(mapping: ProgramMapping, programName: string, code: string)
    requires code in ValidCoursesForProgram(mapping, programName, true)
    ensures code in ValidCoursesForProgram(mapping, programName, false)
    ensures exists k :: 0 <= k < |mapping[code]| && mapping[code][k].catalogType == "graduate"
  {
    var k :| 0 <= k < |mapping[code]| && Admits(mapping[code][k], programName, true);
    assert Admits(mapping[code][k], programName, false);
  }

  // ---------------------------------------------------------------------------
  // _filter_classes_by_requirements
  // ---------------------------------------------------------------------------

  /** The code a class is compared by: "SUBJ NUM", as the catalog spells it. */
  function CourseCodeOf(c: SectionData): string {
    c.subject + " " + c.number
  }

  /** What the filter needs to know besides the classes. */
  datatype Selection = Selection(
    subjects: set<string>, codes: set<string>, programCodes: set<string>,
    completed: set<string>, isGraduate: bool)

  /** The selection computed from requirements and the program mapping. */
  function SelectionFor(reqs: seq<DegreeRequirement>, completed: set<string>, isGraduate: bool,
                        programName: string, mapping: ProgramMapping): Selection {
    Selection(RequiredSubjects(reqs), RequiredCourseCodes(reqs),
      if programName != "" then ValidCoursesForProgram(mapping, programName, isGraduate) else {},
      completed, isGraduate)
  }

  /** A class may be offered: not completed, not a placeholder, graduate
      level when the student is a graduate student. */
  predicate Eligible(c: SectionData, sel: Selection) {
    && CourseCodeOf(c) !in sel.completed
    && !IsAdministrativePlaceholder(c)
    && (!sel.isGraduate || IsGraduateLevelCourse(c.number))
  }

  /** A class is relevant to the requirements: its code is required, its
      subject is required, or the program lists its code. */
  predicate RelevantTo(c: SectionData, sel: Selection) {
    CourseCodeOf(c) in sel.codes || c.subject in sel.subjects || CourseCodeOf(c) in sel.programCodes
  }

  predicate Offered(c: SectionData, sel: Selection) {
    Eligible(c, sel) && RelevantTo(c, sel)
  }

  function Min(a: int, b: int): int { if a <= b then a else b }

  /** What `_filter_classes_by_requirements` returns: the first 100 classes
      when there are no requirements, otherwise the offered classes in
      catalog order. */
  function FilteredClasses(all: seq<ClassSection>, reqs: seq<DegreeRequirement>, sel: Selection): seq<ClassSection> {
    if reqs == [] then all[..Min(100, |all|)]
    else Keep(all, (c: ClassSection) => Offered(c.data, sel))
  }

  /** With requirements, a class is kept exactly when it is offered. */
  lemma FilteredMembers(all: seq<ClassSection>, reqs: seq<DegreeRequirement>, sel: Selection, c: ClassSection)
    requires reqs != []
    ensures c in FilteredClasses(all, reqs, sel) <==> c in all && Eligible(c.data, sel) && RelevantTo(c.data, sel)
  {
    KeepMembers(all, (c: ClassSection) => Offered(c.data, sel), c);
  }

  /** The kept classes appear in catalog order, each catalog position once. */
  lemma FilteredInCatalogOrder(all: seq<ClassSection>, reqs: seq<DegreeRequirement>, sel: Selection)
    ensures OrderedSublist(FilteredClasses(all, reqs, sel), all)
  {
    if reqs == [] {
      var n := Min(100, |all|);
      var idx := seq(n, k requires 0 <= k < n => k);
      assert PicksBelow(all[..n], all, idx, |all|);
    } else {
      var _ := KeepOrdered(all, (c: ClassSection) => Offered(c.data, sel));
    }
  }

  /** Completed codes, placeholders and, for graduate students, courses
      below 500 never get through when there are requirements. */
  lemma FilteredExclusions(all: seq<ClassSection>, reqs: seq<DegreeRequirement>, sel: Selection, c: ClassSection)
    requires reqs != [] && c in FilteredClasses(all, reqs, sel)
    ensures CourseCodeOf(c.data) !in sel.completed
    ensures !IsAdministrativePlaceholder(c.data)
    ensures sel.isGraduate ==> IsGraduateLevelCourse(c.data.number)
  {
    FilteredMembers(all, reqs, sel, c);
  }

  /** A class of a required subject is offered unless excluded: subject-only
      requirements admit every eligible class of their subject. */
  lemma RequiredSubjectOffered(all: seq<ClassSection>, reqs: seq<DegreeRequirement>, completed: set<string>,
                               isGraduate: bool, programName: string, mapping: ProgramMapping, c: ClassSection, i: nat)
    requires i < |reqs| && reqs[i].subject != "" && Upper(reqs[i].subject) != "VARIOUS"
    requires c in all && c.data.subject == Upper(reqs[i].subject)
    requires Eligible(c.data, SelectionFor(reqs, completed, isGraduate, programName, mapping))
    ensures c in FilteredClasses(all, reqs, SelectionFor(reqs, completed, isGraduate, programName, mapping))
  {
    var sel := SelectionFor(reqs, completed, isGraduate, programName, mapping);
    assert c.data.subject in SubjectsOf(reqs[i]);
    RequiredSubjectsSpec(reqs, c.data.subject);
    FilteredMembers(all, reqs, sel, c);
  }

  lemma KeepSnoc<T>(xs: seq<T>, keep: T -> bool, i: nat)
    requires i < |xs|
    ensures Keep(xs[..i + 1], keep) == Keep(xs[..i], keep) + (if keep(xs[i]) then [xs[i]] else [])
  {
    assert xs[..i + 1][..i] == xs[..i];
  }

  /** The filtering loop of `_filter_classes_by_requirements`, each test
      in the order the source makes it. */
  method SelectOffered(all: seq<ClassSection>, sel: Selection) returns (filtered: seq<ClassSection>)
    ensures filtered == Keep(all, (c: ClassSection) => Offered(c.data, sel))
  {
    filtered := [];
    var i := 0;
    while i < |all|
      invariant 0 <= i <= |all|
      invariant filtered == Keep(all[..i], (c: ClassSection) => Offered(c.data, sel))
    {
      var cls := all[i];
      KeepSnoc(all, (c: ClassSection) => Offered(c.data, sel), i);
      var code := cls.data.subject + " " + cls.data.number;
      if code in sel.completed {
      } else if IsAdministrativePlaceholder(cls.data) {
      } else if sel.isGraduate && !IsGraduateLevelCourse(cls.data.number) {
      } else if code in sel.codes {
        filtered := filtered + [cls];
      } else if cls.data.subject in sel.subjects {
        filtered := filtered + [cls];
      } else if code in sel.programCodes {
        filtered := filtered + [cls];
      }
      i := i + 1;
    }
    assert all[..i] == all;
  }

  /** `_filter_classes_by_requirements`. `completed` holds the codes of the
      completed and in-progress courses; the mapping is the course-to-program
      table. */
  method FilterClassesByRequirements(all: seq<ClassSection>, reqs: seq<DegreeRequirement>, isGraduate: bool,
                                     completed: set<string>, programName: string, mapping: ProgramMapping)
    returns (filtered: seq<ClassSection>)
    ensures filtered == FilteredClasses(all, reqs, SelectionFor(reqs, completed, isGraduate, programName, mapping))
  {
    if reqs == [] {
      return all[..Min(100, |all|)];
    }
    var subjects := ExtractRequiredSubjects(reqs);
    var codes := ExtractRequiredCourseCodes(reqs);
    var programCodes: set<string> := {};
    if programName != "" {
      programCodes := GetValidCoursesForProgram(mapping, programName, isGraduate);
    }
    filtered := SelectOffered(all, Selection(subjects, codes, programCodes, completed, isGraduate));
  }

  // ---------------------------------------------------------------------------
  // generate_schedule: candidate pool, avoided days, top-5 grouping
  // ---------------------------------------------------------------------------

  /** What the grouping reads of a class: its catalog data and its badges. */
  datatype Candidate = Candidate(data: SectionData, badges: seq<RequirementBadge>)

  /** The classes as the grouping sees them once the matcher has run. */
  function Snapshot(cs: seq<ClassSection>): (r: seq<Candidate>)
    reads set c | c in cs
    ensures |r| == |cs|
    ensures forall i :: 0 <= i < |cs| ==> r[i] == Candidate(cs[i].data, cs[i].requirementsSatisfied)
  {
    seq(|cs|, i requires 0 <= i < |cs| reads set c | c in cs => Candidate(cs[i].data, cs[i].requirementsSatisfied))
  }

  /** With requirements, the candidates are the classes that earned a badge;
      without, every class. */
  function CandidatePool(all: seq<Candidate>, hasRequirements: bool): seq<Candidate> {
    if hasRequirements then Keep(all, (c: Candidate) => c.badges != []) else all
  }

  /** No avoided day occurs in the class's day string. */
  predicate AvoidsDays(c: Candidate, daysAvoid: seq<string>) {
    forall k :: 0 <= k < |daysAvoid| ==> !Contains(c.data.displayDays, daysAvoid[k])
  }

  /** The candidates after the avoided-days filter, relaxed to the whole pool
      when nothing is left and to the first 100 classes when the pool is empty. */
  function PreferenceFiltered(all: seq<Candidate>, hasRequirements: bool, daysAvoid: seq<string>): seq<Candidate> {
    var pool := CandidatePool(all, hasRequirements);
    var kept := Keep(pool, (c: Candidate) => AvoidsDays(c, daysAvoid));
    if kept != [] then kept else if pool != [] then pool else all[..Min(100, |all|)]
  }

  lemma CandidatePoolMembers(all: seq<Candidate>, hasRequirements: bool, c: Candidate)
    ensures c in CandidatePool(all, hasRequirements) <==> c in all && (hasRequirements ==> c.badges != [])
  {
    if hasRequirements {
      KeepMembers(all, (c: Candidate) => c.badges != [], c);
    }
  }

  /** The filter never invents a class and never comes back empty from a
      non-empty catalog; when some candidate avoids every avoided day, only
      such candidates remain, all of them from the pool. */
  lemma PreferenceFilteredSpec(all: seq<Candidate>, hasRequirements: bool, daysAvoid: seq<string>)
    ensures forall c :: c in PreferenceFiltered(all, hasRequirements, daysAvoid) ==> c in all
    ensures all != [] ==> PreferenceFiltered(all, hasRequirements, daysAvoid) != []
    ensures (exists c :: c in CandidatePool(all, hasRequirements) && AvoidsDays(c, daysAvoid)) ==>
      forall c :: c in PreferenceFiltered(all, hasRequirements, daysAvoid) ==>
        AvoidsDays(c, daysAvoid) && (hasRequirements ==> c.badges != [])
  {
    var pool := CandidatePool(all, hasRequirements);
    var avoid := (c: Candidate) => AvoidsDays(c, daysAvoid);
    var kept := Keep(pool, avoid);
    forall c | c in kept ensures c in pool && AvoidsDays(c, daysAvoid) {
      KeepMembers(pool, avoid, c);
    }
    forall c | c in pool ensures c in all && (hasRequirements ==> c.badges != []) {
      CandidatePoolMembers(all, hasRequirements, c);
    }
    if c :| c in pool && AvoidsDays(c, daysAvoid) {
      KeepMembers(pool, avoid, c);
    }
  }

  /** `any(d in display_days for d in days_avoid)` */
  method HitsAvoidedDay(displayDays: string, daysAvoid: seq<string>) returns (hit: bool)
    ensures hit <==> exists k :: 0 <= k < |daysAvoid| && Contains(displayDays, daysAvoid[k])
  {
    var k := 0;
    while k < |daysAvoid|
      invariant 0 <= k <= |daysAvoid|
      invariant forall k' :: 0 <= k' < k ==> !Contains(displayDays, daysAvoid[k'])
    {
      if Contains(displayDays, daysAvoid[k]) {
        return true;
      }
      k := k + 1;
    }
    return false;
  }

  /** The avoided-days loop of `generate_schedule`. */
  method FilterAvoidedDays(pool: seq<Candidate>, daysAvoid: seq<string>) returns (kept: seq<Candidate>)
    ensures kept == Keep(pool, (c: Candidate) => AvoidsDays(c, daysAvoid))
  {
    kept := [];
    var i := 0;
    while i < |pool|
      invariant 0 <= i <= |pool|
      invariant kept == Keep(pool[..i], (c: Candidate) => AvoidsDays(c, daysAvoid))
    {
      KeepSnoc(pool, (c: Candidate) => AvoidsDays(c, daysAvoid), i);
      var hit := false;
      if daysAvoid != [] {
        hit := HitsAvoidedDay(pool[i].data.displayDays, daysAvoid);
      }
      if !hit {
        kept := kept + [pool[i]];
      }
      i := i + 1;
    }
    assert pool[..i] == pool;
  }

  /** The bucket a badge puts its class in. */
  function GroupKey(b: RequirementBadge): string {
    TypeValue(b.reqType) + "_" + b.labelText
  }

  const GeneralKey := "general"

  /** The buckets a class lands in. */
  function KeysOf(c: Candidate): set<string> {
    if c.badges == [] then {GeneralKey} else BadgeKeys(c.badges)
  }

  /** The keys of the badges `bs`. */
  function BadgeKeys(bs: seq<RequirementBadge>): set<string> {
    Image(bs, GroupKey)
  }

  /** A dict of lists: keys in insertion order and the list under each. */
  datatype Buckets = Buckets(order: seq<string>, members: map<string, seq<Candidate>>)

  /** `x` is listed under `key`. */
  predicate Holds(g: Buckets, key: string, x: Candidate) {
    key in g.members && x in g.members[key]
  }

  /** Keys listed once each, exactly the map's keys, no empty bucket. */
  ghost predicate WellFormed(g: Buckets) {
    && (forall i, j :: 0 <= i < j < |g.order| ==> g.order[i] != g.order[j])
    && (forall k :: k in g.members <==> k in g.order)
    && (forall k :: k in g.members ==> g.members[k] != [])
  }

  function AddTo(g: Buckets, key: string, c: Candidate): Buckets {
    if key in g.members then Buckets(g.order, g.members[key := g.members[key] + [c]])
    else Buckets(g.order + [key], g.members[key := [c]])
  }

  /** Appends `c` once under the key of each badge of `bs`, in order. */
  function AddUnder(g: Buckets, bs: seq<RequirementBadge>, c: Candidate): Buckets {
    if bs == [] then g else AddTo(AddUnder(g, bs[..|bs| - 1], c), GroupKey(bs[|bs| - 1]), c)
  }

  function AddCandidate(g: Buckets, c: Candidate): Buckets {
    if c.badges == [] then AddTo(g, GeneralKey, c) else AddUnder(g, c.badges, c)
  }

  /** `candidates_by_req` */
  function Grouping(cs: seq<Candidate>): Buckets {
    if cs == [] then Buckets([], map[]) else AddCandidate(Grouping(cs[..|cs| - 1]), cs[|cs| - 1])
  }

  lemma AddToSpec(g: Buckets, key: string, c: Candidate)
    requires WellFormed(g)
    ensures WellFormed(AddTo(g, key, c))
    ensures forall k, x :: Holds(AddTo(g, key, c), k, x) <==> Holds(g, k, x) || (k == key && x == c)
  {
  }

  lemma {:induction false} AddUnderSpec(g: Buckets, bs: seq<RequirementBadge>, c: Candidate)
    requires WellFormed(g)
    ensures WellFormed(AddUnder(g, bs, c))
    ensures forall k, x :: Holds(AddUnder(g, bs, c), k, x) <==>
      Holds(g, k, x) || (x == c && k in BadgeKeys(bs))
  {
    if bs != [] {
      var n := |bs| - 1;
      AddUnderSpec(g, bs[..n], c);
      AddToSpec(AddUnder(g, bs[..n], c), GroupKey(bs[n]), c);
    }
  }

  lemma AddCandidateSpec(g: Buckets, c: Candidate)
    requires WellFormed(g)
    ensures WellFormed(AddCandidate(g, c))
    ensures forall k, x :: Holds(AddCandidate(g, c), k, x) <==> Holds(g, k, x) || (x == c && k in KeysOf(c))
  {
    if c.badges == [] {
      AddToSpec(g, GeneralKey, c);
    } else {
      AddUnderSpec(g, c.badges, c);
    }
  }

  /** Every candidate is listed under each of its keys and under nothing
      else; keys are listed once, in first-insertion order, and no bucket
      is empty. */
  lemma {:induction false} GroupingSpec(cs: seq<Candidate>)
    ensures WellFormed(Grouping(cs))
    ensures forall k, x :: Holds(Grouping(cs), k, x) <==> x in cs && k in KeysOf(x)
  {
    if cs != [] {
      var n := |cs| - 1;
      GroupingSpec(cs[..n]);
      AddCandidateSpec(Grouping(cs[..n]), cs[n]);
      assert cs == cs[..n] + [cs[n]];
    }
  }

  lemma {:induction false} BadgeKeysSpec(bs: seq<RequirementBadge>, k: string)
    ensures k in BadgeKeys(bs) <==> exists i :: 0 <= i < |bs| && GroupKey(bs[i]) == k
  {
    ImageMembers(bs, GroupKey, k);
  }

  /** A requirement key always holds an underscore, so no badge ever lands
      in the general bucket. */
  lemma GeneralKeyIsNoBadgeKey(b: RequirementBadge)
    ensures GroupKey(b) != GeneralKey
  {
    var k := GroupKey(b);
    assert k[|TypeValue(b.reqType)|] == '_';
    assert '_' in k;
    assert '_' !in GeneralKey;
  }

  /** One append to `candidates_by_req`: create the list when the key is new, then append. */
  method AppendToBucket(g: Buckets, key: string, c: Candidate) returns (h: Buckets)
    ensures h == AddTo(g, key, c)
  {
    h := g;
    if key !in h.members {
      h := Buckets(h.order + [key], h.members[key := []]);
    }
    h := Buckets(h.order, h.members[key := h.members[key] + [c]]);
    assert [] + [c] == [c];
  }

  /** The inner loop: `c` appended under the key of each of its badges. */
  method AppendUnderBadges(g: Buckets, c: Candidate) returns (h: Buckets)
    ensures h == AddUnder(g, c.badges, c)
  {
    var j := 0;
    h := g;
    while j < |c.badges|
      invariant 0 <= j <= |c.badges|
      invariant h == AddUnder(g, c.badges[..j], c)
    {
      assert c.badges[..j + 1] == c.badges[..j] + [c.badges[j]];
      h := AppendToBucket(h, GroupKey(c.badges[j]), c);
      j := j + 1;
    }
    assert c.badges[..j] == c.badges;
  }

  /** The grouping loop of `generate_schedule`. */
  method GroupCandidates(cs: seq<Candidate>) returns (g: Buckets)
    ensures g == Grouping(cs)
  {
    g := Buckets([], map[]);
    var i := 0;
    while i < |cs|
      invariant 0 <= i <= |cs|
      invariant g == Grouping(cs[..i])
    {
      var cls := cs[i];
      assert cs[..i + 1] == cs[..i] + [cls];
      if cls.badges != [] {
        g := AppendUnderBadges(g, cls);
      } else {
        g := AppendToBucket(g, GeneralKey, cls);
      }
      i := i + 1;
    }
    assert cs[..i] == cs;
  }

  /** `c.professor_rating or 0` */
  function Rating(c: Candidate): real {
    c.data.professorRating.GetOr(0.0)
  }

  ghost predicate HighestRatedFirst(s: seq<Candidate>) {
    forall i, j :: 0 <= i < j < |s| ==> Rating(s[i]) >= Rating(s[j])
  }

  /** Places `x` after every entry rated at least as high: later entries
      of equal rating stay behind earlier ones, as in a stable sort. */
  function InsertByRating(x: Candidate, s: seq<Candidate>): (r: seq<Candidate>)
    ensures |r| == |s| + 1
  {
    if s == [] then [x]
    else if Rating(s[0]) >= Rating(x) then [s[0]] + InsertByRating(x, s[1..])
    else [x] + s
  }

  /** `sorted(classes, key=rating, reverse=True)` */
  function SortByRating(xs: seq<Candidate>): (r: seq<Candidate>)
    ensures |r| == |xs|
  {
    if xs == [] then [] else InsertByRating(xs[|xs| - 1], SortByRating(xs[..|xs| - 1]))
  }

  lemma {:induction false} InsertByRatingMembers(x: Candidate, s: seq<Candidate>)
    ensures forall y :: y in InsertByRating(x, s) <==> y == x || y in s
  {
    if s != [] && Rating(s[0]) >= Rating(x) {
      InsertByRatingMembers(x, s[1..]);
      assert s == [s[0]] + s[1..];
    }
  }

  lemma {:induction false} InsertByRatingPermutes(x: Candidate, s: seq<Candidate>)
    ensures multiset(InsertByRating(x, s)) == multiset(s) + multiset{x}
  {
    if s != [] && Rating(s[0]) >= Rating(x) {
      InsertByRatingPermutes(x, s[1..]);
      assert s == [s[0]] + s[1..];
    }
  }

  lemma {:induction false} InsertByRatingSorted(x: Candidate, s: seq<Candidate>)
    requires HighestRatedFirst(s)
    ensures HighestRatedFirst(InsertByRating(x, s))
  {
    if s != [] && Rating(s[0]) >= Rating(x) {
      var rest := InsertByRating(x, s[1..]);
      InsertByRatingSorted(x, s[1..]);
      InsertByRatingMembers(x, s[1..]);
      var r := [s[0]] + rest;
      forall i, j | 0 <= i < j < |r| ensures Rating(r[i]) >= Rating(r[j]) {
        if i == 0 {
          assert r[j] == rest[j - 1] && rest[j - 1] in rest;
        } else {
          assert r[i] == rest[i - 1] && r[j] == rest[j - 1];
        }
      }
    }
  }

  lemma InsertByRatingSpec(x: Candidate, s: seq<Candidate>)
    requires HighestRatedFirst(s)
    ensures HighestRatedFirst(InsertByRating(x, s))
    ensures multiset(InsertByRating(x, s)) == multiset(s) + multiset{x}
  {
    InsertByRatingSorted(x, s);
    InsertByRatingPermutes(x, s);
  }

  /** The sort puts the highest rating first. */
  lemma {:induction false} SortByRatingSorted(xs: seq<Candidate>)
    ensures HighestRatedFirst(SortByRating(xs))
  {
    if xs != [] {
      var n := |xs| - 1;
      SortByRatingSorted(xs[..n]);
      InsertByRatingSorted(xs[n], SortByRating(xs[..n]));
    }
  }

  lemma {:induction false} SortByRatingPermutes(xs: seq<Candidate>)
    ensures multiset(SortByRating(xs)) == multiset(xs)
  {
    if xs != [] {
      var n := |xs| - 1;
      var s := SortByRating(xs[..n]);
      SortByRatingPermutes(xs[..n]);
      InsertByRatingPermutes(xs[n], s);
      CandidatesSnoc(xs);
      assert SortByRating(xs) == InsertByRating(xs[n], s);
    }
  }

  lemma CandidatesSnoc(xs: seq<Candidate>)
    requires xs != []
    ensures multiset(xs) == multiset(xs[..|xs| - 1]) + multiset{xs[|xs| - 1]}
  {
    assert xs == xs[..|xs| - 1] + [xs[|xs| - 1]];
  }

  /** The sort puts the highest rating first and keeps every class. */
  lemma SortByRatingSpec(xs: seq<Candidate>)
    ensures HighestRatedFirst(SortByRating(xs))
    ensures multiset(SortByRating(xs)) == multiset(xs)
  {
    SortByRatingSorted(xs);
    SortByRatingPermutes(xs);
  }

  /** `sorted_classes[:5]` */
  function TopRated(xs: seq<Candidate>): seq<Candidate> {
    var s := SortByRating(xs);
    s[..Min(5, |s|)]
  }

  /** At most five classes, each from the bucket, and every class of the
      bucket left out rates no higher than any class picked. */
  lemma TopRatedSpec(xs: seq<Candidate>)
    ensures |TopRated(xs)| == Min(5, |xs|)
    ensures forall x :: x in TopRated(xs) ==> x in xs
    ensures forall y :: y in xs ==> y in TopRated(xs) || forall x :: x in TopRated(xs) ==> Rating(x) >= Rating(y)
  {
    var s := SortByRating(xs);
    SortByRatingSpec(xs);
    var top := TopRated(xs);
    forall x | x in top ensures x in xs {
      assert x in multiset(s);
    }
    forall y | y in xs ensures y in top || forall x :: x in top ==> Rating(x) >= Rating(y) {
      assert y in multiset(xs);
      var j :| 0 <= j < |s| && s[j] == y;
      if j >= |top| {
        forall x | x in top ensures Rating(x) >= Rating(y) {
          var i :| 0 <= i < |top| && top[i] == x;
        }
      }
    }
  }

  /** The picks of the buckets among `keys`, in key order. */
  function Picks(g: Buckets, keys: seq<string>): seq<Candidate> {
    ConcatMap(keys, BucketPicks(g))
  }

  /** The top five of the bucket under a key. */
  function BucketPicks(g: Buckets): string -> seq<Candidate> {
    k => if k in g.members then TopRated(g.members[k]) else []
  }

  function Ids(xs: seq<Candidate>): set<string> {
    set x | x in xs :: x.data.id
  }

  /** `final_candidates`: the first class seen under each id, in insertion order. */
  function FirstPerId(xs: seq<Candidate>): seq<Candidate> {
    if xs == [] then []
    else
      var d := FirstPerId(xs[..|xs| - 1]);
      if xs[|xs| - 1].data.id in Ids(d) then d else d + [xs[|xs| - 1]]
  }

  lemma IdsSnoc(xs: seq<Candidate>, x: Candidate)
    ensures Ids(xs + [x]) == Ids(xs) + {x.data.id}
  {
    forall id | id in Ids(xs + [x]) ensures id in Ids(xs) + {x.data.id} {
      var y :| y in xs + [x] && y.data.id == id;
    }
  }

  lemma {:induction false} FirstPerIdSpec(xs: seq<Candidate>)
    ensures forall x :: x in FirstPerId(xs) ==> x in xs
    ensures Ids(FirstPerId(xs)) == Ids(xs)
    ensures forall i, j :: 0 <= i < j < |FirstPerId(xs)| ==> FirstPerId(xs)[i].data.id != FirstPerId(xs)[j].data.id
  {
    if xs != [] {
      var n := |xs| - 1;
      FirstPerIdSpec(xs[..n]);
      assert xs == xs[..n] + [xs[n]];
      IdsSnoc(xs[..n], xs[n]);
      var d := FirstPerId(xs[..n]);
      if xs[n].data.id !in Ids(d) {
        IdsSnoc(d, xs[n]);
        forall i | 0 <= i < |d| ensures d[i].data.id != xs[n].data.id {
          assert d[i] in d;
        }
      }
    }
  }

  /** The candidate list of `generate_schedule`: top five per bucket, first
      class per id, or the first 50 filtered classes when that is empty. */
  function CandidateList(all: seq<Candidate>, hasRequirements: bool, daysAvoid: seq<string>): seq<Candidate> {
    var filtered := PreferenceFiltered(all, hasRequirements, daysAvoid);
    var g := Grouping(filtered);
    var list := FirstPerId(Picks(g, g.order));
    if list != [] then list else filtered[..Min(50, |filtered|)]
  }

  lemma {:induction false} PicksMembers(g: Buckets, keys: seq<string>, x: Candidate)
    ensures x in Picks(g, keys) <==> exists i :: 0 <= i < |keys| && keys[i] in g.members && x in TopRated(g.members[keys[i]])
  {
    ConcatMapMembers(keys, BucketPicks(g), x);
  }

  /** A non-empty bucket always gives a pick. */
  lemma PicksNonEmpty(g: Buckets, keys: seq<string>, i: nat)
    requires i < |keys| && keys[i] in g.members && g.members[keys[i]] != []
    ensures Picks(g, keys) != []
  {
    var x := g.members[keys[i]][0];
    TopRatedSpec(g.members[keys[i]]);
    var top := TopRated(g.members[keys[i]]);
    assert top[0] in top;
    PicksMembers(g, keys, top[0]);
  }

  lemma KeyOf(c: Candidate) returns (k: string)
    ensures k in KeysOf(c)
  {
    if c.badges == [] {
      k := GeneralKey;
    } else {
      k := GroupKey(c.badges[|c.badges| - 1]);
    }
  }

  /** The bucket a pick comes from. */
  lemma PickSource(g: Buckets, x: Candidate) returns (k: string)
    requires x in Picks(g, g.order)
    ensures k in g.members && x in TopRated(g.members[k])
  {
    PicksMembers(g, g.order, x);
    var j :| 0 <= j < |g.order| && g.order[j] in g.members && x in TopRated(g.members[g.order[j]]);
    k := g.order[j];
  }

  /** Grouping and picking a non-empty list of classes gives a non-empty
      list with unique ids, each a top-five pick of a bucket it is listed in. */
  lemma GroupPicksSpec(filtered: seq<Candidate>)
    requires filtered != []
    ensures var g := Grouping(filtered); var list := FirstPerId(Picks(g, g.order));
      && list != []
      && (forall i, j :: 0 <= i < j < |list| ==> list[i].data.id != list[j].data.id)
      && (forall x :: x in list ==> x in filtered && exists k :: Holds(g, k, x) && x in TopRated(g.members[k]))
  {
    var g := Grouping(filtered);
    GroupingSpec(filtered);
    var picks := Picks(g, g.order);
    FirstPerIdSpec(picks);
    var k := KeyOf(filtered[0]);
    assert Holds(g, k, filtered[0]);
    var i :| 0 <= i < |g.order| && g.order[i] == k;
    PicksNonEmpty(g, g.order, i);
    assert picks[0] in picks;
    assert picks[0].data.id in Ids(picks);
    forall x | x in FirstPerId(picks) ensures x in filtered && exists k :: Holds(g, k, x) && x in TopRated(g.members[k]) {
      var k := PickSource(g, x);
      TopRatedSpec(g.members[k]);
      assert Holds(g, k, x);
    }
  }

  /** The candidate list is never empty for a non-empty catalog; ids are
      unique; every class in it comes from the catalog, was listed under
      some bucket and is among that bucket's five highest rated. */
  lemma CandidateListSpec(all: seq<Candidate>, hasRequirements: bool, daysAvoid: seq<string>)
    requires all != []
    ensures var list := CandidateList(all, hasRequirements, daysAvoid);
      var g := Grouping(PreferenceFiltered(all, hasRequirements, daysAvoid));
      && list != []
      && (forall i, j :: 0 <= i < j < |list| ==> list[i].data.id != list[j].data.id)
      && (forall x :: x in list ==> x in all && exists k :: Holds(g, k, x) && x in TopRated(g.members[k]))
  {
    var filtered := PreferenceFiltered(all, hasRequirements, daysAvoid);
    PreferenceFilteredSpec(all, hasRequirements, daysAvoid);
    GroupPicksSpec(filtered);
  }

  lemma FirstPerIdSnoc(xs: seq<Candidate>, x: Candidate)
    ensures FirstPerId(xs + [x]) == if x.data.id in Ids(FirstPerId(xs)) then FirstPerId(xs) else FirstPerId(xs) + [x]
  {
    assert (xs + [x])[..|xs|] == xs;
  }

  lemma PicksSnoc(g: Buckets, keys: seq<string>, i: nat)
    requires i < |keys| && keys[i] in g.members
    ensures Picks(g, keys[..i + 1]) == Picks(g, keys[..i]) + TopRated(g.members[keys[i]])
  {
    ConcatMapSnoc(keys, BucketPicks(g), i);
  }

  lemma FirstPerIdPrefixStep(base: seq<Candidate>, selected: seq<Candidate>, j: nat)
    requires j < |selected|
    ensures var xs := FirstPerId(base + selected[..j]);
      FirstPerId(base + selected[..j + 1]) == if selected[j].data.id in Ids(xs) then xs else xs + [selected[j]]
  {
    assert base + selected[..j + 1] == (base + selected[..j]) + [selected[j]];
    FirstPerIdSnoc(base + selected[..j], selected[j]);
  }

  /** The inner loop: each pick whose id is new goes into `final_candidates`. */
  method AddNewIds(list: seq<Candidate>, seen: set<string>, ghost base: seq<Candidate>, selected: seq<Candidate>)
    returns (list': seq<Candidate>, seen': set<string>)
    requires list == FirstPerId(base) && seen == Ids(list)
    ensures list' == FirstPerId(base + selected) && seen' == Ids(list')
  {
    list', seen' := list, seen;
    var j := 0;
    assert base + selected[..0] == base;
    while j < |selected|
      invariant 0 <= j <= |selected|
      invariant list' == FirstPerId(base + selected[..j]) && seen' == Ids(list')
    {
      var c := selected[j];
      FirstPerIdPrefixStep(base, selected, j);
      if c.data.id !in seen' {
        IdsSnoc(list', c);
        list' := list' + [c];
        seen' := seen' + {c.data.id};
      }
      j := j + 1;
    }
    assert selected[..j] == selected;
  }

  /** The loop filling `final_candidates` from each bucket's top five. */
  method PickCandidates(g: Buckets) returns (list: seq<Candidate>)
    requires forall k :: k in g.order ==> k in g.members
    ensures list == FirstPerId(Picks(g, g.order))
  {
    list := [];
    var seen: set<string> := {};
    var i := 0;
    while i < |g.order|
      invariant 0 <= i <= |g.order|
      invariant list == FirstPerId(Picks(g, g.order[..i])) && seen == Ids(list)
    {
      var key := g.order[i];
      PicksSnoc(g, g.order, i);
      list, seen := AddNewIds(list, seen, Picks(g, g.order[..i]), TopRated(g.members[key]));
      i := i + 1;
    }
    assert g.order[..i] == g.order;
  }

  /** Steps 2 and 3 of `generate_schedule` on the classes as the grouping sees them. */
  method ChooseCandidates(all: seq<Candidate>, hasRequirements: bool, daysAvoid: seq<string>)
    returns (list: seq<Candidate>)
    ensures list == CandidateList(all, hasRequirements, daysAvoid)
  {
    var pool := CandidatePool(all, hasRequirements);
    var filtered := FilterAvoidedDays(pool, daysAvoid);
    if filtered == [] {
      filtered := pool;
    }
    if filtered == [] {
      filtered := all[..Min(100, |all|)];
    }
    assert filtered == PreferenceFiltered(all, hasRequirements, daysAvoid);
    var g := GroupCandidates(filtered);
    GroupingSpec(filtered);
    list := PickCandidates(g);
    if list == [] {
      list := filtered[..Min(50, |filtered|)];
    }
  }

  /** The same on catalog objects whose badges the matcher has already set. */
  method SelectCandidates(all: seq<ClassSection>, hasRequirements: bool, daysAvoid: seq<string>)
    returns (list: seq<Candidate>)
    ensures list == CandidateList(Snapshot(all), hasRequirements, daysAvoid)
  {
    list := ChooseCandidates(Snapshot(all), hasRequirements, daysAvoid);
  }

  // ---------------------------------------------------------------------------
  // _remove_conflicts
  // ---------------------------------------------------------------------------

  /** `{c.id: c for c in all_classes}`: a later class with the same id wins. */
  function ClassMap(all: seq<ClassSection>): map<string, SectionData> {
    if all == [] then map[]
    else ClassMap(all[..|all| - 1])[all[|all| - 1].data.id := all[|all| - 1].data]
  }

  /** `{c.id for c in all_classes}` */
  function CatalogIds(all: seq<ClassSection>): set<string> {
    set c | c in all :: c.data.id
  }

  /** The map knows exactly the catalog's ids, each bound to a class carrying that id. */
  lemma {:induction false} ClassMapSpec(all: seq<ClassSection>)
    ensures ClassMap(all).Keys == CatalogIds(all)
    ensures forall id :: id in ClassMap(all) ==> ClassMap(all)[id].id == id
  {
    if all != [] {
      var n := |all| - 1;
      ClassMapSpec(all[..n]);
      assert all == all[..n] + [all[n]];
      assert CatalogIds(all) == CatalogIds(all[..n]) + {all[n].data.id};
    }
  }

  /** The classes kept so far, and their ids. */
  datatype Kept = Kept(ids: seq<string>, sections: seq<SectionData>)

  predicate ClashesWithAny(x: SectionData, selected: seq<SectionData>, clash: (SectionData, SectionData) -> bool) {
    exists j :: 0 <= j < |selected| && clash(x, selected[j])
  }

  /** First wins: a known id is kept unless its class clashes with one kept before. */
  function Greedy(ids: seq<string>, m: map<string, SectionData>, clash: (SectionData, SectionData) -> bool): Kept {
    if ids == [] then Kept([], [])
    else
      var k := Greedy(ids[..|ids| - 1], m, clash);
      var cid := ids[|ids| - 1];
      if cid !in m || ClashesWithAny(m[cid], k.sections, clash) then k
      else Kept(k.ids + [cid], k.sections + [m[cid]])
  }

  lemma ClashesExtend(x: SectionData, selected: seq<SectionData>, y: SectionData, clash: (SectionData, SectionData) -> bool)
    requires ClashesWithAny(x, selected, clash)
    ensures ClashesWithAny(x, selected + [y], clash)
  {
    var j :| 0 <= j < |selected| && clash(x, selected[j]);
    assert (selected + [y])[j] == selected[j];
  }

  /** Each kept id is known and stands beside its class. */
  lemma {:induction false} GreedyShape(ids: seq<string>, m: map<string, SectionData>, clash: (SectionData, SectionData) -> bool)
    ensures var k := Greedy(ids, m, clash);
      && |k.ids| == |k.sections|
      && (forall i :: 0 <= i < |k.ids| ==> k.ids[i] in m && k.sections[i] == m[k.ids[i]])
  {
    if ids != [] {
      GreedyShape(ids[..|ids| - 1], m, clash);
    }
  }

  /** No class of `s` clashes with one before it. */
  ghost predicate ClashFree(s: seq<SectionData>, clash: (SectionData, SectionData) -> bool) {
    forall i, j :: 0 <= i < j < |s| ==> !clash(s[j], s[i])
  }

  lemma ClashFreeSnoc(s: seq<SectionData>, x: SectionData, clash: (SectionData, SectionData) -> bool)
    requires ClashFree(s, clash) && !ClashesWithAny(x, s, clash)
    ensures ClashFree(s + [x], clash)
  {
    var s' := s + [x];
    forall i, j | 0 <= i < j < |s'| ensures !clash(s'[j], s'[i]) {
      assert s'[i] == s[i];
      if j == |s| {
        assert !clash(x, s[i]);
      } else {
        assert s'[j] == s[j];
      }
    }
  }

  /** No kept class clashes with one kept before it. */
  lemma {:induction false} GreedyClashFree(ids: seq<string>, m: map<string, SectionData>, clash: (SectionData, SectionData) -> bool)
    ensures ClashFree(Greedy(ids, m, clash).sections, clash)
  {
    if ids != [] {
      var n := |ids| - 1;
      GreedyClashFree(ids[..n], m, clash);
      var k := Greedy(ids[..n], m, clash);
      var cid := ids[n];
      if !(cid !in m || ClashesWithAny(m[cid], k.sections, clash)) {
        ClashFreeSnoc(k.sections, m[cid], clash);
      }
    }
  }

  /** The kept ids are listed in input order. */
  lemma {:induction false} GreedyInOrder(ids: seq<string>, m: map<string, SectionData>, clash: (SectionData, SectionData) -> bool)
    returns (idx: seq<nat>)
    ensures PicksBelow(Greedy(ids, m, clash).ids, ids, idx, |ids|)
  {
    if ids == [] {
      idx := [];
    } else {
      var n := |ids| - 1;
      var prev := GreedyInOrder(ids[..n], m, clash);
      var k := Greedy(ids[..n], m, clash);
      assert forall p :: 0 <= p < n ==> ids[..n][p] == ids[p];
      if ids[n] !in m || ClashesWithAny(m[ids[n]], k.sections, clash) {
        idx := prev;
      } else {
        idx := prev + [n];
      }
    }
  }

  /** Every known id at a position outside `idx` clashes with a class of
      `sections` kept from an earlier position. */
  ghost predicate EarlierClash(ids: seq<string>, m: map<string, SectionData>, clash: (SectionData, SectionData) -> bool,
                               idx: seq<nat>, sections: seq<SectionData>) {
    forall p :: 0 <= p < |ids| && ids[p] in m && p !in idx ==>
      exists q :: 0 <= q < |idx| && idx[q] < p && q < |sections| && clash(m[ids[p]], sections[q])
  }

  lemma EarlierClashDrop(ids: seq<string>, m: map<string, SectionData>, clash: (SectionData, SectionData) -> bool,
                         idx: seq<nat>, sections: seq<SectionData>)
    requires ids != [] && |idx| == |sections|
    requires forall q :: 0 <= q < |idx| ==> idx[q] < |ids| - 1
    requires EarlierClash(ids[..|ids| - 1], m, clash, idx, sections)
    requires ids[|ids| - 1] in m ==> ClashesWithAny(m[ids[|ids| - 1]], sections, clash)
    ensures EarlierClash(ids, m, clash, idx, sections)
  {
    var n := |ids| - 1;
    forall p | 0 <= p < |ids| && ids[p] in m && p !in idx
      ensures exists q :: 0 <= q < |idx| && idx[q] < p && q < |sections| && clash(m[ids[p]], sections[q])
    {
      if p == n {
        var j :| 0 <= j < |sections| && clash(m[ids[n]], sections[j]);
        assert idx[j] < p;
      } else {
        assert ids[..n][p] == ids[p];
      }
    }
  }

  lemma EarlierClashKeep(ids: seq<string>, m: map<string, SectionData>, clash: (SectionData, SectionData) -> bool,
                         idx: seq<nat>, sections: seq<SectionData>, x: SectionData)
    requires ids != []
    requires EarlierClash(ids[..|ids| - 1], m, clash, idx, sections)
    ensures EarlierClash(ids, m, clash, idx + [|ids| - 1], sections + [x])
  {
    var n := |ids| - 1;
    var idx', sections' := idx + [n], sections + [x];
    forall p | 0 <= p < |ids| && ids[p] in m && p !in idx'
      ensures exists q :: 0 <= q < |idx'| && idx'[q] < p && q < |sections'| && clash(m[ids[p]], sections'[q])
    {
      assert p < n && p !in idx && ids[..n][p] == ids[p];
      var q :| 0 <= q < |idx| && idx[q] < p && q < |sections| && clash(m[ids[p]], sections[q]);
      assert idx'[q] == idx[q] && sections'[q] == sections[q];
    }
  }

  /** First wins: `idx` gives the input position of every kept id, and each
      known id at a position not kept clashes with a class kept from an
      earlier position. */
  lemma {:induction false} GreedyDropped(ids: seq<string>, m: map<string, SectionData>, clash: (SectionData, SectionData) -> bool)
    returns (idx: seq<nat>)
    ensures PicksBelow(Greedy(ids, m, clash).ids, ids, idx, |ids|)
    ensures EarlierClash(ids, m, clash, idx, Greedy(ids, m, clash).sections)
  {
    if ids == [] {
      idx := [];
    } else {
      var n := |ids| - 1;
      var prev := GreedyDropped(ids[..n], m, clash);
      var k := Greedy(ids[..n], m, clash);
      GreedyShape(ids[..n], m, clash);
      var cid := ids[n];
      assert forall p :: 0 <= p < n ==> ids[..n][p] == ids[p];
      if cid !in m || ClashesWithAny(m[cid], k.sections, clash) {
        assert Greedy(ids, m, clash) == k;
        idx := prev;
        EarlierClashDrop(ids, m, clash, idx, k.sections);
      } else {
        assert Greedy(ids, m, clash) == Kept(k.ids + [cid], k.sections + [m[cid]]);
        idx := prev + [n];
        EarlierClashKeep(ids, m, clash, prev, k.sections, m[cid]);
      }
    }
  }

  /** Dropping the last kept entry from a selection of `ids` gives a
      selection of `ids` without its last position that still meets the
      first-wins conditions. */
  lemma EarlierClashInit(ids: seq<string>, m: map<string, SectionData>, clash: (SectionData, SectionData) -> bool,
                         r: seq<string>, idx: seq<nat>, sections: seq<SectionData>)
    requires ids != [] && PicksBelow(r, ids, idx, |ids|) && |sections| == |r|
    requires EarlierClash(ids, m, clash, idx, sections)
    ensures var n := |ids| - 1; var c := if idx != [] && idx[|idx| - 1] == n then |idx| - 1 else |idx|;
      && PicksBelow(r[..c], ids[..n], idx[..c], n)
      && EarlierClash(ids[..n], m, clash, idx[..c], sections[..c])
  {
    var n := |ids| - 1;
    var c := if idx != [] && idx[|idx| - 1] == n then |idx| - 1 else |idx|;
    forall p | 0 <= p < n && ids[..n][p] in m && p !in idx[..c]
      ensures exists q :: 0 <= q < c && idx[..c][q] < p && q < c && clash(m[ids[..n][p]], sections[..c][q])
    {
      assert ids[..n][p] == ids[p];
      var q :| 0 <= q < |idx| && idx[q] < p && q < |sections| && clash(m[ids[p]], sections[q]);
      assert q < c;
      assert idx[..c][q] == idx[q] && sections[..c][q] == sections[q];
    }
  }

  /** A known last id that clashes with nothing kept before it is kept. */
  lemma GreedyKeepsLast(ids: seq<string>, m: map<string, SectionData>, clash: (SectionData, SectionData) -> bool,
                        r: seq<string>, sections: seq<SectionData>)
    requires ids != [] && r != [] && |sections| == |r|
    requires r[|r| - 1] == ids[|ids| - 1] && ids[|ids| - 1] in m && sections[|r| - 1] == m[ids[|ids| - 1]]
    requires ClashFree(sections, clash)
    requires Greedy(ids[..|ids| - 1], m, clash) == Kept(r[..|r| - 1], sections[..|r| - 1])
    ensures Greedy(ids, m, clash) == Kept(r, sections)
  {
    var c := |r| - 1;
    var x := m[ids[|ids| - 1]];
    forall j | 0 <= j < c
      ensures !clash(x, sections[..c][j])
    {
      assert sections[..c][j] == sections[j];
    }
    assert !ClashesWithAny(x, sections[..c], clash);
    assert Greedy(ids, m, clash) == Kept(r[..c] + [r[c]], sections[..c] + [x]);
    assert r[..c] + [r[c]] == r && sections[..c] + [x] == sections;
  }

  /** A last id that is unknown, or clashes with a kept class, is dropped. */
  lemma GreedyDropsLast(ids: seq<string>, m: map<string, SectionData>, clash: (SectionData, SectionData) -> bool,
                        r: seq<string>, sections: seq<SectionData>, q: int)
    requires ids != [] && Greedy(ids[..|ids| - 1], m, clash) == Kept(r, sections)
    requires ids[|ids| - 1] in m ==> 0 <= q < |sections| && clash(m[ids[|ids| - 1]], sections[q])
    ensures Greedy(ids, m, clash) == Kept(r, sections)
  {
  }

  /** The selection without its entry for the last position meets the
      conditions of `GreedyUnique` on all ids but the last. */
  lemma UniquePrefix(ids: seq<string>, m: map<string, SectionData>, clash: (SectionData, SectionData) -> bool,
                     r: seq<string>, idx: seq<nat>, sections: seq<SectionData>)
    requires ids != [] && PicksBelow(r, ids, idx, |ids|)
    requires |sections| == |r| && forall q :: 0 <= q < |r| ==> r[q] in m && sections[q] == m[r[q]]
    requires ClashFree(sections, clash)
    requires EarlierClash(ids, m, clash, idx, sections)
    ensures var n := |ids| - 1; var c := if idx != [] && idx[|idx| - 1] == n then |idx| - 1 else |idx|;
      && PicksBelow(r[..c], ids[..n], idx[..c], n)
      && (forall q :: 0 <= q < c ==> r[..c][q] in m && sections[..c][q] == m[r[..c][q]])
      && ClashFree(sections[..c], clash)
      && EarlierClash(ids[..n], m, clash, idx[..c], sections[..c])
  {
    EarlierClashInit(ids, m, clash, r, idx, sections);
  }

  /** When the last position is not in the selection, a known id there
      clashes with a kept class. */
  lemma LastLeftOutClashes(ids: seq<string>, m: map<string, SectionData>, clash: (SectionData, SectionData) -> bool,
                           r: seq<string>, idx: seq<nat>, sections: seq<SectionData>)
    returns (q: int)
    requires ids != [] && PicksBelow(r, ids, idx, |ids|) && |sections| == |r|
    requires !(idx != [] && idx[|idx| - 1] == |ids| - 1)
    requires EarlierClash(ids, m, clash, idx, sections)
    ensures ids[|ids| - 1] in m ==> 0 <= q < |sections| && clash(m[ids[|ids| - 1]], sections[q])
  {
    q := 0;
    var n := |ids| - 1;
    if ids[n] in m {
      assert n !in idx;
      q :| 0 <= q < |idx| && idx[q] < n && q < |sections| && clash(m[ids[n]], sections[q]);
    }
  }

  /** The first-wins conditions pin the selection down: an ordered,
      clash-free selection of known ids in which every known id left out
      clashes with one kept from an earlier position is the greedy one. */
  lemma {:induction false} GreedyUnique(ids: seq<string>, m: map<string, SectionData>, clash: (SectionData, SectionData) -> bool,
                                        r: seq<string>, idx: seq<nat>, sections: seq<SectionData>)
    requires PicksBelow(r, ids, idx, |ids|)
    requires |sections| == |r| && forall q :: 0 <= q < |r| ==> r[q] in m && sections[q] == m[r[q]]
    requires ClashFree(sections, clash)
    requires EarlierClash(ids, m, clash, idx, sections)
    ensures Greedy(ids, m, clash) == Kept(r, sections)
  {
    if ids == [] {
      assert idx == [];
    } else {
      var n := |ids| - 1;
      var c := if idx != [] && idx[|idx| - 1] == n then |idx| - 1 else |idx|;
      UniquePrefix(ids, m, clash, r, idx, sections);
      GreedyUnique(ids[..n], m, clash, r[..c], idx[..c], sections[..c]);
      if c < |idx| {
        assert c == |r| - 1 && r[c] == ids[n];
        GreedyKeepsLast(ids, m, clash, r, sections);
      } else {
        var q := LastLeftOutClashes(ids, m, clash, r, idx, sections);
        assert r[..c] == r && sections[..c] == sections;
        GreedyDropsLast(ids, m, clash, r, sections, q);
      }
    }
  }

  /** The behaviour of `_remove_conflicts(class_ids, all_classes)`. */
  function WithoutConflicts(classIds: seq<string>, all: seq<ClassSection>): seq<string> {
    if |classIds| <= 1 then classIds
    else Greedy(classIds, ClassMap(all), (a, b) => Conflicts(a, b)).ids
  }

  /** Up to one id comes back unchanged; any result keeps input order. */
  lemma WithoutConflictsOrdered(classIds: seq<string>, all: seq<ClassSection>)
    ensures |classIds| <= 1 ==> WithoutConflicts(classIds, all) == classIds
    ensures OrderedSublist(WithoutConflicts(classIds, all), classIds)
  {
    if |classIds| <= 1 {
      assert PicksBelow(classIds, classIds, seq(|classIds|, k requires 0 <= k < |classIds| => k), |classIds|);
    } else {
      var _ := GreedyInOrder(classIds, ClassMap(all), (a, b) => Conflicts(a, b));
    }
  }

  /** From two ids on, the result lists catalog ids no two of whose classes
      conflict. */
  lemma WithoutConflictsClashFree(classIds: seq<string>, all: seq<ClassSection>)
    ensures var r := WithoutConflicts(classIds, all); var m := ClassMap(all);
      |classIds| > 1 ==>
        && (forall i :: 0 <= i < |r| ==> r[i] in CatalogIds(all) && r[i] in m)
        && (forall i, j :: 0 <= i < |r| && 0 <= j < |r| && i != j ==> !Conflicts(m[r[i]], m[r[j]]))
  {
    var m := ClassMap(all);
    var clash := (a, b) => Conflicts(a, b);
    ClassMapSpec(all);
    if |classIds| > 1 {
      var k := Greedy(classIds, m, clash);
      GreedyShape(classIds, m, clash);
      GreedyClashFree(classIds, m, clash);
      forall i, j | 0 <= i < |k.ids| && 0 <= j < |k.ids| && i != j ensures !Conflicts(m[k.ids[i]], m[k.ids[j]]) {
        ConflictsSymmetric(m[k.ids[i]], m[k.ids[j]]);
      }
    }
  }

  /** First wins: `idx` gives the input position of every id kept, and every
      catalog id at a position not kept conflicts with an id kept from an
      earlier position. */
  lemma WithoutConflictsMaximal(classIds: seq<string>, all: seq<ClassSection>) returns (idx: seq<nat>)
    ensures var r := WithoutConflicts(classIds, all); var m := ClassMap(all);
      && PicksBelow(r, classIds, idx, |classIds|)
      && (forall p :: 0 <= p < |classIds| && classIds[p] in m && p !in idx ==>
            exists q :: 0 <= q < |r| && idx[q] < p && r[q] in m && Conflicts(m[classIds[p]], m[r[q]]))
  {
    var m := ClassMap(all);
    var clash := (a, b) => Conflicts(a, b);
    if |classIds| <= 1 {
      idx := seq(|classIds|, k requires 0 <= k < |classIds| => k);
      assert forall p :: 0 <= p < |classIds| ==> p == idx[p];
    } else {
      var k := Greedy(classIds, m, clash);
      GreedyShape(classIds, m, clash);
      idx := GreedyDropped(classIds, m, clash);
      forall p | 0 <= p < |classIds| && classIds[p] in m && p !in idx
        ensures exists q :: 0 <= q < |k.ids| && idx[q] < p && k.ids[q] in m && Conflicts(m[classIds[p]], m[k.ids[q]])
      {
        var q :| 0 <= q < |idx| && idx[q] < p && q < |k.sections| && clash(m[classIds[p]], k.sections[q]);
      }
    }
  }

  /** Up to one id comes back unchanged. Otherwise the result lists catalog
      ids in input order and no two of their classes conflict. In any case
      every catalog id at a position not kept conflicts with an id kept from
      an earlier position, so the first of two conflicting ids wins. */
  lemma WithoutConflictsSpec(classIds: seq<string>, all: seq<ClassSection>) returns (idx: seq<nat>)
    ensures |classIds| <= 1 ==> WithoutConflicts(classIds, all) == classIds
    ensures var r := WithoutConflicts(classIds, all); var m := ClassMap(all);
      && PicksBelow(r, classIds, idx, |classIds|)
      && (|classIds| > 1 ==>
            && (forall i :: 0 <= i < |r| ==> r[i] in CatalogIds(all) && r[i] in m)
            && (forall i, j :: 0 <= i < |r| && 0 <= j < |r| && i != j ==> !Conflicts(m[r[i]], m[r[j]])))
      && (forall p :: 0 <= p < |classIds| && classIds[p] in m && p !in idx ==>
            exists q :: 0 <= q < |r| && idx[q] < p && Conflicts(m[classIds[p]], m[r[q]]))
  {
    WithoutConflictsOrdered(classIds, all);
    WithoutConflictsClashFree(classIds, all);
    idx := WithoutConflictsMaximal(classIds, all);
  }

  /** From two ids on, the first-wins conditions determine the result: any
      ordered selection of catalog ids, free of conflicts, in which every
      catalog id left out conflicts with one kept from an earlier position, is
      what `_remove_conflicts` returns. */
  lemma WithoutConflictsUnique(classIds: seq<string>, all: seq<ClassSection>, r: seq<string>, idx: seq<nat>)
    requires |classIds| > 1 && PicksBelow(r, classIds, idx, |classIds|)
    requires forall q :: 0 <= q < |r| ==> r[q] in ClassMap(all)
    requires forall i, j :: 0 <= i < j < |r| ==> !Conflicts(ClassMap(all)[r[j]], ClassMap(all)[r[i]])
    requires forall p :: 0 <= p < |classIds| && classIds[p] in ClassMap(all) && p !in idx ==>
      exists q :: 0 <= q < |r| && idx[q] < p && Conflicts(ClassMap(all)[classIds[p]], ClassMap(all)[r[q]])
    ensures WithoutConflicts(classIds, all) == r
  {
    var m := ClassMap(all);
    var clash := (a, b) => Conflicts(a, b);
    var sections := seq(|r|, q requires 0 <= q < |r| => m[r[q]]);
    assert ClashFree(sections, clash);
    assert EarlierClash(classIds, m, clash, idx, sections) by {
      forall p | 0 <= p < |classIds| && classIds[p] in m && p !in idx
        ensures exists q :: 0 <= q < |idx| && idx[q] < p && q < |sections| && clash(m[classIds[p]], sections[q])
      {
        var q :| 0 <= q < |r| && idx[q] < p && Conflicts(m[classIds[p]], m[r[q]]);
        assert sections[q] == m[r[q]];
      }
    }
    GreedyUnique(classIds, m, clash, r, idx, sections);
  }

  /** A known id among the input means something is kept. */
  lemma WithoutConflictsNonEmpty(classIds: seq<string>, all: seq<ClassSection>, p: nat)
    requires p < |classIds| && classIds[p] in CatalogIds(all)
    ensures WithoutConflicts(classIds, all) != []
  {
    if |classIds| > 1 {
      var idx := WithoutConflictsSpec(classIds, all);
      ClassMapSpec(all);
      if p in idx {
        var q :| 0 <= q < |idx| && idx[q] == p;
      }
    }
  }

  /** The inner loop of `_remove_conflicts`, stopping at the first conflict. */
  method ConflictsWithSelected(candidate: SectionData, selected: seq<SectionData>) returns (hasConflict: bool)
    ensures hasConflict <==> ClashesWithAny(candidate, selected, (a, b) => Conflicts(a, b))
  {
    hasConflict := false;
    var j := 0;
    while j < |selected|
      invariant 0 <= j <= |selected|
      invariant forall j' :: 0 <= j' < j ==> !Conflicts(candidate, selected[j'])
    {
      var c := HasConflictWith(candidate, selected[j]);
      if c {
        return true;
      }
      j := j + 1;
    }
  }

  /** `_remove_conflicts` */
  method RemoveConflicts(classIds: seq<string>, all: seq<ClassSection>) returns (validIds: seq<string>)
    ensures validIds == WithoutConflicts(classIds, all)
  {
    if |classIds| <= 1 {
      return classIds;
    }
    var classMap := ClassMap(all);
    validIds := [];
    var selected: seq<SectionData> := [];
    for i := 0 to |classIds|
      invariant Kept(validIds, selected) == Greedy(classIds[..i], classMap, (a, b) => Conflicts(a, b))
    {
      assert classIds[..i + 1][..i] == classIds[..i];
      var cid := classIds[i];
      if cid !in classMap {
        continue;
      }
      var candidate := classMap[cid];
      var hasConflict := ConflictsWithSelected(candidate, selected);
      if !hasConflict {
        validIds := validIds + [cid];
        selected := selected + [candidate];
      }
    }
    assert classIds[..|classIds|] == classIds;
  }

  // ---------------------------------------------------------------------------
  // generate_schedule: the oracle's reply and the result
  // ---------------------------------------------------------------------------

  /** What the schedule-building oracle call yields: a failure, or the
      `class_ids` of a JSON object reply (`[]` when the key is absent). */
  datatype OracleReply =
    | NoResponse
    | NoChoices
    | EmptyContent
    | MalformedJson
    | UnexpectedShape(detail: string)
    | TimedOut
    | OtherFailure(message: string)
    | Reply(classIds: seq<string>)

  /** `{"class_ids": ids}` or `{"error": reason, "class_ids": []}` */
  datatype GenerationResult =
    | Generated(ids: seq<string>)
    | GenerationError(reason: string)
  {
    function ClassIds(): seq<string> {
      if Generated? then ids else []
    }
  }

  /** The reply's ids that name a relevant class or a catalog class, in
      reply order, repeats kept. */
  function ValidIds(selected: seq<string>, relevantIds: set<string>, catalogIds: set<string>): seq<string> {
    Keep(selected, (cid: string) => cid in relevantIds || cid in catalogIds)
  }

  lemma ValidIdsSpec(selected: seq<string>, relevantIds: set<string>, catalogIds: set<string>)
    ensures forall cid :: cid in ValidIds(selected, relevantIds, catalogIds) <==>
      cid in selected && (cid in relevantIds || cid in catalogIds)
    ensures OrderedSublist(ValidIds(selected, relevantIds, catalogIds), selected)
  {
    var known := (cid: string) => cid in relevantIds || cid in catalogIds;
    forall cid ensures cid in ValidIds(selected, relevantIds, catalogIds) <==> cid in selected && known(cid) {
      KeepMembers(selected, known, cid);
    }
    var _ := KeepOrdered(selected, known);
  }

  /** The ids-validation loop of `generate_schedule`. */
  method KeepValidIds(selected: seq<string>, relevantIds: set<string>, catalogIds: set<string>)
    returns (valid: seq<string>)
    ensures valid == ValidIds(selected, relevantIds, catalogIds)
  {
    valid := [];
    var i := 0;
    while i < |selected|
      invariant 0 <= i <= |selected|
      invariant valid == Keep(selected[..i], (cid: string) => cid in relevantIds || cid in catalogIds)
    {
      KeepSnoc(selected, (cid: string) => cid in relevantIds || cid in catalogIds, i);
      var cid := selected[i];
      if cid in relevantIds || cid in catalogIds {
        valid := valid + [cid];
      }
      i := i + 1;
    }
    assert selected[..i] == selected;
  }

  /** The filtered catalog is part of the catalog, so checking it first
      admits no extra id. */
  lemma RelevantIdsInCatalog(all: seq<ClassSection>, reqs: seq<DegreeRequirement>, sel: Selection)
    ensures CatalogIds(FilteredClasses(all, reqs, sel)) <= CatalogIds(all)
  {
    forall c | c in FilteredClasses(all, reqs, sel) ensures c in all {
      if reqs != [] {
        FilteredMembers(all, reqs, sel, c);
      }
    }
  }

  /** The result of `generate_schedule` once the catalog is loaded and the
      relevant classes are chosen, for each possible oracle outcome. */
  function ScheduleOutcome(all: seq<ClassSection>, relevant: seq<ClassSection>, reply: OracleReply): GenerationResult {
    if all == [] then GenerationError("No classes available")
    else match reply
      case NoResponse => GenerationError("LLM returned None response")
      case NoChoices => GenerationError("LLM returned empty response - prompt may exceed context limit")
      case EmptyContent => GenerationError("LLM returned empty content")
      case MalformedJson => GenerationError("Failed to parse AI response")
      case UnexpectedShape(detail) => GenerationError("Unexpected LLM response format: " + detail)
      case TimedOut => GenerationError("LLM request timed out")
      case OtherFailure(message) => GenerationError(message)
      case Reply(selected) =>
        var valid := ValidIds(selected, CatalogIds(relevant), CatalogIds(all));
        if valid == [] then GenerationError("LLM returned no valid class IDs")
        else Generated(WithoutConflicts(valid, all))
  }

  /** Conflict removal over validated ids: never empty, in reply order,
      catalog ids only, pairwise conflict-free. */
  lemma RepairedIdsSpec(selected: seq<string>, relevantIds: set<string>, all: seq<ClassSection>)
    requires relevantIds <= CatalogIds(all)
    requires ValidIds(selected, relevantIds, CatalogIds(all)) != []
    ensures var r := WithoutConflicts(ValidIds(selected, relevantIds, CatalogIds(all)), all); var m := ClassMap(all);
      && r != []
      && OrderedSublist(r, selected)
      && (forall i :: 0 <= i < |r| ==> r[i] in m)
      && (forall i, j :: 0 <= i < |r| && 0 <= j < |r| && i != j ==> !Conflicts(m[r[i]], m[r[j]]))
  {
    var valid := ValidIds(selected, relevantIds, CatalogIds(all));
    ValidIdsSpec(selected, relevantIds, CatalogIds(all));
    ClassMapSpec(all);
    assert valid[0] in valid;
    var _ := WithoutConflictsSpec(valid, all);
    WithoutConflictsNonEmpty(valid, all, 0);
    var r := WithoutConflicts(valid, all);
    var i1 :| PicksBelow(r, valid, i1, |valid|);
    var i2 :| PicksBelow(valid, selected, i2, |selected|);
    var _ := PicksCompose(r, valid, selected, i1, i2);
    if |valid| <= 1 {
      forall k | 0 <= k < |r| ensures r[k] in ClassMap(all) {
        assert r[k] in valid;
      }
    }
  }

  /** The reply names a catalog class exactly when some id survives validation. */
  lemma ValidIdsNonEmpty(selected: seq<string>, relevantIds: set<string>, catalogIds: set<string>)
    requires relevantIds <= catalogIds
    ensures ValidIds(selected, relevantIds, catalogIds) != [] <==>
      exists i :: 0 <= i < |selected| && selected[i] in catalogIds
  {
    var known := (cid: string) => cid in relevantIds || cid in catalogIds;
    var valid := ValidIds(selected, relevantIds, catalogIds);
    if i :| 0 <= i < |selected| && selected[i] in catalogIds {
      KeepMembers(selected, known, selected[i]);
    }
    if valid != [] {
      KeepMembers(selected, known, valid[0]);
      var i :| 0 <= i < |selected| && selected[i] == valid[0];
    }
  }

  /** A schedule comes back exactly when the catalog is non-empty and the
      reply names some catalog class; it is never empty, it lists catalog
      ids in the reply's order, and no two of its classes conflict. Every
      other outcome carries no ids. */
  lemma ScheduleOutcomeSpec(all: seq<ClassSection>, relevant: seq<ClassSection>, reply: OracleReply)
    requires CatalogIds(relevant) <= CatalogIds(all)
    ensures ScheduleOutcome(all, relevant, reply).Generated? <==>
      all != [] && reply.Reply? && exists i :: 0 <= i < |reply.classIds| && reply.classIds[i] in CatalogIds(all)
    ensures !ScheduleOutcome(all, relevant, reply).Generated? ==> ScheduleOutcome(all, relevant, reply).ClassIds() == []
    ensures var r := ScheduleOutcome(all, relevant, reply); var m := ClassMap(all);
      r.Generated? ==>
        && r.ids != []
        && OrderedSublist(r.ids, reply.classIds)
        && (forall i :: 0 <= i < |r.ids| ==> r.ids[i] in m)
        && (forall i, j :: 0 <= i < |r.ids| && 0 <= j < |r.ids| && i != j ==> !Conflicts(m[r.ids[i]], m[r.ids[j]]))
  {
    if all != [] && reply.Reply? {
      ValidIdsNonEmpty(reply.classIds, CatalogIds(relevant), CatalogIds(all));
      if ValidIds(reply.classIds, CatalogIds(relevant), CatalogIds(all)) != [] {
        RepairedIdsSpec(reply.classIds, CatalogIds(relevant), all);
      }
    }
  }

  /** The tail of `generate_schedule`: the no-catalog early return, the
      error replies, id validation and conflict removal. */
  method FinishSchedule(all: seq<ClassSection>, relevant: seq<ClassSection>, reply: OracleReply)
    returns (result: GenerationResult)
    ensures result == ScheduleOutcome(all, relevant, reply)
  {
    if all == [] {
      return GenerationError("No classes available");
    }
    match reply {
      case NoResponse => result := GenerationError("LLM returned None response");
      case NoChoices => result := GenerationError("LLM returned empty response - prompt may exceed context limit");
      case EmptyContent => result := GenerationError("LLM returned empty content");
      case MalformedJson => result := GenerationError("Failed to parse AI response");
      case UnexpectedShape(detail) => result := GenerationError("Unexpected LLM response format: " + detail);
      case TimedOut => result := GenerationError("LLM request timed out");
      case OtherFailure(message) => result := GenerationError(message);
      case Reply(selected) =>
        var valid := KeepValidIds(selected, CatalogIds(relevant), CatalogIds(all));
        if valid == [] {
          return GenerationError("LLM returned no valid class IDs");
        }
        valid := RemoveConflicts(valid, all);
        result := Generated(valid);
    }
  }
}
