/** The degree-requirements matcher: it turns a parsed program evaluation
    into the list of requirements a student still needs, decides which of
    them a class section meets, writes the resulting badges into the class
    sections and, for the M.S. EECS program, adds the badges of its fixed
    curriculum table. */
module DegreeRequirementsMatcher {
  import opened Wrappers
  import opened Text
  import opened ScheduleTypes
  import opened MsEecsRequirements

  // ---------------------------------------------------------------------------
  // _normalize_course_code
  // ---------------------------------------------------------------------------

  /** Length of the run of digits that ends `s`. */
  function TrailingDigits(s: string): (n: nat)
    ensures n <= |s|
  {
    if s != [] && IsDigit(s[|s| - 1]) then 1 + TrailingDigits(s[..|s| - 1]) else 0
  }

  /** `re.sub(r"[-_]\d+$", "", s)` on a stripped text: a section suffix
      such as "-03" or "_2" at the very end is removed. */
  function StripSectionSuffix(s: string): string {
    var k := TrailingDigits(s);
    if 0 < k < |s| && (s[|s| - k - 1] == '-' || s[|s| - k - 1] == '_') then s[..|s| - k - 1] else s
  }

  /** `_normalize_course_code`: the subject and number of a code written
      "CPSC 350", "cpsc350" or "CPSC 350-01"; a code that does not start
      with letters and digits yields its upper-cased text and "". */
  function NormalizeCourseCode(code: string): (string, string) {
    var c := StripSectionSuffix(Strip(code));
    var u := Upper(c);
    match MatchCourseCode(u, 1, |u|)
    case Some(g) => g
    case None => (u, "")
  }

  /** A run of `n` digits ending the text, with a non-digit before it, is
      the whole trailing run. */
  lemma {:induction false} TrailingDigitsExact(s: string, n: nat)
    requires n <= |s|
    requires forall i :: |s| - n <= i < |s| ==> IsDigit(s[i])
    requires n < |s| ==> !IsDigit(s[|s| - n - 1])
    ensures TrailingDigits(s) == n
    decreases n
  {
    if n > 0 {
      var t := s[..|s| - 1];
      assert forall i :: |t| - (n - 1) <= i < |t| ==> t[i] == s[i];
      TrailingDigitsExact(t, n - 1);
    }
  }

  /** Normalizing yields either capitals and a course number, or the
      upper-cased text with an empty number. */
  lemma NormalizeShape(code: string)
    ensures var (subject, number) := NormalizeCourseCode(code);
      || (subject != [] && AllUpper(subject) && CourseNumber(number))
      || (number == "" && subject == Upper(StripSectionSuffix(Strip(code))))
  {
    var u := Upper(StripSectionSuffix(Strip(code)));
    if MatchCourseCode(u, 1, |u|).Some? {
      var _ := MatchCourseCodeShape(u, 1, |u|);
    }
  }

  /** A code "SUBJ NUM" normalizes to its subject and number. */
  lemma NormalizeSpaced(letters: string, number: string)
    requires letters != [] && AllUpper(letters) && CourseNumber(number)
    ensures NormalizeCourseCode(letters + " " + number) == (letters, number)
  {
    var s := letters + " " + number;
    JoinedCodeStrips(letters, number);
    JoinedCodeUpper(letters, number);
    NoSectionAfterLetters(letters, " ", number);
    JoinedMatches(letters, " ", number, 1, |s|);
    NormalizeBy(s, s);
  }

  /** A code "SUBJ NUM-SEC" normalizes to its subject and number: the
      section is dropped. */
  lemma NormalizeSectioned(letters: string, number: string, section: string)
    requires letters != [] && AllUpper(letters) && CourseNumber(number)
    requires section != [] && AllDigits(section)
    ensures NormalizeCourseCode(letters + " " + number + "-" + section) == (letters, number)
  {
    var base := letters + " " + number;
    SectionDropped(base, section);
    JoinedCodeUpper(letters, number);
    JoinedMatches(letters, " ", number, 1, |base|);
    NormalizeBy(base + "-" + section, base);
  }

  /** Stripping keeps "BASE-SEC" whole, and the substitution drops "-SEC". */
  lemma SectionDropped(base: string, section: string)
    requires base != [] && !IsSpace(base[0])
    requires section != [] && AllDigits(section)
    ensures StripSectionSuffix(Strip(base + "-" + section)) == base
  {
    var s := base + "-" + section;
    assert s[0] == base[0] && s[|s| - 1] == section[|section| - 1];
    StripNoop(s);
    assert forall i :: |s| - |section| <= i < |s| ==> s[i] == section[i - (|s| - |section|)];
    assert s[|s| - |section| - 1] == '-';
    TrailingDigitsExact(s, |section|);
    assert s[..|s| - |section| - 1] == base;
  }

  /** A lower-case code without a space, "cpsc350", normalizes to the
      upper-case subject and the number. */
  lemma NormalizeLowerJoined(letters: string, number: string)
    requires letters != [] && AllUpper(letters) && CourseNumber(number)
    ensures NormalizeCourseCode(Lower(letters) + number) == (letters, number)
  {
    var s := Lower(letters) + number;
    LowerJoinedPlain(letters, number);
    UpperLowerJoined(letters, number);
    var u := letters + number;
    assert letters + "" + number == u;
    JoinedMatches(letters, "", number, 1, |u|);
    NormalizeBy(s, u);
  }

  /** Normalizing a code whose stripped, upper-cased form is `u`. */
  lemma NormalizeBy(code: string, u: string)
    requires Upper(StripSectionSuffix(Strip(code))) == u
    ensures NormalizeCourseCode(code) == if MatchCourseCode(u, 1, |u|).Some? then MatchCourseCode(u, 1, |u|).value else (u, "")
  {
  }

  /** Neither stripping nor the section substitution touches "cpsc350". */
  lemma LowerJoinedPlain(letters: string, number: string)
    requires letters != [] && AllUpper(letters) && CourseNumber(number)
    ensures StripSectionSuffix(Strip(Lower(letters) + number)) == Lower(letters) + number
  {
    var low := Lower(letters);
    var s := low + number;
    assert s[0] == low[0] && s[|s| - 1] == number[|number| - 1];
    assert IsLower(low[0]);
    StripNoop(s);
    assert s == low + "" + number;
    assert forall k :: 0 <= k < |low| ==> IsAlpha(low[k]);
    NoSectionAfterLetters(low, "", number);
  }

  /** Upper-casing "cpsc350" gives "CPSC350". */
  lemma UpperLowerJoined(letters: string, number: string)
    requires AllUpper(letters) && CourseNumber(number)
    ensures Upper(Lower(letters) + number) == letters + number
  {
    var low := Lower(letters);
    var s := low + number;
    var t := letters + number;
    forall i | 0 <= i < |s| ensures Upper(s)[i] == t[i] {
      if i < |low| {
        assert s[i] == low[i] == LowerChar(letters[i]);
      } else {
        assert s[i] == number[i - |low|] == t[i];
        assert !IsLower(number[i - |low|]);
      }
    }
  }

  /** Letters, a gap of spaces and a course number carry no section suffix
      for the substitution to remove (the digits are preceded by a letter,
      a space or a capital). */
  lemma NoSectionAfterLetters(letters: string, gap: string, number: string)
    requires letters != [] && forall k :: 0 <= k < |letters| ==> IsAlpha(letters[k])
    requires forall k :: 0 <= k < |gap| ==> gap[k] == ' '
    requires CourseNumber(number)
    ensures StripSectionSuffix(letters + gap + number) == letters + gap + number
  {
    var s := letters + gap + number;
    var last := |number| - 1;
    if IsUpper(number[last]) {
      TrailingDigitsExact(s, 0);
    } else {
      assert forall i :: |s| - |number| <= i < |s| ==> s[i] == number[i - (|s| - |number|)];
      var before := |s| - |number| - 1;
      if |gap| > 0 {
        assert s[before] == gap[|gap| - 1];
      } else {
        assert s[before] == letters[|letters| - 1];
      }
      TrailingDigitsExact(s, |number|);
    }
  }

  /** "CPSC 350", "cpsc350" and "CPSC 350-03" all normalize to
      ("CPSC", "350"). */
  lemma NormalizeSpacedExample(subject: string, number: string)
    requires subject == "CPSC" && number == "350"
    ensures NormalizeCourseCode(subject + " " + number) == (subject, number)
  {
    assert AllUpper(subject) && CourseNumber(number);
    NormalizeSpaced(subject, number);
  }

  lemma NormalizeLowerExample(subject: string, lower: string, number: string)
    requires subject == "CPSC" && lower == "cpsc" && number == "350"
    ensures NormalizeCourseCode(lower + number) == (subject, number)
  {
    assert AllUpper(subject) && CourseNumber(number);
    assert Lower(subject) == lower;
    NormalizeLowerJoined(subject, number);
  }

  lemma NormalizeSectionedExample(subject: string, number: string, section: string)
    requires subject == "CPSC" && number == "350" && section == "03"
    ensures NormalizeCourseCode(subject + " " + number + "-" + section) == (subject, number)
  {
    assert AllUpper(subject) && CourseNumber(number) && AllDigits(section);
    NormalizeSectioned(subject, number, section);
  }

  // ---------------------------------------------------------------------------
  // GE_AREA_MAPPINGS and _is_ge_course
  // ---------------------------------------------------------------------------

  /** One GE area of the table: the subjects that satisfy it and the
      specific courses listed for it. */
  datatype GeArea = GeArea(prefixes: seq<string>, courses: seq<string>)

  /** The seven GE areas of the table, in table order. */
  const GeAreaNames: seq<string> := [
    "Written Inquiry", "Quantitative Inquiry", "Scientific Inquiry", "Social Inquiry",
    "Values and Ethical Inquiry", "Artistic Inquiry", "Global Perspectives"]

  /** The two areas that list specific courses. */
  const WrittenCourses: seq<string> := ["ENG 103", "ENG 104", "ENG 105"]
  const QuantitativeCourses: seq<string> := ["MATH 101", "MATH 110", "MATH 111", "MATH 150"]

  /** `GE_AREA_MAPPINGS.get(area, {})`, with missing lists read as empty. */
  function GeAreaMapping(area: string): GeArea {
    if area == "Written Inquiry" then GeArea(["ENG"], WrittenCourses)
    else if area == "Quantitative Inquiry" then GeArea(["MATH"], QuantitativeCourses)
    else if area == "Scientific Inquiry" then GeArea(["BIOL", "CHEM", "PHYS", "ENV"], [])
    else if area == "Social Inquiry" then GeArea(["SOC", "PSY", "POLS", "ECON", "ANTH"], [])
    else if area == "Values and Ethical Inquiry" then GeArea(["PHIL", "REL"], [])
    else if area == "Artistic Inquiry" then GeArea(["ART", "MUS", "DANC", "FTV", "THTR"], [])
    else if area == "Global Perspectives" then GeArea(["HIST", "GS"], [])
    else GeArea([], [])
  }

  /** `_is_ge_course`: the course "SUBJ NUM" is listed for the area, or its
      subject is one of the area's prefixes. */
  predicate IsGeCourse(subject: string, number: string, geArea: string) {
    var a := GeAreaMapping(geArea);
    (subject + " " + number) in a.courses || subject in a.prefixes
  }

  /** An area outside the table is met by no course. */
  lemma UnknownGeArea(subject: string, number: string, geArea: string)
    requires geArea !in GeAreaNames
    ensures !IsGeCourse(subject, number, geArea)
  {
  }

  /** Course codes whose one space follows the prefix. */
  predicate CodesOfPrefix(prefix: string, courses: seq<string>) {
    forall c :: c in courses ==>
      && |prefix| < |c| && c[..|prefix|] == prefix
      && forall i :: 0 <= i < |c| && i != |prefix| ==> c[i] != ' '
  }

  /** A joined code found in such a list has the prefix as its subject. */
  lemma ListedSubject(subject: string, number: string, prefix: string, courses: seq<string>)
    requires CodesOfPrefix(prefix, courses) && subject + " " + number in courses
    ensures subject == prefix
  {
    var c := subject + " " + number;
    assert c[|subject|] == ' ';
    assert c[..|subject|] == subject;
  }

  /** Every course the table lists is of a subject the same area already
      accepts, so the list of specific courses never decides: a course
      satisfies an area exactly when its subject is one of the area's
      prefixes. */
  lemma GeCourseBySubject(subject: string, number: string, geArea: string)
    ensures IsGeCourse(subject, number, geArea) <==> subject in GeAreaMapping(geArea).prefixes
  {
    var a := GeAreaMapping(geArea);
    if subject + " " + number in a.courses {
      GeAreaConsistent(geArea);
      ListedSubject(subject, number, a.prefixes[0], a.courses);
    }
  }

  /** Each area's listed courses carry the area's first prefix. */
  lemma GeAreaConsistent(geArea: string)
    ensures var a := GeAreaMapping(geArea);
      a.courses == [] || (a.prefixes != [] && CodesOfPrefix(a.prefixes[0], a.courses))
  {
    if geArea == "Written Inquiry" {
      WrittenCodes();
    } else if geArea == "Quantitative Inquiry" {
      QuantitativeCodes();
    }
  }

  lemma WrittenCodes()
    ensures CodesOfPrefix("ENG", WrittenCourses)
  {
  }

  lemma QuantitativeCodes()
    ensures CodesOfPrefix("MATH", QuantitativeCourses)
  {
  }

  /** (ENG, 103, Written Inquiry) holds through the course list. */
  lemma GeListedCourseExample(subject: string, number: string, area: string)
    requires subject == "ENG" && number == "103" && area == "Written Inquiry"
    ensures IsGeCourse(subject, number, area)
  {
    assert subject + " " + number == GeAreaMapping(area).courses[0];
  }

  /** (MATH, 110, Quantitative Inquiry) and (BIOL, 101, Scientific Inquiry)
      hold; (CPSC, 350, Written Inquiry) does not. */
  lemma GeSubjectExamples()
    ensures IsGeCourse("MATH", "110", "Quantitative Inquiry")
    ensures IsGeCourse("BIOL", "101", "Scientific Inquiry")
    ensures !IsGeCourse("CPSC", "350", "Written Inquiry")
  {
    GeCourseBySubject("MATH", "110", "Quantitative Inquiry");
    GeCourseBySubject("BIOL", "101", "Scientific Inquiry");
    GeCourseBySubject("CPSC", "350", "Written Inquiry");
  }

  // ---------------------------------------------------------------------------
  // _get_short_label
  // ---------------------------------------------------------------------------

  /** The abbreviation of a GE label, by the first keyword it contains. */
  function GeShortLabel(labelText: string): (r: string)
    ensures StartsWith(r, "GE")
  {
    var l := Lower(labelText);
    if Contains(l, "written") then "GE-WI"
    else if Contains(l, "quantitative") then "GE-QI"
    else if Contains(l, "scientific") then "GE-SI"
    else if Contains(l, "social") then "GE-SoI"
    else if Contains(l, "values") || Contains(l, "ethical") then "GE-VEI"
    else if Contains(l, "artistic") then "GE-AI"
    else if Contains(l, "global") then "GE-GP"
    else "GE"
  }

  /** `_get_short_label`: the badge text for a requirement type, with GE
      labels abbreviated by area. */
  function ShortLabel(t: RequirementType, labelText: string): string {
    match t
    case MajorCore => "Core"
    case MajorElective => "Elective"
    case GeneralEducation => GeShortLabel(labelText)
    case Minor => "Minor"
    case Concentration => "Conc"
    case Other => "Req"
  }

  /** Only GE labels depend on the label; every GE abbreviation starts
      with "GE", and no other type's does. */
  lemma ShortLabelByType(t: RequirementType, labelText: string, labelText': string)
    ensures t != GeneralEducation ==> ShortLabel(t, labelText) == ShortLabel(t, labelText')
    ensures StartsWith(ShortLabel(t, labelText), "GE") <==> t == GeneralEducation
  {
    var r := ShortLabel(t, labelText);
    if t != GeneralEducation {
      assert |r| < 2 || r[0] != 'G';
    }
  }

  /** The test table: core and elective labels, and the abbreviations of
      the written and quantitative GE areas. */
  lemma ShortLabelExamples()
    ensures ShortLabel(MajorCore, "Core") == "Core"
    ensures ShortLabel(MajorElective, "Elective") == "Elective"
  {
  }

  lemma WrittenShortLabel(labelText: string)
    requires labelText == "Written Inquiry"
    ensures ShortLabel(GeneralEducation, labelText) == "GE-WI"
  {
    var l := Lower(labelText);
    assert l[..7] == "written";
    ContainsAt(l, "written", 0);
  }

  lemma QuantitativeShortLabel(labelText: string)
    requires labelText == "Quantitative Inquiry"
    ensures ShortLabel(GeneralEducation, labelText) == "GE-QI"
  {
    var l := Lower(labelText);
    MissingCharNotContained(l, "written", 0);
    assert l[..12] == "quantitative";
    ContainsAt(l, "quantitative", 0);
  }

  lemma ScientificShortLabel(labelText: string)
    requires labelText == "Scientific Inquiry"
    ensures ShortLabel(GeneralEducation, labelText) == "GE-SI"
  {
    var l := Lower(labelText);
    MissingCharNotContained(l, "written", 0);
    MissingCharNotContained(l, "quantitative", 10);
    assert l[..10] == "scientific";
    ContainsAt(l, "scientific", 0);
  }

  lemma SocialShortLabel(labelText: string)
    requires labelText == "Social Inquiry"
    ensures ShortLabel(GeneralEducation, labelText) == "GE-SoI"
  {
    var l := Lower(labelText);
    MissingCharNotContained(l, "written", 0);
    MissingCharNotContained(l, "quantitative", 4);
    MissingCharNotContained(l, "scientific", 7);
    assert l[..6] == "social";
    ContainsAt(l, "social", 0);
  }

  lemma ValuesShortLabel(labelText: string)
    requires labelText == "Values and Ethical Inquiry"
    ensures ShortLabel(GeneralEducation, labelText) == "GE-VEI"
  {
    assert Lower(labelText) == "values and ethical inquiry";
    ValuesKeywords(Lower(labelText));
  }

  lemma ValuesKeywords(l: string)
    requires l == "values and ethical inquiry"
    ensures !Contains(l, "written") && !Contains(l, "quantitative") && !Contains(l, "scientific")
    ensures !Contains(l, "social") && Contains(l, "values")
  {
    MissingCharNotContained(l, "written", 0);
    ValuesNotQuantitative(l);
    MissingCharNotContained(l, "scientific", 7);
    MissingCharNotContained(l, "social", 1);
    assert l[..6] == "values";
    ContainsAt(l, "values", 0);
  }

  /** Every letter of "quantitative" occurs in the values label, but "ua"
      does not. */
  lemma ValuesNotQuantitative(l: string)
    requires l == "values and ethical inquiry"
    ensures !Contains(l, "quantitative")
  {
    PairAbsent(l, 'u', 'a');
    assert "quantitative"[1..3] == "ua";
    ContainsAt("quantitative", "ua", 1);
    MissingPartNotContained(l, "quantitative", "ua");
  }

  lemma ArtisticShortLabel(labelText: string)
    requires labelText == "Artistic Inquiry"
    ensures ShortLabel(GeneralEducation, labelText) == "GE-AI"
  {
    assert Lower(labelText) == "artistic inquiry";
    ArtisticKeywords(Lower(labelText));
  }

  lemma ArtisticKeywords(l: string)
    requires l == "artistic inquiry"
    ensures !Contains(l, "written") && !Contains(l, "quantitative") && !Contains(l, "scientific")
    ensures !Contains(l, "social") && !Contains(l, "values") && !Contains(l, "ethical")
    ensures Contains(l, "artistic")
  {
    MissingCharNotContained(l, "written", 0);
    MissingCharNotContained(l, "quantitative", 10);
    MissingCharNotContained(l, "scientific", 7);
    MissingCharNotContained(l, "social", 1);
    MissingCharNotContained(l, "values", 0);
    MissingCharNotContained(l, "ethical", 0);
    assert l[..8] == "artistic";
    ContainsAt(l, "artistic", 0);
  }

  lemma GlobalShortLabel(labelText: string)
    requires labelText == "Global Perspectives"
    ensures ShortLabel(GeneralEducation, labelText) == "GE-GP"
  {
    assert Lower(labelText) == "global perspectives";
    GlobalNotEarlier(Lower(labelText));
    GlobalNotLater(Lower(labelText));
  }

  lemma GlobalNotEarlier(l: string)
    requires l == "global perspectives"
    ensures !Contains(l, "written") && !Contains(l, "quantitative") && !Contains(l, "scientific")
    ensures !Contains(l, "social")
  {
    MissingCharNotContained(l, "written", 0);
    MissingCharNotContained(l, "quantitative", 0);
    MissingCharNotContained(l, "scientific", 7);
    PairAbsent(l, 's', 'o');
    ContainsAt("social", "so", 0);
    MissingPartNotContained(l, "social", "so");
  }

  lemma GlobalNotLater(l: string)
    requires l == "global perspectives"
    ensures !Contains(l, "values") && !Contains(l, "ethical")
    ensures !Contains(l, "artistic") && Contains(l, "global")
  {
    MissingCharNotContained(l, "values", 3);
    MissingCharNotContained(l, "ethical", 2);
    PairAbsent(l, 'a', 'r');
    ContainsAt("artistic", "ar", 0);
    MissingPartNotContained(l, "artistic", "ar");
    assert l[..6] == "global";
    ContainsAt(l, "global", 0);
  }

  // ---------------------------------------------------------------------------
  // Requirement extraction
  // ---------------------------------------------------------------------------

  /** One entry of `courses.remaining_required`; absent or null text fields
      are "". */
  datatype RemainingCourse = RemainingCourse(
    subject: string, number: string, title: string,
    requirementType: string, requirementSatisfied: string, credits: real)

  /** One area of `degree_requirements.general_education.areas`. */
  datatype GeAreaStatus = GeAreaStatus(name: string, status: string, required: real, earned: real)

  /** One entry of `credit_requirements`. */
  datatype CreditRequirement = CreditRequirement(labelText: string, needed: real)

  /** One entry of `additional_programs` (a minor or concentration). */
  datatype AdditionalProgram = AdditionalProgram(
    progType: string, name: string, status: string, creditsRequired: real, creditsEarned: real)

  /** The parts of a parsed program evaluation the extractor reads; a
      missing list is empty. */
  datatype ParsedEvaluation = ParsedEvaluation(
    remainingRequired: seq<RemainingCourse>, geAreas: seq<GeAreaStatus>,
    creditRequirements: seq<CreditRequirement>, additionalPrograms: seq<AdditionalProgram>)

  /** `(requirement_type or requirement_satisfied or "other").lower()` */
  function RequirementTypeText(c: RemainingCourse): string {
    Lower(if c.requirementType != "" then c.requirementType
          else if c.requirementSatisfied != "" then c.requirementSatisfied
          else "other")
  }

  /** The requirement type named by a lower-cased type text, by the first
      keyword group it contains. */
  function TypeFromText(t: string): RequirementType {
    if Contains(t, "core") || Contains(t, "major core") || Contains(t, "required") then MajorCore
    else if Contains(t, "elective") || Contains(t, "major elective") || Contains(t, "technical") then MajorElective
    else if Contains(t, "ge") || Contains(t, "general") || Contains(t, "inquiry") then GeneralEducation
    else if Contains(t, "minor") then Minor
    else if Contains(t, "concentration") then Concentration
    else Other
  }

  /** The descriptive label of a remaining course. */
  function CourseLabel(subject: string, number: string, title: string, typeText: string): string {
    if subject != "" && number != "" then subject + " " + number
    else if subject != "" then (if Contains(typeText, "elective") then subject + " Elective" else subject)
    else if title != "" then title
    else "Required Course"
  }

  /** The requirement one remaining course stands for. */
  function RemainingRequirement(c: RemainingCourse): DegreeRequirement {
    var subject := Upper(Strip(c.subject));
    var number := Strip(c.number);
    var title := Strip(c.title);
    var typeText := RequirementTypeText(c);
    DegreeRequirement(TypeFromText(typeText), CourseLabel(subject, number, title, typeText),
                      subject, number, title, c.credits, "")
  }

  function SomeRemaining(c: RemainingCourse): Option<DegreeRequirement> {
    Some(RemainingRequirement(c))
  }

  /** An area that is still needed, with what remains of its credits. */
  function GeRequirement(a: GeAreaStatus): Option<DegreeRequirement> {
    if a.status == "needed" || a.status == "in_progress" || a.earned < a.required then
      Some(DegreeRequirement(GeneralEducation, a.name, "", "", "",
                             if a.required - a.earned > 0.0 then a.required - a.earned else 0.0, a.name))
    else None
  }

  /** The capitals a text starts with (`re.match(r"([A-Z]+)", s)`), or "". */
  function LeadingCapitals(s: string): string {
    s[..UpperRun(s, 0)]
  }

  /** A credit requirement that still needs credits and names an elective. */
  function CreditElective(cr: CreditRequirement): Option<DegreeRequirement> {
    if cr.needed > 0.0 && Contains(Lower(cr.labelText), "elective") then
      Some(DegreeRequirement(MajorElective, cr.labelText + " Elective", LeadingCapitals(cr.labelText),
                             "", "", cr.needed, ""))
    else None
  }

  /** A minor or concentration still in progress. */
  function ProgramRequirement(p: AdditionalProgram): Option<DegreeRequirement> {
    if p.status == "in_progress" then
      var t := Lower(p.progType);
      var rt := if Contains(t, "minor") then Minor else if Contains(t, "concentration") then Concentration else Other;
      Some(DegreeRequirement(rt, p.name, "", "", "", p.creditsRequired - p.creditsEarned, ""))
    else None
  }

  /** What `extract_user_requirements` returns: the four sources, each in
      its own order, one after the other. */
  function UserRequirements(ev: ParsedEvaluation): seq<DegreeRequirement> {
    ValueSeq(ev.remainingRequired, SomeRemaining) + ValueSeq(ev.geAreas, GeRequirement)
    + ValueSeq(ev.creditRequirements, CreditElective) + ValueSeq(ev.additionalPrograms, ProgramRequirement)
  }

  /** `for x in xs: requirements.append(...)` for the entries `f` keeps. */
  method AppendRequirements<T>(acc: seq<DegreeRequirement>, xs: seq<T>, f: T -> Option<DegreeRequirement>)
    returns (reqs: seq<DegreeRequirement>)
    ensures reqs == acc + ValueSeq(xs, f)
  {
    reqs := acc;
    for i := 0 to |xs|
      invariant reqs == acc + ValueSeq(xs[..i], f)
    {
      ValueSeqStep(xs, f, i);
      var r := f(xs[i]);
      if r.Some? {
        reqs := reqs + [r.value];
      }
    }
    assert xs[..|xs|] == xs;
  }

  /** `_extract_requirements_from_remaining_courses` */
  method ExtractFromRemainingCourses(courses: seq<RemainingCourse>) returns (reqs: seq<DegreeRequirement>)
    ensures reqs == ValueSeq(courses, SomeRemaining)
  {
    reqs := AppendRequirements([], courses, SomeRemaining);
  }

  /** `_extract_ge_requirements` */
  method ExtractGeRequirements(areas: seq<GeAreaStatus>) returns (reqs: seq<DegreeRequirement>)
    ensures reqs == ValueSeq(areas, GeRequirement)
  {
    reqs := AppendRequirements([], areas, GeRequirement);
  }

  /** `extract_user_requirements`: remaining courses, then GE areas, then
      elective credit requirements, then programs in progress. */
  method ExtractUserRequirements(ev: ParsedEvaluation) returns (reqs: seq<DegreeRequirement>)
    ensures reqs == UserRequirements(ev)
  {
    var fromCourses := ExtractFromRemainingCourses(ev.remainingRequired);
    var fromGe := ExtractGeRequirements(ev.geAreas);
    reqs := fromCourses + fromGe;
    reqs := AppendRequirements(reqs, ev.creditRequirements, CreditElective);
    reqs := AppendRequirements(reqs, ev.additionalPrograms, ProgramRequirement);
  }

  /** Every remaining course yields exactly one requirement, in order:
      nothing is merged or dropped. */
  lemma EveryCourseKept(courses: seq<RemainingCourse>)
    ensures |ValueSeq(courses, SomeRemaining)| == |courses|
    ensures forall i :: 0 <= i < |courses| ==> ValueSeq(courses, SomeRemaining)[i] == SomeRemaining(courses[i]).value
  {
    AllValuesKept(courses, SomeRemaining);
  }

  /** When `f` keeps every entry, the values are the entries' images in
      order. */
  lemma {:induction false} AllValuesKept<T, U>(xs: seq<T>, f: T -> Option<U>)
    requires forall x :: f(x).Some?
    ensures |ValueSeq(xs, f)| == |xs|
    ensures forall i :: 0 <= i < |xs| ==> ValueSeq(xs, f)[i] == f(xs[i]).value
  {
    if xs != [] {
      var n := |xs| - 1;
      AllValuesKept(xs[..n], f);
    }
  }

  /** A remaining course's requirement keeps its credits, has no area and
      always a label: "SUBJ NUM" when both parts are present, the fallback
      "Required Course" when neither subject nor title is. */
  lemma RemainingRequirementShape(c: RemainingCourse)
    ensures var r := RemainingRequirement(c);
      && r.labelText != "" && r.area == "" && r.creditsNeeded == c.credits
      && (r.subject != "" && r.number != "" ==> r.labelText == r.subject + " " + r.number)
      && (r.subject == "" && r.title == "" ==> r.labelText == "Required Course")
      && (forall i :: 0 <= i < |r.subject| ==> !IsLower(r.subject[i]))
  {
  }

  /** The "major core" and "major elective" keywords never decide: each
      contains the shorter keyword tested before it. */
  lemma TypeKeywordsRedundant(t: string)
    ensures TypeFromText(t) == MajorCore <==> Contains(t, "core") || Contains(t, "required")
    ensures TypeFromText(t) == MajorElective <==>
      !Contains(t, "core") && !Contains(t, "required") && (Contains(t, "elective") || Contains(t, "technical"))
  {
    if Contains(t, "major core") {
      assert "major core"[6..] == "core";
      ContainsAt("major core", "core", 6);
      ContainsTransitive(t, "major core", "core");
    }
    if Contains(t, "major elective") {
      assert "major elective"[6..] == "elective";
      ContainsAt("major elective", "elective", 6);
      ContainsTransitive(t, "major elective", "elective");
    }
  }

  /** A course with neither type field is read as "other", which names no
      type. */
  lemma UntypedCourseIsOther(c: RemainingCourse)
    requires c.requirementType == "" && c.requirementSatisfied == ""
    ensures RemainingRequirement(c).reqType == Other
  {
    var t := RequirementTypeText(c);
    assert t == "other";
    OtherNamesNoType(t);
  }

  lemma OtherNamesNoType(t: string)
    requires t == "other"
    ensures TypeFromText(t) == Other
  {
    MissingCharNotContained(t, "core", 0);
    MissingCharNotContained(t, "major core", 0);
    MissingCharNotContained(t, "required", 2);
    MissingCharNotContained(t, "elective", 1);
    MissingCharNotContained(t, "major elective", 0);
    MissingCharNotContained(t, "technical", 2);
    MissingCharNotContained(t, "ge", 0);
    MissingCharNotContained(t, "general", 0);
    MissingCharNotContained(t, "inquiry", 2);
    MissingCharNotContained(t, "minor", 0);
    MissingCharNotContained(t, "concentration", 0);
  }

  /** A GE area is kept when marked needed or in progress or short of
      credits, and then needs `max(0, required - earned)` credits: never a
      negative number, the shortfall when there is one. */
  lemma GeRequirementNeed(a: GeAreaStatus)
    ensures GeRequirement(a).Some? <==> a.status == "needed" || a.status == "in_progress" || a.earned < a.required
    ensures GeRequirement(a).Some? ==> var r := GeRequirement(a).value;
      && r.reqType == GeneralEducation && r.labelText == a.name && r.area == a.name
      && r.creditsNeeded >= 0.0
      && (a.earned < a.required ==> r.creditsNeeded == a.required - a.earned)
      && (a.earned >= a.required ==> r.creditsNeeded == 0.0)
  {
  }

  /** An elective credit requirement is kept only while credits are
      needed; its label gains " Elective" and its subject is the run of
      capitals the label starts with. */
  lemma CreditElectiveShape(cr: CreditRequirement)
    ensures CreditElective(cr).Some? ==> var r := CreditElective(cr).value;
      && cr.needed > 0.0 && r.creditsNeeded == cr.needed && r.reqType == MajorElective
      && EndsWith(r.labelText, " Elective") && StartsWith(cr.labelText, r.subject)
      && AllUpper(r.subject)
    ensures cr.needed <= 0.0 ==> CreditElective(cr).None?
  {
    if CreditElective(cr).Some? {
      ConcatEnds(cr.labelText, " Elective");
      UpperRunMaximal(cr.labelText, 0);
    }
  }

  /** Only programs in progress are kept, as a minor, a concentration or
      another requirement, needing the credits not yet earned. */
  lemma ProgramRequirementShape(p: AdditionalProgram)
    ensures ProgramRequirement(p).Some? <==> p.status == "in_progress"
    ensures ProgramRequirement(p).Some? ==> var r := ProgramRequirement(p).value;
      && r.reqType in {Minor, Concentration, Other} && r.labelText == p.name
      && r.creditsNeeded == p.creditsRequired - p.creditsEarned
  {
  }

  /** The result starts with one requirement per remaining course, in the
      courses' order, and no later source removes or merges any. */
  lemma UserRequirementsOrder(ev: ParsedEvaluation)
    ensures var r, n := UserRequirements(ev), |ev.remainingRequired|;
      && |r| == n + |ValueSeq(ev.geAreas, GeRequirement)| + |ValueSeq(ev.creditRequirements, CreditElective)|
                  + |ValueSeq(ev.additionalPrograms, ProgramRequirement)|
      && forall i :: 0 <= i < n ==> r[i] == RemainingRequirement(ev.remainingRequired[i])
  {
    EveryCourseKept(ev.remainingRequired);
  }

  /** Every GE area still needed appears among the user's requirements. */
  lemma NeededGeAreaListed(ev: ParsedEvaluation, i: nat)
    requires i < |ev.geAreas| && ev.geAreas[i].earned < ev.geAreas[i].required
    ensures GeRequirement(ev.geAreas[i]).value in UserRequirements(ev)
  {
    ValueSeqMembers(ev.geAreas, GeRequirement, GeRequirement(ev.geAreas[i]).value);
  }

  // ---------------------------------------------------------------------------
  // match_class_to_requirements
  // ---------------------------------------------------------------------------

  /** `int(n.rstrip("ABC...Z"))`; None where Python raises. */
  function NumberValue(n: string): Option<int> {
    ParseInt(RStripWhile(n, IsUpper))
  }

  /** The class number compared against course levels: 0 when it does not
      parse. */
  function ClassLevel(n: string): int {
    match NumberValue(n)
    case Some(v) => v
    case None => 0
  }

  /** The label marks a graduate requirement (the elective and core
      branches). */
  predicate GradLabel(labelText: string) {
    var l := Lower(labelText);
    Contains(l, "graduate") || Contains(labelText, "500") || Contains(l, "grad")
    || Contains(l, "ms ") || Contains(l, "m.s.")
  }

  /** The shorter list of indicators the subject-only branch checks. */
  predicate GradLabelShort(labelText: string) {
    var l := Lower(labelText);
    Contains(l, "graduate") || Contains(labelText, "500") || Contains(l, "grad")
  }

  /** Words the title comparison ignores. */
  const IgnoredWords: set<string> := {"and", "or", "the", "a", "an", "in", "of", "for", "to", "i", "ii", "iii"}

  /** The distinct lower-cased words of a title, less the ignored ones. */
  function SignificantWords(title: string): set<string> {
    Tokens(Lower(title)) - IgnoredWords
  }

  /** At least one shared significant word, covering at least half of the
      requirement's significant words. */
  predicate TitleOverlap(reqTitle: string, classTitle: string) {
    var rw, cw := SignificantWords(reqTitle), SignificantWords(classTitle);
    rw != {} && cw != {} && |rw * cw| >= 1 && 2 * |rw * cw| >= |rw|
  }

  /** Which branch of the matcher's if/elif chain a requirement takes. */
  datatype Branch = DirectCourse | SubjectTitle | GeAreaBranch | ElectiveLevel | CoreLevel
                  | SubjectOnly | TitleWords | NoBranch

  function BranchOf(r: DegreeRequirement): Branch {
    if r.subject != "" && r.number != "" then DirectCourse
    else if r.subject != "" && r.number == "" && r.title != "" then SubjectTitle
    else if r.reqType == GeneralEducation && r.area != "" then GeAreaBranch
    else if r.reqType == MajorElective && r.subject != "" then ElectiveLevel
    else if r.reqType == MajorCore && r.subject != "" then CoreLevel
    else if r.subject != "" && r.number == "" then SubjectOnly
    else if r.title != "" && r.subject == "" then TitleWords
    else NoBranch
  }

  /** Whether the class satisfies the requirement, by the requirement's
      branch. */
  predicate Matches(c: SectionData, r: DegreeRequirement) {
    var level := ClassLevel(c.number);
    match BranchOf(r)
    case DirectCourse =>
      c.subject == r.subject && (c.number == r.number || NumberValue(r.number) == Some(level))
    case SubjectTitle =>
      var rt, ct := Lower(r.title), Lower(c.title);
      c.subject == r.subject
      && (Contains(ct, rt) || Contains(rt, ct) || (r.creditsNeeded > 0.0 && c.credits == r.creditsNeeded))
    case GeAreaBranch => IsGeCourse(c.subject, c.number, r.area)
    case ElectiveLevel => c.subject == r.subject && level >= (if GradLabel(r.labelText) then 500 else 300)
    case CoreLevel => c.subject == r.subject && (GradLabel(r.labelText) ==> level >= 500)
    case SubjectOnly => c.subject == r.subject && (GradLabelShort(r.labelText) ==> level >= 500)
    case TitleWords => TitleOverlap(r.title, c.title)
    case NoBranch => false
  }

  /** The badge shown for a satisfied requirement. */
  function BadgeOf(r: DegreeRequirement): RequirementBadge {
    RequirementBadge(r.reqType, r.labelText, ShortLabel(r.reqType, r.labelText), RequirementColor(r.reqType))
  }

  function Labels(bs: seq<RequirementBadge>): set<string> {
    set b | b in bs :: b.labelText
  }

  function ReqLabels(rs: seq<DegreeRequirement>): set<string> {
    set r | r in rs :: r.labelText
  }

  /** The requirements that earn a badge, in order: each satisfies `ok` and
      no earlier one kept carries its label. */
  function Earning(reqs: seq<DegreeRequirement>, ok: DegreeRequirement -> bool): seq<DegreeRequirement>
    decreases |reqs|
  {
    if reqs == [] then []
    else
      var prev := Earning(reqs[..|reqs| - 1], ok);
      var r := reqs[|reqs| - 1];
      if r.labelText !in ReqLabels(prev) && ok(r) then prev + [r] else prev
  }

  function BadgesOf(rs: seq<DegreeRequirement>): (bs: seq<RequirementBadge>)
    ensures |bs| == |rs| && forall i :: 0 <= i < |rs| ==> bs[i] == BadgeOf(rs[i])
  {
    seq(|rs|, i requires 0 <= i < |rs| => BadgeOf(rs[i]))
  }

  /** The badges match_class_to_requirements returns. */
  function MatchedBadges(c: SectionData, reqs: seq<DegreeRequirement>): seq<RequirementBadge> {
    BadgesOf(Earning(reqs, r => Matches(c, r)))
  }

  method MatchClassToRequirements(cls: ClassSection, reqs: seq<DegreeRequirement>)
    returns (badges: seq<RequirementBadge>)
    ensures badges == MatchedBadges(cls.data, reqs)
  {
    ghost var ok := r => Matches(cls.data, r);
    ghost var earned: seq<DegreeRequirement> := [];
    badges := [];
    var seen: set<string> := {};
    var i := 0;
    while i < |reqs|
      invariant 0 <= i <= |reqs|
      invariant earned == Earning(reqs[..i], ok)
      invariant badges == BadgesOf(earned)
      invariant seen == ReqLabels(earned)
    {
      var r := reqs[i];
      assert reqs[..i + 1][..i] == reqs[..i];
      if r.labelText !in seen && Matches(cls.data, r) {
        seen := seen + {r.labelText};
        earned := earned + [r];
        badges := badges + [BadgeOf(r)];
      }
      i := i + 1;
    }
    assert reqs[..i] == reqs;
  }

  /** A label is kept exactly when some requirement with that label
      satisfies `ok`. */
  lemma {:induction false} EarningLabels(reqs: seq<DegreeRequirement>, ok: DegreeRequirement -> bool)
    ensures forall l :: l in ReqLabels(Earning(reqs, ok)) <==>
      exists k :: 0 <= k < |reqs| && ok(reqs[k]) && reqs[k].labelText == l
    decreases |reqs|
  {
    if reqs != [] {
      var pre := reqs[..|reqs| - 1];
      var r := reqs[|reqs| - 1];
      EarningLabels(pre, ok);
      var prev := Earning(pre, ok);
      var es := Earning(reqs, ok);
      assert forall x :: x in prev ==> x in es;
      forall l
        ensures l in ReqLabels(es) <==> exists k :: 0 <= k < |reqs| && ok(reqs[k]) && reqs[k].labelText == l
      {
        if l in ReqLabels(prev) {
          var k :| 0 <= k < |pre| && ok(pre[k]) && pre[k].labelText == l;
          assert reqs[k] == pre[k];
          var x :| x in prev && x.labelText == l;
          assert x in es;
        } else if l == r.labelText && ok(r) {
          assert es == prev + [r];
          assert r in es;
        } else {
          assert l !in ReqLabels(es) by {
            if r.labelText !in ReqLabels(prev) && ok(r) {
              assert es == prev + [r];
              assert ReqLabels(es) == ReqLabels(prev) + {r.labelText};
            }
          }
          forall k | 0 <= k < |reqs| && ok(reqs[k]) ensures reqs[k].labelText != l {
            if k < |pre| {
              assert pre[k] == reqs[k];
            }
          }
        }
      }
    }
  }

  predicate Distinct(rs: seq<DegreeRequirement>) {
    forall i, j :: 0 <= i < j < |rs| ==> rs[i].labelText != rs[j].labelText
  }

  /** No two kept requirements carry the same label. */
  lemma {:induction false} EarningDistinct(reqs: seq<DegreeRequirement>, ok: DegreeRequirement -> bool)
    ensures Distinct(Earning(reqs, ok))
    decreases |reqs|
  {
    if reqs != [] {
      var pre := reqs[..|reqs| - 1];
      var r := reqs[|reqs| - 1];
      EarningDistinct(pre, ok);
      var prev := Earning(pre, ok);
      if r.labelText !in ReqLabels(prev) && ok(r) {
        var es := prev + [r];
        assert es == Earning(reqs, ok);
        forall i, j | 0 <= i < j < |es| ensures es[i].labelText != es[j].labelText {
          if j == |prev| {
            assert prev[i] in prev;
            assert prev[i].labelText in ReqLabels(prev);
            assert es[i] == prev[i] && es[j] == r;
            assert prev[i].labelText != r.labelText;
          } else {
            assert es[i] == prev[i] && es[j] == prev[j];
            assert prev[i].labelText != prev[j].labelText;
          }
        }
      }
    }
  }

  /** Every kept requirement is one of the inputs and satisfies `ok`. */
  lemma {:induction false} EarningSound(reqs: seq<DegreeRequirement>, ok: DegreeRequirement -> bool)
    ensures forall r :: r in Earning(reqs, ok) ==> r in reqs && ok(r)
    decreases |reqs|
  {
    if reqs != [] {
      var pre := reqs[..|reqs| - 1];
      EarningSound(pre, ok);
      assert forall r :: r in pre ==> r in reqs;
    }
  }

  /** What is kept from a prefix of the requirements is a prefix of what is
      kept from all of them. */
  lemma {:induction false} EarningPrefix(reqs: seq<DegreeRequirement>, ok: DegreeRequirement -> bool, m: nat)
    requires m <= |reqs|
    ensures var es, ps := Earning(reqs, ok), Earning(reqs[..m], ok);
      |ps| <= |es| && es[..|ps|] == ps
    decreases |reqs|
  {
    if m < |reqs| {
      var pre := reqs[..|reqs| - 1];
      assert pre[..m] == reqs[..m];
      EarningPrefix(pre, ok, m);
    } else {
      assert reqs[..m] == reqs;
    }
  }

  /** The first requirement with a given label to satisfy `ok` is kept. */
  lemma EarningFirst(reqs: seq<DegreeRequirement>, ok: DegreeRequirement -> bool, k: nat)
    requires k < |reqs| && ok(reqs[k])
    requires forall j :: 0 <= j < k && reqs[j].labelText == reqs[k].labelText ==> !ok(reqs[j])
    ensures reqs[k] in Earning(reqs, ok)
  {
    var pre := reqs[..k];
    EarningLabels(pre, ok);
    assert reqs[..k + 1][..k] == pre;
    assert reqs[k].labelText !in ReqLabels(Earning(pre, ok)) by {
      forall j | 0 <= j < k && ok(pre[j]) ensures pre[j].labelText != reqs[k].labelText {
        assert pre[j] == reqs[j];
      }
    }
    EarningPrefix(reqs, ok, k + 1);
    var ps := Earning(reqs[..k + 1], ok);
    assert ps[|ps| - 1] == reqs[k];
    assert Earning(reqs, ok)[|ps| - 1] == reqs[k];
  }

  /** A label has a badge exactly when some requirement with that label
      matches the class. */
  lemma MatchedLabels(c: SectionData, reqs: seq<DegreeRequirement>)
    ensures forall l :: l in Labels(MatchedBadges(c, reqs)) <==>
      exists k :: 0 <= k < |reqs| && Matches(c, reqs[k]) && reqs[k].labelText == l
  {
    var ok := r => Matches(c, r);
    var es := Earning(reqs, ok);
    EarningLabels(reqs, ok);
    var bs := MatchedBadges(c, reqs);
    forall l ensures l in Labels(bs) <==> l in ReqLabels(es) {
      if l in Labels(bs) {
        var b :| b in bs && b.labelText == l;
        var i :| 0 <= i < |bs| && bs[i] == b;
        assert es[i] in es;
      }
      if l in ReqLabels(es) {
        var r :| r in es && r.labelText == l;
        var i :| 0 <= i < |es| && es[i] == r;
        assert bs[i] in bs;
      }
    }
  }

  /** Each badge is that of a requirement the class matches. */
  lemma MatchedBadgesSound(c: SectionData, reqs: seq<DegreeRequirement>)
    ensures var bs := MatchedBadges(c, reqs);
      forall i :: 0 <= i < |bs| ==> exists r :: r in reqs && Matches(c, r) && bs[i] == BadgeOf(r)
  {
    var ok := r => Matches(c, r);
    var es := Earning(reqs, ok);
    EarningSound(reqs, ok);
    var bs := MatchedBadges(c, reqs);
    forall i | 0 <= i < |bs| ensures exists r :: r in reqs && Matches(c, r) && bs[i] == BadgeOf(r) {
      assert es[i] in es;
      assert ok(es[i]);
      assert bs[i] == BadgeOf(es[i]);
    }
  }

  /** No two badges carry the same label. */
  lemma MatchedLabelsDistinct(c: SectionData, reqs: seq<DegreeRequirement>)
    ensures var bs := MatchedBadges(c, reqs);
      forall i, j :: 0 <= i < j < |bs| ==> bs[i].labelText != bs[j].labelText
  {
    var ok := r => Matches(c, r);
    EarningDistinct(reqs, ok);
    var es := Earning(reqs, ok);
    var bs := MatchedBadges(c, reqs);
    assert forall i :: 0 <= i < |bs| ==> bs[i].labelText == es[i].labelText;
  }

  /** The first requirement with a given label that the class matches is
      the one whose badge is shown. */
  lemma FirstMatchShown(c: SectionData, reqs: seq<DegreeRequirement>, k: nat)
    requires k < |reqs| && Matches(c, reqs[k])
    requires forall j :: 0 <= j < k && reqs[j].labelText == reqs[k].labelText ==> !Matches(c, reqs[j])
    ensures BadgeOf(reqs[k]) in MatchedBadges(c, reqs)
  {
    var ok := r => Matches(c, r);
    EarningFirst(reqs, ok, k);
    var es := Earning(reqs, ok);
    var i :| 0 <= i < |es| && es[i] == reqs[k];
    assert MatchedBadges(c, reqs)[i] == BadgeOf(reqs[k]);
  }

  /** One requirement gives its badge exactly when the class matches it. */
  lemma SingleRequirement(c: SectionData, r: DegreeRequirement)
    ensures MatchedBadges(c, [r]) == if Matches(c, r) then [BadgeOf(r)] else []
  {
    var ok := x => Matches(c, x);
    assert [r][..0] == [];
    assert Earning([r], ok) == if ok(r) then [r] else [];
  }

  /** A run of digits reads as its value. */
  lemma DigitsNumberValue(d: string)
    requires d != [] && AllDigits(d)
    ensures NumberValue(d) == Some(DigitsValue(d) as int) && ClassLevel(d) == DigitsValue(d)
  {
    assert RStripWhile(d, IsUpper) == d;
    StripNoop(d);
    DigitGroupAll(d);
  }

  /** The value of a three-digit course number. */
  lemma ThreeDigitLevel(d: string)
    requires |d| == 3 && AllDigits(d)
    ensures ClassLevel(d) == 100 * DigitValue(d[0]) + 10 * DigitValue(d[1]) + DigitValue(d[2])
  {
    DigitsNumberValue(d);
    assert d[..2][..1] == d[..1];
    assert DigitsValue(d[..1]) == DigitValue(d[0]);
    assert DigitsValue(d[..2]) == DigitsValue(d[..1]) * 10 + DigitValue(d[1]);
    assert DigitsValue(d) == DigitsValue(d[..2]) * 10 + DigitValue(d[2]);
  }

  /** A trailing capital (a lab or honors suffix) is ignored. */
  lemma SuffixedNumberValue(d: string, suffix: char)
    requires d != [] && AllDigits(d) && IsUpper(suffix)
    ensures NumberValue(d + [suffix]) == NumberValue(d)
  {
    assert (d + [suffix])[..|d|] == d;
    assert RStripWhile(d + [suffix], IsUpper) == RStripWhile(d, IsUpper);
  }

  /** The conditions under which each branch is taken. */
  lemma BranchConditions(r: DegreeRequirement)
    ensures BranchOf(r) == DirectCourse <==> r.subject != "" && r.number != ""
    ensures BranchOf(r) == SubjectTitle <==> r.subject != "" && r.number == "" && r.title != ""
    ensures BranchOf(r) == GeAreaBranch <==>
      r.reqType == GeneralEducation && r.area != "" && (r.subject == "" || (r.number == "" && r.title == ""))
    ensures BranchOf(r) == ElectiveLevel <==>
      r.subject != "" && r.number == "" && r.title == "" && r.reqType == MajorElective
    ensures BranchOf(r) == CoreLevel <==>
      r.subject != "" && r.number == "" && r.title == "" && r.reqType == MajorCore
    ensures BranchOf(r) == SubjectOnly <==>
      r.subject != "" && r.number == "" && r.title == "" && r.reqType !in {MajorElective, MajorCore}
      && !(r.reqType == GeneralEducation && r.area != "")
    ensures BranchOf(r) == TitleWords <==>
      r.subject == "" && r.title != "" && !(r.reqType == GeneralEducation && r.area != "")
    ensures BranchOf(r) == NoBranch <==>
      r.subject == "" && r.title == "" && !(r.reqType == GeneralEducation && r.area != "")
  {
  }

  /** Outside the GE-area and title branches a match needs the same
      subject. */
  lemma MatchNeedsSubject(c: SectionData, r: DegreeRequirement)
    requires Matches(c, r) && BranchOf(r) != GeAreaBranch && BranchOf(r) != TitleWords
    ensures c.subject == r.subject
  {
  }

  /** The exact course always matches its own requirement. */
  lemma ExactCourseMatches(c: SectionData, r: DegreeRequirement)
    requires r.subject != "" && r.number != "" && c.subject == r.subject && c.number == r.number
    ensures Matches(c, r)
  {
  }

  /** "350" and "350L" match each other, in either role. */
  lemma NumberVariantMatches(c: SectionData, r: DegreeRequirement, d: string, suffix: char)
    requires r.subject != "" && c.subject == r.subject
    requires d != [] && AllDigits(d) && IsUpper(suffix)
    requires (c.number == d && r.number == d + [suffix]) || (c.number == d + [suffix] && r.number == d)
    ensures Matches(c, r)
  {
    DigitsNumberValue(d);
    SuffixedNumberValue(d, suffix);
  }

  /** A graduate elective or core requirement takes only classes numbered
      500 or above; any other elective requirement at least 300. */
  lemma LevelBounds(c: SectionData, r: DegreeRequirement)
    requires Matches(c, r)
    ensures (BranchOf(r) == ElectiveLevel || BranchOf(r) == CoreLevel) && GradLabel(r.labelText) ==>
      ClassLevel(c.number) >= 500
    ensures BranchOf(r) == ElectiveLevel ==> ClassLevel(c.number) >= 300
    ensures BranchOf(r) == SubjectOnly && GradLabelShort(r.labelText) ==> ClassLevel(c.number) >= 500
  {
  }

  /** An undergraduate core or subject-only requirement takes any class of
      its subject. */
  lemma UndergradSubjectMatches(c: SectionData, r: DegreeRequirement)
    requires c.subject == r.subject
    requires (BranchOf(r) == CoreLevel && !GradLabel(r.labelText))
          || (BranchOf(r) == SubjectOnly && !GradLabelShort(r.labelText))
    ensures Matches(c, r)
  {
  }

  /** "graduate" adds nothing to "grad"; the subject-only indicators are a
      subset of the others. */
  lemma GradKeywordsRedundant(labelText: string)
    ensures var l := Lower(labelText);
      GradLabel(labelText) <==>
        Contains(l, "grad") || Contains(labelText, "500") || Contains(l, "ms ") || Contains(l, "m.s.")
    ensures GradLabelShort(labelText) ==> GradLabel(labelText)
  {
    var l := Lower(labelText);
    if Contains(l, "graduate") {
      assert "graduate"[..4] == "grad";
      ContainsAt("graduate", "grad", 0);
      ContainsTransitive(l, "graduate", "grad");
    }
  }

  /** Any label containing "ms " reads as graduate, such as a word ending
      in "ms": an "Operating Systems Elective" asks for 500-level classes. */
  lemma SystemsLabelReadAsGraduate(labelText: string)
    requires labelText == "Operating Systems Elective"
    ensures GradLabel(labelText)
  {
    var l := Lower(labelText);
    assert l[15..18] == "ms ";
    ContainsAt(l, "ms ", 15);
  }

  /** A class whose title equals the requirement's matches it in the
      subject-and-title branch and, when the title has a significant word,
      in the title-only branch. */
  lemma SameTitleMatches(c: SectionData, r: DegreeRequirement)
    requires c.title == r.title
    requires (BranchOf(r) == SubjectTitle && c.subject == r.subject)
          || (BranchOf(r) == TitleWords && SignificantWords(r.title) != {})
    ensures Matches(c, r)
  {
    var t := Lower(r.title);
    assert t[0..|t|] == t;
    ContainsAt(t, t, 0);
    var w := SignificantWords(r.title);
    assert w * w == w;
  }

  /** Within its subject, an elective requirement takes exactly the classes
      at its level: 500 for a graduate label, else 300. */
  lemma ElectiveLevelRule(c: SectionData, r: DegreeRequirement)
    requires BranchOf(r) == ElectiveLevel && c.subject == r.subject
    ensures Matches(c, r) <==> ClassLevel(c.number) >= (if GradLabel(r.labelText) then 500 else 300)
  {
  }

  lemma Contains500(labelText: string, k: nat)
    requires k + 3 <= |labelText| && labelText[k..k + 3] == "500"
    ensures GradLabel(labelText)
  {
    ContainsAt(labelText, "500", k);
  }

  /** CPSC 510 satisfies "Graduate CPSC 500". */
  lemma GraduateClassExample(grad: SectionData, r: DegreeRequirement)
    requires grad.subject == "CPSC" && grad.number == "510"
    requires r == DegreeRequirement(MajorElective, "Graduate CPSC 500", "CPSC", "", "", 3.0, "")
    ensures Matches(grad, r)
  {
    Contains500(r.labelText, 14);
    ThreeDigitLevel(grad.number);
    ElectiveLevelRule(grad, r);
  }

  /** CPSC 230 does not satisfy "Graduate CPSC 500". */
  lemma UndergradClassExample(undergrad: SectionData, r: DegreeRequirement)
    requires undergrad.subject == "CPSC" && undergrad.number == "230"
    requires r == DegreeRequirement(MajorElective, "Graduate CPSC 500", "CPSC", "", "", 3.0, "")
    ensures !Matches(undergrad, r)
  {
    Contains500(r.labelText, 14);
    ThreeDigitLevel(undergrad.number);
    ElectiveLevelRule(undergrad, r);
  }

  /** A 590 seminar satisfies "CPSC 500 Elective". */
  lemma SubjectElectiveExample(seminar: SectionData, r: DegreeRequirement)
    requires seminar.subject == "CPSC" && seminar.number == "590"
    requires r == DegreeRequirement(MajorElective, "CPSC 500 Elective", "CPSC", "", "", 1.0, "")
    ensures Matches(seminar, r)
  {
    Contains500(r.labelText, 5);
    ThreeDigitLevel(seminar.number);
    ElectiveLevelRule(seminar, r);
  }

  // ---------------------------------------------------------------------------
  // enrich_classes_with_requirements
  // ---------------------------------------------------------------------------

  /** Overwrites every class's badges with those it earns against `reqs`. A
      class listed twice is matched twice, to the same result. */
  method EnrichClassesWithRequirements(classes: seq<ClassSection>, reqs: seq<DegreeRequirement>)
    returns (enriched: seq<ClassSection>)
    modifies set c | c in classes
    ensures enriched == classes
    ensures forall c :: c in classes ==> c.requirementsSatisfied == MatchedBadges(c.data, reqs)
  {
    var i := 0;
    while i < |classes|
      invariant 0 <= i <= |classes|
      invariant forall j :: 0 <= j < i ==> classes[j].requirementsSatisfied == MatchedBadges(classes[j].data, reqs)
    {
      var badges := MatchClassToRequirements(classes[i], reqs);
      classes[i].requirementsSatisfied := badges;
      i := i + 1;
    }
    enriched := classes;
  }

  // ---------------------------------------------------------------------------
  // get_eecs_requirement_badge
  // ---------------------------------------------------------------------------

  /** EECS_CATEGORY_LABELS: the label and type of each category, with the
      lookup's default. */
  function CategoryLabel(key: string): (string, RequirementType) {
    if key == "ethics_core" then ("Ethics Core", MajorCore)
    else if key == "leadership_core" then ("Leadership Core", MajorCore)
    else if key == "computing_systems" then ("Technical Core - Computing Systems", MajorElective)
    else if key == "data_science_intelligent_systems" then ("Technical Core - Data Science & AI", MajorElective)
    else if key == "electrical_systems" then ("Technical Core - Electrical Systems", MajorElective)
    else if key == "mastery" then ("Mastery Demonstration", MajorCore)
    else ("EECS Elective", MajorElective)
  }

  /** The short label, chosen by the first keyword the key contains. */
  function CategoryShortLabel(key: string): string {
    if Contains(key, "ethics") then "Ethics"
    else if Contains(key, "leadership") then "Lead"
    else if Contains(key, "computing") then "Tech-CS"
    else if Contains(key, "data_science") then "Tech-DS"
    else if Contains(key, "electrical") then "Tech-EE"
    else if Contains(key, "mastery") then "Thesis"
    else "EECS"
  }

  function CategoryBadge(key: string): RequirementBadge {
    var (labelText, t) := CategoryLabel(key);
    RequirementBadge(t, labelText, CategoryShortLabel(key), RequirementColor(t))
  }

  lemma EthicsShortLabel(key: string)
    requires key == "ethics_core"
    ensures CategoryShortLabel(key) == "Ethics"
  {
    assert key[..6] == "ethics";
    ContainsAt(key, "ethics", 0);
  }

  lemma LeadershipShortLabel(key: string)
    requires key == "leadership_core"
    ensures CategoryShortLabel(key) == "Lead"
  {
    MissingCharNotContained(key, "ethics", 1);
    assert key[..10] == "leadership";
    ContainsAt(key, "leadership", 0);
  }

  lemma ComputingShortLabel(key: string)
    requires key == "computing_systems"
    ensures CategoryShortLabel(key) == "Tech-CS"
  {
    MissingCharNotContained(key, "ethics", 2);
    MissingCharNotContained(key, "leadership", 0);
    assert key[..9] == "computing";
    ContainsAt(key, "computing", 0);
  }

  lemma DataScienceShortLabel(key: string)
    requires key == "data_science_intelligent_systems"
    ensures CategoryShortLabel(key) == "Tech-DS"
  {
    MissingCharNotContained(key, "ethics", 2);
    MissingCharNotContained(key, "leadership", 7);
    MissingCharNotContained(key, "computing", 1);
    assert key[..12] == "data_science";
    ContainsAt(key, "data_science", 0);
  }

  lemma ElectricalShortLabel(key: string)
    requires key == "electrical_systems"
    ensures CategoryShortLabel(key) == "Tech-EE"
  {
    MissingCharNotContained(key, "ethics", 2);
    MissingCharNotContained(key, "leadership", 7);
    MissingCharNotContained(key, "computing", 1);
    MissingCharNotContained(key, "data_science", 0);
    assert key[..10] == "electrical";
    ContainsAt(key, "electrical", 0);
  }

  lemma MasteryShortLabel(key: string)
    requires key == "mastery"
    ensures CategoryShortLabel(key) == "Thesis"
  {
    MissingCharNotContained(key, "ethics", 2);
    MissingCharNotContained(key, "leadership", 0);
    MissingCharNotContained(key, "computing", 1);
    MissingCharNotContained(key, "data_science", 0);
    MissingCharNotContained(key, "electrical", 1);
    assert key[..7] == "mastery";
    ContainsAt(key, "mastery", 0);
  }

  /** Every category has its own label and short label: neither default is
      ever shown. */
  lemma CategoryBadgeKnown(key: string)
    requires IsCategory(key)
    ensures CategoryLabel(key).0 != "EECS Elective" && CategoryShortLabel(key) != "EECS"
    ensures CategoryLabel(key).1 == (if key in {"ethics_core", "leadership_core", "mastery"} then MajorCore else MajorElective)
  {
    if key == "ethics_core" {
      EthicsShortLabel(key);
    } else if key == "leadership_core" {
      LeadershipShortLabel(key);
    } else if key == "computing_systems" {
      ComputingShortLabel(key);
    } else if key == "data_science_intelligent_systems" {
      DataScienceShortLabel(key);
    } else if key == "electrical_systems" {
      ElectricalShortLabel(key);
    } else {
      MasteryShortLabel(key);
    }
  }

  /** The first of `keys` that `has` accepts. */
  function FirstKey(keys: seq<string>, has: string -> bool): Option<string>
    decreases |keys|
  {
    if keys == [] then None
    else if has(keys[0]) then Some(keys[0])
    else FirstKey(keys[1..], has)
  }

  /** The categories that list `code`. */
  function Lists(doc: RequirementsDoc, code: string): string -> bool {
    key => code in CategoryCodes(doc, key)
  }

  /** The badge get_eecs_requirement_badge returns for a course code: that
      of the first category, in table order, that lists it. */
  function EecsBadge(doc: RequirementsDoc, code: string): Option<RequirementBadge> {
    match FirstKey(CategoryKeys, Lists(doc, code))
    case None => None
    case Some(key) => Some(CategoryBadge(key))
  }

  method EecsRequirementBadge(doc: RequirementsDoc, code: string) returns (badge: Option<RequirementBadge>)
    ensures badge == EecsBadge(doc, code)
  {
    var categorized := CategorizedCourses(doc);
    ghost var has := Lists(doc, code);
    var i := 0;
    while i < |CategoryKeys|
      invariant 0 <= i <= |CategoryKeys|
      invariant FirstKey(CategoryKeys, has) == FirstKey(CategoryKeys[i..], has)
    {
      var key := CategoryKeys[i];
      assert key in CategorySet;
      if code in categorized[key] {
        assert has(key);
        return Some(CategoryBadge(key));
      }
      assert CategoryKeys[i..][1..] == CategoryKeys[i + 1..];
      i := i + 1;
    }
    return None;
  }

  /** The key found is accepted, and no earlier one is; a key is found
      whenever one is accepted. */
  lemma {:induction false} FirstKeySpec(keys: seq<string>, has: string -> bool)
    ensures FirstKey(keys, has).Some? <==> exists k :: 0 <= k < |keys| && has(keys[k])
    ensures FirstKey(keys, has).Some? ==>
      exists k :: 0 <= k < |keys| && keys[k] == FirstKey(keys, has).value && has(keys[k])
        && forall j :: 0 <= j < k ==> !has(keys[j])
    decreases |keys|
  {
    if keys != [] && !has(keys[0]) {
      var rest := keys[1..];
      FirstKeySpec(rest, has);
      assert forall k :: 1 <= k < |keys| ==> keys[k] == rest[k - 1];
      if FirstKey(keys, has).Some? {
        var k :| 0 <= k < |rest| && rest[k] == FirstKey(keys, has).value && has(rest[k])
          && forall j :: 0 <= j < k ==> !has(rest[j]);
        assert keys[k + 1] == rest[k];
        forall j | 0 <= j < k + 1 ensures !has(keys[j]) {
          if j > 0 {
            assert keys[j] == rest[j - 1];
          }
        }
      }
    } else if keys != [] {
      assert keys[0] == FirstKey(keys, has).value;
    }
  }

  /** A course has an EECS badge exactly when some category lists it, and
      the badge is that of the first such category; without the
      requirements table no course has one. */
  lemma EecsBadgeSpec(doc: RequirementsDoc, code: string)
    ensures EecsBadge(doc, code).Some? <==> exists k :: 0 <= k < |CategoryKeys| && code in CategoryCodes(doc, CategoryKeys[k])
    ensures EecsBadge(doc, code).Some? ==>
      exists k :: 0 <= k < |CategoryKeys| && EecsBadge(doc, code).value == CategoryBadge(CategoryKeys[k])
        && code in CategoryCodes(doc, CategoryKeys[k])
        && forall j :: 0 <= j < k ==> code !in CategoryCodes(doc, CategoryKeys[j])
  {
    var has := Lists(doc, code);
    FirstKeySpec(CategoryKeys, has);
    assert forall k :: 0 <= k < |CategoryKeys| ==> (has(CategoryKeys[k]) <==> code in CategoryCodes(doc, CategoryKeys[k]));
  }

  /** Without the requirements table no course has an EECS badge. */
  lemma NoTableNoBadge(doc: RequirementsDoc, code: string)
    requires doc.EmptyDoc?
    ensures EecsBadge(doc, code).None?
  {
    var has := Lists(doc, code);
    FirstKeySpec(CategoryKeys, has);
  }

  /** A course on the ethics core list gets the "Ethics Core" badge, since
      that category is searched first. */
  lemma EthicsCourseBadge(c: Curriculum, i: nat)
    requires i < |c.ethicsCourses|
    ensures EecsBadge(Doc(c), c.ethicsCourses[i].code) == Some(CategoryBadge("ethics_core"))
    ensures CategoryBadge("ethics_core") == RequirementBadge(MajorCore, "Ethics Core", "Ethics", "blue")
  {
    EthicsCourseCategorised(c, i);
    var codes := CategoryCodes(Doc(c), "ethics_core");
    assert codes[i] in codes;
    EthicsShortLabel("ethics_core");
  }

  // ---------------------------------------------------------------------------
  // enrich_classes_with_eecs_requirements
  // ---------------------------------------------------------------------------

  /** Adds the badge to a class's list unless a badge with its label is
      already there; an empty list becomes the badge alone. */
  function MergeBadge(rs: seq<RequirementBadge>, badge: RequirementBadge): (r: seq<RequirementBadge>)
  {
    if rs != [] then (if badge.labelText in Labels(rs) then rs else rs + [badge])
    else [badge]
  }

  /** The badges of a class once an optional badge is merged in. */
  function WithBadge(rs: seq<RequirementBadge>, badge: Option<RequirementBadge>): seq<RequirementBadge> {
    match badge
    case None => rs
    case Some(b) => MergeBadge(rs, b)
  }

  /** The code a class is looked up by: "SUBJ NUM". */
  function CourseCodeOf(data: SectionData): string {
    data.subject + " " + data.number
  }

  /** The badges of a class once its EECS badge, if any, is merged in. */
  function EecsEnriched(rs: seq<RequirementBadge>, doc: RequirementsDoc, data: SectionData): seq<RequirementBadge> {
    WithBadge(rs, EecsBadge(doc, CourseCodeOf(data)))
  }

  /** Merging keeps the existing badges in front, leaves the label present
      and adds at most one badge. */
  lemma MergeBadgeShape(rs: seq<RequirementBadge>, badge: RequirementBadge)
    ensures var r := MergeBadge(rs, badge);
      && |rs| <= |r| && r[..|rs|] == rs && badge.labelText in Labels(r) && |rs| <= |r| <= |rs| + 1
      && (badge.labelText in Labels(rs) <==> r == rs)
  {
    var r := MergeBadge(rs, badge);
    if badge.labelText !in Labels(rs) {
      assert r == rs + [badge];
      assert r[|rs|] == badge;
      assert r[..|rs|] == rs;
    }
  }

  /** Merging the same badge twice is merging it once. */
  lemma MergeBadgeIdempotent(rs: seq<RequirementBadge>, badge: RequirementBadge)
    ensures MergeBadge(MergeBadge(rs, badge), badge) == MergeBadge(rs, badge)
  {
    MergeBadgeShape(rs, badge);
  }

  /** Merging keeps labels distinct. */
  lemma MergeBadgeDistinct(rs: seq<RequirementBadge>, badge: RequirementBadge)
    requires forall i, j :: 0 <= i < j < |rs| ==> rs[i].labelText != rs[j].labelText
    ensures var r := MergeBadge(rs, badge);
      forall i, j :: 0 <= i < j < |r| ==> r[i].labelText != r[j].labelText
  {
    if rs != [] && badge.labelText !in Labels(rs) {
      assert forall i :: 0 <= i < |rs| ==> rs[i].labelText in Labels(rs);
    }
  }

  lemma WithBadgeIdempotent(rs: seq<RequirementBadge>, badge: Option<RequirementBadge>)
    ensures WithBadge(WithBadge(rs, badge), badge) == WithBadge(rs, badge)
  {
    if badge.Some? {
      MergeBadgeIdempotent(rs, badge.value);
    }
  }

  /** The loop body of enrich_classes_with_eecs_requirements for one
      class, given the badge looked up for it. */
  method AddEecsBadge(cls: ClassSection, badge: Option<RequirementBadge>)
    modifies cls
    ensures cls.requirementsSatisfied == WithBadge(old(cls.requirementsSatisfied), badge)
  {
    if badge.Some? {
      var b := badge.value;
      if cls.requirementsSatisfied != [] {
        var existing := Labels(cls.requirementsSatisfied);
        if b.labelText !in existing {
          cls.requirementsSatisfied := cls.requirementsSatisfied + [b];
        }
      } else {
        cls.requirementsSatisfied := [b];
      }
    }
  }

  /** For a program that is named and is not EECS nothing changes;
      otherwise every class gets its EECS badge merged in. A class listed
      twice gets it once. */
  method EnrichClassesWithEecsRequirements(classes: seq<ClassSection>, programName: string, doc: RequirementsDoc)
    returns (enriched: seq<ClassSection>)
    modifies set c | c in classes
    ensures enriched == classes
    ensures programName != "" && !IsEecsProgram(programName) ==>
      forall c :: c in classes ==> c.requirementsSatisfied == old(c.requirementsSatisfied)
    ensures programName == "" || IsEecsProgram(programName) ==>
      forall c :: c in classes ==> c.requirementsSatisfied == EecsEnriched(old(c.requirementsSatisfied), doc, c.data)
  {
    enriched := classes;
    if programName != "" && !IsEecsProgram(programName) {
      return;
    }
    AddEecsBadges(classes, d => EecsBadge(doc, CourseCodeOf(d)));
  }

  /** The loop of enrich_classes_with_eecs_requirements; `find` is the
      badge lookup by course code (get_eecs_requirement_badge, whose loop
      EecsRequirementBadge models). A class listed twice gets its badge
      merged twice, which is merging it once. */
  method AddEecsBadges(classes: seq<ClassSection>, find: SectionData -> Option<RequirementBadge>)
    modifies set c | c in classes
    ensures forall c :: c in classes ==> c.requirementsSatisfied == WithBadge(old(c.requirementsSatisfied), find(c.data))
  {
    var i := 0;
    while i < |classes|
      invariant 0 <= i <= |classes|
      invariant forall c :: c in classes[..i] ==> c.requirementsSatisfied == WithBadge(old(c.requirementsSatisfied), find(c.data))
      invariant forall c :: c in classes && c !in classes[..i] ==> c.requirementsSatisfied == old(c.requirementsSatisfied)
    {
      var cls := classes[i];
      if cls in classes[..i] {
        WithBadgeIdempotent(old(cls.requirementsSatisfied), find(cls.data));
      }
      var badge := find(cls.data);
      AddEecsBadge(cls, badge);
      assert classes[..i + 1] == classes[..i] + [cls];
      i := i + 1;
    }
    assert classes[..i] == classes;
  }

  // ---------------------------------------------------------------------------
  // get_requirement_summary
  // ---------------------------------------------------------------------------

  /** The summary dictionary: the total, the count per type value, and the
      requirements themselves. */
  datatype RequirementSummary = RequirementSummary(
    total: nat, byType: map<string, nat>, requirements: seq<DegreeRequirement>)

  /** How many requirements have the type value `v`. */
  function TypeCount(reqs: seq<DegreeRequirement>, v: string): nat
    decreases |reqs|
  {
    if reqs == [] then 0
    else TypeCount(reqs[..|reqs| - 1], v) + (if TypeValue(reqs[|reqs| - 1].reqType) == v then 1 else 0)
  }

  /** The type values that occur in `reqs`. */
  function TypeValues(reqs: seq<DegreeRequirement>): set<string> {
    Image(reqs, (r: DegreeRequirement) => TypeValue(r.reqType))
  }

  /** One more requirement adds its type and counts it once. */
  lemma TypeCountSnoc(reqs: seq<DegreeRequirement>, i: nat)
    requires i < |reqs|
    ensures TypeValues(reqs[..i + 1]) == TypeValues(reqs[..i]) + {TypeValue(reqs[i].reqType)}
    ensures forall v :: TypeCount(reqs[..i + 1], v) == TypeCount(reqs[..i], v) + (if TypeValue(reqs[i].reqType) == v then 1 else 0)
  {
    assert reqs[..i + 1][..i] == reqs[..i];
  }

  method GetRequirementSummary(reqs: seq<DegreeRequirement>) returns (summary: RequirementSummary)
    ensures summary.total == |reqs| && summary.requirements == reqs
    ensures summary.byType.Keys == TypeValues(reqs)
    ensures forall v :: v in summary.byType ==> summary.byType[v] == TypeCount(reqs, v)
  {
    var byType: map<string, nat> := map[];
    var i := 0;
    while i < |reqs|
      invariant 0 <= i <= |reqs|
      invariant byType.Keys == TypeValues(reqs[..i])
      invariant forall v :: v in byType ==> byType[v] == TypeCount(reqs[..i], v)
      invariant forall v :: v !in byType ==> TypeCount(reqs[..i], v) == 0
    {
      var name := TypeValue(reqs[i].reqType);
      TypeCountSnoc(reqs, i);
      if name !in byType {
        byType := byType[name := 0];
      }
      byType := byType[name := byType[name] + 1];
      i := i + 1;
    }
    assert reqs[..i] == reqs;
    summary := RequirementSummary(|reqs|, byType, reqs);
  }

  /** The counts of the six types add up to the total. */
  lemma {:induction false} TypeCountsSum(reqs: seq<DegreeRequirement>)
    ensures TypeCount(reqs, "major_core") + TypeCount(reqs, "major_elective") + TypeCount(reqs, "ge")
          + TypeCount(reqs, "minor") + TypeCount(reqs, "concentration") + TypeCount(reqs, "other") == |reqs|
    decreases |reqs|
  {
    if reqs != [] {
      TypeCountsSum(reqs[..|reqs| - 1]);
    }
  }

  /** A type value is counted exactly when some requirement has it. */
  lemma {:induction false} TypeCountPositive(reqs: seq<DegreeRequirement>, v: string)
    ensures TypeCount(reqs, v) > 0 <==> v in TypeValues(reqs)
    decreases |reqs|
  {
    if reqs != [] {
      TypeCountPositive(reqs[..|reqs| - 1], v);
    }
  }

  /** Two core requirements and one GE requirement. */
  lemma SummaryExample(a: DegreeRequirement, b: DegreeRequirement, g: DegreeRequirement)
    requires a.reqType == MajorCore && b.reqType == MajorCore && g.reqType == GeneralEducation
    ensures TypeCount([a, b, g], "major_core") == 2 && TypeCount([a, b, g], "ge") == 1
  {
    assert [a, b, g][..2] == [a, b];
    assert [a, b][..1] == [a];
    assert [a][..0] == [];
    assert TypeValue(a.reqType) == "major_core" && TypeValue(g.reqType) == "ge";
    assert |"major_core"| != |"ge"|;
    assert TypeCount([a], "major_core") == 1 && TypeCount([a], "ge") == 0;
    assert TypeCount([a, b], "major_core") == 2 && TypeCount([a, b], "ge") == 0;
  }
}
