/** The graduate EECS program's curriculum table: loading it once, the
    course codes it lists, its courses grouped by requirement category, and
    the two texts that describe it to the schedule oracle. */
module MsEecsRequirements {
  import opened Wrappers
  import opened Text

  // ---------------------------------------------------------------------------
  // The curriculum table
  // ---------------------------------------------------------------------------

  datatype CurriculumCourse = CurriculumCourse(code: string, title: string)

  /** A technical-core area under its table key; `name` is None when the
      table gives the area no name. */
  datatype TechnicalArea = TechnicalArea(key: string, name: Option<string>, courses: seq<CurriculumCourse>)

  /** A course offered next term to EECS students. */
  datatype OfferedCourse = OfferedCourse(code: string, title: string, credits: nat, category: string, area: string)

  /** A non-empty curriculum table.  A list the table leaves out is empty;
      `areas` keeps the table's key order; `masteryTracks` maps a track name
      to its courses. */
  datatype Curriculum = Curriculum(
    totalCreditsRequired: Option<int>,
    validCourseCodes: seq<string>,
    ethicsCourses: seq<CurriculumCourse>,
    leadershipCourses: seq<CurriculumCourse>,
    areas: seq<TechnicalArea>,
    masteryTracks: map<string, seq<CurriculumCourse>>,
    offered: seq<OfferedCourse>)

  /** The loaded table: the empty dictionary, or a curriculum. */
  datatype RequirementsDoc = EmptyDoc | Doc(curriculum: Curriculum)

  /** What reading the table file yields. */
  datatype TableFile = Missing | Unreadable | Parsed(doc: RequirementsDoc)

  /** A missing or unreadable file loads as the empty table. */
  function DocOf(file: TableFile): RequirementsDoc {
    match file
    case Parsed(doc) => doc
    case _ => EmptyDoc
  }

  /** The module-level memo of `load_ms_eecs_requirements`. */
  class RequirementsCache {
    var cached: Option<RequirementsDoc>

    constructor ()
      ensures cached == None
    {
      cached := None;
    }

    /** The first call reads `file` and remembers the result, empty or not;
        every later call returns the remembered table and ignores `file`. */
    method Load(file: TableFile) returns (doc: RequirementsDoc)
      modifies this
      ensures old(cached).Some? ==> doc == old(cached).value && cached == old(cached)
      ensures old(cached).None? ==> doc == DocOf(file) && cached == Some(doc)
    {
      if cached.Some? {
        return cached.value;
      }
      doc := DocOf(file);
      cached := Some(doc);
    }
  }

  /** `get_valid_course_codes`: the codes the table lists, as a set. */
  function ValidCourseCodes(doc: RequirementsDoc): (r: set<string>)
    ensures doc.EmptyDoc? ==> r == {}
    ensures doc.Doc? ==> forall code :: code in r <==> code in doc.curriculum.validCourseCodes
  {
    if doc.EmptyDoc? then {} else set code | code in doc.curriculum.validCourseCodes
  }

  /** Listing a code twice does not change the set. */
  lemma ValidCodesIgnoreRepeats(c: Curriculum, i: nat)
    requires i < |c.validCourseCodes|
    ensures ValidCourseCodes(Doc(c.(validCourseCodes := c.validCourseCodes + [c.validCourseCodes[i]])))
         == ValidCourseCodes(Doc(c))
  {
    var c' := c.(validCourseCodes := c.validCourseCodes + [c.validCourseCodes[i]]);
    forall code ensures code in c'.validCourseCodes <==> code in c.validCourseCodes { }
  }

  // ---------------------------------------------------------------------------
  // is_eecs_program
  // ---------------------------------------------------------------------------

  const EecsIndicators: seq<string> := [
    "electrical engineering and computer science", "eecs",
    "m.s. in electrical", "ms electrical", "ms eecs"]

  /** A non-empty program name whose lower-cased text contains an indicator. */
  predicate IsEecsProgram(programName: string) {
    programName != [] && exists i | 0 <= i < |EecsIndicators| :: Contains(Lower(programName), EecsIndicators[i])
  }

  /** The empty name is never the EECS program. */
  lemma EmptyNameNotEecs()
    ensures !IsEecsProgram("")
  {
  }

  /** The last indicator is implied by the second, so the test is the same
      as asking for one of the first four. */
  lemma {:induction false} EecsIndicatorsRedundant(programName: string)
    ensures IsEecsProgram(programName) <==>
      programName != [] && exists i | 0 <= i < 4 :: Contains(Lower(programName), EecsIndicators[i])
  {
    if programName != [] && Contains(Lower(programName), EecsIndicators[4]) {
      assert EecsIndicators[4][3..7] == "eecs";
      assert OccursAt(EecsIndicators[4], "eecs", 3);
      ContainsAt(EecsIndicators[4], "eecs", 3);
      ContainsTransitive(Lower(programName), EecsIndicators[4], "eecs");
      assert Contains(Lower(programName), EecsIndicators[1]);
    }
  }

  /** The test ignores case: a name and its lower-cased form agree. */
  lemma EecsIgnoresCase(programName: string)
    ensures IsEecsProgram(programName) <==> IsEecsProgram(Lower(programName))
  {
    assert Lower(Lower(programName)) == Lower(programName);
  }

  /** Any name with "EECS" in it, in any case, is the program. */
  lemma EecsAbbreviation(before: string, after: string)
    ensures IsEecsProgram(before + "EECS" + after) && IsEecsProgram(before + "eecs" + after)
  {
    var s1, s2 := before + "EECS" + after, before + "eecs" + after;
    assert Lower(s1)[|before|..|before| + 4] == "eecs";
    assert Lower(s2)[|before|..|before| + 4] == "eecs";
    assert OccursAt(Lower(s1), EecsIndicators[1], |before|);
    assert OccursAt(Lower(s2), EecsIndicators[1], |before|);
  }

  // ---------------------------------------------------------------------------
  // get_categorized_courses_for_eecs
  // ---------------------------------------------------------------------------

  /** The six categories, in the order the result dictionary is built. */
  const CategoryKeys: seq<string> := [
    "ethics_core", "leadership_core", "computing_systems",
    "data_science_intelligent_systems", "electrical_systems", "mastery"]

  /** One of the six category keys. */
  predicate IsCategory(key: string) {
    || key == "ethics_core" || key == "leadership_core" || key == "computing_systems"
    || key == "data_science_intelligent_systems" || key == "electrical_systems" || key == "mastery"
  }

  const CategorySet: set<string> := {
    "ethics_core", "leadership_core", "computing_systems",
    "data_science_intelligent_systems", "electrical_systems", "mastery"}

  lemma CategoryKeysListed(key: string)
    ensures IsCategory(key) <==> key in CategoryKeys
  {
  }

  /** The codes of a list of courses, in order. */
  function Codes(cs: seq<CurriculumCourse>): (r: seq<string>)
    ensures |r| == |cs|
  {
    if cs == [] then [] else Codes(cs[..|cs| - 1]) + [cs[|cs| - 1].code]
  }

  lemma {:induction false} CodesAt(cs: seq<CurriculumCourse>, i: nat)
    requires i < |cs|
    ensures Codes(cs)[i] == cs[i].code
    decreases |cs|
  {
    if i < |cs| - 1 {
      CodesAt(cs[..|cs| - 1], i);
    }
  }

  /** The courses of the thesis track; no other track contributes. */
  function ThesisCourses(c: Curriculum): seq<CurriculumCourse> {
    if "thesis" in c.masteryTracks then c.masteryTracks["thesis"] else []
  }

  /** The codes of every area filed under `key`, in table order. */
  function AreaCodes(areas: seq<TechnicalArea>, key: string): seq<string> {
    if areas == [] then []
    else
      var last := areas[|areas| - 1];
      AreaCodes(areas[..|areas| - 1], key) + (if last.key == key then Codes(last.courses) else [])
  }

  /** What appending the codes of `cs` to the category `key` adds to the
      category `k`. */
  function KeyPart(key: string, cs: seq<CurriculumCourse>, k: string): seq<string> {
    if k == key then Codes(cs) else []
  }

  /** What the category `key` collects, read per category: the core list it
      names, then the areas filed under it, then (for "mastery") the thesis
      track. */
  function CategoryCodes(doc: RequirementsDoc, key: string): seq<string> {
    if doc.EmptyDoc? then []
    else
      var c := doc.curriculum;
      KeyPart("ethics_core", c.ethicsCourses, key) + KeyPart("leadership_core", c.leadershipCourses, key)
      + AreaCodes(c.areas, key) + KeyPart("mastery", ThesisCourses(c), key)
  }

  lemma CodesStep(cs: seq<CurriculumCourse>, i: nat)
    requires i < |cs|
    ensures Codes(cs[..i + 1]) == Codes(cs[..i]) + [cs[i].code]
  {
    assert cs[..i + 1][..i] == cs[..i];
  }

  lemma AreaCodesStep(areas: seq<TechnicalArea>, i: nat, key: string)
    requires i < |areas|
    ensures AreaCodes(areas[..i + 1], key)
         == AreaCodes(areas[..i], key) + (if areas[i].key == key then Codes(areas[i].courses) else [])
  {
    assert areas[..i + 1][..i] == areas[..i];
  }

  /** `for course in ...: categorized[key].append(course["course_code"])`:
      appends the codes of `cs` to the category `key`, leaving the others
      alone. */
  method AppendCodes(m: map<string, seq<string>>, key: string, cs: seq<CurriculumCourse>) returns (r: map<string, seq<string>>)
    requires key in m
    ensures r.Keys == m.Keys
    ensures forall k :: k in m ==> r[k] == m[k] + KeyPart(key, cs, k)
  {
    r := m;
    for j := 0 to |cs|
      invariant r.Keys == m.Keys && r[key] == m[key] + Codes(cs[..j])
      invariant forall k :: k in m && k != key ==> r[k] == m[k]
    {
      CodesStep(cs, j);
      r := r[key := r[key] + [cs[j].code]];
    }
    assert cs[..|cs|] == cs;
  }

  /** The six categories, all empty. */
  method EmptyCategories() returns (m: map<string, seq<string>>)
    ensures m.Keys == CategorySet
    ensures forall k :: k in m ==> m[k] == []
  {
    m := map["ethics_core" := [], "leadership_core" := [], "computing_systems" := [],
             "data_science_intelligent_systems" := [], "electrical_systems" := [], "mastery" := []];
  }

  /** What one area adds to the category `key`. */
  function AreaPart(area: TechnicalArea, key: string): seq<string> {
    if area.key == key then Codes(area.courses) else []
  }

  lemma AreaStep(mk: seq<string>, bk: seq<string>, rk: seq<string>, areas: seq<TechnicalArea>, i: nat, key: string)
    requires i < |areas|
    requires bk == mk + AreaCodes(areas[..i], key) && rk == bk + AreaPart(areas[i], key)
    ensures rk == mk + AreaCodes(areas[..i + 1], key)
  {
    AreaCodesStep(areas, i, key);
  }

  /** The technical-core loop: each area's codes go to the category named
      by its key, when there is one. */
  method AppendAreas(m: map<string, seq<string>>, areas: seq<TechnicalArea>) returns (r: map<string, seq<string>>)
    ensures r.Keys == m.Keys
    ensures forall k :: k in m ==> r[k] == m[k] + AreaCodes(areas, k)
  {
    r := m;
    for i := 0 to |areas|
      invariant r.Keys == m.Keys
      invariant forall k :: k in m ==> r[k] == m[k] + AreaCodes(areas[..i], k)
    {
      var area := areas[i];
      ghost var before := r;
      if area.key in r {
        r := AppendCodes(r, area.key, area.courses);
      }
      forall k | k in m ensures r[k] == m[k] + AreaCodes(areas[..i + 1], k) {
        assert r[k] == before[k] + AreaPart(area, k);
        AreaStep(m[k], before[k], r[k], areas, i, k);
      }
    }
    assert areas[..|areas|] == areas;
  }

  /** `get_categorized_courses_for_eecs`: starts from the six empty
      categories and appends the ethics, leadership, area and thesis codes
      in turn; an area whose key is not a category is skipped. */
  method CategorizedCourses(doc: RequirementsDoc) returns (categorized: map<string, seq<string>>)
    ensures categorized.Keys == CategorySet
    ensures forall k :: k in categorized ==> categorized[k] == CategoryCodes(doc, k)
  {
    var m0 := EmptyCategories();
    if doc.EmptyDoc? {
      return m0;
    }
    var c := doc.curriculum;
    var m1 := AppendCodes(m0, "ethics_core", c.ethicsCourses);
    var m2 := AppendCodes(m1, "leadership_core", c.leadershipCourses);
    var m3 := AppendAreas(m2, c.areas);
    categorized := AppendCodes(m3, "mastery", ThesisCourses(c));
    forall k | k in categorized ensures categorized[k] == CategoryCodes(doc, k) {
      assert m1[k] == KeyPart("ethics_core", c.ethicsCourses, k);
    }
  }

  /** Areas filed under two lists concatenated collect both lists' codes. */
  lemma {:induction false} AreaCodesAppend(xs: seq<TechnicalArea>, ys: seq<TechnicalArea>, key: string)
    ensures AreaCodes(xs + ys, key) == AreaCodes(xs, key) + AreaCodes(ys, key)
    decreases |ys|
  {
    if ys != [] {
      assert (xs + ys)[..|xs + ys| - 1] == xs + ys[..|ys| - 1];
      AreaCodesAppend(xs, ys[..|ys| - 1], key);
    } else {
      assert xs + ys == xs;
    }
  }

  /** An area filed under another key adds nothing to `key`, wherever it
      stands. */
  lemma OtherAreaAddsNothing(pre: seq<TechnicalArea>, area: TechnicalArea, post: seq<TechnicalArea>, key: string)
    requires area.key != key
    ensures AreaCodes(pre + [area] + post, key) == AreaCodes(pre + post, key)
  {
    AreaCodesAppend(pre + [area], post, key);
    AreaCodesAppend(pre, [area], key);
    AreaCodesAppend(pre, post, key);
    assert [area][..0] == [];
  }

  /** A technical area whose key is not one of the six categories changes
      no category, wherever it stands in the table. */
  lemma OtherAreaIgnored(c: Curriculum, c': Curriculum, pre: seq<TechnicalArea>, area: TechnicalArea, post: seq<TechnicalArea>, key: string)
    requires area.key !in CategoryKeys && key in CategoryKeys
    requires c.areas == pre + post && c' == c.(areas := pre + [area] + post)
    ensures CategoryCodes(Doc(c'), key) == CategoryCodes(Doc(c), key)
  {
    OtherAreaAddsNothing(pre, area, post, key);
  }

  /** The "mastery" category takes the thesis track's courses and no other
      track's: tables that differ only in their other tracks categorise alike. */
  lemma MasteryOnlyThesis(c: Curriculum, c': Curriculum, key: string)
    requires c' == c.(masteryTracks := c'.masteryTracks)
    requires ("thesis" in c'.masteryTracks <==> "thesis" in c.masteryTracks)
    requires "thesis" in c.masteryTracks ==> c'.masteryTracks["thesis"] == c.masteryTracks["thesis"]
    ensures CategoryCodes(Doc(c'), key) == CategoryCodes(Doc(c), key)
  {
    assert ThesisCourses(c') == ThesisCourses(c);
  }

  /** Each ethics course's code is in the ethics category, at its own
      position. */
  lemma EthicsCourseCategorised(c: Curriculum, i: nat)
    requires i < |c.ethicsCourses|
    ensures CategoryCodes(Doc(c), "ethics_core")[i] == c.ethicsCourses[i].code
  {
    CodesAt(c.ethicsCourses, i);
  }

  // ---------------------------------------------------------------------------
  // get_eecs_curriculum_prompt_context
  // ---------------------------------------------------------------------------

  function Min(a: nat, b: nat): nat { if a <= b then a else b }

  function AreaCourseLine(course: CurriculumCourse): string {
    "- " + course.code + ": " + course.title
  }

  /** `[f(x) for x in xs]` for a line per item. */
  function LinesOf<T>(xs: seq<T>, f: T -> string): (r: seq<string>)
    ensures |r| == |xs|
  {
    if xs == [] then [] else LinesOf(xs[..|xs| - 1], f) + [f(xs[|xs| - 1])]
  }

  lemma LinesOfStep<T>(xs: seq<T>, f: T -> string, j: nat)
    requires j < |xs|
    ensures LinesOf(xs[..j + 1], f) == LinesOf(xs[..j], f) + [f(xs[j])]
  {
    assert xs[..j + 1][..j] == xs[..j];
  }

  lemma {:induction false} LinesOfAt<T>(xs: seq<T>, f: T -> string, j: nat)
    requires j < |xs|
    ensures LinesOf(xs, f)[j] == f(xs[j])
    decreases |xs|
  {
    if j < |xs| - 1 {
      LinesOfAt(xs[..|xs| - 1], f, j);
    }
  }

  /** A loop appending one line per item. */
  method AppendEach<T>(lines0: seq<string>, xs: seq<T>, f: T -> string) returns (lines: seq<string>)
    ensures lines == lines0 + LinesOf(xs, f)
  {
    lines := lines0;
    for j := 0 to |xs|
      invariant lines == lines0 + LinesOf(xs[..j], f)
    {
      LinesOfStep(xs, f, j);
      lines := lines + [f(xs[j])];
    }
    assert xs[..|xs|] == xs;
  }

  /** The area's name, or its key when the table gives none. */
  function AreaName(area: TechnicalArea): string {
    match area.name
    case Some(n) => n
    case None => area.key
  }

  const MoreCoursesOpen := "- ... and "
  const MoreCoursesClose := " more courses"

  function MoreCoursesLine(n: nat): string {
    MoreCoursesOpen + NatToString(n) + MoreCoursesClose
  }

  /** `f"**{name}:**"` */
  function AreaTitle(area: TechnicalArea): string {
    "**" + AreaName(area) + ":**"
  }

  /** The lines describing one area: its name, its first five courses, a
      count of the rest when there are more than five, and a blank line. */
  function AreaLines(area: TechnicalArea): seq<string> {
    var n := |area.courses|;
    [AreaTitle(area)]
    + LinesOf(area.courses[..Min(5, n)], AreaCourseLine)
    + (if n > 5 then [MoreCoursesLine(n - 5)] else [])
    + [""]
  }

  function AreasLines(areas: seq<TechnicalArea>): seq<string> {
    if areas == [] then [] else AreasLines(areas[..|areas| - 1]) + AreaLines(areas[|areas| - 1])
  }

  const CurriculumTitle := "## M.S. in Electrical Engineering and Computer Science (EECS) Curriculum"

  const CoreOutline: seq<string> := [
    "",
    "### Ethics Core (3 credits)",
    "- ENGR 501: Ethical Foundations of Engineering (1 credit each, take 3 unique topics)",
    "",
    "### Leadership Core (6 credits)",
    "- ENGR 510: Engineering and Computational Leadership (3 credits)",
    "- ENGR 520: Technical Writing and Communication (3 credits)",
    "",
    "### Technical Core (15 credits from at least 2 of the following areas):",
    ""]

  /** The fixed opening lines; the total defaults to 30. */
  function CurriculumHeader(c: Curriculum): seq<string> {
    var total := match c.totalCreditsRequired case Some(t) => t case None => 30;
    [CurriculumTitle, "Total Credits Required: " + IntToString(total)] + CoreOutline
  }

  const MasteryLines: seq<string> := [
    "### Mastery Demonstration (6 credits)",
    "Students may choose either:",
    "- Thesis Track: ENGR 698 (6 credits)",
    "- Non-Thesis Track: 2 additional Technical Core courses (6 credits total)"]

  /** The lines of the curriculum description of a non-empty table. */
  function CurriculumLines(c: Curriculum): seq<string> {
    CurriculumHeader(c) + AreasLines(c.areas) + MasteryLines
  }

  lemma AreasLinesStep(areas: seq<TechnicalArea>, i: nat)
    requires i < |areas|
    ensures AreasLines(areas[..i + 1]) == AreasLines(areas[..i]) + AreaLines(areas[i])
  {
    assert areas[..i + 1][..i] == areas[..i];
  }

  /** The lines one pass of the area loop appends. */
  method AppendArea(lines0: seq<string>, area: TechnicalArea) returns (lines: seq<string>)
    ensures lines == lines0 + AreaLines(area)
  {
    var shown := area.courses[..Min(5, |area.courses|)];
    lines := AppendEach(lines0 + [AreaTitle(area)], shown, AreaCourseLine);
    if |area.courses| > 5 {
      lines := lines + [MoreCoursesLine(|area.courses| - 5)];
    }
    lines := lines + [""];
  }

  /** The area loop of the curriculum description. */
  method AppendAreasLines(lines0: seq<string>, areas: seq<TechnicalArea>) returns (lines: seq<string>)
    ensures lines == lines0 + AreasLines(areas)
  {
    lines := lines0;
    for i := 0 to |areas|
      invariant lines == lines0 + AreasLines(areas[..i])
    {
      ghost var before := lines;
      lines := AppendArea(lines, areas[i]);
      AreasLinesStep(areas, i);
      Associative(lines0, AreasLines(areas[..i]), AreaLines(areas[i]));
    }
    assert areas[..|areas|] == areas;
  }

  /** `get_eecs_curriculum_prompt_context`: the empty table gives ""; any
      other table gives its description lines joined by newlines, built area
      by area showing at most five courses each. */
  method CurriculumPrompt(doc: RequirementsDoc) returns (text: string)
    ensures doc.EmptyDoc? ==> text == ""
    ensures doc.Doc? ==> text == Join("\n", CurriculumLines(doc.curriculum))
  {
    if doc.EmptyDoc? {
      return "";
    }
    var c := doc.curriculum;
    var lines := AppendAreasLines(CurriculumHeader(c), c.areas);
    lines := lines + MasteryLines;
    text := Join("\n", lines);
  }

  /** An area lists exactly its first five courses (all of them when it has
      five or fewer), and says how many more there are when it has more. */
  lemma AreaLinesShape(area: TechnicalArea)
    ensures var lines, n := AreaLines(area), |area.courses|;
      && |lines| == 2 + Min(5, n) + (if n > 5 then 1 else 0)
      && lines[0] == AreaTitle(area)
      && (forall j :: 0 <= j < Min(5, n) ==> lines[1 + j] == AreaCourseLine(area.courses[j]))
      && (n > 5 ==> lines[6] == MoreCoursesLine(n - 5))
      && (n <= 5 ==> lines == [AreaTitle(area)] + LinesOf(area.courses, AreaCourseLine) + [""])
      && lines[|lines| - 1] == ""
  {
    var n := |area.courses|;
    var shown := area.courses[..Min(5, n)];
    forall j | 0 <= j < Min(5, n) ensures AreaLines(area)[1 + j] == AreaCourseLine(area.courses[j]) {
      LinesOfAt(shown, AreaCourseLine, j);
    }
    if n <= 5 {
      assert shown == area.courses;
    }
  }

  /** A non-empty table always yields a non-empty description. */
  lemma CurriculumPromptNonEmpty(c: Curriculum)
    ensures Join("\n", CurriculumLines(c)) != ""
  {
    var header := CurriculumHeader(c);
    assert header[0] != "";
    assert CurriculumLines(c)[0] == header[0];
    JoinNonEmpty("\n", CurriculumLines(c));
  }

  // ---------------------------------------------------------------------------
  // get_spring_2026_eecs_courses_prompt
  // ---------------------------------------------------------------------------

  /** Python's `str.title()` on ASCII text, with `afterLetter` telling
      whether a letter came just before `s`: a letter that follows a letter
      is lower-cased, any other letter upper-cased; other characters stay. */
  function TitleFrom(s: string, afterLetter: bool): (r: string)
    ensures |r| == |s|
  {
    if s == [] then []
    else
      var ch := s[0];
      [if !IsAlpha(ch) then ch else if afterLetter then LowerChar(ch) else UpperChar(ch)]
      + TitleFrom(s[1..], IsAlpha(ch))
  }

  function Title(s: string): (r: string)
    ensures |r| == |s|
  {
    TitleFrom(s, false)
  }

  /** Whether the letter at `i` starts a word: nothing letter-like before it. */
  predicate StartsWord(s: string, i: nat, afterLetter: bool)
    requires i < |s|
  {
    if i == 0 then !afterLetter else !IsAlpha(s[i - 1])
  }

  /** `title()` keeps every non-letter and every letter's identity, and
      capitalises exactly the letters that start a word. */
  lemma {:induction false} TitleFromShape(s: string, afterLetter: bool)
    ensures var r := TitleFrom(s, afterLetter);
      forall i :: 0 <= i < |s| ==>
        && (!IsAlpha(s[i]) ==> r[i] == s[i])
        && (IsAlpha(s[i]) ==> LowerChar(r[i]) == LowerChar(s[i]))
        && (IsAlpha(s[i]) && StartsWord(s, i, afterLetter) ==> IsUpper(r[i]))
        && (IsAlpha(s[i]) && !StartsWord(s, i, afterLetter) ==> IsLower(r[i]))
    decreases |s|
  {
    if s != [] {
      var r := TitleFrom(s, afterLetter);
      var ch := s[0];
      TitleFromShape(s[1..], IsAlpha(ch));
      forall i | 0 <= i < |s|
        ensures && (!IsAlpha(s[i]) ==> r[i] == s[i])
                && (IsAlpha(s[i]) ==> LowerChar(r[i]) == LowerChar(s[i]))
                && (IsAlpha(s[i]) && StartsWord(s, i, afterLetter) ==> IsUpper(r[i]))
                && (IsAlpha(s[i]) && !StartsWord(s, i, afterLetter) ==> IsLower(r[i]))
      {
        if i > 0 {
          assert r[i] == TitleFrom(s[1..], IsAlpha(ch))[i - 1];
          assert s[i] == s[1..][i - 1];
          if i > 1 {
            assert s[i - 1] == s[1..][i - 2];
          }
        }
      }
    }
  }

  /** Title-casing twice is title-casing once. */
  lemma {:induction false} TitleFromIdempotent(s: string, afterLetter: bool)
    ensures TitleFrom(TitleFrom(s, afterLetter), afterLetter) == TitleFrom(s, afterLetter)
    decreases |s|
  {
    if s != [] {
      var r := TitleFrom(s, afterLetter);
      var ch := s[0];
      assert r[0] == (if !IsAlpha(ch) then ch else if afterLetter then LowerChar(ch) else UpperChar(ch));
      assert IsAlpha(r[0]) == IsAlpha(ch);
      assert r[1..] == TitleFrom(s[1..], IsAlpha(ch));
      TitleFromIdempotent(s[1..], IsAlpha(ch));
    }
  }

  lemma TitleIdempotent(s: string)
    ensures Title(Title(s)) == Title(s)
  {
    TitleFromIdempotent(s, false);
  }

  /** `s.replace("_", " ").title()`: a table key as display text. */
  function DisplayName(s: string): (r: string)
    ensures |r| == |s|
  {
    Title(ReplaceChar(s, '_', ' '))
  }

  /** One offered course: code, title, credits, category and, when it has
      one, its area. */
  function OfferedLine(o: OfferedCourse): string {
    OfferedPrefix(o) + OfferedRest(o)
  }

  function OfferedPrefix(o: OfferedCourse): string {
    "- " + o.code + ": "
  }

  function OfferedRest(o: OfferedCourse): string {
    o.title + " (" + NatToString(o.credits) + " cr)" + CategoryTail(o) + AreaTail(o)
  }

  function CategoryTail(o: OfferedCourse): string {
    " - " + DisplayName(o.category)
  }

  /** `f" ({area})" if area else ""` */
  function AreaTail(o: OfferedCourse): string {
    var area := DisplayName(o.area);
    if area != "" then " (" + area + ")" else ""
  }


  const NoOfferedText := "No Spring 2026 courses available."
  const OfferedHeader: seq<string> := ["## Spring 2026 Available Courses for M.S. EECS Students:", ""]

  function OfferedCourses(doc: RequirementsDoc): seq<OfferedCourse> {
    if doc.EmptyDoc? then [] else doc.curriculum.offered
  }

  /** `get_spring_2026_eecs_courses_prompt`: a fixed notice when nothing is
      offered, otherwise the header and one line per offered course, in
      table order, joined by newlines. */
  method OfferedCoursesPrompt(doc: RequirementsDoc) returns (text: string)
    ensures OfferedCourses(doc) == [] ==> text == NoOfferedText
    ensures OfferedCourses(doc) != [] ==> text == Join("\n", OfferedHeader + LinesOf(OfferedCourses(doc), OfferedLine))
  {
    var courses := OfferedCourses(doc);
    if courses == [] {
      return NoOfferedText;
    }
    var lines := AppendEach(OfferedHeader, courses, OfferedLine);
    text := Join("\n", lines);
  }

  /** Each offered course has its own line, right after the two header
      lines. */
  lemma OfferedLinePosition(os: seq<OfferedCourse>, i: nat)
    requires i < |os|
    ensures var lines := OfferedHeader + LinesOf(os, OfferedLine);
      |lines| == |os| + 2 && lines[i + 2] == OfferedLine(os[i])
  {
    LinesOfAt(os, OfferedLine, i);
  }

  /** An offered course's line starts with its code and ends with its
      category, or with its area in parentheses when it names one. */
  lemma OfferedLineShape(o: OfferedCourse)
    ensures StartsWith(OfferedLine(o), "- " + o.code + ": ")
    ensures o.area == "" ==> EndsWith(OfferedLine(o), " - " + DisplayName(o.category))
    ensures o.area != "" ==> EndsWith(OfferedLine(o), " (" + DisplayName(o.area) + ")")
  {
    var p, r := OfferedPrefix(o), OfferedRest(o);
    var d := o.title + " (" + NatToString(o.credits) + " cr)";
    var c, t := CategoryTail(o), AreaTail(o);
    ConcatEnds(p, r);
    assert r == (d + c) + t;
    if o.area == "" {
      assert t == "";
      assert r == d + c;
      ConcatEnds(d, c);
      EndsWithConcat(c, p, r);
    } else {
      ConcatEnds(d + c, t);
      EndsWithConcat(t, p, r);
    }
  }
}
