/** The line-oriented parser of program-evaluation text
    (backend/app/services/pdf_parser.py): splitting the text into clean
    lines, recognising headings, gluing course entries that a line break
    split, collecting the courses without repeats, collecting the credit
    requirements under their headings, the in-progress / completed views of
    the courses and the mastery demonstration. The text is a parameter: the
    PDF reader that produces it is not part of this model. */
module PdfParser {
  import opened Wrappers
  import opened Text
  import opened CourseLine

  // ---------------------------------------------------------------------------
  // _split_lines
  // ---------------------------------------------------------------------------

  /** The line boundaries of Python's `str.splitlines()`. */
  predicate IsLineBreak(c: char) {
    c == '\n' || c == '\r' || c == '\U{0B}' || c == '\U{0C}'
    || ('\U{1C}' <= c <= '\U{1E}') || c == '\U{85}' || c == '\U{2028}' || c == '\U{2029}'
  }

  predicate NoBreak(s: string) { forall i :: 0 <= i < |s| ==> !IsLineBreak(s[i]) }

  /** The first line boundary at or after `i`, or the end of the text. */
  function LineEnd(s: string, i: nat): (k: nat)
    requires i <= |s|
    ensures i <= k <= |s| && (k < |s| ==> IsLineBreak(s[k]))
    ensures forall j :: i <= j < k ==> !IsLineBreak(s[j])
    decreases |s| - i
  {
    if i == |s| || IsLineBreak(s[i]) then i else LineEnd(s, i + 1)
  }

  /** `text.splitlines()`: a boundary ends a line ("\r\n" counts as one),
      and a final boundary does not start an empty line. */
  function PhysicalLines(s: string): (r: seq<string>)
    ensures forall j :: 0 <= j < |r| ==> NoBreak(r[j])
    decreases |s|
  {
    if s == [] then []
    else
      var k := LineEnd(s, 0);
      if k == |s| then [s]
      else
        var skip := if s[k] == '\r' && k + 1 < |s| && s[k + 1] == '\n' then 2 else 1;
        [s[..k]] + PhysicalLines(s[k + skip..])
  }

  /** `[line.strip() for line in lines if line.strip()]` */
  function StrippedLines(lines: seq<string>): seq<string> {
    if lines == [] then []
    else
      var l := Strip(lines[0]);
      (if l != [] then [l] else []) + StrippedLines(lines[1..])
  }

  /** `_split_lines(text)` */
  function SplitLines(text: string): seq<string> {
    StrippedLines(PhysicalLines(text))
  }

  /** What `_split_lines` yields: non-empty, stripped, one physical line. */
  predicate CleanLine(l: string) {
    l != [] && Strip(l) == l && NoBreak(l)
  }

  lemma NoBreakSlice(l: string, a: nat, b: nat)
    requires NoBreak(l) && a <= b <= |l|
    ensures NoBreak(l[a..b])
  {
    assert forall i :: 0 <= i < b - a ==> l[a..b][i] == l[a + i];
  }

  lemma StripClean(l: string)
    requires NoBreak(l) && Strip(l) != []
    ensures CleanLine(Strip(l))
  {
    var a := StripIsSlice(l);
    NoBreakSlice(l, a, a + |Strip(l)|);
    StripNoop(Strip(l));
  }

  lemma {:induction false} StrippedLinesClean(lines: seq<string>)
    requires forall j :: 0 <= j < |lines| ==> NoBreak(lines[j])
    ensures forall j :: 0 <= j < |StrippedLines(lines)| ==> CleanLine(StrippedLines(lines)[j])
  {
    if lines != [] {
      StrippedLinesClean(lines[1..]);
      if Strip(lines[0]) != [] { StripClean(lines[0]); }
    }
  }

  /** Every line `_split_lines` yields is non-empty, stripped and free of
      line boundaries. */
  lemma SplitLinesClean(text: string)
    ensures forall j :: 0 <= j < |SplitLines(text)| ==> CleanLine(SplitLines(text)[j])
  {
    StrippedLinesClean(PhysicalLines(text));
  }

  lemma {:induction false} LineEndAt(s: string, i: nat, k: nat)
    requires i <= k <= |s| && (k < |s| ==> IsLineBreak(s[k]))
    requires forall j :: i <= j < k ==> !IsLineBreak(s[j])
    ensures LineEnd(s, i) == k
    decreases k - i
  {
    if i < k { LineEndAt(s, i + 1, k); }
  }

  /** A clean line followed by "\n" is split off whole. */
  lemma PhysicalLinesCons(l: string, rest: string)
    requires l != [] && NoBreak(l)
    ensures PhysicalLines(l + "\n" + rest) == [l] + PhysicalLines(rest)
  {
    var s := l + "\n" + rest;
    assert s[|l|] == '\n';
    assert forall j :: 0 <= j < |l| ==> s[j] == l[j];
    LineEndAt(s, 0, |l|);
    assert s[..|l|] == l && s[|l| + 1..] == rest;
  }

  lemma {:induction false} StrippedCleanLines(lines: seq<string>)
    requires forall j :: 0 <= j < |lines| ==> CleanLine(lines[j])
    ensures StrippedLines(lines) == lines
  {
    if lines != [] {
      StrippedCleanLines(lines[1..]);
      assert lines == [lines[0]] + lines[1..];
    }
  }

  lemma PhysicalSingle(l: string)
    requires l != [] && NoBreak(l)
    ensures PhysicalLines(l) == [l]
  {
    LineEndAt(l, 0, |l|);
  }

  lemma {:induction false} PhysicalJoin(lines: seq<string>)
    requires forall j :: 0 <= j < |lines| ==> lines[j] != [] && NoBreak(lines[j])
    ensures PhysicalLines(Join("\n", lines)) == lines
  {
    if |lines| == 1 {
      assert Join("\n", lines) == lines[0];
      PhysicalSingle(lines[0]);
    } else if |lines| > 1 {
      var l := lines[0];
      var rest := Join("\n", lines[1..]);
      assert Join("\n", lines) == l + "\n" + rest;
      PhysicalLinesCons(l, rest);
      PhysicalJoin(lines[1..]);
      assert lines == [l] + lines[1..];
    }
  }

  /** Joining clean lines with "\n" and splitting again gives them back:
      `_split_lines` keeps the lines, and their order. */
  lemma SplitLinesJoin(lines: seq<string>)
    requires forall j :: 0 <= j < |lines| ==> CleanLine(lines[j])
    ensures SplitLines(Join("\n", lines)) == lines
  {
    PhysicalJoin(lines);
    StrippedCleanLines(lines);
  }

  // ---------------------------------------------------------------------------
  // _looks_like_heading
  // ---------------------------------------------------------------------------

  /** `s.isupper()`: some cased character, and none of them lower case. */
  predicate IsUpperText(s: string) {
    (exists i | 0 <= i < |s| :: IsUpper(s[i])) && forall i | 0 <= i < |s| :: !IsLower(s[i])
  }

  /** `\s*\d+\]$` at `i`. */
  predicate RqTail(s: string, i: nat)
    requires i <= |s|
  {
    var w := SpaceRun(s, i);
    var d := DigitRun(s, i + w);
    d >= 1 && i + w + d + 1 == |s| && s[i + w + d] == ']'
  }

  /** The "[RQ" of the tag at `st`, with no line feed between the first
      character and it. */
  predicate RqTagAt(s: string, st: nat) {
    1 <= st && st + 3 <= |s| && s[st..st + 3] == "[RQ" && RqTail(s, st + 3)
    && forall j | 1 <= j < st :: s[j] != '\n'
  }

  /** `re.match(r"^[A-Z].*\[RQ\s*\d+\]$", line)` */
  predicate RqHeading(s: string) {
    |s| > 0 && IsUpper(s[0]) && exists st | 1 <= st <= |s| :: RqTagAt(s, st)
  }

  const HeadingPrefixes: seq<string> := ["Option", "Minimum", "MASTER", "GRADUATE"]

  /** `_looks_like_heading(line)` */
  predicate LooksLikeHeading(line: string) {
    line != []
    && (IsUpperText(line) || RqHeading(line) || exists p | p in HeadingPrefixes :: StartsWith(line, p))
  }

  /** A title that starts with a capital, followed by a tag "[RQ n]", is a
      heading. */
  lemma RqTagHeading(title: string, gap: string, digits: string)
    requires title != [] && IsUpper(title[0]) && forall j :: 0 <= j < |title| ==> title[j] != '\n'
    requires forall j :: 0 <= j < |gap| ==> IsSpace(gap[j])
    requires digits != [] && AllDigits(digits)
    ensures LooksLikeHeading(title + "[RQ" + gap + digits + "]")
  {
    var s := title + "[RQ" + gap + digits + "]";
    var st := |title|;
    RqTagOfForm(title, gap, digits);
    assert s[0] == title[0];
    assert RqTagAt(s, st);
  }

  lemma RqTagOfForm(title: string, gap: string, digits: string)
    requires title != [] && forall j :: 0 <= j < |title| ==> title[j] != '\n'
    requires forall j :: 0 <= j < |gap| ==> IsSpace(gap[j])
    requires digits != [] && AllDigits(digits)
    ensures RqTagAt(title + "[RQ" + gap + digits + "]", |title|)
  {
    var s := title + "[RQ" + gap + digits + "]";
    var st := |title|;
    var i := st + 3;
    assert s[st..st + 3] == "[RQ";
    RqTailOfForm(s, i, gap, digits);
    assert forall j | 1 <= j < st :: s[j] == title[j];
  }

  lemma RqTailOfForm(s: string, i: nat, gap: string, digits: string)
    requires forall j :: 0 <= j < |gap| ==> IsSpace(gap[j])
    requires digits != [] && AllDigits(digits)
    requires i <= |s| && s[i..] == gap + digits + "]"
    ensures RqTail(s, i)
  {
    assert forall j :: 0 <= j < |gap| ==> s[i + j] == s[i..][j] == gap[j];
    assert forall j :: 0 <= j < |digits| ==> s[i + |gap| + j] == s[i..][|gap| + j] == digits[j];
    assert s[i + |gap| + |digits|] == s[i..][|gap| + |digits|] == ']';
    SpaceRunExact(s, i, |gap|);
    DigitRunExact(s, i + |gap|, |digits|);
  }

  /** A line starting with one of the four heading words is a heading. */
  lemma PrefixHeading(p: string, rest: string)
    requires p in HeadingPrefixes
    ensures LooksLikeHeading(p + rest)
  {
    assert (p + rest)[..|p|] == p;
  }

  /** A line that has a lower-case letter and does not start with a capital
      is no heading. */
  lemma NotHeading(line: string, i: nat)
    requires i < |line| && IsLower(line[i])
    requires !IsUpper(line[0])
    ensures !LooksLikeHeading(line)
  {
    forall p | p in HeadingPrefixes ensures !StartsWith(line, p) {
      assert IsUpper(p[0]);
    }
  }

  // ---------------------------------------------------------------------------
  // _coalesce_course_lines
  // ---------------------------------------------------------------------------

  /** The loop state: the entries so far and the entry being collected
      ("" when there is none; an open entry is never empty). */
  datatype Coalescing = Coalescing(aggregated: seq<string>, buffer: string)

  const NoEntry := Coalescing([], "")

  /** An open entry with one more line appended. */
  function Extend(b: string, line: string): string {
    b + " " + line
  }

  /** One line of `_coalesce_course_lines`, given its two tests (does a line
      start a course entry, is an entry complete): a start line closes the
      open entry and opens a new one; any other line is appended to the open
      entry, which closes when it is now complete; a line with no open entry
      is dropped. */
  function CoalesceStep(st: Coalescing, line: string, isStart: string -> bool, complete: string -> bool): Coalescing {
    if isStart(line) then
      Coalescing(st.aggregated + (if st.buffer != "" then [Strip(st.buffer)] else []), line)
    else if st.buffer != "" then
      var b := Extend(st.buffer, line);
      if complete(b) then Coalescing(st.aggregated + [Strip(b)], "") else Coalescing(st.aggregated, b)
    else st
  }

  /** The loop over `lines` from state `st`. */
  function CoalesceFrom(st: Coalescing, lines: seq<string>, isStart: string -> bool, complete: string -> bool): Coalescing {
    if lines == [] then st
    else CoalesceStep(CoalesceFrom(st, lines[..|lines| - 1], isStart, complete), lines[|lines| - 1], isStart, complete)
  }

  /** The entries once the open one is flushed. */
  function Flush(st: Coalescing): seq<string> {
    st.aggregated + (if st.buffer != "" then [Strip(st.buffer)] else [])
  }

  /** `_coalesce_course_lines(lines)`, with `COURSE_LINE_START` and the two
      end-of-entry searches as its tests. */
  function Coalesced(lines: seq<string>): seq<string> {
    Flush(CoalesceFrom(NoEntry, lines, CourseLineStart, EntryComplete))
  }

  lemma CoalesceFromStep(st: Coalescing, lines: seq<string>, i: nat, isStart: string -> bool, complete: string -> bool)
    requires i < |lines|
    ensures CoalesceFrom(st, lines[..i + 1], isStart, complete)
         == CoalesceStep(CoalesceFrom(st, lines[..i], isStart, complete), lines[i], isStart, complete)
  {
    assert lines[..i + 1][..i] == lines[..i];
  }

  method CoalesceCourseLines(lines: seq<string>) returns (aggregated: seq<string>)
    ensures aggregated == Coalesced(lines)
  {
    aggregated := [];
    var buffer := "";
    for i := 0 to |lines|
      invariant Coalescing(aggregated, buffer) == CoalesceFrom(NoEntry, lines[..i], CourseLineStart, EntryComplete)
    {
      var line := lines[i];
      CoalesceFromStep(NoEntry, lines, i, CourseLineStart, EntryComplete);
      if CourseLineStart(line) {
        if buffer != "" {
          aggregated := aggregated + [Strip(buffer)];
        }
        buffer := line;
        continue;
      }
      if buffer != "" {
        buffer := buffer + " " + line;
        if EntryComplete(buffer) {
          aggregated := aggregated + [Strip(buffer)];
          buffer := "";
        }
      }
    }
    assert lines[..|lines|] == lines;
    if buffer != "" {
      aggregated := aggregated + [Strip(buffer)];
    }
  }

  /** Running over two stretches of lines is running over their concatenation. */
  lemma {:induction false} CoalesceFromAppend(st: Coalescing, a: seq<string>, b: seq<string>, isStart: string -> bool, complete: string -> bool)
    ensures CoalesceFrom(st, a + b, isStart, complete)
         == CoalesceFrom(CoalesceFrom(st, a, isStart, complete), b, isStart, complete)
  {
    if b != [] {
      var n := |b| - 1;
      CoalesceFromAppend(st, a, b[..n], isStart, complete);
      assert (a + b)[..|a + b| - 1] == a + b[..n];
      assert (a + b)[|a + b| - 1] == b[n];
    } else {
      assert a + b == a;
    }
  }

  /** Lines that start no entry, with no entry open, change nothing. */
  lemma {:induction false} NoStartNoEntry(lines: seq<string>, isStart: string -> bool, complete: string -> bool)
    requires forall j :: 0 <= j < |lines| ==> !isStart(lines[j])
    ensures CoalesceFrom(NoEntry, lines, isStart, complete) == NoEntry
  {
    if lines != [] {
      NoStartNoEntry(lines[..|lines| - 1], isStart, complete);
    }
  }

  /** The lines before the first course-line start are dropped. */
  lemma LeadingLinesDropped(pre: seq<string>, rest: seq<string>)
    requires forall j :: 0 <= j < |pre| ==> !CourseLineStart(pre[j])
    ensures Coalesced(pre + rest) == Coalesced(rest)
  {
    CoalesceFromAppend(NoEntry, pre, rest, CourseLineStart, EntryComplete);
    NoStartNoEntry(pre, CourseLineStart, EntryComplete);
  }

  /** Non-empty, with no whitespace at either end (what stripped lines are). */
  predicate Trimmed(l: string) {
    l != [] && !IsSpace(l[0]) && !IsSpace(l[|l| - 1])
  }

  lemma CleanTrimmed(l: string)
    requires CleanLine(l)
    ensures Trimmed(l)
  {
  }

  /** A start test that survives appending a line and stripping. */
  ghost predicate StartKept(isStart: string -> bool) {
    (forall b, x :: isStart(b) ==> isStart(Extend(b, x)))
    && (forall b :: isStart(b) ==> isStart(Strip(b)))
  }

  lemma CourseStartKept()
    ensures StartKept(CourseLineStart)
  {
    forall b, x | CourseLineStart(b) ensures CourseLineStart(Extend(b, x)) { StartExtended(b, x); }
    forall b | CourseLineStart(b) ensures CourseLineStart(Strip(b)) { StartStripped(b); }
  }

  /** The state after some lines, against the start lines among them:
      every start line opened exactly one entry, in order, and every entry
      begins with its start line and itself passes the start test. */
  ghost predicate Tracks(st: Coalescing, starts: seq<string>, isStart: string -> bool) {
    |st.aggregated| + (if st.buffer != "" then 1 else 0) == |starts|
    && (forall k :: 0 <= k < |starts| ==> Trimmed(starts[k]))
    && (forall k :: 0 <= k < |st.aggregated| ==>
          StartsWith(st.aggregated[k], starts[k]) && isStart(st.aggregated[k]))
    && (st.buffer != "" ==> StartsWith(st.buffer, starts[|starts| - 1]) && isStart(st.buffer))
  }

  /** Stripping an entry keeps the trimmed line it begins with. */
  lemma StrippedEntry(b: string, line: string)
    requires StartsWith(b, line) && Trimmed(line)
    ensures StartsWith(Strip(b), line)
  {
    assert b[0] == line[0] && b[|line| - 1] == line[|line| - 1];
    StripAfterNonSpace(b, |line|);
  }

  /** A start line closes the open entry and opens its own. */
  lemma TracksStart(st: Coalescing, starts: seq<string>, line: string, isStart: string -> bool)
    requires StartKept(isStart) && Tracks(st, starts, isStart) && Trimmed(line) && isStart(line)
    ensures Tracks(Coalescing(Flush(st), line), starts + [line], isStart)
  {
    if st.buffer != "" { StrippedEntry(st.buffer, starts[|starts| - 1]); }
    assert StartsWith(line, line);
  }

  /** Any other line extends the open entry, which may close. */
  lemma TracksAppend(st: Coalescing, starts: seq<string>, line: string, isStart: string -> bool, closes: bool)
    requires StartKept(isStart) && Tracks(st, starts, isStart) && st.buffer != ""
    ensures var b := Extend(st.buffer, line);
      Tracks(if closes then Coalescing(st.aggregated + [Strip(b)], "") else Coalescing(st.aggregated, b), starts, isStart)
  {
    var b := Extend(st.buffer, line);
    var first := starts[|starts| - 1];
    assert b[..|first|] == st.buffer[..|first|];
    if closes { StrippedEntry(b, first); }
  }

  lemma TracksStep(st: Coalescing, starts: seq<string>, line: string, isStart: string -> bool, complete: string -> bool)
    requires StartKept(isStart) && Tracks(st, starts, isStart) && Trimmed(line)
    ensures Tracks(CoalesceStep(st, line, isStart, complete), starts + (if isStart(line) then [line] else []), isStart)
  {
    if isStart(line) {
      TracksStart(st, starts, line, isStart);
    } else if st.buffer != "" {
      TracksAppend(st, starts, line, isStart, complete(Extend(st.buffer, line)));
    } else {
      assert starts + [] == starts;
    }
  }

  lemma {:induction false} TracksRun(lines: seq<string>, isStart: string -> bool, complete: string -> bool)
    requires StartKept(isStart)
    requires forall j :: 0 <= j < |lines| ==> Trimmed(lines[j])
    ensures Tracks(CoalesceFrom(NoEntry, lines, isStart, complete), Keep(lines, isStart), isStart)
  {
    if lines != [] {
      var n := |lines| - 1;
      TracksRun(lines[..n], isStart, complete);
      TracksStep(CoalesceFrom(NoEntry, lines[..n], isStart, complete), Keep(lines[..n], isStart), lines[n], isStart, complete);
    }
  }

  lemma TracksFlush(st: Coalescing, starts: seq<string>, isStart: string -> bool)
    requires StartKept(isStart) && Tracks(st, starts, isStart)
    ensures |Flush(st)| == |starts|
    ensures forall k :: 0 <= k < |starts| ==> StartsWith(Flush(st)[k], starts[k]) && isStart(Flush(st)[k])
  {
    if st.buffer != "" { StrippedEntry(st.buffer, starts[|starts| - 1]); }
  }

  /** On trimmed lines (as `_split_lines` yields), `_coalesce_course_lines`
      emits one entry per course-line start, in order, each beginning with
      its start line and itself a course-line start; the open entry is
      flushed at the end. */
  lemma CoalescedEntries(lines: seq<string>)
    requires forall j :: 0 <= j < |lines| ==> Trimmed(lines[j])
    ensures |Coalesced(lines)| == |Keep(lines, CourseLineStart)|
    ensures forall k :: 0 <= k < |Keep(lines, CourseLineStart)| ==>
      StartsWith(Coalesced(lines)[k], Keep(lines, CourseLineStart)[k]) && CourseLineStart(Coalesced(lines)[k])
  {
    CourseStartKept();
    TracksRun(lines, CourseLineStart, EntryComplete);
    TracksFlush(CoalesceFrom(NoEntry, lines, CourseLineStart, EntryComplete), Keep(lines, CourseLineStart), CourseLineStart);
  }

  // ---------------------------------------------------------------------------
  // _parse_courses
  // ---------------------------------------------------------------------------

  /** `float(text)` (0.0 where Python would raise; the patterns only ever
      capture text it accepts). */
  function FloatOf(t: string): real {
    match ParseFloat(t)
    case Some(v) => v
    case None => 0.0
  }

  /** Captured credits `d.dd` read as the number they spell. */
  lemma CreditsFloat(c: string)
    requires CreditsShape(c)
    ensures AllDigits(c[..|c| - 3] + c[|c| - 2..])
    ensures FloatOf(c) == DigitsValue(c[..|c| - 3] + c[|c| - 2..]) as real / 100.0
  {
    var whole := c[..|c| - 3];
    var frac := c[|c| - 2..];
    SplitAtDot(c);
    assert |frac| == 2 && Pow10(|frac|) as real == 100.0;
    DecimalFloat(c, whole, frac);
  }

  lemma SplitAtDot(c: string)
    requires |c| >= 3 && c[|c| - 3] == '.'
    ensures c == c[..|c| - 3] + "." + c[|c| - 2..]
  {
  }

  /** One course of the program evaluation. Its seven fields are the key
      that `_parse_courses` deduplicates on; "" stands for a missing grade
      or type. */
  datatype Course = Course(
    term: string, subject: string, number: string, title: string,
    grade: string, credits: real, courseType: string)

  /** The record `add_course` builds from the pattern's groups: the title
      stripped and the credits read as a number. */
  function CourseOf(f: CourseFields): Course {
    Course(f.term, f.subject, f.number, Strip(f.title), f.grade, FloatOf(f.credits), f.courseType)
  }

  /** `COURSE_PATTERN.match(line)`, as the record `add_course` builds. */
  function CourseFromLine(line: string): Option<Course> {
    match MatchCourse(line)
    case None => None
    case Some(f) => Some(CourseOf(f))
  }

  /** The courses offered to `add_course`, in order: those of the coalesced
      entries, then those of the single lines. */
  function Candidates(lines: seq<string>): seq<Course> {
    ValueSeq(Coalesced(lines), CourseFromLine) + ValueSeq(lines, CourseFromLine)
  }

  /** `_parse_courses(lines)` */
  function ParsedCourses(lines: seq<string>): seq<Course> {
    Dedup(Candidates(lines))
  }

  /** The loop `for line in lines: ... add_course(...)`, with `find` the
      match of a line, continuing from the courses kept for `prior`. */
  method AddMatchedCourses(lines: seq<string>, find: string -> Option<Course>,
                           courses0: seq<Course>, seen0: set<Course>, ghost prior: seq<Course>)
    returns (courses: seq<Course>, seen: set<Course>)
    requires courses0 == Dedup(prior) && forall c :: c in seen0 <==> c in courses0
    ensures courses == Dedup(prior + ValueSeq(lines, find))
    ensures forall c :: c in seen <==> c in courses
  {
    courses, seen := courses0, seen0;
    assert prior + ValueSeq(lines[..0], find) == prior;
    for i := 0 to |lines|
      invariant courses == Dedup(prior + ValueSeq(lines[..i], find))
      invariant forall c :: c in seen <==> c in courses
    {
      ghost var before := prior + ValueSeq(lines[..i], find);
      ValueSeqStep(lines, find, i);
      var found := find(lines[i]);
      if found.Some? {
        var course := found.value;
        assert prior + ValueSeq(lines[..i + 1], find) == before + [course];
        DedupStep(before, course);
        if course !in seen {
          seen := seen + {course};
          courses := courses + [course];
        }
      } else {
        assert prior + ValueSeq(lines[..i + 1], find) == before;
      }
    }
    assert lines[..|lines|] == lines;
  }

  method ParseCourses(lines: seq<string>) returns (courses: seq<Course>)
    ensures courses == ParsedCourses(lines)
  {
    var entries := CoalesceCourseLines(lines);
    var seen: set<Course>;
    courses, seen := AddMatchedCourses(entries, CourseFromLine, [], {}, []);
    assert [] + ValueSeq(entries, CourseFromLine) == ValueSeq(entries, CourseFromLine);
    courses, seen := AddMatchedCourses(lines, CourseFromLine, courses, seen, ValueSeq(entries, CourseFromLine));
  }

  /** `_parse_courses` never yields two courses with the same key, yields
      exactly the courses the pattern found, and lists each where it was
      first found: `idx[k]` is the first offer of course `k`. */
  lemma ParsedCoursesSpec(lines: seq<string>) returns (idx: seq<nat>)
    ensures forall i, j :: 0 <= i < j < |ParsedCourses(lines)| ==> ParsedCourses(lines)[i] != ParsedCourses(lines)[j]
    ensures forall c :: c in ParsedCourses(lines) <==> c in Candidates(lines)
    ensures PicksBelow(ParsedCourses(lines), Candidates(lines), idx, |Candidates(lines)|)
    ensures forall k, i :: 0 <= k < |idx| && 0 <= i < idx[k] ==> Candidates(lines)[i] != ParsedCourses(lines)[k]
  {
    idx := DedupSpec(Candidates(lines));
  }

  /** Every line the course pattern matches contributes its course. */
  lemma MatchedLineKept(lines: seq<string>, j: nat)
    requires j < |lines| && MatchCourse(lines[j]).Some?
    ensures CourseOf(MatchCourse(lines[j]).value) in ParsedCourses(lines)
  {
    var c := CourseOf(MatchCourse(lines[j]).value);
    assert CourseFromLine(lines[j]) == Some(c);
    ValueSeqMembers(lines, CourseFromLine, c);
    var _ := DedupSpec(Candidates(lines));
  }

  // ---------------------------------------------------------------------------
  // _parse_credit_requirements
  // ---------------------------------------------------------------------------

  /** One credit requirement; `name` is its label. */
  datatype CreditRequirement = CreditRequirement(
    name: string, required: real, earned: real, inProgress: real, needed: real)

  /** `current_heading or "General"` ("" when no heading was seen). */
  function LabelOf(heading: string): string {
    if heading != "" then heading else "General"
  }

  function RequirementOf(name: string, m: CreditNumbers): CreditRequirement {
    CreditRequirement(name, FloatOf(m.required), FloatOf(m.earned), FloatOf(m.inProgress), FloatOf(m.needed))
  }

  /** The loop state: the entries so far and the current heading. */
  datatype CreditScan = CreditScan(requirements: seq<CreditRequirement>, heading: string)

  /** One line: a heading becomes the current heading; otherwise a credit
      line adds an entry under the current heading. */
  function CreditStep(st: CreditScan, line: string): CreditScan {
    if LooksLikeHeading(line) then CreditScan(st.requirements, line)
    else
      match SearchCreditLine(line)
      case None => st
      case Some(m) => CreditScan(st.requirements + [RequirementOf(LabelOf(st.heading), m)], st.heading)
  }

  function CreditScanOf(lines: seq<string>): CreditScan {
    if lines == [] then CreditScan([], "")
    else CreditStep(CreditScanOf(lines[..|lines| - 1]), lines[|lines| - 1])
  }

  /** `_parse_credit_requirements(lines)` */
  function CreditRequirements(lines: seq<string>): seq<CreditRequirement> {
    CreditScanOf(lines).requirements
  }

  lemma CreditScanStep(lines: seq<string>, i: nat)
    requires i < |lines|
    ensures CreditScanOf(lines[..i + 1]) == CreditStep(CreditScanOf(lines[..i]), lines[i])
  {
    assert lines[..i + 1][..i] == lines[..i];
  }

  method ParseCreditRequirements(lines: seq<string>) returns (requirements: seq<CreditRequirement>)
    ensures requirements == CreditRequirements(lines)
  {
    requirements := [];
    var heading := "";
    for i := 0 to |lines|
      invariant CreditScan(requirements, heading) == CreditScanOf(lines[..i])
    {
      CreditScanStep(lines, i);
      var line := lines[i];
      if LooksLikeHeading(line) {
        heading := line;
        continue;
      }
      var m := SearchCreditLine(line);
      if m.Some? {
        requirements := requirements + [RequirementOf(LabelOf(heading), m.value)];
      }
    }
    assert lines[..|lines|] == lines;
  }

  /** The most recent heading among `lines`; "" when there is none. */
  function LastHeading(lines: seq<string>): string {
    if lines == [] then ""
    else if LooksLikeHeading(lines[|lines| - 1]) then lines[|lines| - 1]
    else LastHeading(lines[..|lines| - 1])
  }

  lemma {:induction false} ScanHeading(lines: seq<string>)
    ensures CreditScanOf(lines).heading == LastHeading(lines)
  {
    if lines != [] { ScanHeading(lines[..|lines| - 1]); }
  }

  /** A line adds an entry exactly when it is no heading and the credit
      pattern is found in it; the entry's label is the most recent heading
      before it, or "General". */
  lemma RequirementsStep(lines: seq<string>, line: string)
    ensures CreditRequirements(lines + [line]) == CreditRequirements(lines) +
      (if !LooksLikeHeading(line) && SearchCreditLine(line).Some?
       then [RequirementOf(LabelOf(LastHeading(lines)), SearchCreditLine(line).value)] else [])
  {
    assert (lines + [line])[..|lines|] == lines;
    ScanHeading(lines);
  }

  /** The lines that add an entry. */
  predicate IsCreditLine(line: string) {
    !LooksLikeHeading(line) && SearchCreditLine(line).Some?
  }

  /** One entry per credit line. */
  lemma {:induction false} RequirementsCount(lines: seq<string>)
    ensures |CreditRequirements(lines)| == |Keep(lines, IsCreditLine)|
  {
    if lines != [] {
      var n := |lines| - 1;
      RequirementsCount(lines[..n]);
      assert lines == lines[..n] + [lines[n]];
      RequirementsStep(lines[..n], lines[n]);
    }
  }

  /** The most recent heading is a heading line of the text, if any. */
  lemma {:induction false} LastHeadingIn(lines: seq<string>)
    ensures LastHeading(lines) == "" || (LastHeading(lines) in lines && LooksLikeHeading(LastHeading(lines)))
  {
    if lines != [] {
      var n := |lines| - 1;
      LastHeadingIn(lines[..n]);
      assert forall l :: l in lines[..n] ==> l in lines;
    }
  }

  /** Every label is "General" or a heading line of the text. */
  lemma {:induction false} RequirementLabels(lines: seq<string>)
    ensures forall r :: r in CreditRequirements(lines) ==>
      r.name == "General" || (r.name in lines && LooksLikeHeading(r.name))
  {
    if lines != [] {
      var n := |lines| - 1;
      var init := lines[..n];
      RequirementLabels(init);
      LastHeadingIn(init);
      assert lines == init + [lines[n]];
      RequirementsStep(init, lines[n]);
      assert forall l :: l in init ==> l in lines;
    }
  }

  // ---------------------------------------------------------------------------
  // The course views and the mastery demonstration of parse_program_evaluation
  // ---------------------------------------------------------------------------

  /** The test of the `in_progress` view. */
  predicate InProgress(c: Course) { c.grade == "IP" || c.courseType == "IP" }

  /** The test of the `completed` view: a grade other than "IP". */
  predicate Completed(c: Course) { c.grade != "" && c.grade != "IP" }

  /** A course graded "IP" is in progress and never completed; a course with
      a real grade and type "IP" is in both views. */
  lemma CourseViews(courses: seq<Course>, c: Course)
    requires c in courses
    ensures c.grade == "IP" ==> c in Keep(courses, InProgress) && c !in Keep(courses, Completed)
    ensures c.grade != "" && c.grade != "IP" && c.courseType == "IP" ==>
      c in Keep(courses, InProgress) && c in Keep(courses, Completed)
    ensures c.grade == "" && c.courseType != "IP" ==>
      c !in Keep(courses, InProgress) && c !in Keep(courses, Completed)
  {
    KeepMembers(courses, InProgress, c);
    KeepMembers(courses, Completed, c);
  }

  datatype Mastery = Thesis | Project | NoMastery

  /** The `mastery_demonstration` type. */
  function MasteryOf(text: string): Mastery {
    if Contains(text, "Thesis Defense") then Thesis
    else if Contains(text, "Capstone Project") then Project
    else NoMastery
  }

  /** More text never loses a mastery, and "Thesis Defense" wins wherever it
      appears relative to "Capstone Project". */
  lemma MasteryExtended(a: string, b: string)
    ensures MasteryOf(a) == Thesis || MasteryOf(b) == Thesis ==> MasteryOf(a + b) == Thesis
    ensures MasteryOf(a) == Project || MasteryOf(b) == Project ==> MasteryOf(a + b) != NoMastery
  {
    ContainsAppend(a, b, "Thesis Defense");
    ContainsAppend(a, b, "Capstone Project");
  }

  /** The result of `parse_program_evaluation` without the student
      information, the GPA and the clock-dependent metadata. */
  datatype Evaluation = Evaluation(
    allFound: seq<Course>, inProgress: seq<Course>, completed: seq<Course>,
    creditRequirements: seq<CreditRequirement>, mastery: Mastery, sourceLength: nat)

  function EvaluationOf(text: string): Evaluation {
    var lines := SplitLines(text);
    var courses := ParsedCourses(lines);
    Evaluation(courses, Keep(courses, InProgress), Keep(courses, Completed),
               CreditRequirements(lines), MasteryOf(text), |text|)
  }

  method ParseProgramEvaluation(text: string) returns (e: Evaluation)
    ensures e == EvaluationOf(text)
  {
    var lines := SplitLines(text);
    var courses := ParseCourses(lines);
    var requirements := ParseCreditRequirements(lines);
    e := Evaluation(courses, Keep(courses, InProgress), Keep(courses, Completed),
                    requirements, MasteryOf(text), |text|);
  }

  /** The views hold exactly the courses that pass their tests, and every
      entry the coalescing step glued together begins with a course-line
      start of the text. */
  lemma EvaluationViews(text: string)
    ensures var e := EvaluationOf(text);
      (forall c :: c in e.inProgress <==> c in e.allFound && InProgress(c))
      && (forall c :: c in e.completed <==> c in e.allFound && Completed(c))
    ensures var lines := SplitLines(text);
      forall k :: 0 <= k < |Coalesced(lines)| ==> CourseLineStart(Coalesced(lines)[k])
  {
    var lines := SplitLines(text);
    var courses := ParsedCourses(lines);
    forall c ensures c in Keep(courses, InProgress) <==> c in courses && InProgress(c) {
      KeepMembers(courses, InProgress, c);
    }
    forall c ensures c in Keep(courses, Completed) <==> c in courses && Completed(c) {
      KeepMembers(courses, Completed, c);
    }
    SplitLinesClean(text);
    forall j | 0 <= j < |lines| ensures Trimmed(lines[j]) { CleanTrimmed(lines[j]); }
    CoalescedEntries(lines);
  }
}
