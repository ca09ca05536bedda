/** The regular expressions of the program-evaluation parser
    (backend/app/services/pdf_parser.py) as character-level matchers:
    the start of a course line, the end of a course entry that a line break
    split, the full course-line pattern with its named groups, and the
    credit-requirement line. Each matcher follows the regex engine's
    backtracking order far enough to fix which text every group captures.
    Letters and digits are ASCII, and `$` is the end of the text (the lines
    these patterns read never contain a line break). */
module CourseLine {
  import opened Wrappers
  import opened Text

  // ---------------------------------------------------------------------------
  // Shared pieces
  // ---------------------------------------------------------------------------

  /** The term words, in the order the alternation tries them. */
  const TermWords: seq<string> := ["Fall", "Spring", "Spr", "Summer", "Winter"]

  /** The length of the first term word in `words` that `s` starts with and
      that whitespace follows; the other alternatives fail at the `\s+`. */
  function TermWordIn(s: string, words: seq<string>): (r: Option<nat>)
    ensures r.Some? ==> r.value < |s| && IsSpace(s[r.value])
    ensures r.Some? ==> exists w :: w in words && |w| == r.value && StartsWith(s, w)
  {
    if words == [] then None
    else if StartsWith(s, words[0]) && |words[0]| < |s| && IsSpace(s[|words[0]|]) then Some(|words[0]|)
    else TermWordIn(s, words[1..])
  }

  /** `n` digits from `i` on. */
  predicate DigitsAt(s: string, i: nat, n: nat) {
    i + n <= |s| && forall k :: i <= k < i + n ==> IsDigit(s[k])
  }

  /** `(Fall|Spring|Spr|Summer|Winter)\s+\d{4}` followed by whitespace: the
      end of the term. */
  function TermEnd(s: string): (r: Option<nat>)
    ensures r.Some? ==> 4 < r.value < |s| && IsSpace(s[r.value]) && DigitsAt(s, r.value - 4, 4)
  {
    match TermWordIn(s, TermWords)
    case None => None
    case Some(k) =>
      var i := k + SpaceRun(s, k);
      if DigitsAt(s, i, 4) && i + 4 < |s| && IsSpace(s[i + 4]) then Some(i + 4) else None
  }

  /** `\s+[A-Z]{2,5}` after the term: the subject's bounds, when its run of
      capitals has two to five letters (with more, no shorter run is followed
      by what comes next, a boundary or whitespace). */
  function SubjectAfter(s: string, termEnd: nat): (r: Option<(nat, nat)>)
    requires termEnd <= |s|
    ensures r.Some? ==> termEnd < r.value.0 && r.value.0 + 2 <= r.value.1 <= r.value.0 + 5 && r.value.1 <= |s|
    ensures r.Some? ==> forall k :: r.value.0 <= k < r.value.1 ==> IsUpper(s[k])
    ensures r.Some? ==> r.value.1 < |s| ==> !IsUpper(s[r.value.1])
  {
    var w := SpaceRun(s, termEnd);
    var j := termEnd + w;
    var n := UpperRun(s, j);
    UpperRunMaximal(s, j);
    if w == 0 || n < 2 || n > 5 then None else Some((j, j + n))
  }

  // ---------------------------------------------------------------------------
  // COURSE_LINE_START: ^(Fall|Spring|Spr|Summer|Winter)\s+\d{4}\s+[A-Z]{2,5}\b
  // ---------------------------------------------------------------------------

  /** `COURSE_LINE_START.match(line)` succeeds. */
  predicate CourseLineStart(line: string) {
    match TermEnd(line)
    case None => false
    case Some(t) =>
      match SubjectAfter(line, t)
      case None => false
      case Some((_, e)) => e == |line| || !IsWordChar(line[e])
  }

  // ---------------------------------------------------------------------------
  // End of a split course entry: \d+\.\d{2}\s+[A-Z]{2,3}$ and \d+\.\d{2}\s+IP$
  // ---------------------------------------------------------------------------

  /** `\d+\.\d{2}` at `i`: the end of the credits. */
  function CreditsAt(s: string, i: nat): (r: Option<nat>)
    requires i <= |s|
    ensures r.Some? ==> i + 4 <= r.value <= |s|
  {
    var d := DigitRun(s, i);
    var dot := i + d;
    if d >= 1 && dot < |s| && s[dot] == '.' && DigitsAt(s, dot + 1, 2) then Some(dot + 3) else None
  }

  /** `\d+\.\d{2}\s+[A-Z]{2,3}$` matches at `i`. */
  predicate CreditsTypeAt(s: string, i: nat)
    requires i <= |s|
  {
    match CreditsAt(s, i)
    case None => false
    case Some(e) =>
      var w := SpaceRun(s, e);
      var c := UpperRun(s, e + w);
      w >= 1 && 2 <= c <= 3 && e + w + c == |s|
  }

  /** `\d+\.\d{2}\s+IP$` matches at `i`. */
  predicate CreditsIpAt(s: string, i: nat)
    requires i <= |s|
  {
    match CreditsAt(s, i)
    case None => false
    case Some(e) =>
      var w := SpaceRun(s, e);
      w >= 1 && s[e + w..] == "IP"
  }

  /** The test of `_coalesce_course_lines` that closes an entry: either
      pattern is found somewhere in the text. */
  predicate EntryComplete(s: string) {
    (exists i | 0 <= i <= |s| :: CreditsTypeAt(s, i)) || (exists i | 0 <= i <= |s| :: CreditsIpAt(s, i))
  }

  /** The "IP" pattern never decides anything: wherever it matches, the
      pattern with two or three capitals matches too. */
  lemma IpEndIsTypeEnd(s: string, i: nat)
    requires i <= |s| && CreditsIpAt(s, i)
    ensures CreditsTypeAt(s, i)
  {
    var e := CreditsAt(s, i).value;
    var w := SpaceRun(s, e);
    var j := e + w;
    assert s[j..] == "IP";
    assert s[j] == 'I' && s[j + 1] == 'P' && j + 2 == |s|;
    UpperRunExact(s, j, 2);
  }

  // ---------------------------------------------------------------------------
  // COURSE_PATTERN
  // ---------------------------------------------------------------------------

  /** The grades the `grade` group accepts. */
  predicate IsGrade(g: string) {
    || (|g| == 1 && ('A' <= g[0] <= 'F' || g[0] == 'P'))
    || (|g| == 2 && IsTwoLetterGrade(g[0], g[1]))
  }

  /** A letter grade with a sign, or one of IP, CR, NP and TI. */
  predicate IsTwoLetterGrade(a: char, b: char) {
    || ('A' <= a <= 'F' && (b == '+' || b == '-'))
    || (a == 'I' && b == 'P') || (a == 'C' && b == 'R') || (a == 'N' && b == 'P') || (a == 'T' && b == 'I')
  }

  /** The grade alternatives accept exactly these strings. */
  lemma GradeList(g: string)
    ensures IsGrade(g) <==> g in ["A", "B", "C", "D", "E", "F", "A+", "A-", "B+", "B-", "C+", "C-",
                                  "D+", "D-", "E+", "E-", "F+", "F-", "IP", "CR", "P", "NP", "TI"]
  {
    if |g| == 1 {
      assert g == [g[0]];
    } else if |g| == 2 {
      assert g == [g[0], g[1]];
    }
  }

  /** What the pattern captures after the title: grade ("" when absent),
      credits and course type ("" when absent). */
  datatype Tail = Tail(grade: string, credits: string, courseType: string)

  /** `(?P<credits>\d+\.\d{2})(?:\s+(?P<course_type>[A-Z]{2,3}|IP))?$` at `k`. */
  function CreditsToEnd(s: string, k: nat, grade: string): (r: Option<Tail>)
    requires k <= |s|
  {
    match CreditsAt(s, k)
    case None => None
    case Some(e) =>
      if e == |s| then Some(Tail(grade, s[k..e], ""))
      else
        var w := SpaceRun(s, e);
        var c := UpperRun(s, e + w);
        if w >= 1 && 2 <= c <= 3 && e + w + c == |s| then Some(Tail(grade, s[k..e], s[e + w..]))
        else None
  }

  /** `(?:(?P<grade>…)\s+)?` then the credits, at `k`. A digit means there
      is no grade; otherwise the grade is the text up to the next
      whitespace, since every alternative must be followed by whitespace. */
  function GradeAndCredits(s: string, k: nat): (r: Option<Tail>)
    requires k <= |s|
  {
    if k < |s| && IsDigit(s[k]) then CreditsToEnd(s, k, "")
    else
      var g := Word(s[k..]);
      var w := SpaceRun(s, k + |g|);
      if IsGrade(g) && w >= 1 then CreditsToEnd(s, k + |g| + w, g) else None
  }

  /** `\s+` then the rest of the pattern after the title, at `q`. */
  function TailAt(s: string, q: nat): (r: Option<Tail>)
    requires q <= |s|
  {
    var w := SpaceRun(s, q);
    if w == 0 then None else GradeAndCredits(s, q + w)
  }

  /** The lazy `(?P<title>.+?)`: the first title end from `q` on from which
      the rest matches; `.` stops at a line break. */
  function TitleEnd(s: string, q: nat): (r: Option<nat>)
    requires 0 < q <= |s|
    ensures r.Some? ==> q <= r.value <= |s| && TailAt(s, r.value).Some?
    decreases |s| - q
  {
    if s[q - 1] == '\n' then None
    else if TailAt(s, q).Some? then Some(q)
    else if q == |s| then None
    else TitleEnd(s, q + 1)
  }

  /** The last start `p'` in `lo..hi` whose character is not a line break:
      where a one-character title begins once the whitespace before the
      title gives characters back. */
  function LastNonBreak(s: string, lo: nat, hi: nat): (r: Option<nat>)
    requires lo <= hi <= |s|
    ensures r.Some? ==> lo <= r.value < hi && s[r.value] != '\n'
    decreases hi - lo
  {
    if hi == lo then None
    else if s[hi - 1] != '\n' then Some(hi - 1)
    else LastNonBreak(s, lo, hi - 1)
  }

  /** `\s+(?P<number>\d{3}[A-Z]?)\s+` after the subject: the number's end,
      where whitespace follows. */
  function NumberEnd(s: string, n0: nat): (r: Option<nat>)
    requires n0 <= |s|
    ensures r.Some? ==> n0 + 3 <= r.value <= n0 + 4 && r.value < |s| && IsSpace(s[r.value])
    ensures r.Some? ==> DigitsAt(s, n0, 3) && (r.value == n0 + 4 ==> IsUpper(s[n0 + 3]))
  {
    if !DigitsAt(s, n0, 3) then None
    else if n0 + 4 < |s| && IsUpper(s[n0 + 3]) && IsSpace(s[n0 + 4]) then Some(n0 + 4)
    else if n0 + 3 < |s| && IsSpace(s[n0 + 3]) then Some(n0 + 3)
    else None
  }

  /** Where the term ends and the subject and the number lie. */
  datatype Head = Head(termEnd: nat, subjectStart: nat, subjectEnd: nat, numberStart: nat, numberEnd: nat)

  /** The part of `COURSE_PATTERN` before the title. */
  function HeadOf(s: string): (r: Option<Head>)
    ensures r.Some? ==> var h := r.value;
      h.termEnd < h.subjectStart < h.subjectEnd < h.numberStart < h.numberEnd < |s|
  {
    match TermEnd(s)
    case None => None
    case Some(t) =>
      match SubjectAfter(s, t)
      case None => None
      case Some((j, e)) =>
        var n0 := e + SpaceRun(s, e);
        if e == n0 then None
        else
          match NumberEnd(s, n0)
          case None => None
          case Some(ne) => Some(Head(t, j, e, n0, ne))
  }

  /** The bounds of the title after the number ending at `ne`. The title is
      the shortest text after the whitespace that follows the number from
      which the rest matches. When there is none, the engine gives back
      whitespace: with two or more characters of it, the last of them that
      is not a line break, except the one just before the title, becomes a
      one-character title, provided the rest matches after it. */
  function TitleSpan(s: string, ne: nat): (r: Option<(nat, nat)>)
    requires ne <= |s|
    ensures r.Some? ==> ne < r.value.0 < r.value.1 <= |s| && TailAt(s, r.value.1).Some?
  {
    var w := SpaceRun(s, ne);
    var p := ne + w;
    var main := if p < |s| then TitleEnd(s, p + 1) else None;
    if main.Some? && p > ne then Some((p, main.value))
    else if w >= 2 then
      match LastNonBreak(s, ne + 1, p - 1)
      case None => None
      case Some(a) => if TailAt(s, a + 1).Some? then Some((a, a + 1)) else None
    else None
  }

  /** The named groups of a course line; absent groups are "". */
  datatype CourseFields = CourseFields(
    term: string, subject: string, number: string, title: string,
    grade: string, credits: string, courseType: string)

  /** `COURSE_PATTERN.match(line)`. */
  function MatchCourse(s: string): (r: Option<CourseFields>) {
    match HeadOf(s)
    case None => None
    case Some(h) =>
      match TitleSpan(s, h.numberEnd)
      case None => None
      case Some((a, b)) =>
        var tail := TailAt(s, b).value;
        Some(CourseFields(s[..h.termEnd], s[h.subjectStart..h.subjectEnd], s[h.numberStart..h.numberEnd],
                          s[a..b], tail.grade, tail.credits, tail.courseType))
  }

  // ---------------------------------------------------------------------------
  // Properties of the course patterns
  // ---------------------------------------------------------------------------

  /** The shape of the credits group: digits, a dot and two digits. */
  predicate CreditsShape(c: string) {
    |c| >= 4 && AllDigits(c[..|c| - 3]) && c[|c| - 3] == '.' && AllDigits(c[|c| - 2..])
  }

  /** The shape of a course type: two or three capitals. */
  predicate TypeShape(t: string) {
    2 <= |t| <= 3 && AllUpper(t)
  }

  lemma CreditsAtShape(s: string, k: nat)
    requires k <= |s| && CreditsAt(s, k).Some?
    ensures CreditsShape(s[k..CreditsAt(s, k).value])
  {
    var e := CreditsAt(s, k).value;
    var d := DigitRun(s, k);
    DigitRunMaximal(s, k);
    var c := s[k..e];
    assert forall i :: 0 <= i < |c| ==> c[i] == s[k + i];
    assert |c| - 3 == d;
  }

  lemma TypeAtShape(s: string, e: nat)
    requires e <= |s|
    requires var w := SpaceRun(s, e); var c := UpperRun(s, e + w); 2 <= c <= 3 && e + w + c == |s|
    ensures TypeShape(s[e + SpaceRun(s, e)..])
  {
    var w := SpaceRun(s, e);
    UpperRunMaximal(s, e + w);
    var ty := s[e + w..];
    assert forall i :: 0 <= i < |ty| ==> ty[i] == s[e + w + i];
  }

  /** The captured tail has a grade or none, credits `d.dd` and a type or none. */
  lemma CreditsToEndShape(s: string, k: nat, grade: string)
    requires k <= |s| && CreditsToEnd(s, k, grade).Some?
    ensures var tl := CreditsToEnd(s, k, grade).value;
      tl.grade == grade && CreditsShape(tl.credits) && (tl.courseType == "" || TypeShape(tl.courseType))
  {
    var e := CreditsAt(s, k).value;
    CreditsAtShape(s, k);
    if e < |s| {
      TypeAtShape(s, e);
    }
  }

  lemma TailShape(s: string, q: nat)
    requires q <= |s| && TailAt(s, q).Some?
    ensures var tl := TailAt(s, q).value;
      (tl.grade == "" || IsGrade(tl.grade)) && CreditsShape(tl.credits) && (tl.courseType == "" || TypeShape(tl.courseType))
  {
    var k := q + SpaceRun(s, q);
    assert TailAt(s, q) == GradeAndCredits(s, k);
    GradeAndCreditsShape(s, k);
  }

  lemma GradeAndCreditsShape(s: string, k: nat)
    requires k <= |s| && GradeAndCredits(s, k).Some?
    ensures var tl := GradeAndCredits(s, k).value;
      (tl.grade == "" || IsGrade(tl.grade)) && CreditsShape(tl.credits) && (tl.courseType == "" || TypeShape(tl.courseType))
  {
    if k < |s| && IsDigit(s[k]) {
      CreditsToEndShape(s, k, "");
    } else {
      var g := Word(s[k..]);
      var w := SpaceRun(s, k + |g|);
      assert IsGrade(g) && GradeAndCredits(s, k) == CreditsToEnd(s, k + |g| + w, g);
      CreditsToEndShape(s, k + |g| + w, g);
    }
  }

  /** The head of a course line: a term the line starts with, a subject of
      two to five capitals and a number of three digits and at most one
      capital. */
  lemma HeadShape(s: string)
    requires HeadOf(s).Some?
    ensures var h := HeadOf(s).value;
      var subject, number := s[h.subjectStart..h.subjectEnd], s[h.numberStart..h.numberEnd];
      && h.termEnd > 4
      && 2 <= |subject| <= 5 && AllUpper(subject)
      && 3 <= |number| <= 4 && AllDigits(number[..3])
      && (|number| == 4 ==> IsUpper(number[3]))
  {
    var h := HeadOf(s).value;
    var subject, number := s[h.subjectStart..h.subjectEnd], s[h.numberStart..h.numberEnd];
    assert forall i :: 0 <= i < |subject| ==> subject[i] == s[h.subjectStart + i];
    assert forall i :: 0 <= i < |number| ==> number[i] == s[h.numberStart + i];
  }

  /** The groups of a course line: a term that the line starts with, a
      subject of two to five capitals, a number of three digits and at most
      one capital, a non-empty title, a grade from the list or none, credits
      `d.dd` and a course type of two or three capitals or none. */
  lemma MatchCourseShape(s: string)
    requires MatchCourse(s).Some?
    ensures var f := MatchCourse(s).value;
      && StartsWith(s, f.term) && |f.term| > 4
      && 2 <= |f.subject| <= 5 && AllUpper(f.subject)
      && 3 <= |f.number| <= 4 && AllDigits(f.number[..3])
      && (|f.number| == 4 ==> IsUpper(f.number[3]))
      && f.title != []
      && (f.grade == "" || IsGrade(f.grade))
      && CreditsShape(f.credits)
      && (f.courseType == "" || TypeShape(f.courseType))
  {
    var h := HeadOf(s).value;
    HeadShape(s);
    var (a, b) := TitleSpan(s, h.numberEnd).value;
    TailShape(s, b);
  }

  /** Every line the course pattern matches also starts a course entry. */
  lemma MatchedLineStarts(s: string)
    requires MatchCourse(s).Some?
    ensures CourseLineStart(s)
  {
    var t := TermEnd(s).value;
    var (j, e) := SubjectAfter(s, t).value;
    assert IsSpace(s[e]);
  }

  // ---------------------------------------------------------------------------
  // What a course-line start reads
  // ---------------------------------------------------------------------------

  /** The end of the subject of a line that starts a course entry: the
      start pattern reads nothing beyond it but the next character. */
  function StartSubjectEnd(s: string): (e: nat)
    requires CourseLineStart(s)
    ensures 8 <= e <= |s|
  {
    SubjectAfter(s, TermEnd(s).value).value.1
  }

  lemma TermWordInAgree(s: string, t: string, words: seq<string>)
    requires 7 <= |s| && 7 <= |t| && forall k :: 0 <= k < 7 ==> t[k] == s[k]
    requires forall w :: w in words ==> |w| <= 6
    ensures TermWordIn(t, words) == TermWordIn(s, words)
  {
    if words != [] {
      var w := words[0];
      assert t[..|w|] == s[..|w|];
      TermWordInAgree(s, t, words[1..]);
    }
  }

  /** The term depends only on the text before its end and the character there. */
  lemma TermEndAgrees(s: string, t: string, m: nat)
    requires TermEnd(s).Some? && TermEnd(s).value < m <= |s| && m <= |t|
    requires forall k :: 0 <= k < m ==> t[k] == s[k]
    ensures TermEnd(t) == TermEnd(s)
  {
    TermWordInAgree(s, t, TermWords);
    var k := TermWordIn(s, TermWords).value;
    var i := k + SpaceRun(s, k);
    SpaceRunMaximal(s, k);
    SpaceRunAgree(s, t, k);
    assert DigitsAt(t, i, 4);
  }

  /** So does the subject, given the character after it. */
  lemma SubjectAgrees(s: string, t: string, te: nat)
    requires te <= |s| && SubjectAfter(s, te).Some?
    requires SubjectAfter(s, te).value.1 <= |t|
    requires forall k :: 0 <= k < SubjectAfter(s, te).value.1 ==> t[k] == s[k]
    requires SubjectAfter(s, te).value.1 < |t| ==> !IsUpper(t[SubjectAfter(s, te).value.1])
    ensures SubjectAfter(t, te) == SubjectAfter(s, te)
  {
    var j := SubjectAfter(s, te).value.0;
    SpaceRunMaximal(s, te);
    SpaceRunAgree(s, t, te);
    UpperRunAgree(s, t, j);
  }

  /** A text that agrees with a course-line start up to the end of its
      subject, and has no word character right after it, starts a course
      entry too. */
  lemma StartAgrees(s: string, t: string)
    requires CourseLineStart(s)
    requires StartSubjectEnd(s) <= |t|
    requires forall k :: 0 <= k < StartSubjectEnd(s) ==> t[k] == s[k]
    requires StartSubjectEnd(s) < |t| ==> !IsWordChar(t[StartSubjectEnd(s)])
    ensures CourseLineStart(t) && StartSubjectEnd(t) == StartSubjectEnd(s)
  {
    var e := StartSubjectEnd(s);
    var te := TermEnd(s).value;
    TermEndAgrees(s, t, e);
    SubjectAgrees(s, t, te);
  }

  /** Appending text after a space keeps a course-line start. */
  lemma StartExtended(b: string, line: string)
    requires CourseLineStart(b)
    ensures CourseLineStart(b + " " + line)
  {
    var t := b + " " + line;
    var e := StartSubjectEnd(b);
    assert forall k :: 0 <= k < |b| ==> t[k] == b[k];
    if e == |b| { assert t[e] == ' '; }
    StartAgrees(b, t);
  }

  lemma TermWordFirst(s: string, words: seq<string>)
    requires forall w :: w in words ==> |w| > 0 && IsUpper(w[0])
    requires TermWordIn(s, words).Some?
    ensures IsUpper(s[0])
  {
    if !(StartsWith(s, words[0]) && |words[0]| < |s| && IsSpace(s[|words[0]|])) {
      TermWordFirst(s, words[1..]);
    }
  }

  /** A course-line start begins and ends its subject with a capital. */
  lemma StartEnds(b: string)
    requires CourseLineStart(b)
    ensures IsUpper(b[0]) && IsUpper(b[StartSubjectEnd(b) - 1])
  {
    TermWordFirst(b, TermWords);
  }

  /** Stripping keeps a course-line start. */
  lemma StartStripped(b: string)
    requires CourseLineStart(b)
    ensures CourseLineStart(Strip(b))
  {
    var e := StartSubjectEnd(b);
    StartEnds(b);
    StripAfterNonSpace(b, e);
    var t := Strip(b);
    assert forall k :: 0 <= k < |t| ==> t[k] == b[k];
    StartAgrees(b, t);
  }

  // ---------------------------------------------------------------------------
  // CREDIT_LINE_PATTERN (case-insensitive, searched)
  // ---------------------------------------------------------------------------

  /** `\d+\.\d+` at `i`: its end. */
  function DecimalAt(s: string, i: nat): (r: Option<nat>)
    requires i <= |s|
    ensures r.Some? ==> i + 3 <= r.value <= |s|
  {
    var d := DigitRun(s, i);
    var dot := i + d;
    if d >= 1 && dot < |s| && s[dot] == '.' && DigitRun(s, dot + 1) >= 1 then Some(dot + 1 + DigitRun(s, dot + 1))
    else None
  }

  /** The literal `word`, case-insensitively, at `i`. */
  predicate WordAt(s: string, i: nat, word: string) {
    i + |word| <= |s| && Lower(s[i..i + |word|]) == word
  }

  /** `\s*(\d+\.\d+)\s*<word>` at `i`: the number's text and where the word ends. */
  function FieldAt(s: string, i: nat, word: string): (r: Option<(string, nat)>)
    requires i <= |s|
    ensures r.Some? ==> i < r.value.1 <= |s|
  {
    var k := i + SpaceRun(s, i);
    match DecimalAt(s, k)
    case None => None
    case Some(e) =>
      var m := e + SpaceRun(s, e);
      if WordAt(s, m, word) then Some((s[k..e], m + |word|)) else None
  }

  /** The four numbers of a credit line. */
  datatype CreditNumbers = CreditNumbers(required: string, earned: string, inProgress: string, needed: string)

  /** `CREDIT_LINE_PATTERN` matched at `i`. */
  function CreditLineAt(s: string, i: nat): Option<CreditNumbers>
    requires i <= |s|
  {
    if !WordAt(s, i, "credits:") then None
    else
      match FieldAt(s, i + 8, "required,")
      case None => None
      case Some((required, a)) =>
        match FieldAt(s, a, "earned,")
        case None => None
        case Some((earned, b)) =>
          match FieldAt(s, b, "in progress,")
          case None => None
          case Some((inProgress, c)) =>
            match FieldAt(s, c, "needed")
            case None => None
            case Some((needed, _)) => Some(CreditNumbers(required, earned, inProgress, needed))
  }

  /** The matches of `CREDIT_LINE_PATTERN` by start position. */
  function CreditLineFrom(s: string): nat -> Option<CreditNumbers> {
    (k: nat) => if k <= |s| then CreditLineAt(s, k) else None
  }

  /** `CREDIT_LINE_PATTERN.search(line)`: the leftmost match. */
  function SearchCreditLine(s: string): Option<CreditNumbers> {
    FirstSome(CreditLineFrom(s), 0, |s|)
  }

  /** The search returns the match at the leftmost position with one. */
  lemma SearchCreditLineLeftmost(s: string) returns (k: nat)
    requires SearchCreditLine(s).Some?
    ensures LeftmostCreditLine(s, k)
  {
    var f := CreditLineFrom(s);
    k := FirstSomeLeftmost(f, 0, |s|);
    assert f(k) == CreditLineAt(s, k);
    forall k' | 0 <= k' < k ensures CreditLineAt(s, k').None? {
      assert f(k').None?;
    }
  }

  /** The search finds a match whenever some position has one. */
  lemma SearchCreditLineFinds(s: string, k: nat)
    requires k <= |s| && CreditLineAt(s, k).Some?
    ensures SearchCreditLine(s).Some?
  {
    var f := CreditLineFrom(s);
    assert f(k).Some?;
    FirstSomeFinds(f, 0, |s|, k);
  }

  /** `k` is the leftmost start of a credit line, and the search returns it. */
  predicate LeftmostCreditLine(s: string, k: nat) {
    && k <= |s| && SearchCreditLine(s) == CreditLineAt(s, k)
    && forall k' :: 0 <= k' < k ==> CreditLineAt(s, k').None?
  }
}
