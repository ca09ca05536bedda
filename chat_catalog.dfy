/** The catalog side of the onboarding chat: program-name normalisation,
    choosing the catalog for a student's catalog year, scoring the programs
    of that catalog against the student's program. The catalog data is a
    parameter; reading it from disk is not part of this model. */
module ChatCatalog {
  import opened Wrappers
  import opened Text

  // ---------------------------------------------------------------------------
  // Program-name normalisation
  // ---------------------------------------------------------------------------

  /** The regex class `[a-z0-9]`. */
  predicate IsLowerAlnum(c: char) { IsLower(c) || IsDigit(c) }

  /** The alternatives of the degree-suffix pattern in the order the regex
      engine tries them; an optional trailing dot is tried with the dot first. */
  const DegreeSuffixes: seq<string> :=
    ["b.a.", "b.a", "b.s.", "b.s", "b.f.a.", "b.f.a", "b.m.", "b.m", "ba", "bs", "bfa", "bm"]

  /** The suffixes without dots; these are the only ones that can occur in
      text made of letters, digits and spaces. */
  const PlainSuffixes: seq<string> := ["ba", "bs", "bfa", "bm"]

  /** `\b` between positions `i - 1` and `i`. */
  predicate WordBoundary(s: string, i: nat)
    requires i <= |s|
  {
    (i > 0 && IsWordChar(s[i - 1])) != (i < |s| && IsWordChar(s[i]))
  }

  /** Alternative `c` matches at `i`, followed by a word boundary. */
  predicate SuffixMatches(s: string, i: nat, c: string)
    requires i <= |s|
  {
    i + |c| <= |s| && s[i..i + |c|] == c && WordBoundary(s, i + |c|)
  }

  /** The length matched at `i` by the first alternative of `tries` that
      matches, if any. */
  function SuffixAt(s: string, i: nat, tries: seq<string>): (r: Option<nat>)
    requires i <= |s|
    ensures r.Some? ==> exists c :: c in tries && SuffixMatches(s, i, c) && r.value == |c|
    ensures r.None? ==> forall c :: c in tries ==> !SuffixMatches(s, i, c)
    decreases |tries|
  {
    if tries == [] then None
    else
      var earlier := SuffixAt(s, i, tries[..|tries| - 1]);
      var c := tries[|tries| - 1];
      assert forall d :: d in tries ==> d in tries[..|tries| - 1] || d == c;
      if earlier.Some? then earlier
      else if SuffixMatches(s, i, c) then Some(|c|)
      else None
  }

  /** The degree-suffix match at `i`, which needs a word boundary before it. */
  function DegreeSuffixAt(s: string, i: nat): (r: Option<nat>)
    requires i <= |s|
    ensures r.Some? ==> 0 < r.value && i + r.value <= |s|
  {
    if !WordBoundary(s, i) then None
    else
      var r := SuffixAt(s, i, DegreeSuffixes);
      assert r.Some? ==> r.value > 0 by {
        if r.Some? {
          var c :| c in DegreeSuffixes && SuffixMatches(s, i, c) && r.value == |c|;
        }
      }
      r
  }

  /** `re.sub(r"\b(b\.a\.?|b\.s\.?|b\.f\.a\.?|b\.m\.?|ba|bs|bfa|bm)\b", "", s[i..])`,
      scanning from `i` with the whole of `s` visible to the boundaries. */
  function DropDegreeSuffixes(s: string, i: nat): (r: string)
    requires i <= |s|
    ensures |r| <= |s| - i
    decreases |s| - i
  {
    if i == |s| then []
    else
      match DegreeSuffixAt(s, i)
      case Some(n) => DropDegreeSuffixes(s, i + n)
      case None => [s[i]] + DropDegreeSuffixes(s, i + 1)
  }

  /** The text after its leading characters outside `[a-z0-9]`. */
  function DropOthers(s: string): (r: string)
    ensures |r| <= |s| && r == s[|s| - |r|..]
    ensures r == [] || IsLowerAlnum(r[0])
  {
    if s != [] && !IsLowerAlnum(s[0]) then DropOthers(s[1..]) else s
  }

  /** `re.sub(r"[^a-z0-9]+", " ", s)` */
  function Collapse(s: string): (r: string)
    ensures r == [] || s != []
    decreases |s|
  {
    if s == [] then []
    else if IsLowerAlnum(s[0]) then [s[0]] + Collapse(s[1..])
    else " " + Collapse(DropOthers(s))
  }

  /** `_normalize_prog_name` */
  function NormalizeProgramName(name: string): string {
    Strip(Collapse(DropDegreeSuffixes(Lower(name), 0)))
  }

  /** Text of `[a-z0-9]` and spaces. */
  predicate AlnumOrSpace(t: string) {
    forall k :: 0 <= k < |t| ==> IsLowerAlnum(t[k]) || t[k] == ' '
  }

  /** Text of `[a-z0-9]` and spaces, never two spaces in a row. */
  predicate SingleSpaced(t: string) {
    AlnumOrSpace(t) && forall k :: 0 <= k < |t| - 1 ==> t[k] == ' ' ==> t[k + 1] != ' '
  }

  /** Lower-case letters and digits separated by single spaces. */
  predicate Canonical(t: string) {
    SingleSpaced(t) && (t == [] || (t[0] != ' ' && t[|t| - 1] != ' '))
  }

  /** A dotless degree suffix stands at `i` as a whole word. */
  ghost predicate SuffixWordAt(t: string, i: nat) {
    exists c :: c in PlainSuffixes && OccursAt(t, c, i)
      && (i == 0 || t[i - 1] == ' ') && (i + |c| == |t| || t[i + |c|] == ' ')
  }

  /** No dotless degree suffix of `t` stands as a whole word. */
  ghost predicate NoSuffixWord(t: string) {
    forall i :: 0 <= i <= |t| ==> !SuffixWordAt(t, i)
  }

  /** Collapse leaves only `[a-z0-9]` and single spaces. */
  lemma {:induction false} CollapseChars(s: string)
    ensures SingleSpaced(Collapse(s))
    ensures Collapse(s) != [] && Collapse(s)[0] == ' ' ==> !IsLowerAlnum(s[0])
    decreases |s|
  {
    if s == [] {
    } else if IsLowerAlnum(s[0]) {
      CollapseChars(s[1..]);
      ConsSingleSpaced(s[0], Collapse(s[1..]));
    } else {
      var t := DropOthers(s);
      CollapseChars(t);
      assert Collapse(t) == [] || Collapse(t)[0] != ' ';
      ConsSingleSpaced(' ', Collapse(t));
    }
  }

  /** Prefixing a character keeps text single-spaced, unless it is a
      space before a space. */
  lemma ConsSingleSpaced(x: char, r: string)
    requires IsLowerAlnum(x) || (x == ' ' && (r == [] || r[0] != ' '))
    requires SingleSpaced(r)
    ensures SingleSpaced([x] + r)
  {
    var t := [x] + r;
    forall k | 0 < k < |t| ensures t[k] == r[k - 1] { }
  }

  /** A slice of single-spaced text is single-spaced. */
  lemma SingleSpacedSlice(c: string, a: nat, b: nat)
    requires a <= b <= |c| && SingleSpaced(c)
    ensures SingleSpaced(c[a..b])
  {
    var r := c[a..b];
    forall k | 0 <= k < |r| ensures IsLowerAlnum(r[k]) || r[k] == ' ' { assert r[k] == c[a + k]; }
    forall k | 0 <= k < |r| - 1 ensures r[k] == ' ' ==> r[k + 1] != ' ' {
      assert r[k] == c[a + k] && r[k + 1] == c[a + k + 1];
    }
  }

  /** Stripping single-spaced text makes it canonical. */
  lemma StripCanonical(c: string)
    requires SingleSpaced(c)
    ensures Canonical(Strip(c))
  {
    var a := StripIsSlice(c);
    SingleSpacedSlice(c, a, a + |Strip(c)|);
  }

  /** Every normalised name is canonical. */
  lemma NormalizedIsCanonical(name: string)
    ensures Canonical(NormalizeProgramName(name))
  {
    CollapseChars(DropDegreeSuffixes(Lower(name), 0));
    StripCanonical(Collapse(DropDegreeSuffixes(Lower(name), 0)));
  }

  /** Text without capitals is its own lower-case form. */
  lemma LowerNoop(t: string)
    requires forall k :: 0 <= k < |t| ==> !IsUpper(t[k])
    ensures Lower(t) == t
  {
  }

  /** Every alternative starts with a `b`; the dotless ones are lower-case
      letters and the others have a dot second. */
  lemma DegreeSuffixShapes(c: string)
    requires c in DegreeSuffixes
    ensures |c| >= 2 && c[0] == 'b'
    ensures c in PlainSuffixes ==> forall k :: 0 <= k < |c| ==> IsLower(c[k])
    ensures c !in PlainSuffixes ==> c[1] == '.'
  {
  }

  /** In text of `[a-z0-9]` and spaces, an alternative that matches at a
      word boundary is a dotless suffix standing as a whole word. */
  lemma NoSuffixMatch(s: string, i: nat, c: string)
    requires i <= |s| && AlnumOrSpace(s) && !SuffixWordAt(s, i)
    requires c in DegreeSuffixes && WordBoundary(s, i)
    ensures !SuffixMatches(s, i, c)
  {
    DegreeSuffixShapes(c);
    if SuffixMatches(s, i, c) {
      assert s[i..i + |c|][0] == s[i];
      assert s[i..i + |c|][1] == s[i + 1];
      assert s[i..i + |c|][|c| - 1] == s[i + |c| - 1];
      if c !in PlainSuffixes {
        assert false;
      } else {
        assert OccursAt(s, c, i);
        assert false;
      }
    }
  }

  /** Hence no degree suffix is removed at such a position. */
  lemma NoDegreeSuffixAt(s: string, i: nat)
    requires i <= |s| && AlnumOrSpace(s) && !SuffixWordAt(s, i)
    ensures DegreeSuffixAt(s, i).None?
  {
    if WordBoundary(s, i) && SuffixAt(s, i, DegreeSuffixes).Some? {
      var c :| c in DegreeSuffixes && SuffixMatches(s, i, c);
      NoSuffixMatch(s, i, c);
    }
  }

  /** Where no suffix is removed the character is copied. */
  lemma KeepsCharacter(s: string, i: nat)
    requires i < |s| && DegreeSuffixAt(s, i).None?
    ensures DropDegreeSuffixes(s, i) == [s[i]] + DropDegreeSuffixes(s, i + 1)
  {
  }

  /** Positions `i..j` where no suffix is removed are copied unchanged. */
  lemma {:induction false} DropNothing(s: string, i: nat, j: nat)
    requires i <= j <= |s|
    requires forall k :: i <= k < j ==> DegreeSuffixAt(s, k).None?
    ensures DropDegreeSuffixes(s, i) == s[i..j] + DropDegreeSuffixes(s, j)
    decreases j - i
  {
    if i < j {
      KeepsCharacter(s, i);
      DropNothing(s, i + 1, j);
      var rest := DropDegreeSuffixes(s, j);
      assert [s[i]] + (s[i + 1..j] + rest) == ([s[i]] + s[i + 1..j]) + rest;
      assert [s[i]] + s[i + 1..j] == s[i..j];
    }
  }

  lemma SingleSpacedTail(t: string)
    requires t != [] && SingleSpaced(t)
    ensures SingleSpaced(t[1..])
  {
    var u := t[1..];
    forall k | 0 <= k < |u| ensures IsLowerAlnum(u[k]) || u[k] == ' ' { assert u[k] == t[k + 1]; }
    forall k | 0 <= k < |u| - 1 ensures u[k] == ' ' ==> u[k + 1] != ' ' {
      assert u[k] == t[k + 1] && u[k + 1] == t[k + 2];
    }
  }

  /** Collapsing single-spaced text changes nothing. */
  lemma {:induction false} CollapseNothing(t: string)
    requires SingleSpaced(t)
    ensures Collapse(t) == t
    decreases |t|
  {
    if t != [] {
      SingleSpacedTail(t);
      CollapseNothing(t[1..]);
      if !IsLowerAlnum(t[0]) {
        assert |t| > 1 ==> t[1] != ' ';
        assert DropOthers(t) == t[1..];
        assert t == " " + t[1..];
      } else {
        assert t == [t[0]] + t[1..];
      }
    }
  }

  /** A canonical name with no degree suffix as a word is already normal. */
  lemma NormalizeFixedPoint(t: string)
    requires Canonical(t) && NoSuffixWord(t)
    ensures NormalizeProgramName(t) == t
  {
    LowerNoop(t);
    forall k | 0 <= k < |t| ensures DegreeSuffixAt(t, k).None? { NoDegreeSuffixAt(t, k); }
    DropNothing(t, 0, |t|);
    assert DropDegreeSuffixes(t, 0) == t[0..|t|] + [] == t;
    CollapseNothing(t);
    StripNoop(t);
  }

  /** A dotless degree suffix after a canonical name is dropped:
      "computer science bs" normalises to "computer science". */
  lemma NormalizeDropsSuffixWord(t: string, c: string)
    requires Canonical(t) && NoSuffixWord(t) && c in PlainSuffixes
    ensures NormalizeProgramName(t + " " + c) == t
  {
    var s := t + " " + c;
    SuffixedChars(t, c);
    LowerNoop(s);
    DropOnSuffixed(t, c);
    TrailingSpaceSingleSpaced(t);
    CollapseNothing(t + " ");
    StripTrailingSpace(t);
  }

  /** The characters of a canonical name, a space and a dotless suffix. */
  lemma SuffixedChars(t: string, c: string)
    requires Canonical(t) && c in PlainSuffixes
    ensures AlnumOrSpace(t + " " + c)
  {
    var s := t + " " + c;
    PlainSuffixShapes(c);
    forall k | 0 <= k < |s| ensures IsLowerAlnum(s[k]) || s[k] == ' ' {
      if k > |t| { assert s[k] == c[k - |t| - 1]; }
      else if k < |t| { assert s[k] == t[k]; }
    }
  }

  /** Suffix removal keeps the name and the space and drops the suffix. */
  lemma DropOnSuffixed(t: string, c: string)
    requires Canonical(t) && NoSuffixWord(t) && c in PlainSuffixes
    ensures DropDegreeSuffixes(t + " " + c, 0) == t + " "
  {
    var s := t + " " + c;
    SuffixedChars(t, c);
    assert s[..|t|] == t;
    forall k | 0 <= k <= |t| ensures DegreeSuffixAt(s, k).None? {
      NoSuffixWordBefore(s, t, k);
      NoDegreeSuffixAt(s, k);
    }
    DropNothing(s, 0, |t| + 1);
    assert s[|t| + 1..] == c;
    SuffixDroppedAtEnd(s, |t| + 1, c);
    assert s[0..|t| + 1] == t + " ";
  }

  /** A canonical name followed by one space is still single-spaced. */
  lemma TrailingSpaceSingleSpaced(t: string)
    requires Canonical(t)
    ensures SingleSpaced(t + " ")
  {
    var s := t + " ";
    forall k | 0 <= k < |s| ensures IsLowerAlnum(s[k]) || s[k] == ' ' {
      if k < |t| { assert s[k] == t[k]; }
    }
    forall k | 0 <= k < |s| - 1 ensures s[k] == ' ' ==> s[k + 1] != ' ' {
      assert s[k] == t[k];
      if k + 1 < |t| { assert s[k + 1] == t[k + 1]; }
    }
  }

  /** Text that starts with `t` and a space has no suffix word inside
      that prefix when `t` has none. */
  lemma NoSuffixWordBefore(s: string, t: string, k: nat)
    requires NoSuffixWord(t) && |t| < |s| && s[..|t|] == t && s[|t|] == ' ' && k <= |t|
    ensures !SuffixWordAt(s, k)
  {
    forall d | d in PlainSuffixes
      ensures !(OccursAt(s, d, k) && (k == 0 || s[k - 1] == ' ') && (k + |d| == |s| || s[k + |d|] == ' '))
    {
      if k + |d| > |t| {
        PlainSuffixShapes(d);
        assert k + |d| <= |s| ==> s[k..k + |d|][|t| - k] == s[|t|];
      } else {
        SuffixWordInPrefix(s, t, k, d);
      }
    }
  }

  /** An occurrence inside the prefix `t` is one in `t`, with the same neighbours. */
  lemma SuffixWordInPrefix(s: string, t: string, k: nat, d: string)
    requires NoSuffixWord(t) && |t| < |s| && s[..|t|] == t && s[|t|] == ' '
    requires d in PlainSuffixes && k + |d| <= |t|
    ensures !(OccursAt(s, d, k) && (k == 0 || s[k - 1] == ' ') && (k + |d| == |s| || s[k + |d|] == ' '))
  {
    assert OccursAt(s, d, k) ==> OccursAt(t, d, k) by { assert s[k..k + |d|] == t[k..k + |d|]; }
    assert k > 0 ==> s[k - 1] == t[k - 1];
    assert k + |d| < |t| ==> s[k + |d|] == t[k + |d|];
    assert !SuffixWordAt(t, k);
  }

  /** The dotless suffixes are words of lower-case letters. */
  lemma PlainSuffixShapes(c: string)
    requires c in PlainSuffixes
    ensures |c| >= 2 && forall k :: 0 <= k < |c| ==> IsLower(c[k])
  {
  }

  /** An alternative matching in a run of lower-case letters that reaches
      the end of the text must reach the end too. */
  lemma MatchReachesEnd(s: string, i: nat, d: string)
    requires i + 2 <= |s| && d in DegreeSuffixes && SuffixMatches(s, i, d)
    requires forall k :: i <= k < |s| ==> IsLower(s[k])
    ensures i + |d| == |s|
  {
    DegreeSuffixShapes(d);
    assert s[i..i + |d|][1] == s[i + 1];
    assert d in PlainSuffixes;
    assert s[i..i + |d|][|d| - 1] == s[i + |d| - 1];
  }

  /** A dotless suffix that ends the text after a space is removed whole. */
  lemma SuffixDroppedAtEnd(s: string, i: nat, c: string)
    requires c in PlainSuffixes && 0 < i && i + |c| == |s| && s[i..] == c && s[i - 1] == ' '
    ensures DropDegreeSuffixes(s, i) == []
  {
    assert c in DegreeSuffixes;
    DegreeSuffixShapes(c);
    forall k | i <= k < |s| ensures IsLower(s[k]) { assert s[k] == c[k - i]; }
    assert s[i..i + |c|] == c;
    assert SuffixMatches(s, i, c);
    var r := SuffixAt(s, i, DegreeSuffixes);
    var d :| d in DegreeSuffixes && SuffixMatches(s, i, d) && r.value == |d|;
    MatchReachesEnd(s, i, d);
    assert DegreeSuffixAt(s, i) == Some(|d|);
  }

  /** A trailing space is the only thing stripped from a canonical name
      followed by one. */
  lemma StripTrailingSpace(t: string)
    requires Canonical(t)
    ensures Strip(t + " ") == t
  {
    if t != [] {
      assert IsLowerAlnum(t[0]) && IsLowerAlnum(t[|t| - 1]);
    }
    StripAppendedSpace(t);
  }

  // ---------------------------------------------------------------------------
  // Catalog choice
  // ---------------------------------------------------------------------------

  /** One entry of a requirement section's content: a course with its
      `code` and `course_code` fields ("" when absent), or anything else. */
  datatype ContentItem = CourseItem(code: string, courseCode: string) | OtherItem

  /** A requirement section of a program; `title` is "" when absent. */
  datatype RequirementSection = RequirementSection(title: string, content: seq<ContentItem>)

  /** A scraped program: its name and its requirement sections. */
  datatype Program = Program(name: string, requirements: seq<RequirementSection>)

  /** One scraped catalog; `year` is `str(c.get("year", ""))`. */
  datatype Catalog = Catalog(year: string, programs: seq<Program>)

  /** `\d{4}-\d{4}` at `i`. */
  predicate SpanAt(s: string, i: nat) {
    i + 9 <= |s| && AllDigits(s[i..i + 4]) && s[i + 4] == '-' && AllDigits(s[i + 5..i + 9])
  }

  /** `\d{4}` at `i`. */
  predicate YearAt(s: string, i: nat) {
    i + 4 <= |s| && AllDigits(s[i..i + 4])
  }

  /** The leftmost position at or after `i` where a span starts (`re.search`). */
  function FirstSpanFrom(s: string, i: nat): (r: Option<nat>)
    ensures r.Some? ==> i <= r.value && SpanAt(s, r.value)
    ensures r.Some? ==> forall j :: i <= j < r.value ==> !SpanAt(s, j)
    ensures r.None? ==> forall j :: i <= j ==> !SpanAt(s, j)
    decreases |s| - i
  {
    if i + 9 > |s| then None
    else if SpanAt(s, i) then Some(i)
    else FirstSpanFrom(s, i + 1)
  }

  /** The leftmost position at or after `i` where four digits start. */
  function FirstYearFrom(s: string, i: nat): (r: Option<nat>)
    ensures r.Some? ==> i <= r.value && YearAt(s, r.value)
    ensures r.Some? ==> forall j :: i <= j < r.value ==> !YearAt(s, j)
    ensures r.None? ==> forall j :: i <= j ==> !YearAt(s, j)
    decreases |s| - i
  {
    if i + 4 > |s| then None
    else if YearAt(s, i) then Some(i)
    else FirstYearFrom(s, i + 1)
  }

  /** What a catalog year asks for: a "YYYY-YYYY" span, a single year, or nothing. */
  datatype YearTarget = Span(span: string) | Year(year: string) | NoTarget

  /** The target read from the student's catalog year: the first span, else
      the first four digits. */
  function YearTargetOf(catalogYear: string): YearTarget {
    match FirstSpanFrom(catalogYear, 0)
    case Some(i) => Span(catalogYear[i..i + 9])
    case None =>
      match FirstYearFrom(catalogYear, 0)
      case Some(i) => Year(catalogYear[i..i + 4])
      case None => NoTarget
  }

  /** The index of the first catalog whose year string is the greatest among
      those `keep` admits: where a stable sort from newest to oldest puts it. */
  function NewestWhere(cs: seq<Catalog>, keep: Catalog -> bool): (r: Option<nat>)
    ensures r.Some? ==> r.value < |cs| && keep(cs[r.value])
    ensures r.None? ==> forall i :: 0 <= i < |cs| ==> !keep(cs[i])
    decreases |cs|
  {
    if cs == [] then None
    else
      var last := |cs| - 1;
      var best := NewestWhere(cs[..last], keep);
      if keep(cs[last]) && (best.None? || LexLess(cs[best.value].year, cs[last].year)) then Some(last)
      else best
  }

  /** NewestWhere picks a greatest year, and every admitted catalog before it
      is strictly older: the first of the newest. */
  lemma {:induction false} NewestWhereSpec(cs: seq<Catalog>, keep: Catalog -> bool)
    requires NewestWhere(cs, keep).Some?
    ensures var r := NewestWhere(cs, keep).value;
      && (forall i :: 0 <= i < |cs| && keep(cs[i]) ==> !LexLess(cs[r].year, cs[i].year))
      && (forall i :: 0 <= i < r && keep(cs[i]) ==> LexLess(cs[i].year, cs[r].year))
    decreases |cs|
  {
    var last := |cs| - 1;
    var init := cs[..last];
    var best := NewestWhere(init, keep);
    var r := NewestWhere(cs, keep).value;
    if best.Some? {
      NewestWhereSpec(init, keep);
      assert forall i :: 0 <= i < last ==> init[i] == cs[i];
    }
    if r == last {
      forall i | 0 <= i < |cs| && keep(cs[i]) ensures !LexLess(cs[r].year, cs[i].year) {
        if i == last {
          LexIrreflexive(cs[i].year);
        } else {
          assert init[i] == cs[i];
          if LexLess(cs[r].year, cs[i].year) {
            LexTransitive(cs[best.value].year, cs[r].year, cs[i].year);
          }
        }
      }
      forall i | 0 <= i < r && keep(cs[i]) ensures LexLess(cs[i].year, cs[r].year) {
        assert init[i] == cs[i];
        if !LexLess(cs[best.value].year, cs[i].year) && cs[best.value].year != cs[i].year {
          LexTotal(cs[best.value].year, cs[i].year);
          LexTransitive(cs[i].year, cs[best.value].year, cs[r].year);
        } else if cs[best.value].year == cs[i].year {
        }
      }
    } else {
      assert r < last && best == Some(r);
      forall i | 0 <= i < |cs| && keep(cs[i]) ensures !LexLess(cs[r].year, cs[i].year) {
        if i < last { assert init[i] == cs[i]; }
      }
      forall i | 0 <= i < r && keep(cs[i]) ensures LexLess(cs[i].year, cs[r].year) {
        assert init[i] == cs[i];
      }
    }
  }

  /** The filters of the three passes over the sorted catalogs. */
  function YearIs(span: string): Catalog -> bool { (c: Catalog) => c.year == span }
  function YearStartsWith(year: string): Catalog -> bool { (c: Catalog) => StartsWith(c.year, year) }
  function AnyCatalog(): Catalog -> bool { (c: Catalog) => true }

  /** `_choose_catalog_for_year` on the catalogs in their stored order. */
  function ChooseCatalog(cs: seq<Catalog>, catalogYear: string): Option<Catalog> {
    if cs == [] then None
    else
      var target := YearTargetOf(catalogYear);
      var exact := if target.Span? then NewestWhere(cs, YearIs(target.span)) else None;
      var prefix := if target.Year? then NewestWhere(cs, YearStartsWith(target.year)) else None;
      var newest := NewestWhere(cs, AnyCatalog());
      if exact.Some? then Some(cs[exact.value])
      else if prefix.Some? then Some(cs[prefix.value])
      else Some(cs[newest.value])
  }

  /** There is nothing to choose from exactly when there are no catalogs. */
  lemma ChooseCatalogNone(cs: seq<Catalog>, catalogYear: string)
    ensures ChooseCatalog(cs, catalogYear).None? <==> cs == []
  {
    if cs != [] {
      assert cs[0] in cs && AnyCatalog()(cs[0]);
    }
  }

  /** The chosen catalog is one of the inputs. An exact span match wins and is
      the first catalog with that year; a year target takes the newest
      catalog whose year starts with it; otherwise, and also when a span has
      no exact match, the newest catalog is taken. Ties go to the earliest. */
  lemma ChooseCatalogSpec(cs: seq<Catalog>, catalogYear: string) returns (k: nat)
    requires cs != []
    ensures k < |cs| && ChooseCatalog(cs, catalogYear) == Some(cs[k])
    ensures var t := YearTargetOf(catalogYear);
      var admitted := if t.Span? && (exists i :: 0 <= i < |cs| && cs[i].year == t.span) then YearIs(t.span)
        else if t.Year? && (exists i :: 0 <= i < |cs| && StartsWith(cs[i].year, t.year)) then YearStartsWith(t.year)
        else AnyCatalog();
      && admitted(cs[k])
      && (forall i :: 0 <= i < |cs| && admitted(cs[i]) ==> !LexLess(cs[k].year, cs[i].year))
      && (forall i :: 0 <= i < k && admitted(cs[i]) ==> LexLess(cs[i].year, cs[k].year))
  {
    var t := YearTargetOf(catalogYear);
    if t.Span? && (exists i :: 0 <= i < |cs| && cs[i].year == t.span) {
      var i :| 0 <= i < |cs| && cs[i].year == t.span;
      assert YearIs(t.span)(cs[i]);
      k := NewestWhere(cs, YearIs(t.span)).value;
      NewestWhereSpec(cs, YearIs(t.span));
    } else if t.Year? && (exists i :: 0 <= i < |cs| && StartsWith(cs[i].year, t.year)) {
      var i :| 0 <= i < |cs| && StartsWith(cs[i].year, t.year);
      assert YearStartsWith(t.year)(cs[i]);
      k := NewestWhere(cs, YearStartsWith(t.year)).value;
      NewestWhereSpec(cs, YearStartsWith(t.year));
    } else {
      assert AnyCatalog()(cs[0]);
      k := NewestWhere(cs, AnyCatalog()).value;
      NewestWhereSpec(cs, AnyCatalog());
    }
  }

  // ---------------------------------------------------------------------------
  // Program match
  // ---------------------------------------------------------------------------

  /** How well a normalised program name matches the normalised target:
      100 when equal, 80 when one contains the other, 50 plus the number of
      shared words when at least two are shared, else 0. An empty name is
      skipped, which scores like 0. */
  function Score(target: string, progNorm: string): (score: nat)
    ensures score == 0 || score == 100 || score == 80 || score >= 52
  {
    if progNorm == [] then 0
    else if progNorm == target then 100
    else if Contains(progNorm, target) || Contains(target, progNorm) then 80
    else
      var overlap := |Tokens(target) * Tokens(progNorm)|;
      if overlap >= 2 then 50 + overlap else 0
  }

  /** Scoring does not depend on which side is the target. */
  lemma ScoreSymmetric(a: string, b: string)
    requires a != [] && b != []
    ensures Score(a, b) == Score(b, a)
  {
    assert Tokens(a) * Tokens(b) == Tokens(b) * Tokens(a);
  }

  /** The exact name scores 100; any other name reaches 100 only by sharing
      at least 50 words with the target. */
  lemma ScoreExact(target: string, progNorm: string)
    requires target != []
    ensures Score(target, target) == 100
    ensures progNorm != target && Score(target, progNorm) >= 100 ==> |Tokens(target) * Tokens(progNorm)| >= 50
  {
  }

  /** The score of a program against the normalised target. */
  function ProgramScore(target: string, p: Program): nat {
    Score(target, NormalizeProgramName(p.name))
  }

  /** The scores of all programs, in order. */
  function ScoresOf(target: string, ps: seq<Program>): (r: seq<nat>)
    ensures |r| == |ps|
  {
    seq(|ps|, i requires 0 <= i < |ps| => ProgramScore(target, ps[i]))
  }

  /** The best of `scores` and the index holding it, where only a strictly
      greater score replaces the current best and the best starts at 0. */
  function BestOf(scores: seq<nat>): (r: (nat, Option<nat>))
    ensures r.1.Some? ==> r.1.value < |scores|
    decreases |scores|
  {
    if scores == [] then (0, None)
    else
      var last := |scores| - 1;
      var best := BestOf(scores[..last]);
      if scores[last] > best.0 then (scores[last], Some(last)) else best
  }

  /** BestOf finds the greatest score and the first index that has it; it
      finds no index exactly when every score is 0. */
  lemma {:induction false} BestOfSpec(scores: seq<nat>)
    ensures var (top, best) := BestOf(scores);
      && (forall i :: 0 <= i < |scores| ==> scores[i] <= top)
      && (best.None? <==> top == 0)
      && (best.Some? ==> scores[best.value] == top && forall i :: 0 <= i < best.value ==> scores[i] < top)
    decreases |scores|
  {
    if scores != [] {
      var last := |scores| - 1;
      BestOfSpec(scores[..last]);
      assert forall i :: 0 <= i < last ==> scores[..last][i] == scores[i];
    }
  }

  /** The student's program and catalog year as parsed from the transcript
      ("" when absent), matched against the catalogs: the chosen catalog and
      its best-scoring program, or None. */
  function BestProgramMatch(program: string, catalogYear: string, catalogs: seq<Catalog>): Option<(Catalog, Program)> {
    var programName := Strip(program);
    if programName == [] || catalogs == [] then None
    else
      match ChooseCatalog(catalogs, Strip(catalogYear))
      case None => None
      case Some(catalog) =>
        var target := NormalizeProgramName(programName);
        if target == [] then None
        else
          var (score, best) := BestOf(ScoresOf(target, catalog.programs));
          if best.None? || score == 0 then None else Some((catalog, catalog.programs[best.value]))
  }

  /** `_find_best_program_match`: the scoring loop over the chosen catalog's programs. */
  method FindBestProgramMatch(program: string, catalogYear: string, catalogs: seq<Catalog>)
    returns (r: Option<(Catalog, Program)>)
    ensures r == BestProgramMatch(program, catalogYear, catalogs)
  {
    var programName := Strip(program);
    if programName == [] || catalogs == [] {
      return None;
    }
    var chosen := ChooseCatalog(catalogs, Strip(catalogYear));
    if chosen.None? {
      return None;
    }
    var catalog := chosen.value;
    var programs := catalog.programs;
    var target := NormalizeProgramName(programName);
    if target == [] {
      return None;
    }
    var bestScore, best := ScorePrograms(programs, target);
    if best.None? || bestScore == 0 {
      return None;
    }
    return Some((catalog, programs[best.value]));
  }

  /** One more score extends BestOf the way the scoring loop does. */
  lemma BestOfStep(scores: seq<nat>, i: nat, score: nat)
    requires i < |scores| && scores[i] == score
    ensures BestOf(scores[..i + 1]) ==
      if score > BestOf(scores[..i]).0 then (score, Some(i)) else BestOf(scores[..i])
  {
    assert scores[..i + 1][..i] == scores[..i];
  }

  /** The scoring loop of `_find_best_program_match`. */
  method ScorePrograms(programs: seq<Program>, target: string) returns (bestScore: nat, best: Option<nat>)
    ensures (bestScore, best) == BestOf(ScoresOf(target, programs))
  {
    ghost var scores := ScoresOf(target, programs);
    bestScore := 0;
    best := None;
    for i := 0 to |programs|
      invariant (bestScore, best) == BestOf(scores[..i])
    {
      var score := ProgramScore(target, programs[i]);
      BestOfStep(scores, i, score);
      if score > bestScore {
        bestScore := score;
        best := Some(i);
      }
    }
    assert scores[..|programs|] == scores;
  }

  /** A match is the chosen catalog's first program with the greatest score,
      and that score is positive; with a non-empty target, there is no
      match exactly when every program scores 0. */
  lemma BestProgramMatchSpec(program: string, catalogYear: string, catalogs: seq<Catalog>)
    requires Strip(program) != [] && catalogs != []
    requires NormalizeProgramName(Strip(program)) != []
    ensures var catalog := ChooseCatalog(catalogs, Strip(catalogYear)).value;
      var ps := catalog.programs;
      var scores := ScoresOf(NormalizeProgramName(Strip(program)), ps);
      match BestProgramMatch(program, catalogYear, catalogs)
      case None => forall i :: 0 <= i < |ps| ==> scores[i] == 0
      case Some((c, p)) =>
        && c == catalog
        && exists k :: 0 <= k < |ps| && p == ps[k] && scores[k] > 0
             && (forall i :: 0 <= i < |ps| ==> scores[i] <= scores[k])
             && (forall i :: 0 <= i < k ==> scores[i] < scores[k])
  {
    ChooseCatalogNone(catalogs, Strip(catalogYear));
    var catalog := ChooseCatalog(catalogs, Strip(catalogYear)).value;
    BestOfSpec(ScoresOf(NormalizeProgramName(Strip(program)), catalog.programs));
  }
}
