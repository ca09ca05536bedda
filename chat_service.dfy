/** The deterministic helpers of the onboarding chat: first-name extraction,
    onboarding progress over the saved scheduling preferences, the next
    question topic and the summary of what has been collected. */
module ChatService {
  import opened Wrappers
  import opened Text

  // ---------------------------------------------------------------------------
  // First names
  // ---------------------------------------------------------------------------

  /** `_extract_first_name`; an absent name is "". "Last, First - ID" gives
      the first word after the comma, anything else its first word. */
  function ExtractFirstName(fullName: string): string {
    if fullName == "" then ""
    else
      var s := Strip(fullName);
      var parts := if Contains(s, ",") then SplitOn(s, ",") else [];
      if Contains(s, ",") && |parts| >= 2 then NameAfterComma(parts[1]) else FirstWord(s)
  }

  /** The first word of the text after the comma, ignoring a " - ID" tail. */
  function NameAfterComma(part: string): string {
    var afterComma := Strip(part);
    var first := if Contains(afterComma, " - ") then Strip(SplitOn(afterComma, " - ")[0]) else afterComma;
    if first == "" then "" else FirstWord(first)
  }

  /** `s.split()[0]`, or "" when `s` has no words. */
  function FirstWord(s: string): string {
    Word(LStrip(s))
  }

  /** `FirstWord` is the head of `s.split()`, and "" exactly when that is empty. */
  lemma FirstWordIsSplitHead(s: string)
    ensures |Split(s)| > 0 ==> FirstWord(s) == Split(s)[0]
    ensures |Split(s)| == 0 <==> FirstWord(s) == ""
  {
  }

  /** `Strip(s)` is a piece of `s`. */
  lemma StripContained(s: string)
    ensures Contains(s, Strip(s))
  {
    var a := StripIsSlice(s);
    ContainsAt(s, Strip(s), a);
  }

  /** The first word of `s` is a piece of `s` without whitespace. */
  lemma FirstWordContained(s: string)
    ensures Contains(s, FirstWord(s)) && NoSpace(FirstWord(s))
  {
    var l := LStrip(s);
    var w := Word(l);
    var a := |s| - |l|;
    assert l == s[a..] && w == l[..|w|];
    assert s[a..a + |w|] == w;
    ContainsAt(s, w, a);
  }

  /** `s.split(sep)` cut at the first separator. */
  lemma SplitOnUnfold(s: string, sep: string)
    requires sep != []
    ensures Find(s, sep).Some? ==>
      SplitOn(s, sep) == [s[..Find(s, sep).value]] + SplitOn(s[Find(s, sep).value + |sep|..], sep)
    ensures Find(s, sep).None? ==> SplitOn(s, sep) == [s]
  {
  }

  /** The text before the first separator is a piece of `s` without a separator. */
  lemma BeforeFirstSeparator(s: string, sep: string, k: nat)
    requires sep != [] && Find(s, sep) == Some(k)
    ensures Contains(s, s[..k]) && !Contains(s[..k], sep)
  {
    var piece := s[..k];
    assert s[0..|piece|] == piece;
    ContainsAt(s, piece, 0);
    if Contains(piece, sep) {
      var m :| 0 <= m <= |piece| - |sep| && OccursAt(piece, sep, m);
      assert s[..k][m..m + |sep|] == s[m..m + |sep|];
      assert OccursAt(s, sep, m);
      assert false;
    }
  }

  /** The first piece of `s.split(sep)` is a piece of `s` without `sep` in it. */
  lemma FirstPiece(s: string, sep: string)
    requires sep != []
    ensures Contains(s, SplitOn(s, sep)[0]) && !Contains(SplitOn(s, sep)[0], sep)
  {
    SplitOnUnfold(s, sep);
    FindIffContains(s, sep);
    if Find(s, sep).None? {
      ContainsAt(s, s, 0);
    } else {
      BeforeFirstSeparator(s, sep, Find(s, sep).value);
    }
  }

  /** So is the second piece, when there is one. */
  lemma SecondPiece(s: string, sep: string)
    requires sep != [] && Contains(s, sep)
    ensures |SplitOn(s, sep)| >= 2
    ensures Contains(s, SplitOn(s, sep)[1]) && !Contains(SplitOn(s, sep)[1], sep)
  {
    SplitOnUnfold(s, sep);
    FindIffContains(s, sep);
    var k := Find(s, sep).value;
    var rest := s[k + |sep|..];
    FirstPiece(rest, sep);
    assert SplitOn(s, sep)[1] == SplitOn(rest, sep)[0];
    assert s[k + |sep|..k + |sep| + |rest|] == rest;
    ContainsAt(s, rest, k + |sep|);
    ContainsTransitive(s, rest, SplitOn(rest, sep)[0]);
  }

  /** A piece of a string without `sub` has no `sub` either. */
  lemma AbsentInPiece(s: string, piece: string, sub: string)
    requires Contains(s, piece) && !Contains(s, sub)
    ensures !Contains(piece, sub)
  {
    if Contains(piece, sub) { ContainsTransitive(s, piece, sub); }
  }

  /** The name after a comma is empty or one word of the text it came from. */
  lemma NameAfterCommaIsWord(part: string)
    ensures var r := NameAfterComma(part);
      r == "" || (NoSpace(r) && Contains(part, r) && (!Contains(part, ",") ==> !Contains(r, ",")))
  {
    var r := NameAfterComma(part);
    var afterComma := Strip(part);
    StripContained(part);
    var first := if Contains(afterComma, " - ") then Strip(SplitOn(afterComma, " - ")[0]) else afterComma;
    if Contains(afterComma, " - ") {
      var piece := SplitOn(afterComma, " - ")[0];
      FirstPiece(afterComma, " - ");
      StripContained(piece);
      ContainsTransitive(afterComma, piece, first);
    } else {
      ContainsAt(afterComma, afterComma, 0);
    }
    if r != "" {
      FirstWordContained(first);
      ContainsTransitive(afterComma, first, r);
      ContainsTransitive(part, afterComma, r);
      if !Contains(part, ",") {
        AbsentInPiece(part, r, ",");
      }
    }
  }

  /** The first name is empty or a single word of the full name, free of commas. */
  lemma FirstNameIsWordOfName(fullName: string)
    ensures var r := ExtractFirstName(fullName);
      r == "" || (NoSpace(r) && Contains(fullName, r) && !Contains(r, ","))
  {
    var r := ExtractFirstName(fullName);
    if r != "" {
      var s := Strip(fullName);
      StripContained(fullName);
      if Contains(s, ",") {
        SecondPiece(s, ",");
        var part := SplitOn(s, ",")[1];
        NameAfterCommaIsWord(part);
        ContainsTransitive(s, part, r);
      } else {
        FirstWordContained(s);
        AbsentInPiece(s, r, ",");
      }
      ContainsTransitive(fullName, s, r);
    }
  }

  /** Leading whitespace is what `lstrip` removes. */
  lemma {:induction false} LStripAfterSpaces(gap: string, x: string)
    requires forall i :: 0 <= i < |gap| ==> IsSpace(gap[i])
    requires x == [] || !IsSpace(x[0])
    ensures LStrip(gap + x) == x
  {
    if gap != [] {
      assert (gap + x)[1..] == gap[1..] + x;
      LStripAfterSpaces(gap[1..], x);
    }
  }

  /** A word is its own first word. */
  lemma {:induction false} WordOfWord(w: string)
    requires NoSpace(w)
    ensures Word(w) == w
  {
    if w != [] {
      WordOfWord(w[1..]);
    }
  }

  /** The " - ID" tail starts at the end of a space-free first name. */
  lemma FirstBeforeIdTail(first: string, tail: string)
    requires NoSpace(first)
    requires tail == [] || StartsWith(tail, " - ")
    ensures Contains(first + tail, " - ") <==> tail != []
    ensures tail != [] ==> SplitOn(first + tail, " - ")[0] == first
  {
    var x := first + tail;
    forall j | 0 <= j < |first| ensures !OccursAt(x, " - ", j) {
      assert x[j] == first[j];
      if j + 3 <= |x| { assert x[j..j + 3][0] == x[j]; }
    }
    if tail != [] {
      assert x[|first|..|first| + 3] == tail[..3];
      FindAt(x, " - ", |first|);
      ContainsAt(x, " - ", |first|);
      SplitOnUnfold(x, " - ");
      assert x[..|first|] == first;
    }
  }

  /** After the first comma of a stripped name comes the comma-free rest. */
  lemma SecondPieceAfterComma(last: string, rest: string)
    requires !Contains(last, ",")
    requires forall i :: 0 <= i < |rest| ==> rest[i] != ','
    ensures Contains(last + "," + rest, ",")
    ensures |SplitOn(last + "," + rest, ",")| >= 2 && SplitOn(last + "," + rest, ",")[1] == rest
  {
    var s := last + "," + rest;
    NotContainsChar(last, ',');
    FindCharAt(s, ',', |last|);
    FindIffContains(s, ",");
    SplitOnUnfold(s, ",");
    assert s[|last| + 1..] == rest;
    CharAbsent(rest, ',');
    FindIffContains(rest, ",");
    SplitOnUnfold(rest, ",");
  }

  /** Spaces, a word and an optional " - ID" tail give the word. */
  lemma NameAfterCommaOfForm(gap: string, first: string, tail: string)
    requires forall i :: 0 <= i < |gap| ==> IsSpace(gap[i])
    requires first != [] && NoSpace(first)
    requires tail == [] || (StartsWith(tail, " - ") && !IsSpace(tail[|tail| - 1]))
    ensures NameAfterComma(gap + (first + tail)) == first
  {
    var x := first + tail;
    assert x[0] == first[0];
    if tail == [] {
      assert x[|x| - 1] == first[|first| - 1];
    } else {
      assert x[|x| - 1] == tail[|tail| - 1];
    }
    StripAfterSpaces(gap, x);
    FirstBeforeIdTail(first, tail);
    StripNoop(first);
    FirstWordOfWord(first);
    if tail == [] {
      assert x == first;
    }
  }

  /** Stripping leading spaces off a word-ended string. */
  lemma StripAfterSpaces(gap: string, x: string)
    requires forall i :: 0 <= i < |gap| ==> IsSpace(gap[i])
    requires x == [] || (!IsSpace(x[0]) && !IsSpace(x[|x| - 1]))
    ensures Strip(gap + x) == x
  {
    LStripAfterSpaces(gap, x);
    StripNoop(x);
  }

  /** A non-empty word is its own first word. */
  lemma FirstWordOfWord(w: string)
    requires w != [] && NoSpace(w)
    ensures FirstWord(w) == w
  {
    assert LStrip(w) == w;
    WordOfWord(w);
  }

  /** `Last,<spaces>First - ID` (the ID part optional) gives `First`,
      whatever the last name and the ID, as long as neither has a comma. */
  lemma FirstNameOfCommaForm(last: string, gap: string, first: string, tail: string)
    requires last != [] && !IsSpace(last[0]) && !Contains(last, ",")
    requires forall i :: 0 <= i < |gap| ==> IsSpace(gap[i])
    requires first != [] && NoSpace(first) && !Contains(first, ",")
    requires tail == [] || (StartsWith(tail, " - ") && !IsSpace(tail[|tail| - 1]) && !Contains(tail, ","))
    ensures ExtractFirstName(last + "," + gap + first + tail) == first
  {
    var rest := gap + (first + tail);
    var s := last + "," + rest;
    assert last + "," + gap + first + tail == s;
    assert !IsSpace(s[|s| - 1]) by {
      if tail == [] { assert s[|s| - 1] == first[|first| - 1]; }
      else { assert s[|s| - 1] == tail[|tail| - 1]; }
    }
    StripNoop(s);
    NotContainsChar(first, ',');
    if tail != [] { NotContainsChar(tail, ','); }
    forall i | 0 <= i < |rest| ensures rest[i] != ',' {
      if i < |gap| { assert rest[i] == gap[i]; }
      else if i < |gap| + |first| { assert rest[i] == first[i - |gap|]; }
      else { assert rest[i] == tail[i - |gap| - |first|]; }
    }
    SecondPieceAfterComma(last, rest);
    NameAfterCommaOfForm(gap, first, tail);
  }

  /** A trailing comma with nothing after it gives "". */
  lemma FirstNameOfBareComma(last: string)
    requires last != [] && !IsSpace(last[0]) && !Contains(last, ",")
    ensures ExtractFirstName(last + ",") == ""
  {
    var s := last + ",";
    assert s[0] == last[0] && s[|s| - 1] == ',';
    StripNoop(s);
    SecondPieceAfterComma(last, "");
    assert last + "," + "" == s;
    assert NameAfterComma("") == "";
  }

  /** Nothing after the comma gives "". */
  lemma FirstNameBareCommaExample()
    ensures ExtractFirstName("Favela,") == ""
  {
    var last := "Favela";
    MissingCharNotContained(last, ",", 0);
    FirstNameOfBareComma(last);
    assert last + "," == "Favela,";
  }

  // ---------------------------------------------------------------------------
  // Onboarding progress
  // ---------------------------------------------------------------------------

  /** A stored preference value: text or a whole number. */
  datatype PrefValue = Str(text: string) | Num(n: int)

  /** The saved scheduling-preferences row: its `collected_fields` list and
      its other columns (an absent or null column is not in `values`). */
  datatype Preferences = Preferences(collectedFields: seq<string>, values: map<string, PrefValue>)

  /** Python truthiness of a stored value. */
  predicate Truthy(v: PrefValue) {
    match v
    case Str(t) => t != ""
    case Num(n) => n != 0
  }

  /** `prefs.get(key)` is truthy. */
  predicate IsSet(p: Preferences, key: string) {
    key in p.values && Truthy(p.values[key])
  }

  /** The four preferences onboarding cannot finish without. */
  const RequiredFields: seq<string> := ["planning_mode", "preferred_credits_min", "work_status", "summer_availability"]

  /** `field_mapping.get(f, f)`: a collected-field name to its column. */
  function ColumnOf(collected: string): string {
    if collected == "credits" then "preferred_credits_min"
    else if collected == "time_preference" then "preferred_time_of_day"
    else if collected == "summer" then "summer_availability"
    else if collected == "focus" then "priority_focus"
    else collected
  }

  /** The columns the collected fields stand for. */
  function CollectedColumns(collected: seq<string>): set<string> {
    set f | f in collected :: ColumnOf(f)
  }

  /** The loop of `check_onboarding_completeness` filling `collected_mapped`. */
  method CollectMapped(collected: seq<string>) returns (mapped: set<string>)
    ensures forall c :: c in mapped <==> exists f :: f in collected && ColumnOf(f) == c
  {
    mapped := {};
    for i := 0 to |collected|
      invariant mapped == CollectedColumns(collected[..i])
    {
      assert collected[..i + 1] == collected[..i] + [collected[i]];
      assert CollectedColumns(collected[..i + 1]) == CollectedColumns(collected[..i]) + {ColumnOf(collected[i])};
      mapped := mapped + {ColumnOf(collected[i])};
    }
    assert collected[..|collected|] == collected;
  }

  /** Whether a required column is neither collected nor set. */
  predicate StillMissing(p: Preferences, column: string) {
    column !in CollectedColumns(p.collectedFields) && !IsSet(p, column)
  }

  /** The required columns neither in `mapped` nor set. */
  function MissingGiven(mapped: set<string>, p: Preferences): seq<string> {
    Keep(RequiredFields, column => column !in mapped && !IsSet(p, column))
  }

  /** The `missing` list of `check_onboarding_completeness`. */
  function MissingFields(p: Preferences): seq<string> {
    MissingGiven(CollectedColumns(p.collectedFields), p)
  }

  /** `check_onboarding_completeness`: complete exactly when nothing is missing. */
  method CheckOnboardingCompleteness(p: Preferences) returns (complete: bool, missing: seq<string>)
    ensures missing == MissingFields(p)
    ensures complete <==> missing == []
  {
    var mapped := CollectMapped(p.collectedFields);
    assert mapped == CollectedColumns(p.collectedFields);
    missing := MissingGiven(mapped, p);
    complete := |missing| == 0;
  }

  /** `missing` is the ordered sublist of the required fields that are neither
      collected (after mapping) nor set; onboarding is complete exactly when
      every required field is one or the other. */
  lemma MissingFieldsSpec(p: Preferences)
    ensures forall f :: f in MissingFields(p) <==> f in RequiredFields && StillMissing(p, f)
    ensures OrderedSublist(MissingFields(p), RequiredFields)
    ensures MissingFields(p) == [] <==> forall f :: f in RequiredFields ==> !StillMissing(p, f)
  {
    MissingFieldsMembers(p);
    var _ := KeepOrdered(RequiredFields, (column: string) => column !in CollectedColumns(p.collectedFields) && !IsSet(p, column));
    if MissingFields(p) != [] {
      assert MissingFields(p)[0] in MissingFields(p);
    }
  }

  /** A field is missing exactly when it is required and still missing. */
  lemma MissingFieldsMembers(p: Preferences)
    ensures forall f :: f in MissingFields(p) <==> f in RequiredFields && StillMissing(p, f)
  {
    var keep := (column: string) => column !in CollectedColumns(p.collectedFields) && !IsSet(p, column);
    forall f {
      KeepMembers(RequiredFields, keep, f);
    }
  }

  /** The questions in the order they are asked: the collected-field name and
      the column that also counts as answered. */
  const QuestionOrder: seq<(string, string)> := [
    ("planning_mode", "planning_mode"), ("credits", "preferred_credits_min"),
    ("time_preference", "preferred_time_of_day"), ("work_status", "work_status"),
    ("summer", "summer_availability"), ("focus", "priority_focus")]

  predicate Answered(p: Preferences, q: (string, string)) {
    q.0 in p.collectedFields || IsSet(p, q.1)
  }

  /** The first unanswered question of `questions`, or "complete". */
  function FirstOpenTopic(p: Preferences, questions: seq<(string, string)>): string {
    if |questions| == 0 then "complete"
    else if !Answered(p, questions[0]) then questions[0].0
    else FirstOpenTopic(p, questions[1..])
  }

  /** `get_next_question_topic`, returning from inside the loop. */
  method NextQuestionTopic(p: Preferences) returns (topic: string)
    ensures topic == FirstOpenTopic(p, QuestionOrder)
  {
    for i := 0 to |QuestionOrder|
      invariant FirstOpenTopic(p, QuestionOrder[i..]) == FirstOpenTopic(p, QuestionOrder)
    {
      var (fieldName, column) := QuestionOrder[i];
      if fieldName !in p.collectedFields && !IsSet(p, column) {
        return fieldName;
      }
      assert QuestionOrder[i..][1..] == QuestionOrder[i + 1..];
    }
    return "complete";
  }

  /** The next topic is the first unanswered question, every earlier one being
      answered; "complete" exactly when all are answered. */
  lemma {:induction false} FirstOpenTopicSpec(p: Preferences, questions: seq<(string, string)>)
    requires forall k :: 0 <= k < |questions| ==> questions[k].0 != "complete"
    ensures var t := FirstOpenTopic(p, questions);
      && (t == "complete" <==> forall k :: 0 <= k < |questions| ==> Answered(p, questions[k]))
      && (t != "complete" ==> exists k :: (0 <= k < |questions| && questions[k].0 == t
            && !Answered(p, questions[k]) && forall j :: 0 <= j < k ==> Answered(p, questions[j])))
  {
    if |questions| > 0 && Answered(p, questions[0]) {
      FirstOpenTopicSpec(p, questions[1..]);
      var t := FirstOpenTopic(p, questions);
      if t != "complete" {
        var k :| 0 <= k < |questions[1..]| && questions[1..][k].0 == t
          && !Answered(p, questions[1..][k]) && forall j :: 0 <= j < k ==> Answered(p, questions[1..][j]);
        assert questions[k + 1].0 == t && forall j :: 0 <= j < k + 1 ==> Answered(p, questions[j]);
      }
      if forall k :: 0 <= k < |questions[1..]| ==> Answered(p, questions[1..][k]) {
        assert forall k :: 0 <= k < |questions| ==> Answered(p, questions[k]) by {
          forall k | 0 <= k < |questions| ensures Answered(p, questions[k]) {
            if k > 0 { assert questions[k] == questions[1..][k - 1]; }
          }
        }
      }
    } else if |questions| > 0 {
      assert questions[0].0 == FirstOpenTopic(p, questions) && !Answered(p, questions[0]);
    }
  }

  /** Collecting planning mode, credits, work and summer finishes the
      required part of onboarding. */
  lemma CoreAnswersComplete(p: Preferences)
    requires "planning_mode" in p.collectedFields && "credits" in p.collectedFields
    requires "work_status" in p.collectedFields && "summer" in p.collectedFields
    ensures MissingFields(p) == []
  {
    MissingFieldsSpec(p);
    assert ColumnOf("credits") == "preferred_credits_min" && ColumnOf("summer") == "summer_availability";
    assert ColumnOf("planning_mode") == "planning_mode" && ColumnOf("work_status") == "work_status";
  }

  /** With the time preference collected too, the next question is at most
      the optional focus. */
  lemma CoreAnswersLeaveFocus(p: Preferences)
    requires "planning_mode" in p.collectedFields && "credits" in p.collectedFields
    requires "time_preference" in p.collectedFields
    requires "work_status" in p.collectedFields && "summer" in p.collectedFields
    ensures FirstOpenTopic(p, QuestionOrder) in {"focus", "complete"}
  {
    var q := QuestionOrder;
    assert FirstOpenTopic(p, q) == FirstOpenTopic(p, q[1..]);
    assert FirstOpenTopic(p, q[1..]) == FirstOpenTopic(p, q[2..]) by { assert q[1..][1..] == q[2..]; }
    assert FirstOpenTopic(p, q[2..]) == FirstOpenTopic(p, q[3..]) by { assert q[2..][1..] == q[3..]; }
    assert FirstOpenTopic(p, q[3..]) == FirstOpenTopic(p, q[4..]) by { assert q[3..][1..] == q[4..]; }
    assert FirstOpenTopic(p, q[4..]) == FirstOpenTopic(p, q[5..]) by { assert q[4..][1..] == q[5..]; }
    assert q[5..][1..] == [];
  }

  // ---------------------------------------------------------------------------
  // Collected summary
  // ---------------------------------------------------------------------------

  /** `str(v)` */
  function Display(v: PrefValue): string {
    match v
    case Str(t) => t
    case Num(n) => IntToString(n)
  }

  /** `table.get(v, v)`, shown as text. */
  function DisplayVia(table: map<string, string>, v: PrefValue): string {
    if v.Str? && v.text in table then table[v.text] else Display(v)
  }

  /** `str.capitalize()`: the first character upper case, the rest lower. */
  function Capitalize(t: string): (r: string)
    ensures |r| == |t|
  {
    if t == "" then "" else [UpperChar(t[0])] + Lower(t[1..])
  }

  const ModeDisplay: map<string, string> := map[
    "upcoming_semester" := "Next semester planning", "four_year_plan" := "4-year path planning",
    "view_progress" := "Progress viewing"]
  const WorkDisplay: map<string, string> := map[
    "none" := "No work", "part_time" := "Part-time", "full_time" := "Full-time"]
  const FocusDisplay: map<string, string> := map[
    "major_requirements" := "Major requirements", "electives" := "Electives/Interests",
    "graduation_timeline" := "Graduate on time"]

  /** One summary part for a value that is capitalised; None when the value
      is a number, where `capitalize` raises. */
  function CapitalizedPart(p: Preferences, column: string, tag: string): Option<seq<string>> {
    if !IsSet(p, column) then Some([])
    else match p.values[column]
      case Str(t) => Some([tag + Capitalize(t)])
      case Num(_) => None
  }

  /** One summary part for a value shown through a display table. */
  function LabelledPart(p: Preferences, column: string, tag: string, table: map<string, string>): seq<string> {
    if IsSet(p, column) then [tag + DisplayVia(table, p.values[column])] else []
  }

  /** The `parts` list of `get_collected_summary`; None where it raises. */
  function SummaryParts(p: Preferences): Option<seq<string>> {
    var mode := LabelledPart(p, "planning_mode", "Mode: ", ModeDisplay);
    var credits :=
      if IsSet(p, "preferred_credits_min") && IsSet(p, "preferred_credits_max")
      then ["Credits: " + Display(p.values["preferred_credits_min"]) + "-" + Display(p.values["preferred_credits_max"])]
      else [];
    var time := CapitalizedPart(p, "preferred_time_of_day", "Time: ");
    var work := LabelledPart(p, "work_status", "Work: ", WorkDisplay);
    var summer := CapitalizedPart(p, "summer_availability", "Summer: ");
    var focus := LabelledPart(p, "priority_focus", "Focus: ", FocusDisplay);
    if time.None? || summer.None? then None
    else Some(mode + credits + time.value + work + summer.value + focus)
  }

  /** `get_collected_summary` */
  function CollectedSummary(p: Preferences): Option<string> {
    match SummaryParts(p)
    case None => None
    case Some(parts) => Some(SummaryText(parts))
  }

  /** The parts joined by commas, or the placeholder when there are none. */
  function SummaryText(parts: seq<string>): string {
    if parts == [] then "Nothing collected yet" else Join(", ", parts)
  }

  /** The placeholder is the summary only when there are no parts, as long
      as a first part opens with a label letter. */
  lemma SummaryTextPlaceholder(parts: seq<string>)
    requires parts != [] ==> parts[0] != [] && parts[0][0] in "MCTWSF"
    ensures SummaryText(parts) == "Nothing collected yet" <==> parts == []
  {
    if parts != [] {
      JoinStartsWithFirst(", ", parts);
      var r := Join(", ", parts);
      assert r[0] == parts[0][0];
      assert r != "Nothing collected yet";
    }
  }

  /** The joined summary starts with "Mode: " exactly when its first part
      does, and a first part opening with another letter rules it out. */
  lemma SummaryTextMode(parts: seq<string>, modeSet: bool)
    requires modeSet ==> parts != [] && StartsWith(parts[0], "Mode: ")
    requires !modeSet && parts != [] ==> parts[0] != [] && parts[0][0] != 'M'
    ensures StartsWith(SummaryText(parts), "Mode: ") <==> modeSet
  {
    if modeSet {
      JoinPrefix(", ", parts, "Mode: ");
    } else if parts != [] {
      JoinStartsWithFirst(", ", parts);
      var r := Join(", ", parts);
      assert r[0] == parts[0][0];
      assert !StartsWith(r, "Mode: ") by { assert r[0] != 'M'; }
    } else {
      assert SummaryText(parts)[0] == 'N';
    }
  }

  /** No summary part applies. */
  predicate NothingCollected(p: Preferences) {
    && !IsSet(p, "planning_mode")
    && !(IsSet(p, "preferred_credits_min") && IsSet(p, "preferred_credits_max"))
    && !IsSet(p, "preferred_time_of_day") && !IsSet(p, "work_status")
    && !IsSet(p, "summer_availability") && !IsSet(p, "priority_focus")
  }

  /** The summary fails only on a numeric time or summer value. */
  lemma SummaryFailsOnNumbers(p: Preferences)
    ensures CollectedSummary(p).None? <==>
      (IsSet(p, "preferred_time_of_day") && p.values["preferred_time_of_day"].Num?)
      || (IsSet(p, "summer_availability") && p.values["summer_availability"].Num?)
  {
  }

  /** Every part begins with its label, so the first character of a
      non-empty part list is one of M, C, T, W, S or F. */
  lemma FirstPartLabel(p: Preferences)
    requires SummaryParts(p).Some? && SummaryParts(p).value != []
    ensures SummaryParts(p).value[0] != [] && SummaryParts(p).value[0][0] in "MCTWSF"
    ensures IsSet(p, "planning_mode") ==> StartsWith(SummaryParts(p).value[0], "Mode: ")
    ensures !IsSet(p, "planning_mode") ==> SummaryParts(p).value[0][0] != 'M'
  {
  }

  /** "Nothing collected yet" is the summary exactly when no part applies. */
  lemma SummaryNothingIff(p: Preferences)
    requires CollectedSummary(p).Some?
    ensures CollectedSummary(p).value == "Nothing collected yet" <==> NothingCollected(p)
  {
    var parts := SummaryParts(p).value;
    if parts != [] {
      FirstPartLabel(p);
    }
    SummaryTextPlaceholder(parts);
  }

  /** The summary opens with the mode exactly when planning mode is set. */
  lemma SummaryModeFirst(p: Preferences)
    requires CollectedSummary(p).Some?
    ensures StartsWith(CollectedSummary(p).value, "Mode: ") <==> IsSet(p, "planning_mode")
  {
    var parts := SummaryParts(p).value;
    if parts != [] {
      FirstPartLabel(p);
    }
    SummaryTextMode(parts, IsSet(p, "planning_mode"));
  }
}
