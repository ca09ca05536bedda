/** The decoder for Coursicle's obfuscated responses: a fixed punctuation
    substitution, three passes of an ordinal shift over every character,
    base64 padding, then base64 and UTF-8 decoding. */
module CoursicleDecoder {
  import opened Wrappers

  /** One element of a Python string: any code point, lone surrogates included
      (the shift can produce them, so Dafny's `char` is too narrow here). */
  type CodePoint = c: int | 0 <= c < 0x11_0000

  type PyText = seq<CodePoint>

  // ---------------------------------------------------------------------------
  // The shift
  // ---------------------------------------------------------------------------

  /** `_shift_char`: two overrides, then a rule per ordinal range. */
  function ShiftChar(c: CodePoint): CodePoint {
    if c == 0x2f then 0x66            // '/' becomes 'f'
    else if c == 0x2b then 0x65       // '+' becomes 'e'
    else if c >= 0x6b then c - 0x2a
    else if c >= 0x61 then c + 0x10
    else if c >= 0x57 then c + 0x0a
    else if c == 0x4b then 0x2b       // 'K' becomes '+'
    else if c >= 0x4c then c - 0x1d
    else if c >= 0x41 then c + 0x10
    else c + 0x37
  }

  /** The overrides the shift applies before its range rules. */
  lemma ShiftCharOverrides()
    ensures ShiftChar('/' as int) == 'f' as int
    ensures ShiftChar('+' as int) == 'e' as int
    ensures ShiftChar('K' as int) == '+' as int
  {
  }

  /** The 64 characters of the base64 alphabet. */
  predicate IsBase64Char(c: int) {
    ('A' as int <= c <= 'Z' as int) || ('a' as int <= c <= 'z' as int)
    || ('0' as int <= c <= '9' as int) || c == '+' as int || c == '/' as int
  }

  /** The shift maps the base64 alphabet into itself ... */
  lemma ShiftKeepsBase64(c: CodePoint)
    requires IsBase64Char(c)
    ensures IsBase64Char(ShiftChar(c))
  {
  }

  /** ... and no two alphabet characters land on the same one, so on the
      alphabet the shift is a permutation and loses no information. */
  lemma ShiftInjectiveOnBase64(c: CodePoint, d: CodePoint)
    requires IsBase64Char(c) && IsBase64Char(d) && c != d
    ensures ShiftChar(c) != ShiftChar(d)
  {
  }

  /** One pass of `_transform_string`: every character shifted in place. */
  function Transform(s: PyText): (r: PyText)
    ensures |r| == |s|
  {
    seq(|s|, i requires 0 <= i < |s| => ShiftChar(s[i]))
  }

  lemma TransformAt(s: PyText, i: nat)
    requires i < |s|
    ensures Transform(s)[i] == ShiftChar(s[i])
  {
  }

  /** `_transform_string`: the characters shifted one by one and collected. */
  method TransformString(s: PyText) returns (r: PyText)
    ensures r == Transform(s)
  {
    var chars: PyText := [];
    var i := 0;
    while i < |s|
      invariant 0 <= i <= |s|
      invariant |chars| == i
      invariant forall k :: 0 <= k < i ==> chars[k] == ShiftChar(s[k])
    {
      chars := chars + [ShiftChar(s[i])];
      i := i + 1;
    }
    r := chars;
  }

  /** `n` passes of the transformation, the innermost first. */
  function ShiftPasses(s: PyText, n: nat): PyText {
    if n == 0 then s else Transform(ShiftPasses(s, n - 1))
  }

  /** Any number of passes keeps the length. */
  lemma {:induction false} ShiftPassesLength(s: PyText, n: nat)
    ensures |ShiftPasses(s, n)| == |s|
  {
    if n > 0 {
      ShiftPassesLength(s, n - 1);
    }
  }

  /** Text over the base64 alphabet stays over it through any number of passes. */
  lemma {:induction false} ShiftPassesKeepBase64(s: PyText, n: nat)
    requires forall i :: 0 <= i < |s| ==> IsBase64Char(s[i])
    ensures forall i :: 0 <= i < |ShiftPasses(s, n)| ==> IsBase64Char(ShiftPasses(s, n)[i])
  {
    if n > 0 {
      ShiftPassesKeepBase64(s, n - 1);
      var t := ShiftPasses(s, n - 1);
      forall i | 0 <= i < |Transform(t)| ensures IsBase64Char(Transform(t)[i]) {
        TransformAt(t, i);
        ShiftKeepsBase64(t[i]);
      }
    }
  }

  // ---------------------------------------------------------------------------
  // The substitution stage
  // ---------------------------------------------------------------------------

  /** The replacement table, in the order the dictionary iterates it. */
  const Replacements: seq<(char, char)> := [
    ('-', '2'), ('?', '5'), ('(', '7'), (')', 'c'), (',', 'f'), ('.', 'h'),
    ('!', 'l'), ('&', 'o'), ('[', 'q'), ('@', 'u'), ('#', 'B'), ('*', 'G'),
    ('$', 'I'), (']', 'K'), ('%', 'O'), ('<', 'R'), ('>', 'S'), ('^', 'V')]

  /** `s.replace(old, new)` for one-character strings. */
  function ReplaceOne(s: PyText, from: char, to: char): (r: PyText)
    ensures |r| == |s|
    ensures forall i :: 0 <= i < |s| ==> r[i] == if s[i] == from as int then to as int else s[i]
  {
    seq(|s|, i requires 0 <= i < |s| => if s[i] == from as int then to as int else s[i])
  }

  /** The replacements applied one after another, in table order (the last
      entry is applied to the result of all earlier ones). */
  function ReplaceInOrder(s: PyText, table: seq<(char, char)>): PyText
    decreases |table|
  {
    if |table| == 0 then s
    else
      var last := table[|table| - 1];
      ReplaceOne(ReplaceInOrder(s, table[..|table| - 1]), last.0, last.1)
  }

  /** What the replacements in order do to one character. */
  function Sequential(table: seq<(char, char)>, c: CodePoint): CodePoint
    decreases |table|
  {
    if |table| == 0 then c
    else
      var d := Sequential(table[..|table| - 1], c);
      if d == table[|table| - 1].0 as int then table[|table| - 1].1 as int else d
  }

  /** The replacements act on each character independently. */
  lemma {:induction false} ReplaceInOrderPointwise(s: PyText, table: seq<(char, char)>)
    ensures |ReplaceInOrder(s, table)| == |s|
    ensures forall i :: 0 <= i < |s| ==> ReplaceInOrder(s, table)[i] == Sequential(table, s[i])
    decreases |table|
  {
    if |table| > 0 {
      ReplaceInOrderPointwise(s, table[..|table| - 1]);
    }
  }

  /** Reference definition: each character looked up once in the table (the
      first entry for it wins), characters not in the table kept. */
  function Substitute(table: seq<(char, char)>, c: CodePoint): CodePoint
    decreases |table|
  {
    if table == [] then c
    else if c == table[0].0 as int then table[0].1 as int
    else Substitute(table[1..], c)
  }

  predicate IsSource(table: seq<(char, char)>, c: int) {
    exists j :: 0 <= j < |table| && table[j].0 as int == c
  }

  /** No replacement produces a character that a replacement consumes. */
  predicate TargetsNotSources(table: seq<(char, char)>) {
    forall i, j :: 0 <= i < |table| && 0 <= j < |table| ==> table[i].1 != table[j].0
  }

  lemma {:induction false} SubstituteNonSource(table: seq<(char, char)>, c: CodePoint)
    requires !IsSource(table, c)
    ensures Substitute(table, c) == c
    decreases |table|
  {
    if table != [] {
      assert table[0].0 as int != c;
      assert !IsSource(table[1..], c) by {
        forall j | 0 <= j < |table[1..]| ensures table[1..][j].0 as int != c {
          assert table[1..][j] == table[j + 1];
        }
      }
      SubstituteNonSource(table[1..], c);
    }
  }

  /** A source is looked up to the target of some entry. */
  lemma {:induction false} SubstituteIsTarget(table: seq<(char, char)>, c: CodePoint) returns (k: nat)
    requires IsSource(table, c)
    ensures k < |table| && Substitute(table, c) == table[k].1 as int
    decreases |table|
  {
    if c == table[0].0 as int {
      k := 0;
    } else {
      var j :| 0 <= j < |table| && table[j].0 as int == c;
      assert table[1..][j - 1] == table[j];
      var k' := SubstituteIsTarget(table[1..], c);
      assert table[1..][k'] == table[k' + 1];
      k := k' + 1;
    }
  }

  /** Looking up in a table with one more entry at the end. */
  lemma {:induction false} SubstituteSnoc(init: seq<(char, char)>, p: (char, char), c: CodePoint)
    ensures Substitute(init + [p], c)
      == if IsSource(init, c) then Substitute(init, c) else if c == p.0 as int then p.1 as int else c
    decreases |init|
  {
    if init == [] {
      assert init + [p] == [p];
    } else {
      assert (init + [p])[1..] == init[1..] + [p];
      SubstituteSnoc(init[1..], p, c);
      if c != init[0].0 as int {
        assert IsSource(init, c) <==> IsSource(init[1..], c) by {
          if IsSource(init, c) {
            var j :| 0 <= j < |init| && init[j].0 as int == c;
            assert init[1..][j - 1] == init[j];
          }
          if IsSource(init[1..], c) {
            var j :| 0 <= j < |init[1..]| && init[1..][j].0 as int == c;
            assert init[j + 1] == init[1..][j];
          }
        }
        if !IsSource(init[1..], c) {
          SubstituteNonSource(init[1..], c);
        }
      } else {
        assert init[0].0 as int == c;
      }
    }
  }

  /** When targets are never sources, the replacements in order act as one
      simultaneous substitution: no character is replaced twice. */
  lemma {:induction false} SequentialIsSubstitute(table: seq<(char, char)>, c: CodePoint)
    requires TargetsNotSources(table)
    ensures Sequential(table, c) == Substitute(table, c)
    decreases |table|
  {
    if |table| > 0 {
      var init := table[..|table| - 1];
      var p := table[|table| - 1];
      assert table == init + [p];
      assert TargetsNotSources(init);
      SequentialIsSubstitute(init, c);
      SubstituteSnoc(init, p, c);
      if IsSource(init, c) {
        var k := SubstituteIsTarget(init, c);
        assert table[k].1 != table[|table| - 1].0;
      } else {
        SubstituteNonSource(init, c);
      }
    }
  }

  lemma ReplaceInOrderSubstitutes(s: PyText, table: seq<(char, char)>)
    requires TargetsNotSources(table)
    ensures |ReplaceInOrder(s, table)| == |s|
    ensures forall i :: 0 <= i < |s| ==> ReplaceInOrder(s, table)[i] == Substitute(table, s[i])
  {
    ReplaceInOrderPointwise(s, table);
    forall i | 0 <= i < |s| ensures ReplaceInOrder(s, table)[i] == Substitute(table, s[i]) {
      SequentialIsSubstitute(table, s[i]);
    }
  }

  /** What a substitution yields is never a source of the table. */
  lemma {:induction false} SubstituteLeavesNoSource(table: seq<(char, char)>, all: seq<(char, char)>, c: CodePoint)
    requires TargetsNotSources(all)
    requires forall k :: 0 <= k < |table| ==> table[k] in all
    requires IsSource(all, c) ==> IsSource(table, c)
    ensures !IsSource(all, Substitute(table, c))
    decreases |table|
  {
    if table == [] {
    } else if c == table[0].0 as int {
      var k :| 0 <= k < |all| && all[k] == table[0];
      forall j | 0 <= j < |all| ensures all[j].0 as int != table[0].1 as int {
        assert all[k].1 != all[j].0;
      }
    } else {
      assert forall k :: 0 <= k < |table[1..]| ==> table[1..][k] == table[k + 1];
      if IsSource(all, c) {
        var j :| 0 <= j < |table| && table[j].0 as int == c;
        assert table[1..][j - 1] == table[j];
      }
      SubstituteLeavesNoSource(table[1..], all, c);
    }
  }

  /** Replacements only turn non-alphabet characters into alphabet ones, so
      no target is a source. */
  lemma ReplacementTableDisjoint()
    ensures TargetsNotSources(Replacements)
  {
    ReplacementTableBase64();
  }

  /** The substitution stage of `decode_coursicle_response`. */
  function Substituted(s: PyText): PyText {
    ReplaceInOrder(s, Replacements)
  }

  /** After the substitution stage none of the 18 punctuation characters
      remain, each character was replaced at most once, and the length is kept. */
  lemma SubstitutedSpec(s: PyText)
    ensures |Substituted(s)| == |s|
    ensures forall i :: 0 <= i < |s| ==> Substituted(s)[i] == Substitute(Replacements, s[i])
    ensures forall i :: 0 <= i < |s| ==> !IsSource(Replacements, Substituted(s)[i])
  {
    ReplacementTableDisjoint();
    ReplaceInOrderSubstitutes(s, Replacements);
    forall i | 0 <= i < |s| ensures !IsSource(Replacements, Substituted(s)[i]) {
      SubstituteLeavesNoSource(Replacements, Replacements, s[i]);
    }
  }

  /** Text made of base64 characters and the punctuation stand-ins becomes
      pure base64 text once substituted. */
  lemma SubstitutedIsBase64(s: PyText)
    requires forall i :: 0 <= i < |s| ==> IsBase64Char(s[i]) || IsSource(Replacements, s[i])
    ensures forall i :: 0 <= i < |Substituted(s)| ==> IsBase64Char(Substituted(s)[i])
  {
    ReplacementTableDisjoint();
    ReplacementTableBase64();
    ReplaceInOrderSubstitutes(s, Replacements);
    forall i | 0 <= i < |s| ensures IsBase64Char(Substituted(s)[i]) {
      SubstituteIntoBase64(Replacements, s[i]);
    }
  }

  /** Every replacement turns a non-alphabet character into an alphabet one. */
  lemma ReplacementTableBase64()
    ensures forall k :: 0 <= k < |Replacements| ==>
      IsBase64Char(Replacements[k].1 as int) && !IsBase64Char(Replacements[k].0 as int)
  {
  }

  lemma {:induction false} SubstituteIntoBase64(table: seq<(char, char)>, c: CodePoint)
    requires forall k :: 0 <= k < |table| ==> IsBase64Char(table[k].1 as int) && !IsBase64Char(table[k].0 as int)
    requires IsBase64Char(c) || IsSource(table, c)
    ensures IsBase64Char(Substitute(table, c))
    decreases |table|
  {
    if table != [] && c != table[0].0 as int {
      assert forall k :: 0 <= k < |table[1..]| ==> table[1..][k] == table[k + 1];
      if !IsBase64Char(c) {
        var j :| 0 <= j < |table| && table[j].0 as int == c;
        assert table[1..][j - 1] == table[j];
      }
      SubstituteIntoBase64(table[1..], c);
    }
  }

  // ---------------------------------------------------------------------------
  // Padding and decoding
  // ---------------------------------------------------------------------------

  /** '=' appended until the length is a multiple of 4. */
  function Pad(s: PyText): PyText {
    var missing := |s| % 4;
    if missing != 0 then s + seq(4 - missing, _ => '=' as int) else s
  }

  /** Padding keeps the text, appends between 0 and 3 '=' characters, none
      exactly when the length is already a multiple of 4, and leaves a
      multiple of 4. */
  lemma PadSpec(s: PyText)
    ensures |Pad(s)| % 4 == 0
    ensures Pad(s)[..|s|] == s
    ensures |s| <= |Pad(s)| <= |s| + 3
    ensures |Pad(s)| == |s| <==> |s| % 4 == 0
    ensures forall i :: |s| <= i < |Pad(s)| ==> Pad(s)[i] == '=' as int
  {
  }

  /** Why decoding can fail: base64 or UTF-8 decoding raised (ValueError). */
  datatype DecodeError = Base64DecodeFailed

  /** The text handed to base64 decoding. */
  function Prepared(encrypted: PyText): PyText {
    Pad(ShiftPasses(Substituted(encrypted), 3))
  }

  /** `decode_coursicle_response`; `b64utf8` stands for base64 decoding
      followed by UTF-8 decoding, None when either raises. */
  function DecodeResponse(encrypted: PyText, b64utf8: PyText -> Option<PyText>): (r: Result<PyText, DecodeError>)
    ensures r.Err? <==> b64utf8(Prepared(encrypted)).None?
    ensures r.Ok? ==> Some(r.value) == b64utf8(Prepared(encrypted))
  {
    match b64utf8(Prepared(encrypted))
    case None => Err(Base64DecodeFailed)
    case Some(text) => Ok(text)
  }

  /** The decoder's input and the text it decodes line up: same characters
      before the padding, length rounded up to a multiple of 4. */
  lemma PreparedLength(encrypted: PyText)
    ensures |Prepared(encrypted)| % 4 == 0
    ensures |encrypted| <= |Prepared(encrypted)| <= |encrypted| + 3
  {
    SubstitutedSpec(encrypted);
    ShiftPassesLength(Substituted(encrypted), 3);
    PadSpec(ShiftPasses(Substituted(encrypted), 3));
  }

  /** Encrypted text over the base64 alphabet and the stand-ins reaches the
      base64 decoder as base64 text followed by '=' padding only. */
  lemma PreparedIsBase64(encrypted: PyText)
    requires forall i :: 0 <= i < |encrypted| ==> IsBase64Char(encrypted[i]) || IsSource(Replacements, encrypted[i])
    ensures |encrypted| <= |Prepared(encrypted)|
    ensures forall i :: 0 <= i < |encrypted| ==> IsBase64Char(Prepared(encrypted)[i])
    ensures forall i :: |encrypted| <= i < |Prepared(encrypted)| ==> Prepared(encrypted)[i] == '=' as int
  {
    var t := ShiftPasses(Substituted(encrypted), 3);
    SubstitutedSpec(encrypted);
    SubstitutedIsBase64(encrypted);
    ShiftPassesKeepBase64(Substituted(encrypted), 3);
    ShiftPassesLength(Substituted(encrypted), 3);
    PadSpec(t);
    assert |t| == |encrypted|;
  }

  /** The replacement loop of `decode_coursicle_response`, each `replace`
      applied to the result of the previous one. */
  method ReplaceAll(s: PyText, table: seq<(char, char)>) returns (r: PyText)
    ensures r == ReplaceInOrder(s, table)
  {
    r := s;
    var k := 0;
    while k < |table|
      invariant 0 <= k <= |table|
      invariant r == ReplaceInOrder(s, table[..k])
    {
      var (from, to) := table[k];
      assert table[..k + 1][..k] == table[..k];
      r := ReplaceOne(r, from, to);
      k := k + 1;
    }
    assert table[..k] == table;
  }

  /** The three-pass loop of `decode_coursicle_response`. */
  method ShiftThreeTimes(s: PyText) returns (r: PyText)
    ensures r == ShiftPasses(s, 3)
  {
    r := s;
    var pass := 0;
    while pass < 3
      invariant 0 <= pass <= 3
      invariant r == ShiftPasses(s, pass)
    {
      r := TransformString(r);
      pass := pass + 1;
    }
  }

  /** `decode_coursicle_response`: the replacements, the three passes,
      padding, then decoding. */
  method DecodeCoursicleResponse(encrypted: PyText, b64utf8: PyText -> Option<PyText>)
      returns (r: Result<PyText, DecodeError>)
    ensures r == DecodeResponse(encrypted, b64utf8)
  {
    var s := ReplaceAll(encrypted, Replacements);
    s := ShiftThreeTimes(s);
    var missing := |s| % 4;
    if missing != 0 {
      s := s + seq(4 - missing, _ => '=' as int);
    }
    match b64utf8(s)
    case None => r := Err(Base64DecodeFailed);
    case Some(text) => r := Ok(text);
  }
}
