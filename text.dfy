/** String primitives with the semantics of the Python built-ins the services
    use: `str.isspace`, `strip`, `split`, `lower`, `upper`, `in`, `startswith`,
    `join`, `replace`, `int()` and `float()`.  Letters, digits and case mapping
    are ASCII; whitespace is the full set of code points Python calls space. */
module Text {
  import opened Wrappers

  // ---------------------------------------------------------------------------
  // Character classes
  // ---------------------------------------------------------------------------

  /** Python's `str.isspace()` for one code point (also what `\s`, `strip()`
      and `split()` use). */
  predicate IsSpace(c: char) {
    c == ' ' || ('\t' <= c <= '\r') || ('\U{1C}' <= c <= '\U{1F}')
    || c == '\U{85}' || c == '\U{A0}' || c == '\U{1680}'
    || ('\U{2000}' <= c <= '\U{200A}') || c == '\U{2028}' || c == '\U{2029}'
    || c == '\U{202F}' || c == '\U{205F}' || c == '\U{3000}'
  }

  predicate IsDigit(c: char) { '0' <= c <= '9' }
  predicate IsUpper(c: char) { 'A' <= c <= 'Z' }
  predicate IsLower(c: char) { 'a' <= c <= 'z' }
  predicate IsAlpha(c: char) { IsUpper(c) || IsLower(c) }
  predicate IsAlnum(c: char) { IsAlpha(c) || IsDigit(c) }
  /** The regex class `\w`. */
  predicate IsWordChar(c: char) { IsAlnum(c) || c == '_' }

  function LowerChar(c: char): (r: char)
    ensures !IsUpper(r)
    ensures IsAlpha(c) <==> IsAlpha(r)
  {
    if IsUpper(c) then (c as int + 32) as char else c
  }

  function UpperChar(c: char): (r: char)
    ensures !IsLower(r)
    ensures IsAlpha(c) <==> IsAlpha(r)
  {
    if IsLower(c) then (c as int - 32) as char else c
  }

  /** `s.lower()` */
  function Lower(s: string): (r: string)
    ensures |r| == |s|
    ensures forall i :: 0 <= i < |s| ==> r[i] == LowerChar(s[i])
  {
    seq(|s|, i requires 0 <= i < |s| => LowerChar(s[i]))
  }

  /** `s.upper()` */
  function Upper(s: string): (r: string)
    ensures |r| == |s|
    ensures forall i :: 0 <= i < |s| ==> r[i] == UpperChar(s[i])
  {
    seq(|s|, i requires 0 <= i < |s| => UpperChar(s[i]))
  }

  /** Text without lower-case letters is its own `upper()`. */
  lemma UpperNoop(s: string)
    requires forall i :: 0 <= i < |s| ==> !IsLower(s[i])
    ensures Upper(s) == s
  {
  }

  predicate AllDigits(s: string) { forall i :: 0 <= i < |s| ==> IsDigit(s[i]) }
  predicate AllUpper(s: string) { forall i :: 0 <= i < |s| ==> IsUpper(s[i]) }
  predicate NoSpace(s: string) { forall i :: 0 <= i < |s| ==> !IsSpace(s[i]) }

  // ---------------------------------------------------------------------------
  // Prefixes, suffixes and substrings
  // ---------------------------------------------------------------------------

  predicate StartsWith(s: string, p: string) { |p| <= |s| && s[..|p|] == p }
  predicate EndsWith(s: string, p: string) { |p| <= |s| && s[|s| - |p|..] == p }

  /** `sub` occurs in `s` starting at index `k`. */
  predicate OccursAt(s: string, sub: string, k: int) {
    0 <= k && k + |sub| <= |s| && s[k..k + |sub|] == sub
  }

  /** The leftmost index at or after `from` where `sub` occurs (`str.find`). */
  function FindFrom(s: string, sub: string, from: nat): (r: Option<nat>)
    ensures r.Some? ==> from <= r.value && OccursAt(s, sub, r.value)
    ensures r.Some? ==> forall k :: from <= k < r.value ==> !OccursAt(s, sub, k)
    ensures r.None? ==> forall k :: from <= k ==> !OccursAt(s, sub, k)
    decreases |s| - from
  {
    if from + |sub| > |s| then None
    else if s[from..from + |sub|] == sub then Some(from)
    else FindFrom(s, sub, from + 1)
  }

  function Find(s: string, sub: string): (r: Option<nat>)
    ensures r.Some? ==> OccursAt(s, sub, r.value)
    ensures r.Some? ==> forall k :: 0 <= k < r.value ==> !OccursAt(s, sub, k)
    ensures r.None? ==> forall k :: !OccursAt(s, sub, k)
  {
    FindFrom(s, sub, 0)
  }

  /** Python's `sub in s`. */
  predicate Contains(s: string, sub: string) {
    exists k {:trigger OccursAt(s, sub, k)} :: 0 <= k <= |s| - |sub| && OccursAt(s, sub, k)
  }

  /** `str.find` succeeds exactly when the substring is present. */
  lemma FindIffContains(s: string, sub: string)
    ensures Find(s, sub).Some? <==> Contains(s, sub)
  {
    if Find(s, sub).Some? {
      ContainsAt(s, sub, Find(s, sub).value);
    }
  }

  /** The first occurrence is what `str.find` returns. */
  lemma FindAt(s: string, sub: string, k: nat)
    requires OccursAt(s, sub, k)
    requires forall j :: 0 <= j < k ==> !OccursAt(s, sub, j)
    ensures Find(s, sub) == Some(k)
  {
  }

  /** For one character: its first position. */
  lemma FindCharAt(s: string, c: char, k: nat)
    requires k < |s| && s[k] == c
    requires forall j :: 0 <= j < k ==> s[j] != c
    ensures Find(s, [c]) == Some(k)
  {
    forall j | 0 <= j < k ensures !OccursAt(s, [c], j) {
      assert s[j..j + 1][0] == s[j];
    }
    assert s[k..k + 1] == [c];
    FindAt(s, [c], k);
  }

  lemma ContainsAt(s: string, sub: string, k: int)
    requires OccursAt(s, sub, k)
    ensures Contains(s, sub)
  {
  }

  lemma Associative<T>(a: seq<T>, b: seq<T>, c: seq<T>)
    ensures a + b + c == a + (b + c)
  {
  }

  /** A concatenation starts with its left part and ends with its right part. */
  lemma ConcatEnds(a: string, b: string)
    ensures StartsWith(a + b, a) && EndsWith(a + b, b)
  {
    assert (a + b)[..|a|] == a;
    assert (a + b)[|a|..] == b;
  }

  /** A suffix of `b` is a suffix of `a + b`. */
  lemma EndsWithConcat(p: string, a: string, b: string)
    requires EndsWith(b, p)
    ensures EndsWith(a + b, p)
  {
    assert (a + b)[|a + b| - |p|..] == b[|b| - |p|..];
  }

  /** Text that holds `sub` still holds it with more text on either side. */
  lemma ContainsAppend(a: string, b: string, sub: string)
    ensures Contains(a, sub) ==> Contains(a + b, sub)
    ensures Contains(b, sub) ==> Contains(a + b, sub)
  {
    var s := a + b;
    if Contains(a, sub) {
      var k :| 0 <= k <= |a| - |sub| && OccursAt(a, sub, k);
      assert s[k..k + |sub|] == a[k..k + |sub|];
      ContainsAt(s, sub, k);
    }
    if Contains(b, sub) {
      var k :| 0 <= k <= |b| - |sub| && OccursAt(b, sub, k);
      assert s[|a| + k..|a| + k + |sub|] == b[k..k + |sub|];
      ContainsAt(s, sub, |a| + k);
    }
  }

  /** Containment is transitive: a string holding `big` holds every part of it. */
  lemma ContainsTransitive(s: string, big: string, small: string)
    requires Contains(s, big) && Contains(big, small)
    ensures Contains(s, small)
  {
    var i :| 0 <= i <= |s| - |big| && OccursAt(s, big, i);
    var j :| 0 <= j <= |big| - |small| && OccursAt(big, small, j);
    assert s[i..i + |big|] == big && big[j..j + |small|] == small;
    forall k | 0 <= k < |small| ensures s[i + j + k] == small[k] {
      assert s[i + j + k] == s[i..i + |big|][j + k];
      assert small[k] == big[j..j + |small|][k];
    }
    assert s[i + j..i + j + |small|] == small;
    ContainsAt(s, small, i + j);
  }

  // ---------------------------------------------------------------------------
  // strip / split / join / replace
  // ---------------------------------------------------------------------------

  /** `s.lstrip()` */
  function LStrip(s: string): (r: string)
    ensures |r| <= |s| && r == s[|s| - |r|..]
    ensures r == [] || !IsSpace(r[0])
    ensures forall i :: 0 <= i < |s| - |r| ==> IsSpace(s[i])
  {
    if |s| > 0 && IsSpace(s[0]) then LStrip(s[1..]) else s
  }

  /** `s.rstrip()` */
  function RStrip(s: string): (r: string)
    ensures |r| <= |s| && r == s[..|r|]
    ensures r == [] || !IsSpace(r[|r| - 1])
    ensures forall i :: |r| <= i < |s| ==> IsSpace(s[i])
  {
    if |s| > 0 && IsSpace(s[|s| - 1]) then RStrip(s[..|s| - 1]) else s
  }

  /** `s.strip()` */
  function Strip(s: string): (r: string)
    ensures |r| <= |s|
    ensures r == [] || (!IsSpace(r[0]) && !IsSpace(r[|r| - 1]))
  {
    RStrip(LStrip(s))
  }

  /** `s.strip()` is empty exactly when `s` is all whitespace. */
  lemma StripBlank(s: string)
    ensures Strip(s) == [] <==> forall i :: 0 <= i < |s| ==> IsSpace(s[i])
  {
    var l := LStrip(s);
    if l != [] {
      assert l[0] == s[|s| - |l|];
    }
  }

  /** A string that starts and ends with a non-space is its own strip. */
  lemma StripNoop(s: string)
    requires s == [] || (!IsSpace(s[0]) && !IsSpace(s[|s| - 1]))
    ensures Strip(s) == s
  {
  }

  /** A trailing space is stripped from the right. */
  lemma RStripTrailingSpace(t: string)
    ensures RStrip(t + " ") == RStrip(t)
  {
    assert (t + " ")[..|t|] == t;
  }

  /** Stripping keeps a contiguous part of the text. */
  lemma StripIsSlice(s: string) returns (a: nat)
    ensures a + |Strip(s)| <= |s| && Strip(s) == s[a..a + |Strip(s)|]
  {
    var l := LStrip(s);
    a := |s| - |l|;
    assert Strip(s) == l[..|Strip(s)|];
  }

  /** A text starting with a non-space strips only from the right, and
      keeps everything up to a non-space at `e - 1`. */
  lemma StripAfterNonSpace(s: string, e: nat)
    requires 0 < e <= |s| && !IsSpace(s[0]) && !IsSpace(s[e - 1])
    ensures e <= |Strip(s)| && Strip(s) == s[..|Strip(s)|]
  {
    assert LStrip(s) == s;
  }

  /** Text that is its own strip loses only an appended space. */
  lemma StripAppendedSpace(t: string)
    requires t == [] || (!IsSpace(t[0]) && !IsSpace(t[|t| - 1]))
    ensures Strip(t + " ") == t
  {
    RStripTrailingSpace(t);
    if t == [] {
      assert LStrip(" ") == LStrip(" "[1..]);
      assert " "[1..] == [];
    } else {
      assert (t + " ")[0] == t[0];
      assert LStrip(t + " ") == t + " ";
    }
  }

  /** The longest prefix of `s` without whitespace. */
  function Word(s: string): (r: string)
    ensures |r| <= |s| && r == s[..|r|]
    ensures NoSpace(r)
    ensures |r| < |s| ==> IsSpace(s[|r|])
    ensures s != [] && !IsSpace(s[0]) ==> |r| >= 1
  {
    if |s| > 0 && !IsSpace(s[0]) then [s[0]] + Word(s[1..]) else []
  }

  /** `s.split()`: the maximal runs of non-whitespace, in order. */
  function Split(s: string): (r: seq<string>)
    ensures forall w :: w in r ==> w != [] && NoSpace(w)
    decreases |s|
  {
    var t := LStrip(s);
    if t == [] then []
    else
      var w := Word(t);
      assert 1 <= |w| <= |t| <= |s|;
      var rest := Split(t[|w|..]);
      assert forall x :: x in [w] + rest ==> x == w || x in rest;
      [w] + rest
  }

  /** `set(s.split())` */
  function Tokens(s: string): set<string> {
    set w | w in Split(s)
  }

  /** `s.split(sep)` for a non-empty separator. */
  function SplitOn(s: string, sep: string): (r: seq<string>)
    requires sep != []
    ensures |r| >= 1
    ensures !Contains(r[|r| - 1], sep)
    decreases |s|
  {
    match Find(s, sep)
    case None => [s]
    case Some(k) => [s[..k]] + SplitOn(s[k + |sep|..], sep)
  }

  /** `sep.join(parts)` */
  function Join(sep: string, parts: seq<string>): string {
    if |parts| == 0 then ""
    else if |parts| == 1 then parts[0]
    else parts[0] + sep + Join(sep, parts[1..])
  }

  /** A joined list whose first part is non-empty is non-empty. */
  lemma JoinNonEmpty(sep: string, parts: seq<string>)
    requires parts != [] && parts[0] != ""
    ensures Join(sep, parts) != ""
  {
    JoinStartsWithFirst(sep, parts);
  }

  /** A joined list starts with its first part. */
  lemma JoinStartsWithFirst(sep: string, parts: seq<string>)
    requires parts != []
    ensures StartsWith(Join(sep, parts), parts[0])
  {
    if |parts| > 1 {
      assert Join(sep, parts) == parts[0] + (sep + Join(sep, parts[1..]));
      assert Join(sep, parts)[..|parts[0]|] == parts[0];
    }
  }

  /** A joined list starts with whatever its first part starts with. */
  lemma JoinPrefix(sep: string, parts: seq<string>, pre: string)
    requires parts != [] && StartsWith(parts[0], pre)
    ensures StartsWith(Join(sep, parts), pre)
  {
    JoinStartsWithFirst(sep, parts);
    var r := Join(sep, parts);
    assert r[..|pre|] == r[..|parts[0]|][..|pre|];
  }

  /** `s.replace(a, b)` for single characters. */
  function ReplaceChar(s: string, a: char, b: char): (r: string)
    ensures |r| == |s|
    ensures forall i :: 0 <= i < |s| ==> r[i] == (if s[i] == a then b else s[i])
  {
    seq(|s|, i requires 0 <= i < |s| => if s[i] == a then b else s[i])
  }

  /** `s.rstrip(chars)` where the set of stripped characters is `strip`. */
  function RStripWhile(s: string, strip: char -> bool): (r: string)
    ensures |r| <= |s| && r == s[..|r|]
    ensures r == [] || !strip(r[|r| - 1])
  {
    if |s| > 0 && strip(s[|s| - 1]) then RStripWhile(s[..|s| - 1], strip) else s
  }

  /** A character no position holds is absent. */
  lemma CharAbsent(s: string, c: char)
    requires forall i :: 0 <= i < |s| ==> s[i] != c
    ensures !Contains(s, [c])
  {
    forall k | 0 <= k <= |s| - 1 ensures !OccursAt(s, [c], k) {
      assert s[k..k + 1][0] == s[k];
    }
  }

  /** A text lacking one of the characters of `sub` does not contain `sub`. */
  lemma MissingCharNotContained(s: string, sub: string, j: nat)
    requires j < |sub| && forall i :: 0 <= i < |s| ==> s[i] != sub[j]
    ensures !Contains(s, sub)
  {
    forall k | 0 <= k <= |s| - |sub| ensures !OccursAt(s, sub, k) {
      assert s[k..k + |sub|][j] == s[k + j];
    }
  }

  /** A text lacking a part of `sub` does not contain `sub`. */
  lemma MissingPartNotContained(s: string, sub: string, part: string)
    requires Contains(sub, part) && !Contains(s, part)
    ensures !Contains(s, sub)
  {
    if Contains(s, sub) {
      ContainsTransitive(s, sub, part);
    }
  }

  /** A text in which `a` is never directly followed by `b` does not
      contain "ab". */
  lemma PairAbsent(s: string, a: char, b: char)
    requires forall k :: 0 <= k < |s| - 1 ==> !(s[k] == a && s[k + 1] == b)
    ensures !Contains(s, [a, b])
  {
    forall k | 0 <= k <= |s| - 2 ensures !OccursAt(s, [a, b], k) {
      assert s[k..k + 2][0] == s[k] && s[k..k + 2][1] == s[k + 1];
    }
  }

  /** A one-character string is absent exactly when no position holds it. */
  lemma NotContainsChar(s: string, c: char)
    requires !Contains(s, [c])
    ensures forall i :: 0 <= i < |s| ==> s[i] != c
  {
    forall i | 0 <= i < |s| ensures s[i] != c {
      assert !OccursAt(s, [c], i);
      assert s[i..i + 1] == [s[i]];
    }
  }

  /** Lexicographic order on code points, as Python compares strings. */
  predicate LexLess(a: string, b: string)
    decreases |a|
  {
    if a == [] then b != []
    else if b == [] then false
    else if a[0] != b[0] then a[0] < b[0]
    else LexLess(a[1..], b[1..])
  }

  lemma {:induction false} LexIrreflexive(a: string)
    ensures !LexLess(a, a)
    decreases |a|
  {
    if a != [] { LexIrreflexive(a[1..]); }
  }

  lemma {:induction false} LexTransitive(a: string, b: string, c: string)
    requires LexLess(a, b) && LexLess(b, c)
    ensures LexLess(a, c)
    decreases |a|
  {
    if a != [] && b != [] && c != [] && a[0] == b[0] && b[0] == c[0] {
      LexTransitive(a[1..], b[1..], c[1..]);
    }
  }

  lemma {:induction false} LexTotal(a: string, b: string)
    requires a != b
    ensures LexLess(a, b) || LexLess(b, a)
    decreases |a|
  {
    if a != [] && b != [] && a[0] == b[0] {
      assert a == [a[0]] + a[1..] && b == [b[0]] + b[1..];
      LexTotal(a[1..], b[1..]);
    }
  }

  lemma {:induction false} LexAsymmetric(a: string, b: string)
    requires LexLess(a, b)
    ensures !LexLess(b, a)
    decreases |a|
  {
    if a != [] && b != [] && a[0] == b[0] { LexAsymmetric(a[1..], b[1..]); }
  }

  // ---------------------------------------------------------------------------
  // Python slicing
  // ---------------------------------------------------------------------------

  /** A slice bound normalised the way Python does: negative counts from the end,
      then clamped to the sequence. */
  function SliceBound(i: int, n: nat): (r: nat)
    ensures r <= n
    ensures 0 <= i <= n ==> r == i
  {
    if i < 0 then (if i + n < 0 then 0 else i + n) else if i > n then n else i
  }

  /** `s[start:stop]` */
  function PySlice<T>(s: seq<T>, start: int, stop: int): (r: seq<T>)
    ensures |r| <= |s|
  {
    var a := SliceBound(start, |s|);
    var b := SliceBound(stop, |s|);
    if a < b then s[a..b] else []
  }

  // ---------------------------------------------------------------------------
  // Numbers
  // ---------------------------------------------------------------------------

  function DigitValue(c: char): nat
    requires IsDigit(c)
  {
    c as int - '0' as int
  }

  /** The number written by a run of decimal digits (leading zeros allowed). */
  function DigitsValue(s: string): nat
    requires AllDigits(s)
  {
    if s == [] then 0 else DigitsValue(s[..|s| - 1]) * 10 + DigitValue(s[|s| - 1])
  }

  function Pow10(n: nat): (r: nat)
    ensures r >= 1
  {
    if n == 0 then 1 else 10 * Pow10(n - 1)
  }

  function DigitChar(d: nat): (c: char)
    requires d < 10
    ensures IsDigit(c) && DigitValue(c) == d
  {
    ('0' as int + d) as char
  }

  /** Decimal spelling of a natural number, as `str(n)` prints it. */
  function NatToString(n: nat): (r: string)
    ensures r != [] && AllDigits(r) && DigitsValue(r) == n
    ensures |r| > 1 ==> r[0] != '0'
  {
    if n < 10 then [DigitChar(n)]
    else
      var p := NatToString(n / 10);
      var r := p + [DigitChar(n % 10)];
      assert r[..|r| - 1] == p;
      r
  }

  /** `str(i)` for an integer. */
  function IntToString(i: int): (r: string)
    ensures r != []
  {
    if i < 0 then "-" + NatToString(-i) else NatToString(i)
  }

  /** Digits with single underscores between them, as Python's numeric
      literals allow (`1_000`); yields the digits without the underscores. */
  function DigitGroup(s: string): (r: Option<string>)
    ensures r.Some? ==> r.value != [] && AllDigits(r.value)
  {
    if s == [] || !IsDigit(s[0]) then None
    else if |s| == 1 then Some(s)
    else if IsDigit(s[1]) then
      match DigitGroup(s[1..])
      case None => None
      case Some(t) => Some([s[0]] + t)
    else if s[1] == '_' then
      match DigitGroup(s[2..])
      case None => None
      case Some(t) => Some([s[0]] + t)
    else None
  }

  /** `int(s)`: surrounding whitespace, an optional sign, digit groups; None
      where Python raises ValueError. */
  function ParseInt(s: string): (r: Option<int>)
  {
    var t := Strip(s);
    if t == [] then None
    else
      var neg := t[0] == '-';
      var body := if t[0] == '-' || t[0] == '+' then t[1..] else t;
      match DigitGroup(body)
      case None => None
      case Some(d) =>
        var v: int := DigitsValue(d);
        Some(if neg then -v else v)
  }

  /** The mantissa part of a float literal: `digits`, `digits.`, `digits.digits`
      or `.digits`, yielding (all digits, number of fraction digits). */
  function ParseMantissa(s: string): (r: Option<(string, nat)>)
    ensures r.Some? ==> AllDigits(r.value.0)
  {
    match Find(s, ".")
    case None =>
      (match DigitGroup(s)
       case None => None
       case Some(d) => Some((d, 0)))
    case Some(k) =>
      var whole := s[..k];
      var frac := s[k + 1..];
      var w := if whole == [] then Some("") else DigitGroup(whole);
      var f := if frac == [] then Some("") else DigitGroup(frac);
      if w.None? || f.None? || (whole == [] && frac == []) then None
      else Some((w.value + f.value, |f.value|))
  }

  /** Scales digits by a power of ten. */
  function Scaled(digits: string, fracLen: nat, exp: int): (r: real)
    requires AllDigits(digits)
    ensures r >= 0.0
  {
    var e := exp - fracLen;
    var m := DigitsValue(digits) as real;
    if e >= 0 then
      var p := Pow10(e) as real;
      assert m * p >= 0.0 by { assert m >= 0.0 && p >= 1.0; }
      m * p
    else
      var p := Pow10(-e) as real;
      assert m / p >= 0.0 by { assert m >= 0.0 && p >= 1.0; }
      m / p
  }

  /** `float` of an unsigned spelling: a mantissa and an optional exponent. */
  function ParseUnsignedFloat(body: string): (r: Option<real>)
    ensures r.Some? ==> r.value >= 0.0
  {
    var k := Find(Lower(body), "e");
    if k.None? then
      var m := ParseMantissa(body);
      if m.None? then None else Some(Scaled(m.value.0, m.value.1, 0))
    else
      var exp := body[k.value + 1..];
      var m := ParseMantissa(body[..k.value]);
      var e := ParseInt(exp);
      // no whitespace may surround the exponent inside a float literal
      if exp == [] || IsSpace(exp[0]) || IsSpace(exp[|exp| - 1]) || m.None? || e.None? then None
      else Some(Scaled(m.value.0, m.value.1, e.value))
  }

  /** `float(s)` for finite decimal spellings with an optional exponent; None
      where Python raises ValueError.  (`inf` and `nan` are not modelled.) */
  function ParseFloat(s: string): (r: Option<real>)
    ensures r.Some? && Strip(s) != [] && Strip(s)[0] != '-' ==> r.value >= 0.0
  {
    var t := Strip(s);
    if t == [] then None
    else
      var body := if t[0] == '-' || t[0] == '+' then t[1..] else t;
      match ParseUnsignedFloat(body)
      case None => None
      case Some(v) => Some(if t[0] == '-' then -v else v)
  }

  lemma {:induction false} DigitGroupAll(s: string)
    requires s != [] && AllDigits(s)
    ensures DigitGroup(s) == Some(s)
  {
    if |s| > 1 {
      DigitGroupAll(s[1..]);
      assert s == [s[0]] + s[1..];
    }
  }

  /** `float("w.f")` for digit strings `w` and `f`. */
  lemma DecimalFloat(t: string, whole: string, frac: string)
    requires whole != [] && AllDigits(whole) && frac != [] && AllDigits(frac)
    requires t == whole + "." + frac
    ensures AllDigits(whole + frac)
    ensures ParseFloat(t) == Some(DigitsValue(whole + frac) as real / Pow10(|frac|) as real)
  {
    DecimalChars(t, whole, frac);
    StripNoop(t);
    UnsignedDecimal(t, whole, frac);
  }

  lemma DecimalChars(t: string, whole: string, frac: string)
    requires whole != [] && AllDigits(whole) && frac != [] && AllDigits(frac)
    requires t == whole + "." + frac
    ensures IsDigit(t[0]) && IsDigit(t[|t| - 1])
    ensures forall j :: 0 <= j < |t| ==> IsDigit(t[j]) || t[j] == '.'
  {
    var k := |whole|;
    assert forall j :: 0 <= j < k ==> t[j] == whole[j];
    assert forall j :: k < j < |t| ==> t[j] == frac[j - k - 1];
  }

  lemma UnsignedDecimal(t: string, whole: string, frac: string)
    requires whole != [] && AllDigits(whole) && frac != [] && AllDigits(frac)
    requires t == whole + "." + frac
    requires forall j :: 0 <= j < |t| ==> IsDigit(t[j]) || t[j] == '.'
    ensures ParseUnsignedFloat(t) == Some(DigitsValue(whole + frac) as real / Pow10(|frac|) as real)
  {
    NoExponent(t);
    DecimalMantissa(t, whole, frac);
  }

  lemma DecimalMantissa(t: string, whole: string, frac: string)
    requires whole != [] && AllDigits(whole) && frac != [] && AllDigits(frac)
    requires t == whole + "." + frac
    ensures ParseMantissa(t) == Some((whole + frac, |frac|))
  {
    var k := |whole|;
    assert forall j :: 0 <= j < k ==> t[j] == whole[j];
    FindCharAt(t, '.', k);
    assert t[..k] == whole && t[k + 1..] == frac;
    DigitGroupAll(whole);
    DigitGroupAll(frac);
  }

  /** Text of digits and dots holds no exponent marker. */
  lemma NoExponent(t: string)
    requires forall j :: 0 <= j < |t| ==> IsDigit(t[j]) || t[j] == '.'
    ensures Find(Lower(t), "e").None?
  {
    var l := Lower(t);
    forall k | 0 <= k ensures !OccursAt(l, "e", k) {
      if k + 1 <= |l| { assert l[k..k + 1][0] == LowerChar(t[k]); }
    }
  }

  /** Every character of `Strip(s)` is a character of `s`. */
  lemma StripChars(s: string, i: int)
    requires 0 <= i < |Strip(s)|
    ensures Strip(s)[i] in s
  {
    var l := LStrip(s);
    assert Strip(s)[i] == l[i];
    assert l[i] == s[|s| - |l| + i];
  }

  /** A spelling without a minus sign never parses to a negative number. */
  lemma ParseFloatNoMinus(s: string)
    requires forall i :: 0 <= i < |s| ==> s[i] != '-'
    ensures ParseFloat(s).Some? ==> ParseFloat(s).value >= 0.0
  {
    if Strip(s) != [] {
      StripChars(s, 0);
    }
  }

  // ---------------------------------------------------------------------------
  // Character runs
  // ---------------------------------------------------------------------------

  /** Length of the run of capitals starting at `i`. */
  function UpperRun(s: string, i: nat): (n: nat)
    requires i <= |s|
    ensures i + n <= |s|
    decreases |s| - i
  {
    if i < |s| && IsUpper(s[i]) then 1 + UpperRun(s, i + 1) else 0
  }

  /** The run is maximal: every character in it qualifies, the next one does not. */
  lemma {:induction false} UpperRunMaximal(s: string, i: nat)
    requires i <= |s|
    ensures var n := UpperRun(s, i);
      (forall k :: i <= k < i + n ==> IsUpper(s[k])) && (i + n < |s| ==> !IsUpper(s[i + n]))
    decreases |s| - i
  {
    if i < |s| && IsUpper(s[i]) { UpperRunMaximal(s, i + 1); }
  }

  /** Length of the run of whitespace starting at `i`. */
  function SpaceRun(s: string, i: nat): (n: nat)
    requires i <= |s|
    ensures i + n <= |s|
    decreases |s| - i
  {
    if i < |s| && IsSpace(s[i]) then 1 + SpaceRun(s, i + 1) else 0
  }

  /** The run is maximal: every character in it qualifies, the next one does not. */
  lemma {:induction false} SpaceRunMaximal(s: string, i: nat)
    requires i <= |s|
    ensures var n := SpaceRun(s, i);
      (forall k :: i <= k < i + n ==> IsSpace(s[k])) && (i + n < |s| ==> !IsSpace(s[i + n]))
    decreases |s| - i
  {
    if i < |s| && IsSpace(s[i]) { SpaceRunMaximal(s, i + 1); }
  }

  /** Length of the run of digits starting at `i`. */
  function DigitRun(s: string, i: nat): (n: nat)
    requires i <= |s|
    ensures i + n <= |s|
    decreases |s| - i
  {
    if i < |s| && IsDigit(s[i]) then 1 + DigitRun(s, i + 1) else 0
  }

  /** The run is maximal: every character in it qualifies, the next one does not. */
  lemma {:induction false} DigitRunMaximal(s: string, i: nat)
    requires i <= |s|
    ensures var n := DigitRun(s, i);
      (forall k :: i <= k < i + n ==> IsDigit(s[k])) && (i + n < |s| ==> !IsDigit(s[i + n]))
    decreases |s| - i
  {
    if i < |s| && IsDigit(s[i]) { DigitRunMaximal(s, i + 1); }
  }

  /** Runs depend only on the characters they read: a text that agrees on
      the run and does not continue it there has the same run. */
  lemma {:induction false} UpperRunAgree(s: string, t: string, i: nat)
    requires i <= |s| && i + UpperRun(s, i) <= |t|
    requires forall k :: i <= k < i + UpperRun(s, i) ==> t[k] == s[k]
    requires i + UpperRun(s, i) < |t| ==> !IsUpper(t[i + UpperRun(s, i)])
    ensures UpperRun(t, i) == UpperRun(s, i)
    decreases |s| - i
  {
    if i < |s| && IsUpper(s[i]) {
      assert UpperRun(s, i) == 1 + UpperRun(s, i + 1);
      UpperRunAgree(s, t, i + 1);
    }
  }

  lemma {:induction false} SpaceRunAgree(s: string, t: string, i: nat)
    requires i <= |s| && i + SpaceRun(s, i) <= |t|
    requires forall k :: i <= k < i + SpaceRun(s, i) ==> t[k] == s[k]
    requires i + SpaceRun(s, i) < |t| ==> !IsSpace(t[i + SpaceRun(s, i)])
    ensures SpaceRun(t, i) == SpaceRun(s, i)
    decreases |s| - i
  {
    if i < |s| && IsSpace(s[i]) {
      assert SpaceRun(s, i) == 1 + SpaceRun(s, i + 1);
      SpaceRunAgree(s, t, i + 1);
    }
  }

  lemma {:induction false} DigitRunAgree(s: string, t: string, i: nat)
    requires i <= |s| && i + DigitRun(s, i) <= |t|
    requires forall k :: i <= k < i + DigitRun(s, i) ==> t[k] == s[k]
    requires i + DigitRun(s, i) < |t| ==> !IsDigit(t[i + DigitRun(s, i)])
    ensures DigitRun(t, i) == DigitRun(s, i)
    decreases |s| - i
  {
    if i < |s| && IsDigit(s[i]) {
      assert DigitRun(s, i) == 1 + DigitRun(s, i + 1);
      DigitRunAgree(s, t, i + 1);
    }
  }

  /** `re.match(r"([A-Z]{lo,hi})\s*(\d+[A-Z]?)", s)`, giving the letter and
      the number group. Backtracking never helps: with fewer letters the next
      character is a capital, which neither a space nor a digit matches. */
  function MatchCourseCode(s: string, lo: nat, hi: nat): Option<(string, string)> {
    var u := UpperRun(s, 0);
    var i2 := u + SpaceRun(s, u);
    var d := DigitRun(s, i2);
    var numEnd := i2 + d;
    if u < lo || u > hi || u == 0 || d == 0 then None
    else
      var n := if numEnd < |s| && IsUpper(s[numEnd]) then numEnd + 1 else numEnd;
      Some((s[..u], s[i2..n]))
  }

  /** The shape of a number group: digits and at most one trailing capital. */
  predicate CourseNumber(n: string) {
    && n != [] && IsDigit(n[0])
    && (forall k :: 0 <= k < |n| - 1 ==> IsDigit(n[k]))
    && (IsDigit(n[|n| - 1]) || IsUpper(n[|n| - 1]))
  }

  /** A match consists of `lo..hi` capitals and a course number that the
      text starts with, the two separated only by whitespace. */
  lemma MatchCourseCodeShape(s: string, lo: nat, hi: nat) returns (g: nat)
    requires MatchCourseCode(s, lo, hi).Some?
    ensures var (letters, number) := MatchCourseCode(s, lo, hi).value;
      && letters != [] && lo <= |letters| <= hi && AllUpper(letters) && StartsWith(s, letters)
      && CourseNumber(number)
      && |letters| <= g <= |s| - |number| && s[g..g + |number|] == number
      && forall k :: |letters| <= k < g ==> IsSpace(s[k])
  {
    var u := UpperRun(s, 0);
    g := u + SpaceRun(s, u);
    var e := g + DigitRun(s, g);
    var n := if e < |s| && IsUpper(s[e]) then e + 1 else e;
    UpperRunMaximal(s, 0);
    SpaceRunMaximal(s, u);
    DigitRunMaximal(s, g);
    assert MatchCourseCode(s, lo, hi).value == (s[..u], s[g..n]);
    DigitsThenCapital(s, g, e);
  }

  /** Digits from `g` to `e`, and the capital after them if there is one,
      form a course number. */
  lemma DigitsThenCapital(s: string, g: nat, e: nat)
    requires g < e <= |s| && forall k :: g <= k < e ==> IsDigit(s[k])
    ensures CourseNumber(s[g..if e < |s| && IsUpper(s[e]) then e + 1 else e])
  {
    var n := if e < |s| && IsUpper(s[e]) then e + 1 else e;
    var number := s[g..n];
    forall k | 0 <= k < |number| ensures number[k] == s[g + k] { }
  }

  /** Conversely, a text made of `lo..hi` capitals, whitespace, digits, an
      optional capital and a rest that cannot extend the number matches with
      exactly those groups. */
  lemma MatchCourseCodeOfForm(letters: string, gap: string, digits: string, suffix: string, rest: string, lo: nat, hi: nat)
    requires letters != [] && lo <= |letters| <= hi && AllUpper(letters)
    requires forall k :: 0 <= k < |gap| ==> IsSpace(gap[k])
    requires digits != [] && AllDigits(digits)
    requires suffix == [] || (|suffix| == 1 && IsUpper(suffix[0]))
    requires rest != [] ==> !IsDigit(rest[0]) && (suffix == [] ==> !IsUpper(rest[0]))
    ensures MatchCourseCode(letters + (gap + (digits + (suffix + rest))), lo, hi) == Some((letters, digits + suffix))
  {
    var tail := suffix + rest;
    var t2 := digits + tail;
    var t1 := gap + t2;
    var s := letters + t1;
    var u := |letters|;
    var i2 := u + |gap|;
    var e := i2 + |digits|;
    CodeParts(letters, gap, digits, tail);
    var n := if e < |s| && IsUpper(s[e]) then e + 1 else e;
    MatchByChars(s, lo, hi, u, i2, e);
    assert s[..u] == letters;
    if suffix != [] {
      assert s[i2..n] == digits + suffix;
    } else {
      assert tail == rest;
      assert s[i2..n] == digits + suffix;
    }
  }

  /** Where the parts of a text built from capitals, whitespace, digits and
      a tail sit. */
  lemma CodeParts(letters: string, gap: string, digits: string, tail: string)
    requires AllUpper(letters)
    requires forall k :: 0 <= k < |gap| ==> IsSpace(gap[k])
    requires AllDigits(digits)
    ensures var s := letters + (gap + (digits + tail));
      var u, i2 := |letters|, |letters| + |gap|;
      var e := i2 + |digits|;
      && (forall k :: 0 <= k < u ==> IsUpper(s[k]))
      && (forall k :: u <= k < i2 ==> IsSpace(s[k]))
      && (forall k :: i2 <= k < e ==> IsDigit(s[k]))
      && (e < |s| ==> s[e] == tail[0])
  {
    var t2 := digits + tail;
    var t1 := gap + t2;
    var s := letters + t1;
    var u, i2 := |letters|, |letters| + |gap|;
    var e := i2 + |digits|;
    forall k | 0 <= k < u ensures IsUpper(s[k]) { assert s[k] == letters[k]; }
    forall k | u <= k < i2 ensures IsSpace(s[k]) { assert s[k] == t1[k - u] == gap[k - u]; }
    forall k | i2 <= k < e ensures IsDigit(s[k]) { assert s[k] == t2[k - i2] == digits[k - i2]; }
    if e < |s| { assert s[e] == t1[e - u] == t2[e - i2] == tail[0]; }
  }

  /** MatchCourseCode on a text whose capitals end at `u`, whitespace at
      `i2` and digits at `e`. */
  lemma MatchByChars(s: string, lo: nat, hi: nat, u: nat, i2: nat, e: nat)
    requires 0 < u <= i2 < e <= |s| && lo <= u <= hi
    requires forall k :: 0 <= k < u ==> IsUpper(s[k])
    requires forall k :: u <= k < i2 ==> IsSpace(s[k])
    requires forall k :: i2 <= k < e ==> IsDigit(s[k])
    requires e < |s| ==> !IsDigit(s[e])
    ensures MatchCourseCode(s, lo, hi) == Some((s[..u], s[i2..if e < |s| && IsUpper(s[e]) then e + 1 else e]))
  {
    UpperRunExact(s, 0, u);
    SpaceRunExact(s, u, i2 - u);
    DigitRunExact(s, i2, e - i2);
  }

  /** A run of capitals followed by a non-capital has exactly its length. */
  lemma {:induction false} UpperRunExact(s: string, i: nat, n: nat)
    requires i + n <= |s|
    requires forall k :: i <= k < i + n ==> IsUpper(s[k])
    requires i + n < |s| ==> !IsUpper(s[i + n])
    ensures UpperRun(s, i) == n
    decreases n
  {
    if n > 0 { UpperRunExact(s, i + 1, n - 1); }
  }

  /** A run of whitespace followed by a non-space has exactly its length. */
  lemma {:induction false} SpaceRunExact(s: string, i: nat, n: nat)
    requires i + n <= |s|
    requires forall k :: i <= k < i + n ==> IsSpace(s[k])
    requires i + n < |s| ==> !IsSpace(s[i + n])
    ensures SpaceRun(s, i) == n
    decreases n
  {
    if n > 0 { SpaceRunExact(s, i + 1, n - 1); }
  }

  /** A run of digits followed by a non-digit has exactly its length. */
  lemma {:induction false} DigitRunExact(s: string, i: nat, n: nat)
    requires i + n <= |s|
    requires forall k :: i <= k < i + n ==> IsDigit(s[k])
    requires i + n < |s| ==> !IsDigit(s[i + n])
    ensures DigitRun(s, i) == n
    decreases n
  {
    if n > 0 { DigitRunExact(s, i + 1, n - 1); }
  }

  /** `code` is `k` capitals, one space and a course number. */
  predicate CourseCodeAt(code: string, k: nat) {
    k < |code| && AllUpper(code[..k]) && code[k] == ' ' && CourseNumber(code[k + 1..])
  }

  /** A code "SUBJ NUM" with a three- or four-letter subject. */
  predicate CourseCode(code: string) {
    exists k :: 3 <= k <= 4 && CourseCodeAt(code, k)
  }

  /** Letters and a number joined by one space have no lower-case letter. */
  lemma JoinedCodeNoLower(letters: string, number: string)
    requires AllUpper(letters) && CourseNumber(number)
    ensures forall i :: 0 <= i < |letters + " " + number| ==> !IsLower((letters + " " + number)[i])
  {
    var code := letters + " " + number;
    forall i | 0 <= i < |code| ensures !IsLower(code[i]) {
      if i < |letters| {
        assert code[i] == letters[i];
      } else if i > |letters| {
        assert code[i] == number[i - |letters| - 1];
      }
    }
  }

  /** Three or four capitals and a course number, joined by a space, form a
      course code that stripping and upper-casing leave alone, as they
      leave its parts. */
  lemma JoinedCourseCode(letters: string, number: string)
    requires 3 <= |letters| <= 4 && AllUpper(letters) && CourseNumber(number)
    ensures var code := letters + " " + number;
      && CourseCode(code) && Strip(code) == code && Upper(code) == code
      && Strip(letters) == letters && Upper(letters) == letters
      && Strip(number) == number && Upper(number) == number
  {
    var code := letters + " " + number;
    JoinedCodeStrips(letters, number);
    JoinedCodeUpper(letters, number);
    assert code[..|letters|] == letters;
    assert code[|letters| + 1..] == number;
    assert CourseCodeAt(code, |letters|);
  }

  /** Upper-casing changes neither a code nor its parts. */
  lemma JoinedCodeUpper(letters: string, number: string)
    requires AllUpper(letters) && CourseNumber(number)
    ensures Upper(letters + " " + number) == letters + " " + number
    ensures Upper(letters) == letters && Upper(number) == number
  {
    JoinedCodeNoLower(letters, number);
    UpperNoop(letters + " " + number);
    CapitalsUpperNoop(letters);
    CourseNumberUpperNoop(number);
  }

  lemma CapitalsUpperNoop(s: string)
    requires AllUpper(s)
    ensures Upper(s) == s
  {
    UpperNoop(s);
  }

  lemma CourseNumberUpperNoop(n: string)
    requires CourseNumber(n)
    ensures Upper(n) == n
  {
    UpperNoop(n);
  }

  /** Neither a code nor its parts start or end with whitespace. */
  lemma JoinedCodeStrips(letters: string, number: string)
    requires letters != [] && AllUpper(letters) && CourseNumber(number)
    ensures Strip(letters + " " + number) == letters + " " + number
    ensures Strip(letters) == letters && Strip(number) == number
  {
    var code := letters + " " + number;
    var first, last := letters[0], number[|number| - 1];
    assert IsUpper(first) && (IsDigit(last) || IsUpper(last)) && IsDigit(number[0]);
    assert code[0] == first;
    assert code[|code| - 1] == last;
    assert !IsSpace(first) && !IsSpace(last) && !IsSpace(number[0]) && !IsSpace(letters[|letters| - 1]);
    StripNoop(code);
    StripNoop(letters);
    StripNoop(number);
  }

  /** The groups of a three- or four-letter match, joined by a space, form
      a course code that upper-casing leaves alone. */
  lemma MatchedCourseCode(s: string)
    requires MatchCourseCode(s, 3, 4).Some?
    ensures var (letters, number) := MatchCourseCode(s, 3, 4).value;
      CourseCode(letters + " " + number) && Upper(letters + " " + number) == letters + " " + number
  {
    var _ := MatchCourseCodeShape(s, 3, 4);
    var (letters, number) := MatchCourseCode(s, 3, 4).value;
    JoinedCourseCode(letters, number);
  }

  /** A course code matches with its own subject and number as the groups. */
  lemma CourseCodeMatches(letters: string, number: string)
    requires 3 <= |letters| <= 4 && AllUpper(letters) && CourseNumber(number)
    ensures MatchCourseCode(letters + " " + number, 3, 4) == Some((letters, number))
  {
    JoinedMatches(letters, " ", number, 3, 4);
  }

  /** Capitals, whitespace and a course number match with the capitals and
      the number as the groups. */
  lemma JoinedMatches(letters: string, gap: string, number: string, lo: nat, hi: nat)
    requires letters != [] && lo <= |letters| <= hi && AllUpper(letters)
    requires forall k :: 0 <= k < |gap| ==> IsSpace(gap[k])
    requires CourseNumber(number)
    ensures MatchCourseCode(letters + gap + number, lo, hi) == Some((letters, number))
  {
    var last := |number| - 1;
    var code := letters + gap + number;
    if IsUpper(number[last]) {
      var digits := number[..last];
      var suffix := [number[last]];
      assert AllDigits(digits) by {
        forall k | 0 <= k < |digits| ensures IsDigit(digits[k]) {
          assert digits[k] == number[k];
        }
      }
      assert digits + (suffix + []) == number;
      assert letters + (gap + (digits + (suffix + []))) == code;
      MatchCourseCodeOfForm(letters, gap, digits, suffix, [], lo, hi);
      assert digits + suffix == number;
    } else {
      assert AllDigits(number);
      assert number + ([] + []) == number;
      assert letters + (gap + (number + ([] + []))) == code;
      MatchCourseCodeOfForm(letters, gap, number, [], [], lo, hi);
    }
  }

  // ---------------------------------------------------------------------------
  // Filtering and ordered sublists
  // ---------------------------------------------------------------------------

  /** `[x for x in xs if keep(x)]` */
  function Keep<T>(xs: seq<T>, keep: T -> bool): (r: seq<T>)
    ensures |r| <= |xs|
  {
    if |xs| == 0 then []
    else Keep(xs[..|xs| - 1], keep) + (if keep(xs[|xs| - 1]) then [xs[|xs| - 1]] else [])
  }

  lemma {:induction false} KeepMembers<T>(xs: seq<T>, keep: T -> bool, x: T)
    ensures x in Keep(xs, keep) <==> x in xs && keep(x)
  {
    if |xs| > 0 {
      KeepMembers(xs[..|xs| - 1], keep, x);
      assert xs == xs[..|xs| - 1] + [xs[|xs| - 1]];
    }
  }

  /** The values `f` yields over `xs`, in order. */
  function ValueSeq<T, U>(xs: seq<T>, f: T -> Option<U>): seq<U> {
    if xs == [] then []
    else
      var y := f(xs[|xs| - 1]);
      ValueSeq(xs[..|xs| - 1], f) + (if y.Some? then [y.value] else [])
  }

  /** The values `f` yields over `xs`, as a set. */
  function ValueSet<T, U>(xs: seq<T>, f: T -> Option<U>): set<U> {
    if xs == [] then {}
    else
      var y := f(xs[|xs| - 1]);
      ValueSet(xs[..|xs| - 1], f) + (if y.Some? then {y.value} else {})
  }

  /** One more element extends the values the way a collecting loop does. */
  lemma ValueSeqStep<T, U>(xs: seq<T>, f: T -> Option<U>, i: nat)
    requires i < |xs|
    ensures ValueSeq(xs[..i + 1], f) == ValueSeq(xs[..i], f) + (if f(xs[i]).Some? then [f(xs[i]).value] else [])
  {
    assert xs[..i + 1][..i] == xs[..i];
  }

  lemma ValueSetStep<T, U>(xs: seq<T>, f: T -> Option<U>, i: nat)
    requires i < |xs|
    ensures ValueSet(xs[..i + 1], f) == ValueSet(xs[..i], f) + (if f(xs[i]).Some? then {f(xs[i]).value} else {})
  {
    assert xs[..i + 1][..i] == xs[..i];
  }

  lemma {:induction false} ValueSeqMembers<T, U>(xs: seq<T>, f: T -> Option<U>, u: U)
    ensures u in ValueSeq(xs, f) <==> exists i :: 0 <= i < |xs| && f(xs[i]) == Some(u)
  {
    if xs != [] {
      var n := |xs| - 1;
      ValueSeqMembers(xs[..n], f, u);
      assert forall i :: 0 <= i < n ==> xs[..n][i] == xs[i];
    }
  }

  lemma {:induction false} ValueSetMembers<T, U>(xs: seq<T>, f: T -> Option<U>, u: U)
    ensures u in ValueSet(xs, f) <==> exists i :: 0 <= i < |xs| && f(xs[i]) == Some(u)
  {
    if xs != [] {
      var n := |xs| - 1;
      ValueSetMembers(xs[..n], f, u);
      assert forall i :: 0 <= i < n ==> xs[..n][i] == xs[i];
    }
  }

  /** The first value `f` gives at `i..n`, in order. */
  function FirstSome<T>(f: nat -> Option<T>, i: nat, n: nat): Option<T>
    decreases n - i
  {
    if f(i).Some? || i >= n then f(i) else FirstSome(f, i + 1, n)
  }

  lemma {:induction false} FirstSomeLeftmost<T>(f: nat -> Option<T>, i: nat, n: nat) returns (k: nat)
    requires FirstSome(f, i, n).Some?
    ensures i <= k && (k <= n || k == i) && FirstSome(f, i, n) == f(k)
    ensures forall k' :: i <= k' < k ==> f(k').None?
    decreases n - i
  {
    if f(i).Some? || i >= n {
      k := i;
    } else {
      k := FirstSomeLeftmost(f, i + 1, n);
    }
  }

  lemma {:induction false} FirstSomeFinds<T>(f: nat -> Option<T>, i: nat, n: nat, k: nat)
    requires i <= k <= n && f(k).Some?
    ensures FirstSome(f, i, n).Some?
    decreases n - i
  {
    if f(i).None? && i < n {
      FirstSomeFinds(f, i + 1, n, k);
    }
  }

  /** The elements of `xs` without repeats, each where it first occurs. */
  function Dedup<T(==)>(xs: seq<T>): seq<T> {
    if xs == [] then []
    else
      var d := Dedup(xs[..|xs| - 1]);
      if xs[|xs| - 1] in d then d else d + [xs[|xs| - 1]]
  }

  /** One more element extends the result the way a loop with a `seen` set does. */
  lemma DedupStep<T>(xs: seq<T>, x: T)
    ensures Dedup(xs + [x]) == if x in Dedup(xs) then Dedup(xs) else Dedup(xs) + [x]
  {
    assert (xs + [x])[..|xs|] == xs;
  }

  /** Dedup keeps every element once, in the order of first occurrence:
      `idx` gives, for each kept element, the first index where it occurs. */
  lemma {:induction false} DedupSpec<T>(xs: seq<T>) returns (idx: seq<nat>)
    ensures forall x :: x in Dedup(xs) <==> x in xs
    ensures forall i, j :: 0 <= i < j < |Dedup(xs)| ==> Dedup(xs)[i] != Dedup(xs)[j]
    ensures PicksBelow(Dedup(xs), xs, idx, |xs|)
    ensures forall k, i :: 0 <= k < |idx| && 0 <= i < idx[k] ==> xs[i] != Dedup(xs)[k]
  {
    if xs == [] {
      idx := [];
    } else {
      var n := |xs| - 1;
      var init := xs[..n];
      var prev := DedupSpec(init);
      var d := Dedup(init);
      assert forall k :: 0 <= k < |prev| ==> init[prev[k]] == xs[prev[k]];
      assert forall i :: 0 <= i < n ==> init[i] == xs[i];
      assert xs == init + [xs[n]];
      if xs[n] in d {
        idx := prev;
      } else {
        idx := prev + [n];
        assert forall i :: 0 <= i < n ==> xs[i] != xs[n] by {
          forall i | 0 <= i < n ensures xs[i] != xs[n] {
            assert init[i] in init;
          }
        }
      }
    }
  }

  /** Indices witnessing that `xs` picks entries of `order` below `bound`, in order. */
  ghost predicate PicksBelow<T>(xs: seq<T>, order: seq<T>, idx: seq<nat>, bound: nat) {
    && |idx| == |xs|
    && (forall k :: 0 <= k < |idx| ==> idx[k] < bound && idx[k] < |order| && xs[k] == order[idx[k]])
    && (forall k, l :: 0 <= k < l < |idx| ==> idx[k] < idx[l])
  }

  /** `xs` lists entries of `order`, each position at most once, in `order`'s order. */
  ghost predicate OrderedSublist<T>(xs: seq<T>, order: seq<T>) {
    exists idx: seq<nat> :: PicksBelow(xs, order, idx, |order|)
  }

  /** Filtering keeps the order of the input. */
  lemma {:induction false} KeepOrdered<T>(xs: seq<T>, keep: T -> bool) returns (idx: seq<nat>)
    ensures PicksBelow(Keep(xs, keep), xs, idx, |xs|)
    ensures OrderedSublist(Keep(xs, keep), xs)
  {
    if |xs| == 0 {
      idx := [];
    } else {
      var n := |xs| - 1;
      var prev := KeepOrdered(xs[..n], keep);
      assert forall k :: 0 <= k < |prev| ==> xs[..n][prev[k]] == xs[prev[k]];
      if keep(xs[n]) {
        idx := prev + [n];
      } else {
        idx := prev;
      }
    }
    assert PicksBelow(Keep(xs, keep), xs, idx, |xs|);
  }

  /** Picking from a pick is a pick. */
  lemma PicksCompose<T>(xs: seq<T>, ys: seq<T>, zs: seq<T>, i1: seq<nat>, i2: seq<nat>) returns (idx: seq<nat>)
    requires PicksBelow(xs, ys, i1, |ys|) && PicksBelow(ys, zs, i2, |zs|)
    ensures PicksBelow(xs, zs, idx, |zs|) && OrderedSublist(xs, zs)
  {
    idx := seq(|i1|, k requires 0 <= k < |i1| => i2[i1[k]]);
  }

  /** `[y for x in xs for y in f(x)]` */
  function ConcatMap<T, U>(xs: seq<T>, f: T -> seq<U>): seq<U> {
    if xs == [] then [] else ConcatMap(xs[..|xs| - 1], f) + f(xs[|xs| - 1])
  }

  lemma {:induction false} ConcatMapMembers<T, U>(xs: seq<T>, f: T -> seq<U>, y: U)
    ensures y in ConcatMap(xs, f) <==> exists i :: 0 <= i < |xs| && y in f(xs[i])
  {
    if xs != [] {
      var n := |xs| - 1;
      ConcatMapMembers(xs[..n], f, y);
      assert forall i :: 0 <= i < n ==> xs[..n][i] == xs[i];
    }
  }

  lemma ConcatMapSnoc<T, U>(xs: seq<T>, f: T -> seq<U>, i: nat)
    requires i < |xs|
    ensures ConcatMap(xs[..i + 1], f) == ConcatMap(xs[..i], f) + f(xs[i])
  {
    assert xs[..i + 1][..i] == xs[..i];
  }

  /** `{f(x) for x in xs}` */
  function Image<T, U>(xs: seq<T>, f: T -> U): set<U> {
    if xs == [] then {} else Image(xs[..|xs| - 1], f) + {f(xs[|xs| - 1])}
  }

  lemma {:induction false} ImageMembers<T, U>(xs: seq<T>, f: T -> U, y: U)
    ensures y in Image(xs, f) <==> exists i :: 0 <= i < |xs| && f(xs[i]) == y
  {
    if xs != [] {
      var n := |xs| - 1;
      ImageMembers(xs[..n], f, y);
      if y in Image(xs[..n], f) {
        var i :| 0 <= i < n && f(xs[..n][i]) == y;
        assert xs[..n][i] == xs[i];
      }
      if exists i :: 0 <= i < |xs| && f(xs[i]) == y {
        var i :| 0 <= i < |xs| && f(xs[i]) == y;
        if i < n {
          assert xs[..n][i] == xs[i];
        }
      }
    }
  }
}
