/** The string operations the parsers borrow from Python and pandas: `str.strip`,
    `str.lower`, the `in` substring test, `str.replace`, and the text-to-number
    conversion that `pd.to_numeric` performs on a cleaned cell. */
module Text {
  import opened Statement

  /** The characters for which Python's `str.isspace` holds; `str.strip()` and
      the regular-expression class `\s` both use this set. */
  predicate IsSpace(c: char) {
    c in {'\t', '\n', '\U{000B}', '\U{000C}', '\r', '\U{001C}', '\U{001D}', '\U{001E}', '\U{001F}',
          ' ', '\U{0085}', '\U{00A0}', '\U{1680}', '\U{2000}', '\U{2001}', '\U{2002}', '\U{2003}',
          '\U{2004}', '\U{2005}', '\U{2006}', '\U{2007}', '\U{2008}', '\U{2009}', '\U{200A}',
          '\U{2028}', '\U{2029}', '\U{202F}', '\U{205F}', '\U{3000}'}
  }

  predicate AllSpace(s: string) {
    forall i :: 0 <= i < |s| ==> IsSpace(s[i])
  }

  /** Number of white-space characters at the front of `s`. */
  function LeadingSpaces(s: string): (n: nat)
    ensures n <= |s|
  {
    if s == [] || !IsSpace(s[0]) then 0 else 1 + LeadingSpaces(s[1..])
  }

  /** `LeadingSpaces` counts the whole white-space run at the front. */
  lemma {:induction false} LeadingSpacesFacts(s: string)
    ensures var n := LeadingSpaces(s); AllSpace(s[..n]) && (n < |s| ==> !IsSpace(s[n]))
  {
    if s != [] && IsSpace(s[0]) {
      LeadingSpacesFacts(s[1..]);
    }
  }

  /** Number of white-space characters at the back of `s`. */
  function TrailingSpaces(s: string): (n: nat)
    ensures n <= |s|
  {
    if s == [] || !IsSpace(s[|s| - 1]) then 0 else 1 + TrailingSpaces(s[..|s| - 1])
  }

  /** `TrailingSpaces` counts the whole white-space run at the back. */
  lemma {:induction false} TrailingSpacesFacts(s: string)
    ensures var n := TrailingSpaces(s); AllSpace(s[|s| - n..]) && (n < |s| ==> !IsSpace(s[|s| - n - 1]))
  {
    if s != [] && IsSpace(s[|s| - 1]) {
      var init := s[..|s| - 1];
      TrailingSpacesFacts(init);
    }
  }

  /** Python's `str.strip()`: `s` without its white-space margins. */
  function Strip(s: string): string {
    var a := LeadingSpaces(s);
    s[a..][..|s[a..]| - TrailingSpaces(s[a..])]
  }

  /** What `Strip` keeps is a slice of `s` that neither starts nor ends with
      white space, and what it drops is white space. */
  lemma StripFacts(s: string)
    ensures var r := Strip(s);
      && (r == "" || (!IsSpace(r[0]) && !IsSpace(r[|r| - 1])))
      && exists a, b :: 0 <= a <= b <= |s| && r == s[a..b] && AllSpace(s[..a]) && AllSpace(s[b..])
  {
    var a := LeadingSpaces(s);
    var t := s[a..];
    LeadingSpacesFacts(s);
    TrailingSpacesFacts(t);
    var b := a + |t| - TrailingSpaces(t);
    assert t[..|t| - TrailingSpaces(t)] == s[a..b];
    assert t[|t| - TrailingSpaces(t)..] == s[b..];
  }

  lemma {:induction false} LeadingSpacesOfUnpadded(s: string)
    requires s == "" || !IsSpace(s[0])
    ensures LeadingSpaces(s) == 0
  {
  }

  /** Text without white-space margins is left alone. */
  lemma StripUnpadded(s: string)
    requires s == "" || (!IsSpace(s[0]) && !IsSpace(s[|s| - 1]))
    ensures Strip(s) == s
  {
    if s != "" {
      LeadingSpacesOfUnpadded(s);
      assert s[0..] == s;
      assert TrailingSpaces(s) == 0;
      assert s[0..|s|] == s;
    }
  }

  /** Stripping twice is stripping once. */
  lemma StripIdempotent(s: string)
    ensures Strip(Strip(s)) == Strip(s)
  {
    StripFacts(s);
    StripUnpadded(Strip(s));
  }

  /** Python's `str.lower()` restricted to the ASCII letters. */
  function LowerChar(c: char): char {
    if 'A' <= c <= 'Z' then (c as int + 32) as char else c
  }

  function Lower(s: string): (r: string)
    ensures |r| == |s|
  {
    if s == [] then [] else [LowerChar(s[0])] + Lower(s[1..])
  }

  /** Lower-casing works character by character. */
  lemma {:induction false} LowerAt(s: string, i: nat)
    requires i < |s|
    ensures Lower(s)[i] == LowerChar(s[i])
  {
    if i > 0 {
      LowerAt(s[1..], i - 1);
    }
  }

  lemma {:induction false} LowerAppend(a: string, b: string)
    ensures Lower(a + b) == Lower(a) + Lower(b)
  {
    if a != [] {
      assert (a + b)[1..] == a[1..] + b;
      LowerAppend(a[1..], b);
    } else {
      assert a + b == b;
    }
  }

  /** Lower-casing a slice is slicing the lower-cased string. */
  lemma LowerSlice(s: string, a: nat, b: nat)
    requires a <= b <= |s|
    ensures Lower(s[a..b]) == Lower(s)[a..b]
  {
    var front := s[..b];
    SplitAt(s, b);
    SplitAt(front, a);
    TakeOfTake(s, a, b);
    assert front[a..] == s[a..b];
    LowerAppend(front, s[b..]);
    LowerAppend(s[..a], s[a..b]);
    var x, y, z := Lower(s[..a]), Lower(s[a..b]), Lower(s[b..]);
    assert (x + y + z)[a..b] == y;
  }

  /** Text whose every character is already lower-case is left alone. */
  lemma LowerFixed(s: string)
    requires forall i :: 0 <= i < |s| ==> LowerChar(s[i]) == s[i]
    ensures Lower(s) == s
  {
    forall i | 0 <= i < |s| ensures Lower(s)[i] == s[i] {
      LowerAt(s, i);
    }
  }

  /** Stripping lower-case text leaves it lower-case. */
  lemma LowerOfStrip(s: string)
    requires Lower(s) == s
    ensures Lower(Strip(s)) == Strip(s)
  {
    StripFacts(s);
    var a, b :| 0 <= a <= b <= |s| && Strip(s) == s[a..b] && AllSpace(s[..a]) && AllSpace(s[b..]);
    LowerSlice(s, a, b);
  }

  /** Replacing a character by a lower-case one keeps lower-case text
      lower-case. */
  lemma LowerOfReplaceChar(s: string, c: char, d: char)
    requires Lower(s) == s && LowerChar(d) == d
    ensures Lower(ReplaceAll(s, [c], [d])) == ReplaceAll(s, [c], [d])
  {
    ReplaceCharAt(s, c, d);
    var r := ReplaceAll(s, [c], [d]);
    forall i | 0 <= i < |r| ensures LowerChar(r[i]) == r[i] {
      LowerAt(s, i);
    }
    LowerFixed(r);
  }

  /** Lower-casing twice is lower-casing once. */
  lemma {:induction false} LowerIdempotent(s: string)
    ensures Lower(Lower(s)) == Lower(s)
  {
    forall i | 0 <= i < |s| ensures Lower(Lower(s))[i] == Lower(s)[i] {
      LowerAt(s, i);
      LowerAt(Lower(s), i);
    }
  }

  /** Lower-casing neither makes nor removes white-space margins, so trimmed
      text stays trimmed. */
  lemma LowerOfStripped(s: string)
    ensures Strip(Lower(Strip(s))) == Lower(Strip(s))
  {
    var t := Strip(s);
    StripFacts(s);
    if t != "" {
      LowerAt(t, 0);
      LowerAt(t, |t| - 1);
    }
    StripUnpadded(Lower(t));
  }

  predicate StartsWith(s: string, prefix: string) {
    |prefix| <= |s| && s[..|prefix|] == prefix
  }

  /** Python's `part in s` for strings. */
  predicate Contains(s: string, part: string)
    decreases |s|
  {
    StartsWith(s, part) || (s != [] && Contains(s[1..], part))
  }

  /** `part` occurs in `s` starting at position `k`. */
  predicate OccursAt(s: string, part: string, k: nat) {
    k + |part| <= |s| && s[k..k + |part|] == part
  }

  /** An occurrence anywhere makes `Contains` hold. */
  lemma {:induction false} OccurrenceIsContained(s: string, part: string, k: nat)
    requires OccursAt(s, part, k)
    ensures Contains(s, part)
  {
    if k > 0 {
      assert s[1..][k - 1..k - 1 + |part|] == s[k..k + |part|];
      OccurrenceIsContained(s[1..], part, k - 1);
    }
  }

  /** A substring test succeeds only at some position. */
  lemma {:induction false} ContainsHasOccurrence(s: string, part: string)
    requires Contains(s, part)
    ensures exists k: nat :: OccursAt(s, part, k)
    decreases |s|
  {
    if !StartsWith(s, part) {
      ContainsHasOccurrence(s[1..], part);
      var k: nat :| OccursAt(s[1..], part, k);
      assert s[k + 1..k + 1 + |part|] == s[1..][k..k + |part|];
      assert OccursAt(s, part, k + 1);
    } else {
      assert OccursAt(s, part, 0);
    }
  }

  /** What a slice contains, the whole contains. */
  lemma ContainsInSlice(s: string, part: string, a: nat, b: nat)
    requires a <= b <= |s| && Contains(s[a..b], part)
    ensures Contains(s, part)
  {
    ContainsHasOccurrence(s[a..b], part);
    var k: nat :| OccursAt(s[a..b], part, k);
    SliceOfSlice(s, a, b, k, k + |part|);
    OccurrenceIsContained(s, part, a + k);
  }

  /** A string contains nothing longer than itself. */
  lemma ContainsNeedsRoom(s: string, part: string)
    requires Contains(s, part)
    ensures |part| <= |s|
  {
    ContainsHasOccurrence(s, part);
  }

  /** Python's `s.replace(pattern, replacement)`: every occurrence of `pattern`, scanning left
      to right without overlaps, is replaced by `replacement`. */
  function ReplaceAll(s: string, pattern: string, replacement: string): string
    requires pattern != ""
    decreases |s|
  {
    if |s| < |pattern| then s
    else if s[..|pattern|] == pattern then replacement + ReplaceAll(s[|pattern|..], pattern, replacement)
    else [s[0]] + ReplaceAll(s[1..], pattern, replacement)
  }

  /** Deleting every occurrence of a single character leaves none of it. */
  lemma {:induction false} ReplaceAllDeletesChar(s: string, c: char)
    ensures c !in ReplaceAll(s, [c], "")
    ensures |ReplaceAll(s, [c], "")| <= |s|
  {
    if |s| >= 1 {
      ReplaceAllDeletesChar(s[1..], c);
      if s[..1] == [c] {
        assert s[1..] == s[|[c]|..];
      }
    }
  }

  /** Replacing one character by another keeps the length and swaps every
      occurrence of the character, leaving all other characters in place. */
  lemma {:induction false} ReplaceCharAt(s: string, c: char, d: char)
    ensures var r := ReplaceAll(s, [c], [d]);
      |r| == |s| && forall i :: 0 <= i < |s| ==> r[i] == (if s[i] == c then d else s[i])
    decreases |s|
  {
    if |s| >= 1 {
      ReplaceCharAt(s[1..], c, d);
      var r, t := ReplaceAll(s, [c], [d]), ReplaceAll(s[1..], [c], [d]);
      if s[0] == c {
        assert s[..1] == [c] && s[|[c]|..] == s[1..];
        assert r == [d] + t;
      } else {
        assert s[..1] != [c] by { assert s[..1][0] == s[0]; }
        assert r == [s[0]] + t;
      }
      forall i | 0 <= i < |s| ensures r[i] == (if s[i] == c then d else s[i]) {
        if i > 0 {
          assert r[i] == t[i - 1] && s[i] == s[1..][i - 1];
        }
      }
    }
  }

  /** A text that starts with the pattern loses that occurrence first. */
  lemma ReplaceAllLeading(p: string, y: string, replacement: string)
    requires p != ""
    ensures ReplaceAll(p + y, p, replacement) == replacement + ReplaceAll(y, p, replacement)
  {
    assert (p + y)[..|p|] == p && (p + y)[|p|..] == y;
  }

  /** For a pattern made of one repeated character `c`, replacing works on
      two pieces of a text separately when the first piece does not end in
      `c`: no occurrence can straddle the seam. */
  lemma {:induction false} ReplaceAllSplit(x: string, y: string, p: string, c: char)
    requires p != "" && forall i :: 0 <= i < |p| ==> p[i] == c
    requires x == "" || x[|x| - 1] != c
    ensures ReplaceAll(x + y, p, "") == ReplaceAll(x, p, "") + ReplaceAll(y, p, "")
    decreases |x|
  {
    var s := x + y;
    if x == "" {
      assert s == y;
    } else if |s| < |p| {
      assert ReplaceAll(y, p, "") == y;
    } else if s[..|p|] == p {
      var k := if |x| < |p| then |x| - 1 else |p| - 1;
      assert x[k] == s[..|p|][k] == c;
      assert |x| > |p|;
      assert x[..|p|] == p && s[|p|..] == x[|p|..] + y;
      ReplaceAllSplit(x[|p|..], y, p, c);
    } else {
      assert s[1..] == x[1..] + y;
      ReplaceAllSplit(x[1..], y, p, c);
      if |x| >= |p| {
        assert x[..|p|] == s[..|p|];
      } else {
        assert ReplaceAll(x[1..], p, "") == x[1..];
        assert x == [x[0]] + x[1..];
      }
      AppendAssociative([x[0]], ReplaceAll(x[1..], p, ""), ReplaceAll(y, p, ""));
    }
  }

  /** For a pattern made of one repeated character `c`, one occurrence of the
      pattern right after text that does not end in `c` disappears without a
      trace. */
  lemma ReplaceAllDropsOccurrence(x: string, y: string, p: string, c: char)
    requires p != "" && forall i :: 0 <= i < |p| ==> p[i] == c
    requires x == "" || x[|x| - 1] != c
    ensures ReplaceAll(x + p + y, p, "") == ReplaceAll(x + y, p, "")
  {
    AppendAssociative(x, p, y);
    ReplaceAllSplit(x, p + y, p, c);
    ReplaceAllSplit(x, y, p, c);
    ReplaceAllLeading(p, y, "");
  }

  /** Text in which the pattern's first character never occurs is left alone. */
  lemma {:induction false} ReplaceAllAbsent(s: string, pattern: string, replacement: string)
    requires pattern != "" && pattern[0] !in s
    ensures ReplaceAll(s, pattern, replacement) == s
    decreases |s|
  {
    if |s| >= |pattern| {
      assert s[..|pattern|][0] == s[0];
      ReplaceAllAbsent(s[1..], pattern, replacement);
      assert [s[0]] + s[1..] == s;
    }
  }

  /** Deleting a character from two joined strings deletes it from each. */
  lemma {:induction false} DeleteCharAppend(a: string, b: string, c: char)
    ensures ReplaceAll(a + b, [c], "") == ReplaceAll(a, [c], "") + ReplaceAll(b, [c], "")
    decreases |a|
  {
    if a == [] {
      assert a + b == b;
    } else {
      assert (a + b)[1..] == a[1..] + b;
      assert (a + b)[..1] == a[..1];
      DeleteCharAppend(a[1..], b, c);
      if a[..1] == [c] {
        assert ReplaceAll(a, [c], "") == ReplaceAll(a[1..], [c], "");
      } else {
        assert ReplaceAll(a, [c], "") == [a[0]] + ReplaceAll(a[1..], [c], "");
      }
    }
  }

  /** Python's `s.replace(c, "", 1)` for a one-character `c`: the first
      occurrence of `c` is deleted. */
  function DeleteFirst(s: string, c: char): (r: string)
    ensures c in s ==> |r| == |s| - 1
    ensures c !in s ==> r == s
    decreases |s|
  {
    if s == [] then s
    else if s[0] == c then s[1..]
    else [s[0]] + DeleteFirst(s[1..], c)
  }

  predicate IsDigit(c: char) {
    '0' <= c <= '9'
  }

  predicate AllDigits(s: string) {
    forall i :: 0 <= i < |s| ==> IsDigit(s[i])
  }

  function DigitValue(c: char): nat
    requires IsDigit(c)
  {
    c as int - '0' as int
  }

  /** The value of a string of decimal digits, most significant first. */
  function DigitsValue(ds: string): nat
    requires AllDigits(ds)
  {
    if ds == [] then 0 else DigitsValue(ds[..|ds| - 1]) * 10 + DigitValue(ds[|ds| - 1])
  }

  function Pow10(n: nat): (r: nat)
    ensures r >= 1
  {
    if n == 0 then 1 else 10 * Pow10(n - 1)
  }

  function IndexOf(s: string, c: char): (r: Option<nat>)
    ensures r.Some? ==> r.value < |s| && s[r.value] == c && c !in s[..r.value]
    ensures r.None? ==> c !in s
  {
    if s == [] then None
    else if s[0] == c then Some(0)
    else match IndexOf(s[1..], c)
      case Some(k) => Some(k + 1)
      case None => None
  }

  /** An unsigned decimal: digits, optionally a point and more digits, with at
      least one digit in all. */
  function ParseUnsigned(s: string): Option<real> {
    match IndexOf(s, '.')
    case None =>
      if s != "" && AllDigits(s) then Some(DigitsValue(s) as real) else None
    case Some(k) =>
      var whole, fraction := s[..k], s[k + 1..];
      if AllDigits(whole) && AllDigits(fraction) && |whole| + |fraction| > 0 then
        Some(DigitsValue(whole) as real + DigitsValue(fraction) as real / Pow10(|fraction|) as real)
      else None
  }

  /** Text-to-number conversion of a cell (`pd.to_numeric` with
      `errors="coerce"`): an optional sign and an unsigned decimal; anything
      else is not a number. The value is exact. */
  function ParseNumber(s: string): Option<real> {
    if s != "" && s[0] == '-' then
      match ParseUnsigned(s[1..])
      case Some(v) => Some(-v)
      case None => None
    else if s != "" && s[0] == '+' then ParseUnsigned(s[1..])
    else ParseUnsigned(s)
  }

  /** Text without a digit is not a number. */
  lemma NoDigitNoNumber(s: string)
    requires forall i :: 0 <= i < |s| ==> !IsDigit(s[i])
    ensures ParseNumber(s) == None
  {
    var u := if s != "" && (s[0] == '-' || s[0] == '+') then s[1..] else s;
    assert forall i :: 0 <= i < |u| ==> !IsDigit(u[i]);
    match IndexOf(u, '.')
    case None =>
    case Some(k) =>
      if |u[..k]| > 0 {
        assert !IsDigit(u[..k][0]);
      } else if |u[k + 1..]| > 0 {
        assert !IsDigit(u[k + 1..][0]);
      }
  }

  function DigitChar(d: nat): (c: char)
    requires d < 10
    ensures IsDigit(c) && DigitValue(c) == d
  {
    ('0' as int + d) as char
  }

  /** Decimal rendering of a natural number, most significant digit first. */
  function NatDigits(n: nat): (ds: string)
    ensures ds != "" && AllDigits(ds)
  {
    if n < 10 then [DigitChar(n)] else NatDigits(n / 10) + [DigitChar(n % 10)]
  }

  /** Decimal rendering of an integer, with a leading `-` when negative. */
  function FormatInteger(n: int): string {
    if n < 0 then "-" + NatDigits(-n) else NatDigits(n)
  }

  lemma {:induction false} NatDigitsValue(n: nat)
    ensures DigitsValue(NatDigits(n)) == n
  {
    var ds := NatDigits(n);
    if n >= 10 {
      NatDigitsValue(n / 10);
      assert ds[..|ds| - 1] == NatDigits(n / 10);
    }
  }

  /** Parsing the rendering of an integer gives that integer back. */
  lemma {:induction false} ParseNumberRoundTrip(n: int)
    ensures ParseNumber(FormatInteger(n)) == Some(n as real)
  {
    var m: nat := if n < 0 then -n else n;
    var ds := NatDigits(m);
    NatDigitsValue(m);
    assert IndexOf(ds, '.') == None;
    assert ParseUnsigned(ds) == Some(m as real);
    if n < 0 {
      assert FormatInteger(n)[1..] == ds;
    } else {
      assert ds[0] != '-' && ds[0] != '+';
    }
  }
}
