/** The parts of Python's `str` that hdlg relies on, with the meaning CPython
    gives them: `isspace`, `upper` (ASCII letters only), `startswith`,
    `split`, `join`, `replace`, `rstrip`, `int()` and `str()` of an integer;
    and the leading whitespace run that the regex `[\s]{2,}` consumes. */
module Strings {
  import opened Wrappers
  import opened Seqs

  /** `c.isspace()`: the characters that `\s` matches in a `str`
      pattern. */
  predicate IsSpace(c: char) {
    var n := c as int;
    n == 0x20 || 0x09 <= n <= 0x0D || 0x1C <= n <= 0x1F || n == 0x85 || n == 0xA0
    || n == 0x1680 || 0x2000 <= n <= 0x200A || n == 0x2028 || n == 0x2029
    || n == 0x202F || n == 0x205F || n == 0x3000
  }

  predicate IsDigit(c: char) {
    '0' <= c <= '9'
  }

  function DigitValue(c: char): nat
    requires IsDigit(c)
  {
    c as int - '0' as int
  }

  function DigitChar(d: nat): (c: char)
    requires d < 10
    ensures IsDigit(c) && DigitValue(c) == d
  {
    (d + '0' as int) as char
  }

  /** `str.upper()` on one character, for the ASCII letters. */
  function UpperChar(c: char): char {
    if 'a' <= c <= 'z' then (c as int - 32) as char else c
  }

  function Upper(s: string): string {
    seq(|s|, i requires 0 <= i < |s| => UpperChar(s[i]))
  }

  /** `str.lower()` on one character, for the ASCII letters. */
  function LowerChar(c: char): char {
    if 'A' <= c <= 'Z' then (c as int + 32) as char else c
  }

  function Lower(s: string): string {
    seq(|s|, i requires 0 <= i < |s| => LowerChar(s[i]))
  }

  predicate StartsWith(s: string, prefix: string) {
    |prefix| <= |s| && s[..|prefix|] == prefix
  }

  predicate OccursAt(s: string, sep: string, j: int) {
    0 <= j && j + |sep| <= |s| && s[j..j + |sep|] == sep
  }

  /** The first occurrence of `sep` in `s` at or after position `k`. */
  function IndexFrom(s: string, sep: string, k: nat): (r: Option<nat>)
    requires |sep| > 0
    ensures r.Some? ==> k <= r.value && OccursAt(s, sep, r.value)
    ensures r.Some? ==> forall j :: k <= j < r.value ==> !OccursAt(s, sep, j)
    ensures r.None? ==> forall j :: k <= j ==> !OccursAt(s, sep, j)
    decreases |s| - k
  {
    if k + |sep| > |s| then None
    else if s[k..k + |sep|] == sep then Some(k)
    else IndexFrom(s, sep, k + 1)
  }

  /** `sep.join(parts)`. */
  function Join(parts: seq<string>, sep: string): string {
    if |parts| == 0 then ""
    else if |parts| == 1 then parts[0]
    else parts[0] + sep + Join(parts[1..], sep)
  }

  /** `s.split(sep, maxsplit)` for a non-empty separator: cut at the
      occurrences of `sep` from the left, at most `maxsplit` times when
      `maxsplit` is not negative (a negative `maxsplit` is Python's default,
      no limit). Empty pieces are kept. */
  function Split(s: string, sep: string, maxsplit: int): (parts: seq<string>)
    requires |sep| > 0
    ensures |parts| >= 1
    ensures maxsplit >= 0 ==> |parts| <= maxsplit + 1
    ensures Join(parts, sep) == s
    ensures |parts| > 1 ==> IndexFrom(s, sep, 0) == Some(|parts[0]|)
    decreases |s|
  {
    if maxsplit == 0 then [s]
    else match IndexFrom(s, sep, 0)
      case None => [s]
      case Some(i) =>
        var rest := Split(s[i + |sep|..], sep, if maxsplit < 0 then maxsplit else maxsplit - 1);
        var parts := [s[..i]] + rest;
        assert parts[1..] == rest;
        assert Join(parts, sep) == s[..i] + sep + Join(rest, sep);
        CutThree(s, i, i + |sep|);
        parts
  }

  /** `split` cuts at every occurrence it can: no piece holds the
      separator, except the last one when `maxsplit` ran out. */
  lemma {:induction false} SplitPieces(s: string, sep: string, maxsplit: int)
    requires |sep| > 0
    ensures var parts := Split(s, sep, maxsplit);
      && (forall k :: 0 <= k < |parts| - 1 ==> IndexFrom(parts[k], sep, 0).None?)
      && (maxsplit < 0 || |parts| <= maxsplit ==> IndexFrom(parts[|parts| - 1], sep, 0).None?)
    decreases |s|
  {
    if maxsplit != 0 && IndexFrom(s, sep, 0).Some? {
      var i := IndexFrom(s, sep, 0).value;
      var m := if maxsplit < 0 then maxsplit else maxsplit - 1;
      var rest := Split(s[i + |sep|..], sep, m);
      assert Split(s, sep, maxsplit) == [s[..i]] + rest;
      SplitPieces(s[i + |sep|..], sep, m);
      NoneBeforeFirst(s, sep, i);
      PiecesCons(s[..i], rest, sep);
    }
  }

  /** A piece without the separator in front of pieces of which all but
      perhaps the last are without it. */
  lemma PiecesCons(first: string, rest: seq<string>, sep: string)
    requires |sep| > 0 && |rest| >= 1
    requires IndexFrom(first, sep, 0).None?
    requires forall k :: 0 <= k < |rest| - 1 ==> IndexFrom(rest[k], sep, 0).None?
    ensures var parts := [first] + rest;
      && parts[1..] == rest && parts[|parts| - 1] == rest[|rest| - 1]
      && forall k :: 0 <= k < |parts| - 1 ==> IndexFrom(parts[k], sep, 0).None?
  {
    var parts := [first] + rest;
    forall k | 0 <= k < |parts| - 1
      ensures IndexFrom(parts[k], sep, 0).None?
    {
      if k > 0 {
        assert parts[k] == rest[k - 1];
      }
    }
  }

  /** The text before the first occurrence of `sep` holds none. */
  lemma NoneBeforeFirst(s: string, sep: string, i: nat)
    requires |sep| > 0 && IndexFrom(s, sep, 0) == Some(i)
    ensures IndexFrom(s[..i], sep, 0).None?
  {
    assert i <= |s| by {
      assert OccursAt(s, sep, i);
    }
    var t := s[..i];
    forall j | 0 <= j
      ensures !OccursAt(t, sep, j)
    {
      if j + |sep| <= |t| {
        SliceOfPrefix(s, i, j, j + |sep|);
        assert !OccursAt(s, sep, j);
      }
    }
    NoneWhenAbsent(t, sep);
  }

  lemma NoneWhenAbsent(t: string, sep: string)
    requires |sep| > 0
    requires forall j :: 0 <= j ==> !OccursAt(t, sep, j)
    ensures IndexFrom(t, sep, 0).None?
  {
  }

  lemma NoOccurrenceWithoutFirstChar(s: string, sep: string)
    requires |sep| > 0 && sep[0] !in s
    ensures IndexFrom(s, sep, 0).None?
  {
    forall j | 0 <= j < |s|
      ensures !OccursAt(s, sep, j)
    {
      assert j + |sep| <= |s| ==> s[j..j + |sep|][0] == s[j];
    }
  }

  /** Text with no occurrence of the separator's first character is not cut. */
  lemma SplitUnsplittable(s: string, sep: string, maxsplit: int)
    requires |sep| > 0 && sep[0] !in s
    ensures Split(s, sep, maxsplit) == [s]
  {
    NoOccurrenceWithoutFirstChar(s, sep);
  }

  /** Splitting a joined text gives back its parts, when no part before the
      last holds the separator's first character and `maxsplit` is either
      no limit or exactly the number of joints (the last part is then free
      to hold anything). */
  lemma {:induction false} SplitJoined(parts: seq<string>, sep: string, maxsplit: int)
    requires |sep| > 0 && |parts| >= 1
    requires forall k :: 0 <= k < |parts| - 1 ==> sep[0] !in parts[k]
    requires maxsplit < 0 || maxsplit >= |parts| - 1
    requires maxsplit != |parts| - 1 ==> sep[0] !in parts[|parts| - 1]
    ensures Split(Join(parts, sep), sep, maxsplit) == parts
  {
    if |parts| == 1 {
      if maxsplit != 0 {
        SplitUnsplittable(parts[0], sep, maxsplit);
      }
    } else {
      var p0, rest := parts[0], Join(parts[1..], sep);
      var s := p0 + sep + rest;
      assert OccursAt(s, sep, |p0|) by {
        assert s[|p0|..|p0| + |sep|] == sep;
      }
      forall j | 0 <= j < |p0|
        ensures !OccursAt(s, sep, j)
      {
        assert s[j] == p0[j] != sep[0];
        assert j + |sep| <= |s| ==> s[j..j + |sep|][0] == s[j];
      }
      assert IndexFrom(s, sep, 0) == Some(|p0|);
      assert s[..|p0|] == p0;
      assert s[|p0| + |sep|..] == rest;
      var m := if maxsplit < 0 then maxsplit else maxsplit - 1;
      SplitJoined(parts[1..], sep, m);
      HeadTail(parts);
    }
  }

  /** `s.replace(pat, rep)` for a non-empty `pat`: every occurrence, scanning
      from the left without overlap, which is exactly splitting on `pat` and
      joining with `rep`. */
  function Replace(s: string, pat: string, rep: string): string
    requires |pat| > 0
  {
    Join(Split(s, pat, -1), rep)
  }

  /** Text in which the pattern does not occur is left alone. */
  lemma ReplaceAbsent(s: string, pat: string, rep: string)
    requires |pat| > 0 && IndexFrom(s, pat, 0).None?
    ensures Replace(s, pat, rep) == s
  {
    assert Split(s, pat, -1) == [s];
  }

  /** Before a separator whose first character it does not hold, text
      holds no occurrence: the first one is right after it. */
  lemma FirstAt(before: string, sep: string, rest: string)
    requires |sep| > 0 && sep[0] !in before
    ensures IndexFrom(before + sep + rest, sep, 0) == Some(|before|)
  {
    var s := before + sep + rest;
    assert OccursAt(s, sep, |before|) by {
      assert s[|before|..|before| + |sep|] == sep;
    }
    forall j | 0 <= j < |before|
      ensures !OccursAt(s, sep, j)
    {
      assert s[j] == before[j] != sep[0];
      assert j + |sep| <= |s| ==> s[j..j + |sep|][0] == s[j];
    }
  }

  /** The first cut is at the first occurrence of the separator. */
  lemma SplitFirst(before: string, sep: string, rest: string, maxsplit: int)
    requires |sep| > 0 && maxsplit != 0
    requires IndexFrom(before + sep + rest, sep, 0) == Some(|before|)
    ensures Split(before + sep + rest, sep, maxsplit)
         == [before] + Split(rest, sep, if maxsplit < 0 then maxsplit else maxsplit - 1)
  {
    var s := before + sep + rest;
    assert s[..|before|] == before;
    assert s[|before| + |sep|..] == rest;
  }

  /** The first occurrence is replaced and the scan resumes after it. */
  lemma ReplaceFirst(before: string, pat: string, rest: string, rep: string)
    requires |pat| > 0
    requires IndexFrom(before + pat + rest, pat, 0) == Some(|before|)
    ensures Replace(before + pat + rest, pat, rep) == before + rep + Replace(rest, pat, rep)
  {
    SplitFirst(before, pat, rest, -1);
    var tail := Split(rest, pat, -1);
    assert ([before] + tail)[1..] == tail;
  }

  /** `a <= b` on Python strings: lexicographic by code point, a proper
      prefix coming first. */
  predicate LexLe(a: string, b: string) {
    |a| == 0 || (|b| > 0 && (a[0] < b[0] || (a[0] == b[0] && LexLe(a[1..], b[1..]))))
  }

  lemma {:induction false} LexLeReflexive(a: string)
    ensures LexLe(a, a)
  {
    if |a| > 0 {
      LexLeReflexive(a[1..]);
    }
  }

  lemma {:induction false} LexLeTotal(a: string, b: string)
    ensures LexLe(a, b) || LexLe(b, a)
  {
    if |a| > 0 && |b| > 0 && a[0] == b[0] {
      LexLeTotal(a[1..], b[1..]);
    }
  }

  lemma {:induction false} LexLeTransitive(a: string, b: string, c: string)
    requires LexLe(a, b) && LexLe(b, c)
    ensures LexLe(a, c)
  {
    if |a| > 0 && |b| > 0 && |c| > 0 && a[0] == b[0] == c[0] {
      LexLeTransitive(a[1..], b[1..], c[1..]);
    }
  }

  lemma {:induction false} LexLeAntisymmetric(a: string, b: string)
    requires LexLe(a, b) && LexLe(b, a)
    ensures a == b
  {
    if |a| > 0 {
      LexLeAntisymmetric(a[1..], b[1..]);
      assert a == [a[0]] + a[1..] && b == [b[0]] + b[1..];
    }
  }

  /** `s.rstrip(c)`: drop every trailing `c`. */
  function RStrip(s: string, c: char): (r: string)
    ensures |r| <= |s| && r == s[..|r|]
    ensures |r| > 0 ==> r[|r| - 1] != c
    ensures forall i :: |r| <= i < |s| ==> s[i] == c
  {
    if |s| > 0 && s[|s| - 1] == c then RStrip(s[..|s| - 1], c) else s
  }

  /** `s` without its leading whitespace run, which is what `[\s]{2,}`
      consumes when it matches at the start of `s`. */
  function LStripSpace(s: string): (r: string)
    ensures |r| <= |s| && r == s[|s| - |r|..]
    ensures |r| > 0 ==> !IsSpace(r[0])
    ensures forall i :: 0 <= i < |s| - |r| ==> IsSpace(s[i])
  {
    if |s| > 0 && IsSpace(s[0]) then LStripSpace(s[1..]) else s
  }

  /** The whitespace `int()` skips around a number. CPython first turns
      every non-ASCII whitespace character into a space and then skips
      only the ASCII whitespace " \t\n\v\f\r", so the separators
      U+001C..U+001F, whitespace to `isspace`, are not skipped. */
  predicate IsIntSpace(c: char) {
    IsSpace(c) && !(0x1C <= c as int <= 0x1F)
  }

  /** The leading whitespace `int()` skips. */
  function LStripIntSpace(s: string): (r: string)
    ensures |r| <= |s| && r == s[|s| - |r|..]
    ensures |r| > 0 ==> !IsIntSpace(r[0])
    ensures forall i :: 0 <= i < |s| - |r| ==> IsIntSpace(s[i])
  {
    if |s| > 0 && IsIntSpace(s[0]) then LStripIntSpace(s[1..]) else s
  }

  /** The trailing whitespace `int()` skips. */
  function RStripIntSpace(s: string): (r: string)
    ensures |r| <= |s| && r == s[..|r|]
    ensures |r| > 0 ==> !IsIntSpace(r[|r| - 1])
    ensures forall i :: |r| <= i < |s| ==> IsIntSpace(s[i])
  {
    if |s| > 0 && IsIntSpace(s[|s| - 1]) then RStripIntSpace(s[..|s| - 1]) else s
  }

  /** The text `int()` reads the number from. */
  function IntStrip(s: string): string {
    RStripIntSpace(LStripIntSpace(s))
  }

  /** The digit part `int()` accepts: decimal digits, possibly grouped by
      single underscores, starting and ending with a digit. */
  predicate ValidDigits(s: string) {
    && DigitsOrUnderscores(s)
    && |s| > 0 && IsDigit(s[0]) && IsDigit(s[|s| - 1])
    && forall i :: 0 <= i < |s| && s[i] == '_' ==> i + 1 < |s| && IsDigit(s[i + 1])
  }

  predicate DigitsOrUnderscores(s: string) {
    forall i :: 0 <= i < |s| ==> IsDigit(s[i]) || s[i] == '_'
  }

  function DigitsValue(s: string): nat
    requires DigitsOrUnderscores(s)
  {
    if |s| == 0 then 0
    else if s[|s| - 1] == '_' then DigitsValue(s[..|s| - 1])
    else DigitsValue(s[..|s| - 1]) * 10 + DigitValue(s[|s| - 1])
  }

  /** `int(s)`: surrounding whitespace, an optional sign, then the digits;
      `None` where Python raises `ValueError`. */
  function ParseInt(s: string): Option<int> {
    var t := IntStrip(s);
    if |t| > 0 && (t[0] == '+' || t[0] == '-') then
      if ValidDigits(t[1..]) then
        var v: int := DigitsValue(t[1..]);
        Some(if t[0] == '-' then -v else v)
      else None
    else if ValidDigits(t) then Some(DigitsValue(t))
    else None
  }

  /** `str(n)` for a natural number. */
  function NatText(n: nat): string {
    if n < 10 then [DigitChar(n)] else NatText(n / 10) + [DigitChar(n % 10)]
  }

  /** `str(n)`. */
  function IntText(n: int): string {
    if n < 0 then "-" + NatText(-n) else NatText(n)
  }

  lemma {:induction false} NatTextDigits(n: nat)
    ensures |NatText(n)| > 0
    ensures forall i :: 0 <= i < |NatText(n)| ==> IsDigit(NatText(n)[i])
    ensures DigitsValue(NatText(n)) == n
  {
    if n >= 10 {
      NatTextDigits(n / 10);
      var s := NatText(n);
      assert s[..|s| - 1] == NatText(n / 10);
    }
  }

  /** Text that neither starts nor ends with whitespace is not stripped. */
  lemma {:induction false} IntStripKeeps(t: string)
    requires |t| > 0 && !IsIntSpace(t[0]) && !IsIntSpace(t[|t| - 1])
    ensures IntStrip(t) == t
  {
    assert LStripIntSpace(t) == t;
    assert RStripIntSpace(t) == t;
  }

  lemma {:induction false} LStripIntSpaceRun(a: string, t: string)
    requires forall k :: 0 <= k < |a| ==> IsIntSpace(a[k])
    requires |t| == 0 || !IsIntSpace(t[0])
    ensures LStripIntSpace(a + t) == t
  {
    if |a| == 0 {
      assert a + t == t;
    } else {
      assert (a + t)[1..] == a[1..] + t;
      LStripIntSpaceRun(a[1..], t);
    }
  }

  lemma {:induction false} RStripIntSpaceRun(t: string, b: string)
    requires forall k :: 0 <= k < |b| ==> IsIntSpace(b[k])
    requires |t| == 0 || !IsIntSpace(t[|t| - 1])
    ensures RStripIntSpace(t + b) == t
  {
    if |b| == 0 {
      assert t + b == t;
    } else {
      assert (t + b)[..|t + b| - 1] == t + b[..|b| - 1];
      RStripIntSpaceRun(t, b[..|b| - 1]);
    }
  }

  /** `int()` reads its number from between any whitespace it skips. */
  lemma IntStripAround(a: string, t: string, b: string)
    requires forall k :: 0 <= k < |a| ==> IsIntSpace(a[k])
    requires forall k :: 0 <= k < |b| ==> IsIntSpace(b[k])
    requires |t| > 0 && !IsIntSpace(t[0]) && !IsIntSpace(t[|t| - 1])
    ensures IntStrip(a + t + b) == t
  {
    ConcatAssoc(a, t, b);
    LStripIntSpaceRun(a, t + b);
    RStripIntSpaceRun(t, b);
  }

  /** `int()` does not skip the file separator U+001C, which `isspace`
      counts as whitespace. */
  lemma IntRefusesSeparator()
    ensures ParseInt([0x1C as char, '5']) == None
  {
    var s := [0x1C as char, '5'];
    assert !IsIntSpace(s[0]) && !IsIntSpace(s[1]);
    assert IntStrip(s) == s;
    assert !ValidDigits(s);
  }

  /** Non-empty decimal digits are valid for `int()`. */
  lemma AllDigitsValid(s: string)
    requires |s| > 0 && forall i :: 0 <= i < |s| ==> IsDigit(s[i])
    ensures ValidDigits(s)
  {
  }

  /** `int()` of decimal digits. */
  lemma {:induction false} ParseIntDigits(d: string)
    requires |d| > 0 && forall i :: 0 <= i < |d| ==> IsDigit(d[i])
    ensures ParseInt(d) == Some(DigitsValue(d))
  {
    AllDigitsValid(d);
    IntStripKeeps(d);
    assert d[0] != '+' && d[0] != '-';
  }

  /** `int()` of a minus sign and decimal digits. */
  lemma {:induction false} ParseIntNegative(d: string)
    requires |d| > 0 && forall i :: 0 <= i < |d| ==> IsDigit(d[i])
    ensures var v: int := DigitsValue(d); ParseInt("-" + d) == Some(-v)
  {
    AllDigitsValid(d);
    var t := "-" + d;
    assert t[0] == '-' && t[1..] == d && t[|t| - 1] == d[|d| - 1];
    IntStripKeeps(t);
    assert |t| > 0 && ValidDigits(t[1..]);
    var v: int := DigitsValue(d);
    assert ParseInt(t) == Some(-v);
  }

  /** `int(str(n)) == n`. */
  lemma ParseIntText(n: int)
    ensures ParseInt(IntText(n)) == Some(n)
  {
    var m := if n < 0 then -n else n;
    NatTextDigits(m);
    if n < 0 {
      ParseIntNegative(NatText(m));
    } else {
      ParseIntDigits(NatText(m));
    }
  }

  /** Text without lower-case ASCII letters is left alone by `upper()`. */
  lemma UpperNoLetters(s: string)
    requires forall i :: 0 <= i < |s| ==> !('a' <= s[i] <= 'z')
    ensures Upper(s) == s
  {
  }
}
