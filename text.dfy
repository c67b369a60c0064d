/** The few pieces of Python string and `posixpath` behaviour the application relies on. */
module Text {

  /** Python's `str.isspace()`: the characters `str.strip()` removes. */
  predicate IsSpace(c: char) {
    ('\t' <= c <= '\r') || ('\U{1c}' <= c <= '\U{1f}') || c == ' ' ||
    c == '\U{85}' || c == '\U{a0}' || c == '\U{1680}' || ('\U{2000}' <= c <= '\U{200a}') ||
    c == '\U{2028}' || c == '\U{2029}' || c == '\U{202f}' || c == '\U{205f}' || c == '\U{3000}'
  }

  /** Number of whitespace characters at the front of `s`. */
  function LeadingSpaces(s: string): (n: nat)
    ensures n <= |s|
    ensures forall k :: 0 <= k < n ==> IsSpace(s[k])
    ensures n < |s| ==> !IsSpace(s[n])
  {
    if s == [] || !IsSpace(s[0]) then 0 else 1 + LeadingSpaces(s[1..])
  }

  /** Number of whitespace characters at the back of `s`. */
  function TrailingSpaces(s: string): (n: nat)
    ensures n <= |s|
    ensures forall k :: |s| - n <= k < |s| ==> IsSpace(s[k])
    ensures n < |s| ==> !IsSpace(s[|s| - 1 - n])
  {
    if s == [] || !IsSpace(s[|s| - 1]) then 0 else 1 + TrailingSpaces(s[..|s| - 1])
  }

  /** Python's `s.strip()`. */
  function Strip(s: string): string {
    var t := s[LeadingSpaces(s)..];
    t[..|t| - TrailingSpaces(t)]
  }

  /** `strip()` removes whitespace from both ends and nothing else: the result has no
      whitespace at either end and sits in `s` between whitespace-only margins. */
  lemma StripShape(s: string)
    ensures Strip(s) == [] || (!IsSpace(Strip(s)[0]) && !IsSpace(Strip(s)[|Strip(s)| - 1]))
    ensures StrippedAt(s, LeadingSpaces(s), Strip(s))
  {
    StripEnds(s);
    StripSlice(s);
    StripTail(s);
  }

  lemma StripEnds(s: string)
    ensures Strip(s) == [] || (!IsSpace(Strip(s)[0]) && !IsSpace(Strip(s)[|Strip(s)| - 1]))
  {
    var t := s[LeadingSpaces(s)..];
    var n := TrailingSpaces(t);
    var r := t[..|t| - n];
    if r != [] {
      assert r[0] == t[0];
      assert r[|r| - 1] == t[|t| - 1 - n];
    }
  }

  lemma StripSlice(s: string)
    ensures LeadingSpaces(s) + |Strip(s)| <= |s|
    ensures Strip(s) == s[LeadingSpaces(s)..LeadingSpaces(s) + |Strip(s)|]
  {
  }

  lemma StripTail(s: string)
    ensures LeadingSpaces(s) + |Strip(s)| <= |s|
    ensures forall k :: LeadingSpaces(s) + |Strip(s)| <= k < |s| ==> IsSpace(s[k])
  {
    var lo := LeadingSpaces(s);
    var t := s[lo..];
    var n := TrailingSpaces(t);
    assert |Strip(s)| == |t| - n;
    forall k | lo + |t| - n <= k < |s| ensures IsSpace(s[k]) {
      assert s[k] == t[k - lo];
    }
  }

  /** `r` is `s` with whitespace removed: `r` starts at `lo` in `s`, and only whitespace
      stands before and after it. */
  predicate StrippedAt(s: string, lo: int, r: string) {
    0 <= lo <= |s| - |r| && r == s[lo..lo + |r|] &&
    (forall k :: 0 <= k < lo ==> IsSpace(s[k])) &&
    (forall k :: lo + |r| <= k < |s| ==> IsSpace(s[k]))
  }

  /** Stripping a string that `Strip` produced changes nothing. */
  lemma StripIdempotent(s: string)
    ensures Strip(Strip(s)) == Strip(s)
  {
    var r := Strip(s);
    StripShape(s);
    assert LeadingSpaces(r) == 0;
    assert TrailingSpaces(r[0..]) == 0 by { assert r[0..] == r; }
    assert r[0..][..|r|] == r;
  }

  /** The ASCII part of Python's `str.lower()`. */
  function LowerChar(c: char): (d: char)
  {
    if 'A' <= c <= 'Z' then (c as int - 'A' as int + 'a' as int) as char else c
  }

  /** Python's `str.lower()` on ASCII letters, character by character.
      The `ensures` clauses only read back the body; they are there for the verifier. */
  function Lower(s: string): (r: string)
    ensures |r| == |s|
    ensures forall k :: 0 <= k < |s| ==> r[k] == LowerChar(s[k])
  {
    seq(|s|, k requires 0 <= k < |s| => LowerChar(s[k]))
  }

  predicate IsAsciiLetter(c: char) {
    'A' <= c <= 'Z' || 'a' <= c <= 'z'
  }

  /** Two characters that are equal, or the capital and small form of one ASCII letter. */
  predicate SameIgnoringAsciiCase(c: char, d: char) {
    c == d || (IsAsciiLetter(c) && IsAsciiLetter(d) && (c as int - d as int == 32 || d as int - c as int == 32))
  }

  /** Case-insensitive equality on ASCII letters, position by position. */
  predicate EqualIgnoringAsciiCase(a: string, b: string) {
    |a| == |b| && forall k :: 0 <= k < |a| ==> SameIgnoringAsciiCase(a[k], b[k])
  }

  lemma LowerCharEqual(c: char, d: char)
    ensures LowerChar(c) == LowerChar(d) <==> SameIgnoringAsciiCase(c, d)
  {
  }

  /** Comparing lower-cased strings is comparing them with ASCII case ignored: this is
      what makes the extension test accept `.PNG` for `.png` and nothing else. */
  lemma LowerEqualIgnoringCase(a: string, b: string)
    ensures Lower(a) == Lower(b) <==> EqualIgnoringAsciiCase(a, b)
  {
    if |a| == |b| {
      forall k | 0 <= k < |a|
        ensures LowerChar(a[k]) == LowerChar(b[k]) <==> SameIgnoringAsciiCase(a[k], b[k])
      {
        LowerCharEqual(a[k], b[k]);
      }
      if EqualIgnoringAsciiCase(a, b) {
        assert forall k :: 0 <= k < |a| ==> Lower(a)[k] == Lower(b)[k];
      }
    }
  }

  /** Python's `s.rfind(c)`: the last index of `c` in `s`, or -1. */
  function LastIndexOf(s: string, c: char): (i: int)
    ensures -1 <= i < |s|
    ensures i >= 0 ==> s[i] == c
    ensures forall k :: i < k < |s| ==> s[k] != c
  {
    if s == [] then -1
    else if s[|s| - 1] == c then |s| - 1
    else LastIndexOf(s[..|s| - 1], c)
  }

  predicate AllDots(s: string) {
    forall k :: 0 <= k < |s| ==> s[k] == '.'
  }

  /** Whether the last path component of `q` holds a character other than '.'. */
  function ComponentHasNonDot(q: string): bool {
    if q == [] || q[|q| - 1] == '/' then false
    else if q[|q| - 1] != '.' then true
    else ComponentHasNonDot(q[..|q| - 1])
  }

  /** `posixpath.splitext(p)[1]`, read from the end of `p`: the extension runs from the
      last dot of the last path component, unless everything before that dot in the
      component is dots (a "hidden" name such as ".bashrc" has no extension). */
  function Ext(p: string): (e: string)
  {
    if p == [] || p[|p| - 1] == '/' then ""
    else if p[|p| - 1] == '.' then (if ComponentHasNonDot(p[..|p| - 1]) then "." else "")
    else
      var e := Ext(p[..|p| - 1]);
      if e == "" then "" else e + [p[|p| - 1]]
  }

  /** `genericpath._splitext` as CPython writes it, with `rfind` for the last separator
      and the last dot, and a scan that skips leading dots. */
  function SplitextExt(p: string): string {
    var sep := LastIndexOf(p, '/');
    var dot := LastIndexOf(p, '.');
    if dot > sep && !AllDots(p[sep + 1..dot]) then p[dot..] else ""
  }

  /** The component-wise reading of the extension agrees with CPython's algorithm. */
  lemma {:induction false} ExtMatchesSplitext(p: string)
    ensures Ext(p) == SplitextExt(p)
  {
    if p != [] {
      var q := p[..|p| - 1];
      var c := p[|p| - 1];
      assert p == q + [c];
      if c == '/' {
        ExtAfterSeparator(q);
      } else if c == '.' {
        ExtAfterDot(q);
      } else {
        ExtMatchesSplitext(q);
        ExtAfterOther(q, c);
      }
    }
  }

  lemma ExtAfterSeparator(q: string)
    ensures Ext(q + ['/']) == SplitextExt(q + ['/']) == ""
  {
    var p := q + ['/'];
    assert LastIndexOf(p, '/') == |p| - 1;
  }

  lemma ExtAfterDot(q: string)
    ensures Ext(q + ['.']) == SplitextExt(q + ['.'])
  {
    var p := q + ['.'];
    assert p[..|p| - 1] == q;
    assert LastIndexOf(p, '.') == |p| - 1;
    assert LastIndexOf(p, '/') == LastIndexOf(q, '/');
    ComponentNonDot(q);
    assert p[LastIndexOf(q, '/') + 1..|p| - 1] == LastComponent(q);
  }

  lemma ExtAfterOther(q: string, c: char)
    requires c != '/' && c != '.'
    requires Ext(q) == SplitextExt(q)
    ensures Ext(q + [c]) == SplitextExt(q + [c])
  {
    ExtSnocOther(q, c);
    SplitextSnocOther(q, c);
  }

  lemma ExtSnocOther(q: string, c: char)
    requires c != '/' && c != '.'
    ensures Ext(q + [c]) == if Ext(q) == "" then "" else Ext(q) + [c]
  {
    assert (q + [c])[..|q|] == q;
  }

  lemma SplitextSnocOther(q: string, c: char)
    requires c != '/' && c != '.'
    ensures SplitextExt(q + [c]) == if SplitextExt(q) == "" then "" else SplitextExt(q) + [c]
  {
    var p := q + [c];
    LastIndexOfSnoc(q, c, '/');
    LastIndexOfSnoc(q, c, '.');
    var sep := LastIndexOf(q, '/');
    var dot := LastIndexOf(q, '.');
    if dot > sep {
      SliceSnoc(q, c, sep + 1, dot);
      assert p[dot..] == q[dot..] + [c];
      assert q[dot..][0] == '.';
    }
  }

  lemma SliceSnoc(q: string, c: char, i: nat, j: nat)
    requires i <= j <= |q|
    ensures (q + [c])[i..j] == q[i..j]
  {
  }

  lemma LastIndexOfSnoc(q: string, c: char, x: char)
    ensures LastIndexOf(q + [c], x) == if c == x then |q| else LastIndexOf(q, x)
  {
    assert (q + [c])[..|q|] == q;
  }

  lemma AllDotsSnoc(s: string, c: char)
    ensures AllDots(s + [c]) == (AllDots(s) && c == '.')
  {
    if AllDots(s + [c]) {
      forall k | 0 <= k < |s| ensures s[k] == '.' {
        assert (s + [c])[k] == s[k];
      }
      assert (s + [c])[|s|] == c;
    }
  }

  /** The text after the last '/' of `q`. */
  function LastComponent(q: string): string {
    q[LastIndexOf(q, '/') + 1..]
  }

  lemma LastComponentSnoc(q: string, c: char)
    ensures LastComponent(q + [c]) == if c == '/' then [] else LastComponent(q) + [c]
  {
    var p := q + [c];
    assert p[..|p| - 1] == q;
    if c != '/' {
      assert LastIndexOf(p, '/') == LastIndexOf(q, '/');
    }
  }

  /** `ComponentHasNonDot` is the negation of "all dots since the last separator". */
  lemma {:induction false} ComponentNonDot(q: string)
    ensures ComponentHasNonDot(q) == !AllDots(LastComponent(q))
  {
    if q != [] {
      var r := q[..|q| - 1];
      var c := q[|q| - 1];
      assert q == r + [c];
      LastComponentSnoc(r, c);
      if c != '/' {
        AllDotsSnoc(LastComponent(r), c);
        if c == '.' {
          ComponentNonDot(r);
        }
      }
    }
  }

  /** What `Ext` returns: either nothing, or a dotted suffix of `p` with no further
      separator or dot. */
  lemma {:induction false} ExtShape(p: string)
    ensures Ext(p) == [] || (
      |Ext(p)| <= |p| && Ext(p) == p[|p| - |Ext(p)|..] && Ext(p)[0] == '.' &&
      (forall k :: 1 <= k < |Ext(p)| ==> Ext(p)[k] != '.' && Ext(p)[k] != '/'))
  {
    if p != [] && p[|p| - 1] != '/' && p[|p| - 1] != '.' {
      var q := p[..|p| - 1];
      ExtShape(q);
      var e := Ext(q);
      if e != "" {
        assert p[|p| - |e| - 1..] == q[|q| - |e|..] + [p[|p| - 1]];
      }
    }
  }

  /** `posixpath.basename(p)`: everything after the last '/'. */
  function Basename(p: string): (b: string)
    ensures |b| <= |p| && b == p[|p| - |b|..]
    ensures forall k :: 0 <= k < |b| ==> b[k] != '/'
    ensures |b| == |p| || p[|p| - |b| - 1] == '/'
  {
    var i := LastIndexOf(p, '/') + 1;
    assert forall k :: i <= k < |p| ==> p[k] != '/';
    p[i..]
  }

  // ---------- decimal formatting, as in f"{n}" and f"{n:03d}" ----------

  predicate IsDigit(c: char) { '0' <= c <= '9' }

  predicate AllDigits(s: string) {
    forall k :: 0 <= k < |s| ==> IsDigit(s[k])
  }

  function DigitChar(d: nat): (c: char)
    requires d < 10
    ensures IsDigit(c)
  {
    ('0' as int + d) as char
  }

  function DigitValue(c: char): nat
    requires IsDigit(c)
  {
    c as int - '0' as int
  }

  /** The decimal numeral of `n`, without leading zeros (Python's `str(n)`). */
  function Digits(n: nat): (s: string)
    ensures |s| >= 1 && AllDigits(s)
    ensures n >= 10 ==> s[0] != '0'
  {
    if n < 10 then [DigitChar(n)] else Digits(n / 10) + [DigitChar(n % 10)]
  }

  /** The value of a decimal numeral (leading zeros allowed). */
  function DecimalValue(s: string): nat
    requires AllDigits(s)
  {
    if s == [] then 0 else 10 * DecimalValue(s[..|s| - 1]) + DigitValue(s[|s| - 1])
  }

  /** Reading back the numeral `Digits` writes gives the number. */
  lemma {:induction false} DigitsRoundTrip(n: nat)
    ensures DecimalValue(Digits(n)) == n
  {
    if n >= 10 {
      DigitsRoundTrip(n / 10);
      var s := Digits(n);
      assert s[..|s| - 1] == Digits(n / 10);
    }
  }

  /** A leading zero does not change the value of a numeral. */
  lemma {:induction false} LeadingZero(s: string)
    requires AllDigits(s)
    ensures AllDigits("0" + s) && DecimalValue("0" + s) == DecimalValue(s)
  {
    if s != [] {
      LeadingZero(s[..|s| - 1]);
      assert ("0" + s)[..|s|] == "0" + s[..|s| - 1];
    }
  }

  /** Left-pads with '0' up to `width` characters, as the format spec `0<width>d` does. */
  function ZeroPad(s: string, width: nat): (r: string)
    decreases width - |s|
  {
    if |s| >= width then s else ZeroPad("0" + s, width)
  }

  /** Zero padding keeps the numeral's value and reaches the width. */
  lemma {:induction false} ZeroPadValue(s: string, width: nat)
    requires AllDigits(s)
    ensures AllDigits(ZeroPad(s, width))
    ensures DecimalValue(ZeroPad(s, width)) == DecimalValue(s)
    ensures |ZeroPad(s, width)| == if |s| >= width then |s| else width
    decreases width - |s|
  {
    if |s| < width {
      LeadingZero(s);
      ZeroPadValue("0" + s, width);
    }
  }

  /** Python's `f"{n:03d}"` for a non-negative `n`. */
  function Format03d(n: nat): string {
    ZeroPad(Digits(n), 3)
  }

  /** `f"{n:03d}"` is at least three digits long and reads back as `n`. */
  lemma Format03dRoundTrip(n: nat)
    ensures AllDigits(Format03d(n)) && |Format03d(n)| >= 3
    ensures DecimalValue(Format03d(n)) == n
  {
    ZeroPadValue(Digits(n), 3);
    DigitsRoundTrip(n);
  }

  /** The longest prefix of `s` made of digits. */
  function DigitPrefix(s: string): (p: string)
    ensures AllDigits(p) && |p| <= |s| && p == s[..|p|]
    ensures |p| < |s| ==> !IsDigit(s[|p|])
  {
    if s == [] || !IsDigit(s[0]) then [] else [s[0]] + DigitPrefix(s[1..])
  }

  /** A run of digits followed by a non-digit is exactly the digit prefix. */
  lemma {:induction false} DigitPrefixOf(d: string, rest: string)
    requires AllDigits(d)
    requires rest == [] || !IsDigit(rest[0])
    ensures DigitPrefix(d + rest) == d
  {
    if d != [] {
      assert (d + rest)[1..] == d[1..] + rest;
      DigitPrefixOf(d[1..], rest);
    } else {
      assert d + rest == rest;
    }
  }
}
