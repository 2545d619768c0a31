/**
 * The string primitives the lesson engine is built from, with the meaning
 * JavaScript gives them: trim(), ASCII toLowerCase()/toUpperCase(), split on a
 * one-character separator, join, includes, String(n), padStart(2, '0'),
 * parseInt(s, 10), and the title-casing of activity type names.
 */
module Text {
  import opened Wrappers

  // ---------------------------------------------------------------- trim

  /** The code points trim() strips: JavaScript's WhiteSpace and LineTerminator characters. */
  predicate IsSpace(c: char) {
    if c <= ' ' then c == ' ' || '\t' <= c <= '\r'
    else '\U{00A0}' <= c && WideSpace(c)
  }

  predicate WideSpace(c: char) {
    c == '\U{00A0}' || c == '\U{1680}' || ('\U{2000}' <= c <= '\U{200A}')
    || c == '\U{2028}' || c == '\U{2029}' || c == '\U{202F}' || c == '\U{205F}'
    || c == '\U{3000}' || c == '\U{FEFF}'
  }

  predicate AllSpace(s: string) {
    forall i :: 0 <= i < |s| ==> IsSpace(s[i])
  }

  /** Neither end of s is a space (vacuously so for the empty string). */
  predicate Unpadded(s: string) {
    s == [] || (!IsSpace(s[0]) && !IsSpace(s[|s| - 1]))
  }

  /** The index of the first non-space at or after i, or |s| when there is none. */
  function SpacesEnd(s: string, i: nat): (e: nat)
    requires i <= |s|
    ensures i <= e <= |s|
    ensures forall j :: i <= j < e ==> IsSpace(s[j])
    ensures e < |s| ==> !IsSpace(s[e])
    decreases |s| - i
  {
    if i < |s| && IsSpace(s[i]) then SpacesEnd(s, i + 1) else i
  }

  /** The index just past the last non-space before e, or 0 when there is none. */
  function SpacesStart(s: string, e: nat): (b: nat)
    requires e <= |s|
    ensures b <= e
    ensures forall j :: b <= j < e ==> IsSpace(s[j])
    ensures b > 0 ==> !IsSpace(s[b - 1])
    decreases e
  {
    if e > 0 && IsSpace(s[e - 1]) then SpacesStart(s, e - 1) else e
  }

  /** The leading spaces of s end exactly where the first non-space stands. */
  lemma SpacesEndUnique(s: string, n: nat)
    requires n <= |s|
    requires forall j :: 0 <= j < n ==> IsSpace(s[j])
    requires n < |s| ==> !IsSpace(s[n])
    ensures SpacesEnd(s, 0) == n
  {}

  /** The trailing spaces of s begin exactly after the last non-space. */
  lemma SpacesStartUnique(s: string, n: nat)
    requires n <= |s|
    requires forall j :: n <= j < |s| ==> IsSpace(s[j])
    requires n > 0 ==> !IsSpace(s[n - 1])
    ensures SpacesStart(s, |s|) == n
  {}

  /** trimStart(): drops the leading spaces, and only those. */
  function TrimStart(s: string): string {
    s[SpacesEnd(s, 0)..]
  }

  /** trimEnd(): drops the trailing spaces, and only those. */
  function TrimEnd(s: string): string {
    s[..SpacesStart(s, |s|)]
  }

  function Trim(s: string): string {
    TrimEnd(TrimStart(s))
  }

  /** A string that does not begin with a space is its own trimStart(). */
  lemma NotTrimmed(s: string)
    requires s != [] && !IsSpace(s[0])
    ensures TrimStart(s) == s
  {}

  lemma TrimStartSpaces(w: string, x: string)
    requires AllSpace(w)
    ensures TrimStart(w + x) == TrimStart(x)
  {
    var n := SpacesEnd(x, 0);
    var s := w + x;
    forall j | 0 <= j < |w| + n ensures IsSpace(s[j]) {
      if j < |w| {
        assert s[j] == w[j];
      } else {
        assert s[j] == x[j - |w|];
      }
    }
    if |w| + n < |s| {
      assert s[|w| + n] == x[n];
    }
    SpacesEndUnique(s, |w| + n);
    assert s[|w| + n..] == x[n..];
  }

  lemma TrimEndSpaces(x: string, w: string)
    requires AllSpace(w)
    ensures TrimEnd(x + w) == TrimEnd(x)
  {
    var b := SpacesStart(x, |x|);
    var s := x + w;
    forall j | b <= j < |s| ensures IsSpace(s[j]) {
      if j < |x| {
        assert s[j] == x[j];
      } else {
        assert s[j] == w[j - |x|];
      }
    }
    if b > 0 {
      assert s[b - 1] == x[b - 1];
    }
    SpacesStartUnique(s, b);
    assert s[..b] == x[..b];
  }

  /**
   * trim() is exactly "remove the surrounding spaces": whatever spaces
   * surround a core whose ends are not spaces, trimming yields the core.
   * Every string splits uniquely this way, so this characterises Trim.
   */
  lemma TrimExact(w1: string, core: string, w2: string)
    requires AllSpace(w1) && AllSpace(w2) && Unpadded(core)
    ensures Trim(w1 + core + w2) == core
  {
    assert w1 + core + w2 == w1 + (core + w2);
    TrimStartSpaces(w1, core + w2);
    if core == [] {
      assert core + w2 == w2 + [];
      TrimStartSpaces(w2, []);
    } else {
      assert (core + w2)[0] == core[0];
      NotTrimmed(core + w2);
      TrimEndSpaces(core, w2);
      SpacesStartUnique(core, |core|);
    }
  }

  // ---------------------------------------------------------------- case

  function LowerChar(c: char): char {
    if 'A' <= c <= 'Z' then (c as int + 32) as char else c
  }

  function UpperChar(c: char): char {
    if 'a' <= c <= 'z' then (c as int - 32) as char else c
  }

  /** toLowerCase() on the ASCII letters; every other character is kept. */
  function Lower(s: string): string {
    seq(|s|, i requires 0 <= i < |s| => LowerChar(s[i]))
  }

  /** toUpperCase() on the ASCII letters; every other character is kept. */
  function Upper(s: string): string {
    seq(|s|, i requires 0 <= i < |s| => UpperChar(s[i]))
  }

  /** Lowering forgets the case the text was typed in: upper- and lower-case spellings agree. */
  lemma LowerForgetsCase(s: string)
    ensures Lower(Upper(s)) == Lower(s) && Lower(Lower(s)) == Lower(s)
  {}

  // ---------------------------------------------------------------- includes

  /** p occurs in s starting at index i. */
  predicate OccursAt(s: string, p: string, i: int) {
    0 <= i && i + |p| <= |s| && s[i..i + |p|] == p
  }

  /** s.includes(p), searching from the front one position at a time. */
  predicate Includes(s: string, p: string)
    decreases |s|
  {
    OccursAt(s, p, 0) || (|s| > 0 && Includes(s[1..], p))
  }

  /** includes() holds exactly when p occurs at some index of s. */
  lemma {:induction false} IncludesIff(s: string, p: string)
    ensures Includes(s, p) <==> exists i :: OccursAt(s, p, i)
    decreases |s|
  {
    if |s| > 0 {
      IncludesIff(s[1..], p);
      forall i | OccursAt(s[1..], p, i) ensures OccursAt(s, p, i + 1) {
        assert s[1..][i..i + |p|] == s[i + 1..i + 1 + |p|];
      }
      forall i | OccursAt(s, p, i) && i > 0 ensures OccursAt(s[1..], p, i - 1) {
        assert s[1..][i - 1..i - 1 + |p|] == s[i..i + |p|];
      }
    } else {
      forall i | OccursAt(s, p, i) ensures i == 0 {}
    }
  }

  // ---------------------------------------------------------------- split and join

  /** s.split(sep): the pieces between the separators, in order; "" gives [""]. */
  function Split(s: string, sep: char): (parts: seq<string>)
    ensures |parts| >= 1
    ensures forall k :: 0 <= k < |parts| ==> sep !in parts[k]
    decreases |s|
  {
    if |s| == 0 then [""]
    else
      var rest := Split(s[1..], sep);
      if s[0] == sep then [""] + rest
      else [[s[0]] + rest[0]] + rest[1..]
  }

  /** parts.join(sep); the empty array gives "". */
  function Join(parts: seq<string>, sep: string): string
    decreases |parts|
  {
    if |parts| == 0 then ""
    else if |parts| == 1 then parts[0]
    else parts[0] + sep + Join(parts[1..], sep)
  }

  /** Splitting loses nothing: joining the pieces with the separator gives the string back. */
  lemma {:induction false} JoinSplit(s: string, sep: char)
    ensures Join(Split(s, sep), [sep]) == s
    decreases |s|
  {
    if |s| > 0 {
      var rest := Split(s[1..], sep);
      JoinSplit(s[1..], sep);
      if s[0] == sep {
        assert Split(s, sep) == [""] + rest;
        assert ([""] + rest)[1..] == rest;
        assert s == [s[0]] + s[1..];
      } else if |rest| == 1 {
        assert s == [s[0]] + s[1..];
      } else {
        var parts := Split(s, sep);
        assert parts[1..] == rest[1..];
        assert Join(rest, [sep]) == rest[0] + [sep] + Join(rest[1..], [sep]);
        assert s == [s[0]] + s[1..];
      }
    }
  }

  /** A string free of the separator is a single piece. */
  lemma {:induction false} SplitWhole(a: string, sep: char)
    requires sep !in a
    ensures Split(a, sep) == [a]
    decreases |a|
  {
    if |a| > 0 {
      SplitWhole(a[1..], sep);
      assert a == [a[0]] + a[1..];
    }
  }

  /** A first piece free of the separator, then the separator: that piece comes first. */
  lemma {:induction false} SplitFirst(a: string, sep: char, b: string)
    requires sep !in a
    ensures Split(a + [sep] + b, sep) == [a] + Split(b, sep)
    decreases |a|
  {
    if |a| > 0 {
      assert (a + [sep] + b)[1..] == a[1..] + [sep] + b;
      SplitFirst(a[1..], sep, b);
      assert a == [a[0]] + a[1..];
    }
  }

  /** A character in neither the pieces nor the separator is not in their join. */
  lemma {:induction false} JoinAvoids(parts: seq<string>, sep: string, c: char)
    requires c !in sep && forall k :: 0 <= k < |parts| ==> c !in parts[k]
    ensures c !in Join(parts, sep)
    decreases |parts|
  {
    if |parts| > 1 {
      var rest := parts[1..];
      assert forall k :: 0 <= k < |rest| ==> rest[k] == parts[k + 1];
      JoinAvoids(rest, sep, c);
    }
  }

  /** Joining pieces free of the separator and splitting again gives the pieces back. */
  lemma {:induction false} SplitJoin(parts: seq<string>, sep: char)
    requires |parts| >= 1 && forall k :: 0 <= k < |parts| ==> sep !in parts[k]
    ensures Split(Join(parts, [sep]), sep) == parts
    decreases |parts|
  {
    if |parts| == 1 {
      SplitWhole(parts[0], sep);
    } else {
      var rest := parts[1..];
      assert forall k :: 0 <= k < |rest| ==> rest[k] == parts[k + 1];
      SplitJoin(rest, sep);
      SplitFirst(parts[0], sep, Join(rest, [sep]));
      assert parts == [parts[0]] + rest;
    }
  }

  // ---------------------------------------------------------------- numbers

  predicate IsDigit(c: char) {
    '0' <= c <= '9'
  }

  predicate AllDigits(s: string) {
    forall i :: 0 <= i < |s| ==> IsDigit(s[i])
  }

  function DigitChar(d: int): char
    requires 0 <= d < 10
  {
    ('0' as int + d) as char
  }

  /** The number the first n characters of s denote, read left to right; they must be digits. */
  function ValueOf(s: string, n: nat): nat
    requires n <= |s| && forall j :: 0 <= j < n ==> IsDigit(s[j])
    decreases n
  {
    if n == 0 then 0
    else
      assert IsDigit(s[n - 1]);
      ValueOf(s, n - 1) * 10 + (s[n - 1] as int - '0' as int)
  }

  /** The number a string of decimal digits denotes. */
  function DigitsValue(ds: string): nat
    requires AllDigits(ds)
  {
    ValueOf(ds, |ds|)
  }

  /** The value of the first n digits does not depend on what follows them. */
  lemma {:induction false} ValueOfPrefix(a: string, b: string, n: nat)
    requires n <= |a| && forall j :: 0 <= j < n ==> IsDigit(a[j])
    ensures ValueOf(a + b, n) == ValueOf(a, n)
    decreases n
  {
    if n > 0 {
      ValueOfPrefix(a, b, n - 1);
      assert (a + b)[n - 1] == a[n - 1];
    }
  }

  /** String(n) for n >= 0: its decimal digits, without leading zeros. */
  function NatToString(n: nat): (r: string)
    ensures |r| >= 1 && AllDigits(r)
    ensures |r| == 1 <==> n < 10
    ensures |r| > 1 ==> r[0] != '0'
    decreases n
  {
    if n < 10 then [DigitChar(n)] else NatToString(n / 10) + [DigitChar(n % 10)]
  }

  /** String(n) for any integer. */
  function IntToString(n: int): string {
    if n < 0 then "-" + NatToString(-n) else NatToString(n)
  }

  lemma {:induction false} NatToStringValue(n: nat)
    ensures DigitsValue(NatToString(n)) == n
    decreases n
  {
    if n >= 10 {
      NatToStringValue(n / 10);
      var front := NatToString(n / 10);
      var r := NatToString(n);
      assert r == front + [DigitChar(n % 10)];
      ValueOfPrefix(front, [DigitChar(n % 10)], |front|);
    }
  }

  /** The index just past the run of digits that starts at i. */
  function DigitsEnd(s: string, i: nat): (e: nat)
    requires i <= |s|
    ensures i <= e <= |s|
    ensures forall j :: i <= j < e ==> IsDigit(s[j])
    ensures e < |s| ==> !IsDigit(s[e])
    decreases |s| - i
  {
    if i < |s| && IsDigit(s[i]) then DigitsEnd(s, i + 1) else i
  }

  lemma DigitsEndAll(s: string)
    requires AllDigits(s)
    ensures DigitsEnd(s, 0) == |s|
  {}

  /**
   * parseInt(s, 10): skip leading spaces, take an optional sign, then the
   * longest run of digits; None (NaN) when there are no digits. What follows
   * the digits is ignored.
   */
  function ParseInt(s: string): Option<int> {
    ParseSigned(TrimStart(s))
  }

  /** parseInt after the leading spaces: an optional sign, then the digits. */
  function ParseSigned(t: string): Option<int> {
    if |t| > 0 && t[0] == '-' then Negated(ParseDigits(t[1..]))
    else if |t| > 0 && t[0] == '+' then ParseDigits(t[1..])
    else ParseDigits(t)
  }

  function Negated(v: Option<int>): Option<int> {
    if v.Some? then Some(0 - v.value) else None
  }

  /** The value of the digits that begin t, if t begins with a digit. */
  function ParseDigits(t: string): Option<int> {
    var n := DigitsEnd(t, 0);
    if n == 0 then None else Some(ValueOf(t, n))
  }

  /** String(n) parses back to n. */
  lemma IntToStringRoundTrip(n: int)
    ensures ParseInt(IntToString(n)) == Some(n)
  {
    if n < 0 {
      NegativeRoundTrip(-n);
    } else {
      NatToStringRoundTrip(n);
    }
  }

  /** A non-empty run of digits, as written, parses to the number it denotes. */
  lemma DigitsRoundTrip(ds: string)
    requires ds != [] && AllDigits(ds)
    ensures ParseInt(ds) == Some(DigitsValue(ds))
  {
    assert !IsSpace(ds[0]) && ds[0] != '+' && ds[0] != '-';
    NotTrimmed(ds);
    DigitsParse(ds);
  }

  lemma NatToStringRoundTrip(n: nat)
    ensures ParseInt(NatToString(n)) == Some(n)
  {
    NatToStringValue(n);
    DigitsRoundTrip(NatToString(n));
  }

  lemma NegativeRoundTrip(k: nat)
    requires k > 0
    ensures ParseInt("-" + NatToString(k)) == Some(0 - k)
  {
    NatToStringValue(k);
    NegatedDigits(NatToString(k));
  }

  /** A minus sign before a run of digits negates the number they denote. */
  lemma NegatedDigits(ds: string)
    requires ds != [] && AllDigits(ds)
    ensures ParseInt("-" + ds) == Some(0 - DigitsValue(ds))
  {
    var s := "-" + ds;
    NotTrimmed(s);
    assert s[1..] == ds;
    DigitsParse(ds);
  }

  lemma DigitsParse(ds: string)
    requires ds != [] && AllDigits(ds)
    ensures ParseDigits(ds) == Some(DigitsValue(ds))
  {
    DigitsEndAll(ds);
  }

  /** padStart(2, '0'): a one-character string gets a leading "0", and "" becomes "00". */
  function PadStart2(s: string): string {
    if |s| >= 2 then s else if |s| == 1 then "0" + s else "00"
  }

  /** A number below 100, padded to two digits, is two digits long and parses back to itself. */
  lemma PaddedRoundTrip(n: nat)
    requires n < 100
    ensures |PadStart2(NatToString(n))| == 2 && AllDigits(PadStart2(NatToString(n)))
    ensures ParseInt(PadStart2(NatToString(n))) == Some(n)
  {
    if n < 10 {
      PaddedDigit(n);
    } else {
      NatToStringRoundTrip(n);
    }
  }

  lemma PaddedDigit(n: nat)
    requires n < 10
    ensures PadStart2(NatToString(n)) == ['0', DigitChar(n)]
    ensures ParseInt(['0', DigitChar(n)]) == Some(n)
  {
    var p := ['0', DigitChar(n)];
    assert ValueOf(p, 1) == 0;
    DigitsRoundTrip(p);
  }

  // ---------------------------------------------------------------- title case

  /** The characters of the regular-expression class \w. */
  predicate IsWordChar(c: char) {
    'a' <= c <= 'z' || 'A' <= c <= 'Z' || IsDigit(c) || c == '_'
  }

  /** s.replace(/_/g, ' ') */
  function UnderscoresToSpaces(s: string): string {
    seq(|s|, i requires 0 <= i < |s| => if s[i] == '_' then ' ' else s[i])
  }

  /** Index i of s is where /\b\w/ matches: a word character after a non-word character or the start. */
  predicate WordStart(s: string, i: int)
    requires 0 <= i < |s|
  {
    IsWordChar(s[i]) && (i == 0 || !IsWordChar(s[i - 1]))
  }

  /** s.replace(/\b\w/g, c => c.toUpperCase()) */
  function CapitalizeWords(s: string): string {
    seq(|s|, i requires 0 <= i < |s| => if WordStart(s, i) then UpperChar(s[i]) else s[i])
  }

  /** toTitle(s), which turns an activity type such as "antonym_test" into a heading. */
  function ToTitle(s: string): string {
    CapitalizeWords(UnderscoresToSpaces(s))
  }

  /**
   * The heading keeps the length of the type name, contains no underscore, and
   * differs from the underscore-free name only in letter case.
   */
  lemma ToTitleShape(s: string)
    ensures |ToTitle(s)| == |s| && '_' !in ToTitle(s)
    ensures Lower(ToTitle(s)) == Lower(UnderscoresToSpaces(s))
  {
    var u := UnderscoresToSpaces(s);
    var t := ToTitle(s);
    forall i | 0 <= i < |t| ensures t[i] != '_' {
      assert u[i] != '_';
    }
  }

  /** Title-casing a heading again changes nothing. */
  lemma ToTitleIdempotent(s: string)
    ensures ToTitle(ToTitle(s)) == ToTitle(s)
  {
    var t := ToTitle(s);
    var u := UnderscoresToSpaces(s);
    ToTitleShape(s);
    assert UnderscoresToSpaces(t) == t;
    forall i | 0 <= i < |t| ensures IsWordChar(t[i]) == IsWordChar(u[i]) {}
    forall i | 0 <= i < |t| ensures WordStart(t, i) == WordStart(u, i) {}
  }

  /**
   * Every word of the heading starts with its letter upper-cased, and every
   * other character is that of the name with underscores turned into spaces.
   */
  lemma ToTitleCapitalizes(s: string)
    ensures forall i :: 0 <= i < |ToTitle(s)| && WordStart(ToTitle(s), i) ==>
      ToTitle(s)[i] == UpperChar(UnderscoresToSpaces(s)[i]) && !('a' <= ToTitle(s)[i] <= 'z')
    ensures forall i :: 0 <= i < |ToTitle(s)| && !WordStart(ToTitle(s), i) ==>
      ToTitle(s)[i] == UnderscoresToSpaces(s)[i]
  {
  }
}
