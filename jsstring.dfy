/**
 * The JavaScript built-ins that the transformers and the custom handlers call,
 * over `string` (a sequence of code points). Each function names the built-in
 * it stands for; only the receivers and arguments the core passes are modelled
 * (a one-character `split` separator, the regular expressions `\D`, `\D+`).
 */
module JsString {
  import opened Wrappers

  /** `\d` of a JavaScript regular expression without the `u` flag: an ASCII digit. */
  predicate IsDigit(c: char) { '0' <= c <= '9' }

  predicate AllDigits(s: string) { forall i :: 0 <= i < |s| ==> IsDigit(s[i]) }

  predicate NoDigits(s: string) { forall i :: 0 <= i < |s| ==> !IsDigit(s[i]) }

  predicate HasDigit(s: string) { exists i :: 0 <= i < |s| && IsDigit(s[i]) }

  /**
   * The WhiteSpace and LineTerminator code points of ECMAScript (sections 12.2
   * and 12.3 of ECMA-262), which `trim` removes and `parseInt` skips.
   */
  predicate IsWhitespace(c: char) {
    c == '\t' || c == '\n' || c == '\U{B}' || c == '\U{C}' || c == '\r' || c == ' '
    || c == '\U{A0}' || c == '\U{1680}' || ('\U{2000}' <= c <= '\U{200A}')
    || c == '\U{2028}' || c == '\U{2029}' || c == '\U{202F}' || c == '\U{205F}'
    || c == '\U{3000}' || c == '\U{FEFF}'
  }

  function DigitValue(c: char): (v: nat)
    requires IsDigit(c)
    ensures v < 10
  {
    c as int - '0' as int
  }

  function DigitChar(v: nat): (c: char)
    requires v < 10
    ensures IsDigit(c) && DigitValue(c) == v
  {
    ('0' as int + v) as char
  }

  function Pow10(n: nat): (p: nat)
    ensures p >= 1
  {
    if n == 0 then 1 else 10 * Pow10(n - 1)
  }

  /** Length of the longest prefix of `s` that is made of digits. */
  function DigitPrefixLength(s: string): (k: nat)
    ensures k <= |s| && AllDigits(s[..k])
    ensures k < |s| ==> !IsDigit(s[k])
    decreases |s|
  {
    if s != [] && IsDigit(s[0]) then 1 + DigitPrefixLength(s[1..]) else 0
  }

  /** Length of the longest prefix of `s` that holds no digit. */
  function NonDigitPrefixLength(s: string): (k: nat)
    ensures k <= |s| && NoDigits(s[..k])
    ensures k < |s| ==> IsDigit(s[k])
    decreases |s|
  {
    if s != [] && !IsDigit(s[0]) then 1 + NonDigitPrefixLength(s[1..]) else 0
  }

  /** The number a string of decimal digits denotes; leading zeros are allowed. */
  function ParseDigits(d: string): (n: nat)
    requires AllDigits(d)
    ensures n < Pow10(|d|)
    decreases |d|
  {
    if d == [] then 0 else 10 * ParseDigits(d[..|d| - 1]) + DigitValue(d[|d| - 1])
  }

  /** `String(n)` (or `${n}`) for a non-negative integer: decimal, no leading zero. */
  function DecimalString(n: nat): (s: string)
    ensures 0 < |s| && AllDigits(s)
    ensures (s[0] == '0') == (n == 0)
    decreases n
  {
    if n < 10 then [DigitChar(n)] else DecimalString(n / 10) + [DigitChar(n % 10)]
  }

  lemma {:induction false} ParseDecimalString(n: nat)
    ensures ParseDigits(DecimalString(n)) == n
    decreases n
  {
    var s := DecimalString(n);
    if n >= 10 {
      assert s[..|s| - 1] == DecimalString(n / 10);
      ParseDecimalString(n / 10);
    }
  }

  /** A digit string without a superfluous leading zero is the decimal form of its value. */
  lemma {:induction false} DecimalStringOfDigits(d: string)
    requires d != [] && AllDigits(d) && (|d| > 1 ==> d[0] != '0')
    ensures DecimalString(ParseDigits(d)) == d
    decreases |d|
  {
    if |d| > 1 {
      var init := d[..|d| - 1];
      assert init[0] == d[0];
      DecimalStringOfDigits(init);
      assert d == init + [d[|d| - 1]];
    }
  }

  /** `s.trimStart()` */
  function TrimStart(s: string): (r: string)
    ensures |r| <= |s| && r == s[|s| - |r|..]
    ensures forall i :: 0 <= i < |s| - |r| ==> IsWhitespace(s[i])
    ensures r != [] ==> !IsWhitespace(r[0])
    decreases |s|
  {
    if s != [] && IsWhitespace(s[0]) then TrimStart(s[1..]) else s
  }

  /** `s.trimEnd()` */
  function TrimEnd(s: string): (r: string)
    ensures |r| <= |s| && r == s[..|r|]
    ensures forall i :: |r| <= i < |s| ==> IsWhitespace(s[i])
    ensures r != [] ==> !IsWhitespace(r[|r| - 1])
    decreases |s|
  {
    if s != [] && IsWhitespace(s[|s| - 1]) then TrimEnd(s[..|s| - 1]) else s
  }

  /** `s.trim()` */
  function Trim(s: string): (r: string)
    ensures r != [] ==> !IsWhitespace(r[0]) && !IsWhitespace(r[|r| - 1])
    ensures |r| <= |s|
  {
    TrimEnd(TrimStart(s))
  }

  /** `parts.join(sep)` */
  function Join(parts: seq<string>, sep: char): string
    decreases |parts|
  {
    if parts == [] then [] else if |parts| == 1 then parts[0] else parts[0] + [sep] + Join(parts[1..], sep)
  }

  /** `s.split(sep)` for a one-character separator: at least one part, none holding `sep`. */
  function Split(s: string, sep: char): (parts: seq<string>)
    ensures |parts| >= 1
    ensures forall i :: 0 <= i < |parts| ==> sep !in parts[i]
    ensures Join(parts, sep) == s
    decreases |s|
  {
    if s == [] then [[]]
    else if s[0] == sep then [[]] + Split(s[1..], sep)
    else
      var rest := Split(s[1..], sep);
      [[s[0]] + rest[0]] + rest[1..]
  }

  lemma {:induction false} SplitWithoutSeparator(s: string, sep: char)
    requires sep !in s
    ensures Split(s, sep) == [s]
    decreases |s|
  {
    if s != [] {
      assert sep !in s[1..];
      SplitWithoutSeparator(s[1..], sep);
    }
  }

  lemma {:induction false} SplitAfterPart(g: string, sep: char, t: string)
    requires sep !in g
    ensures Split(g + [sep] + t, sep) == [g] + Split(t, sep)
    decreases |g|
  {
    if g != [] {
      assert (g + [sep] + t)[1..] == g[1..] + [sep] + t;
      assert sep !in g[1..];
      SplitAfterPart(g[1..], sep, t);
      assert [g[0]] + g[1..] == g;
    } else {
      assert [] + [sep] + t == [sep] + t;
    }
  }

  /** Splitting undoes joining, for parts free of the separator. */
  lemma {:induction false} SplitJoin(parts: seq<string>, sep: char)
    requires |parts| >= 1
    requires forall i :: 0 <= i < |parts| ==> sep !in parts[i]
    ensures Split(Join(parts, sep), sep) == parts
    decreases |parts|
  {
    if |parts| == 1 {
      SplitWithoutSeparator(parts[0], sep);
    } else {
      SplitAfterPart(parts[0], sep, Join(parts[1..], sep));
      SplitJoin(parts[1..], sep);
      assert [parts[0]] + parts[1..] == parts;
    }
  }

  /** `s.split(/\D+/)`: the pieces between maximal runs of non-digits. */
  function SplitOnNonDigitRuns(s: string): (parts: seq<string>)
    ensures |parts| >= 1
    ensures forall i :: 0 <= i < |parts| ==> AllDigits(parts[i])
    decreases |s|
  {
    var k := DigitPrefixLength(s);
    if k == |s| then [s]
    else
      var rest := s[k..];
      [s[..k]] + SplitOnNonDigitRuns(rest[NonDigitPrefixLength(rest)..])
  }

  /** `s.replace(/\D+/g, " ")`: every maximal run of non-digits becomes one space. */
  function ReplaceNonDigitRuns(s: string): string
    decreases |s|
  {
    if s == [] then []
    else if IsDigit(s[0]) then
      var k := DigitPrefixLength(s);
      s[..k] + ReplaceNonDigitRuns(s[k..])
    else " " + ReplaceNonDigitRuns(s[NonDigitPrefixLength(s)..])
  }

  /** `s.replace(/\D+/, " ")`: only the first maximal run of non-digits becomes a space. */
  function ReplaceFirstNonDigitRun(s: string): string
  {
    var k := DigitPrefixLength(s);
    if k == |s| then s
    else s[..k] + " " + s[k + NonDigitPrefixLength(s[k..])..]
  }

  /** `s.replace(/\D/g, "")`: the digits of `s`, in order. */
  function RemoveNonDigits(s: string): (r: string)
    ensures AllDigits(r) && |r| <= |s|
    ensures AllDigits(s) ==> r == s
    ensures NoDigits(s) ==> r == []
    decreases |s|
  {
    if s == [] then [] else (if IsDigit(s[0]) then [s[0]] else []) + RemoveNonDigits(s[1..])
  }

  lemma {:induction false} RemoveNonDigitsAppend(a: string, b: string)
    ensures RemoveNonDigits(a + b) == RemoveNonDigits(a) + RemoveNonDigits(b)
    decreases |a|
  {
    if a != [] {
      assert (a + b)[1..] == a[1..] + b;
      RemoveNonDigitsAppend(a[1..], b);
    } else {
      assert a + b == b;
    }
  }

  /** `sub` occurs in `s` starting at position `j`. */
  predicate OccursAt(s: string, sub: string, j: int) {
    0 <= j && j + |sub| <= |s| && s[j..j + |sub|] == sub
  }

  /** `s.indexOf(sub, from)` for `from <= |s|`. */
  function IndexFrom(s: string, sub: string, from: nat): (r: int)
    requires from <= |s|
    ensures r == -1 || (from <= r && OccursAt(s, sub, r))
    ensures r == -1 ==> forall j :: from <= j ==> !OccursAt(s, sub, j)
    ensures r >= 0 ==> forall j :: from <= j < r ==> !OccursAt(s, sub, j)
    decreases |s| - from
  {
    if from + |sub| > |s| then -1
    else if |sub| == 0 || s[from..from + |sub|] == sub then from
    else IndexFrom(s, sub, from + 1)
  }

  /** `s.indexOf(sub)`: the first position at which `sub` occurs in `s`, or -1. */
  function IndexOf(s: string, sub: string): (r: int)
    ensures r == -1 || OccursAt(s, sub, r)
    ensures r == -1 ==> forall j :: !OccursAt(s, sub, j)
    ensures r >= 0 ==> forall j :: 0 <= j < r ==> !OccursAt(s, sub, j)
  {
    IndexFrom(s, sub, 0)
  }

  /** `String.prototype.toLowerCase` on one code point, for the ASCII letters only. */
  function LowerAscii(c: char): char {
    if 'A' <= c <= 'Z' then (c as int + 32) as char else c
  }

  /** `s.toLowerCase()`, ASCII folding only. */
  function ToLowerCase(s: string): (r: string)
    ensures |r| == |s|
    ensures forall i :: 0 <= i < |s| ==> r[i] == LowerAscii(s[i])
  {
    seq(|s|, i requires 0 <= i < |s| => LowerAscii(s[i]))
  }

  /**
   * `parseInt(s, 10)`: skip leading white space, read an optional sign, then the
   * longest run of digits; `None` stands for NaN (no digit after the sign).
   */
  function ParseInt(s: string): (r: Option<int>)
    ensures r.Some? ==> HasDigit(s)
  {
    var t := TrimStart(s);
    var signed := |t| > 0 && (t[0] == '-' || t[0] == '+');
    var u := if signed then t[1..] else t;
    var k := DigitPrefixLength(u);
    if k == 0 then None
    else
      assert IsDigit(s[|s| - |u|]);
      var n: int := ParseDigits(u[..k]);
      Some(if signed && t[0] == '-' then -n else n)
  }

  /** `parseInt` of a string whose unsigned, trimmed form starts with `k > 0` digits. */
  lemma ParseIntUnsigned(s: string, k: nat)
    requires TrimStart(s) != [] && TrimStart(s)[0] != '-' && TrimStart(s)[0] != '+'
    requires k == DigitPrefixLength(TrimStart(s)) && k > 0
    ensures ParseInt(s) == Some(ParseDigits(TrimStart(s)[..k]))
  {
  }

  /** `parseInt` of a string that starts with a run of `k > 0` digits. */
  lemma ParseIntOfDigitPrefix(s: string, k: nat)
    requires 0 < k == DigitPrefixLength(s)
    ensures ParseInt(s) == Some(ParseDigits(s[..k]))
  {
    assert IsDigit(s[0]);
    TrimStartOfDigit(s);
    ParseIntUnsigned(s, k);
  }

  lemma TrimStartOfDigit(s: string)
    requires s != [] && IsDigit(s[0])
    ensures TrimStart(s) == s
  {
    assert !IsWhitespace(s[0]);
  }

  /** On a non-empty digit string, `parseInt` is the digits' value. */
  lemma ParseIntOfDigits(d: string)
    requires d != [] && AllDigits(d)
    ensures ParseInt(d) == Some(ParseDigits(d))
  {
    DigitPrefixLengthOfDigits(d);
    ParseIntOfDigitPrefix(d, |d|);
    assert d[..|d|] == d;
  }

  lemma {:induction false} DigitPrefixLengthOfDigits(d: string)
    requires AllDigits(d)
    ensures DigitPrefixLength(d) == |d|
    decreases |d|
  {
    if d != [] {
      DigitPrefixLengthOfDigits(d[1..]);
    }
  }
}
