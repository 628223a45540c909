/**
 * The value transformers of src/transformers.js: each turns the text a rule
 * captured into a typed value, or rejects it (`None`, JavaScript's `null`).
 */
module Transformers {
  import opened Wrappers
  import opened JsString
  import opened Digits

  /** `none`: the capture, unchanged. */
  function Identity(input: string): (r: string)
    ensures r == input
  {
    input
  }

  /** `value(v)`: a transformer that ignores its capture and always yields `v`. */
  function Value<T>(v: T): (t: string -> T)
    ensures forall input :: t(input) == v
  {
    _ => v
  }

  /** `integer`: `parseInt(input, 10)`, with `None` for NaN. */
  function Integer(input: string): (r: Option<int>)
    ensures r.Some? ==> HasDigit(input)
  {
    ParseInt(input)
  }

  /** `boolean`: the presence of a match is the value; the capture is ignored. */
  function Boolean(input: string): (b: bool)
    ensures b
  {
    true
  }

  /** `lowercase`: `input.toLowerCase()`, folding the ASCII letters only. */
  function Lowercase(input: string): (r: string)
    ensures |r| == |input|
    ensures forall i :: 0 <= i < |r| ==> !('A' <= r[i] <= 'Z')
    ensures forall i :: 0 <= i < |r| && !('A' <= input[i] <= 'Z') ==> r[i] == input[i]
    ensures forall i :: 0 <= i < |r| && 'A' <= input[i] <= 'Z' ==> r[i] as int == input[i] as int + 32
  {
    ToLowerCase(input)
  }

  /** `array(chain)`: the chained transform of the capture, alone in a list. */
  function Array<T>(chain: string -> T): (t: string -> seq<T>)
    ensures forall input :: |t(input)| == 1 && t(input)[0] == chain(input)
  {
    input => [chain(input)]
  }

  // ---------------------------------------------------------------- date

  /** `${parts[i]}`: an index past the end reads `undefined`, which interpolates as "undefined". */
  function Part(parts: seq<string>, i: nat): string {
    if i < |parts| then parts[i] else "undefined"
  }

  /** The year, month and day taken from split parts, joined by "-". */
  function DateFromParts(parts: seq<string>): (r: string)
    requires parts != []
    ensures |parts| >= 3 && |parts[0]| == 4 ==> r == parts[0] + "-" + parts[1] + "-" + parts[2]
    ensures |parts| >= 3 && |parts[0]| == 2 ==> r == parts[2] + "-" + parts[1] + "-" + parts[0]
    ensures |parts| >= 3 && |parts[0]| != 4 && |parts[0]| != 2 ==> r == parts[2] + "-" + parts[1] + "-" + parts[2]
    ensures |parts| == 2 ==>
      r == (if |parts[0]| == 4 then parts[0] else "undefined") + "-" + parts[1] + "-" + (if |parts[0]| == 2 then parts[0] else "undefined")
    ensures |parts| == 1 ==>
      r == (if |parts[0]| == 4 then parts[0] else "undefined") + "-" + "undefined" + "-" + (if |parts[0]| == 2 then parts[0] else "undefined")
  {
    var year := if |parts[0]| == 4 then parts[0] else Part(parts, 2);
    var month := Part(parts, 1);
    var day := if |parts[0]| == 2 then parts[0] else Part(parts, 2);
    year + "-" + month + "-" + day
  }

  /**
   * `date`, as written: only the FIRST run of non-digits is replaced by a space
   * (`replace(/\D+/, " ")` has no `g` flag) before trimming and splitting on spaces.
   */
  function Date(input: string): (r: string)
    ensures input != [] && AllDigits(input) ==> r == DateFromParts([input])
  {
    DigitsAreOnePart(input);
    DateFromParts(Split(Trim(ReplaceFirstNonDigitRun(input)), ' '))
  }

  /** A capture of digits alone has no run to replace, nothing to trim and no space to split on. */
  lemma DigitsAreOnePart(s: string)
    ensures s != [] && AllDigits(s) ==> Split(Trim(ReplaceFirstNonDigitRun(s)), ' ') == [s]
  {
    if s != [] && AllDigits(s) {
      DigitPrefixLengthOfDigits(s);
      TrimDigitEnds(s);
      DigitsHaveNoSpace(s);
      SplitWithoutSeparator(s, ' ');
    }
  }

  /** `date` with every run of non-digits replaced (`/\D+/g`), as the split on spaces needs. */
  function DateCorrected(input: string): string {
    DateFromParts(Split(Trim(ReplaceNonDigitRuns(input)), ' '))
  }

  /** Replacing the first non-digit run of `d + sep + rest`, where `d` is the leading digit run. */
  lemma ReplaceFirstRunAfter(d: string, sep: string, rest: string)
    requires d != [] && AllDigits(d) && sep != [] && NoDigits(sep)
    requires rest == [] || IsDigit(rest[0])
    ensures ReplaceFirstNonDigitRun(d + sep + rest) == d + " " + rest
  {
    var s := d + sep + rest;
    assert s[..|d|] == d;
    assert s[|d|] == sep[0];
    DigitPrefixLengthUnique(s, |d|);
    assert s[|d|..] == sep + rest;
    assert (sep + rest)[..|sep|] == sep;
    NonDigitPrefixLengthUnique(sep + rest, |sep|);
    assert s[|d| + |sep|..] == rest;
  }

  /** A string that starts and ends with a digit is its own trim. */
  lemma TrimDigitEnds(t: string)
    requires t != [] && IsDigit(t[0]) && IsDigit(t[|t| - 1])
    ensures Trim(t) == t
  {
    TrimStartUnchanged(t);
    TrimEndUnchanged(t);
  }

  lemma SplitTwo(a: string, b: string)
    requires ' ' !in a && ' ' !in b
    ensures Split(a + " " + b, ' ') == [a, b]
  {
    SplitAfterPart(a, ' ', b);
    SplitWithoutSeparator(b, ' ');
  }

  lemma SplitThree(a: string, b: string, c: string)
    requires ' ' !in a && ' ' !in b && ' ' !in c
    ensures Split(a + " " + b + " " + c, ' ') == [a, b, c]
  {
    assert a + " " + b + " " + c == a + [' '] + (b + " " + c);
    SplitAfterPart(a, ' ', b + " " + c);
    SplitTwo(b, c);
  }

  lemma DigitsHaveNoSpace(d: string)
    requires AllDigits(d)
    ensures ' ' !in d
  {
  }

  /** Three digit runs joined by single spaces: already what the replace, trim and split expect. */
  lemma SpacedDigitRuns(a: string, b: string, c: string)
    requires a != [] && AllDigits(a) && b != [] && AllDigits(b) && c != [] && AllDigits(c)
    ensures var s := a + " " + b + " " + c;
      ReplaceFirstNonDigitRun(s) == s && Trim(s) == s && Split(s, ' ') == [a, b, c]
  {
    SpacedReplace(a, b, c);
    SpacedTrim(a, b, c);
    DigitsHaveNoSpace(a);
    DigitsHaveNoSpace(b);
    DigitsHaveNoSpace(c);
    SplitThree(a, b, c);
  }

  lemma SpacedReplace(a: string, b: string, c: string)
    requires a != [] && AllDigits(a) && b != [] && AllDigits(b)
    ensures ReplaceFirstNonDigitRun(a + " " + b + " " + c) == a + " " + b + " " + c
  {
    var s := a + " " + b + " " + c;
    assert s == a + " " + (b + " " + c);
    assert (b + " " + c)[0] == b[0];
    ReplaceFirstRunAfter(a, " ", b + " " + c);
  }

  lemma SpacedTrim(a: string, b: string, c: string)
    requires a != [] && AllDigits(a) && c != [] && AllDigits(c)
    ensures Trim(a + " " + b + " " + c) == a + " " + b + " " + c
  {
    var s := a + " " + b + " " + c;
    assert s[0] == a[0] && s[|s| - 1] == c[|c| - 1];
    TrimDigitEnds(s);
  }

  /** Year first, with plain single spaces: `date` reads "YYYY MM DD" as intended. */
  lemma DateYearFirstSpaced(y: string, m: string, d: string)
    requires |y| == 4 && AllDigits(y) && m != [] && AllDigits(m) && d != [] && AllDigits(d)
    ensures Date(y + " " + m + " " + d) == y + "-" + m + "-" + d
  {
    var s := y + " " + m + " " + d;
    SpacedDigitRuns(y, m, d);
    DateThroughParts(s, s, [y, m, d]);
  }

  /** `date` is `DateFromParts` of the pieces its replace, trim and split produce. */
  lemma DateThroughParts(input: string, t: string, parts: seq<string>)
    requires ReplaceFirstNonDigitRun(input) == t && Trim(t) == t && Split(t, ' ') == parts
    ensures Date(input) == DateFromParts(parts)
  {
  }

  /**
   * `date` as written does not normalise the second separator: a year-first date
   * whose second separator is not a space gets its month glued to the day and
   * reads "undefined" for the day.
   */
  lemma DateKeepsSecondSeparator(y: string, sep1: string, m: string, sep2: string, d: string)
    requires |y| == 4 && AllDigits(y) && m != [] && AllDigits(m) && d != [] && AllDigits(d)
    requires sep1 != [] && NoDigits(sep1) && ' ' !in sep2
    ensures Date(y + sep1 + m + sep2 + d) == y + "-" + (m + sep2 + d) + "-" + "undefined"
  {
    var rest := m + sep2 + d;
    assert y + sep1 + m + sep2 + d == y + sep1 + rest;
    assert rest[0] == m[0];
    ReplaceFirstRunAfter(y, sep1, rest);
    var t := y + " " + rest;
    assert t[0] == y[0] && t[|t| - 1] == d[|d| - 1];
    TrimDigitEnds(t);
    DigitsHaveNoSpace(y);
    DigitsHaveNoSpace(m);
    DigitsHaveNoSpace(d);
    SplitTwo(y, rest);
    assert Split(Trim(ReplaceFirstNonDigitRun(y + sep1 + m + sep2 + d)), ' ') == [y, rest];
  }

  lemma DateAsWrittenExample()
    ensures Date("2018-05-20") == "2018-05-20-undefined"
  {
    assert "2018" + "-" + "05" + "-" + "20" == "2018-05-20";
    assert "2018" + "-" + ("05" + "-" + "20") + "-" + "undefined" == "2018-05-20-undefined";
    DateKeepsSecondSeparator("2018", "-", "05", "-", "20");
  }

  /** The digit groups of three digit runs separated by non-digits. */
  lemma GroupsOfThree(a: string, sep1: string, b: string, sep2: string, c: string)
    requires a != [] && AllDigits(a) && b != [] && AllDigits(b) && c != [] && AllDigits(c)
    requires sep1 != [] && NoDigits(sep1) && sep2 != [] && NoDigits(sep2)
    ensures DigitGroups(a + sep1 + b + sep2 + c) == [a, b, c]
  {
    GroupsSeparatedBy(a + sep1 + b, sep2, c);
    GroupsAfterDigitRun(a, sep1, b);
    GroupsOfDigits(b);
    GroupsOfDigits(c);
  }

  /** Three digit groups that the corrected `date` reads. */
  lemma DateCorrectedParts(a: string, sep1: string, b: string, sep2: string, c: string)
    requires a != [] && AllDigits(a) && b != [] && AllDigits(b) && c != [] && AllDigits(c)
    requires sep1 != [] && NoDigits(sep1) && sep2 != [] && NoDigits(sep2)
    ensures Split(Trim(ReplaceNonDigitRuns(a + sep1 + b + sep2 + c)), ' ') == [a, b, c]
  {
    var s := a + sep1 + b + sep2 + c;
    assert s[0] == a[0];
    ReplaceTrimSplitIsGroups(s);
    GroupsOfThree(a, sep1, b, sep2, c);
  }

  /** The corrected `date` reads year-first dates whatever the non-digit separators. */
  lemma DateCorrectedYearFirst(y: string, sep1: string, m: string, sep2: string, d: string)
    requires |y| == 4 && AllDigits(y) && m != [] && AllDigits(m) && d != [] && AllDigits(d)
    requires sep1 != [] && NoDigits(sep1) && sep2 != [] && NoDigits(sep2)
    ensures DateCorrected(y + sep1 + m + sep2 + d) == y + "-" + m + "-" + d
  {
    DateCorrectedParts(y, sep1, m, sep2, d);
  }

  /** The corrected `date` reads day-first dates (a two-digit first part) the same way. */
  lemma DateCorrectedDayFirst(d: string, sep1: string, m: string, sep2: string, y: string)
    requires |d| == 2 && AllDigits(d) && m != [] && AllDigits(m) && y != [] && AllDigits(y)
    requires sep1 != [] && NoDigits(sep1) && sep2 != [] && NoDigits(sep2)
    ensures DateCorrected(d + sep1 + m + sep2 + y) == y + "-" + m + "-" + d
  {
    DateCorrectedParts(d, sep1, m, sep2, y);
  }

  lemma DateCorrectedExample()
    ensures DateCorrected("2018-05-20") == "2018-05-20"
    ensures DateCorrected("20.05.2018") == "2018-05-20"
  {
    assert "2018" + "-" + "05" + "-" + "20" == "2018-05-20";
    assert "20" + "." + "05" + "." + "2018" == "20.05.2018";
    DateCorrectedYearFirst("2018", "-", "05", "-", "20");
    DateCorrectedDayFirst("20", ".", "05", ".", "2018");
  }

  // ---------------------------------------------------------------- range

  /** Every element except the last is exactly one less than its successor. */
  predicate Consecutive(ns: seq<nat>) {
    forall i :: 0 <= i < |ns| - 1 ==> ns[i] + 1 == ns[i + 1]
  }

  /** `Array(b - a + 1).fill().map((_, idx) => a + idx)`: the run a, a+1, ..., b. */
  function Interval(a: nat, b: nat): (r: seq<nat>)
    requires a <= b
    ensures |r| == b - a + 1 && r[0] == a && r[|r| - 1] == b
    ensures Consecutive(r)
  {
    seq(b - a + 1, idx => a + idx)
  }

  /** `input.replace(/\D+/g, " ").trim().split(" ")`: the pieces `range` parses. */
  function RangeParts(input: string): (r: seq<string>)
    ensures HasDigit(input) ==> r == DigitGroups(input)
    ensures !HasDigit(input) ==> r == [""]
  {
    if HasDigit(input) then ReplaceTrimSplitIsGroups(input); Split(Trim(ReplaceNonDigitRuns(input)), ' ')
    else NoDigitsLeaveOneEmptyPart(input); Split(Trim(ReplaceNonDigitRuns(input)), ' ')
  }

  /** Without a digit, the replace leaves at most one space, the trim nothing, and the split one empty part. */
  lemma NoDigitsLeaveOneEmptyPart(s: string)
    requires !HasDigit(s)
    ensures Split(Trim(ReplaceNonDigitRuns(s)), ' ') == [""]
  {
    if s != [] {
      ReplaceNoDigits(s);
    }
    SplitWithoutSeparator("", ' ');
  }

  /**
   * `range`: parse every digit group; two ascending numbers expand to their full
   * run; the outcome is kept only if it is consecutive and ascending.
   */
  function Range(input: string): (r: Option<seq<nat>>)
    requires HasDigit(input)
    ensures r.Some? ==> r.value != [] && Consecutive(r.value)
  {
    ReplaceTrimSplitIsGroups(input);
    GroupsAreDigits(input);
    GroupsNonEmpty(input);
    var parts := RangeParts(input);
    var parsed := seq(|parts|, i requires 0 <= i < |parts| => ParseDigits(parts[i]));
    var expanded := if |parsed| == 2 && parsed[0] < parsed[1] then Interval(parsed[0], parsed[1]) else parsed;
    if Consecutive(expanded) then Some(expanded) else None
  }

  /** Before expansion, `range` works on exactly the numbers of the digit groups. */
  lemma RangeParsesNumbers(input: string)
    requires HasDigit(input)
    ensures var ns := Numbers(input);
      Range(input) == (
        if |ns| == 2 && ns[0] < ns[1] then Some(Interval(ns[0], ns[1]))
        else if Consecutive(ns) then Some(ns) else None)
  {
    ReplaceTrimSplitIsGroups(input);
    GroupsAreDigits(input);
    GroupsNonEmpty(input);
  }

  /** Two ascending numbers expand to the inclusive run between them. */
  lemma RangeExpandsAscendingPair(input: string)
    requires HasDigit(input)
    requires |Numbers(input)| == 2 && Numbers(input)[0] < Numbers(input)[1]
    ensures var a, b := Numbers(input)[0], Numbers(input)[1];
      && Range(input) == Some(Interval(a, b))
      && |Range(input).value| == b - a + 1
      && Range(input).value[0] == a && Range(input).value[b - a] == b
  {
    RangeParsesNumbers(input);
  }

  /** Two numbers that do not ascend are rejected. */
  lemma RangeRejectsDescendingPair(input: string)
    requires HasDigit(input)
    requires |Numbers(input)| == 2 && Numbers(input)[0] >= Numbers(input)[1]
    ensures Range(input) == None
  {
    RangeParsesNumbers(input);
  }

  /** One number, or three and more, are never expanded: kept as they are exactly when consecutive. */
  lemma RangeKeepsOtherCounts(input: string)
    requires HasDigit(input)
    requires |Numbers(input)| != 2
    ensures Range(input) == (if Consecutive(Numbers(input)) then Some(Numbers(input)) else None)
    ensures |Numbers(input)| == 1 ==> Range(input) == Some(Numbers(input))
  {
    RangeParsesNumbers(input);
  }

  /** Which non-digits separate the numbers does not matter to `range`. */
  lemma RangeIgnoresSeparators(x: string, sep1: string, sep2: string, y: string)
    requires sep1 != [] && NoDigits(sep1) && sep2 != [] && NoDigits(sep2)
    requires HasDigit(x) || HasDigit(y)
    ensures HasDigit(x + sep1 + y) && HasDigit(x + sep2 + y)
    ensures Range(x + sep1 + y) == Range(x + sep2 + y)
  {
    NumbersSeparatedBy(x, sep1, y);
    NumbersSeparatedBy(x, sep2, y);
    GroupsSeparatedBy(x, sep1, y);
    GroupsSeparatedBy(x, sep2, y);
    GroupsNonEmpty(x);
    GroupsNonEmpty(y);
    GroupsNonEmpty(x + sep1 + y);
    GroupsNonEmpty(x + sep2 + y);
    RangeParsesNumbers(x + sep1 + y);
    RangeParsesNumbers(x + sep2 + y);
  }

  /** The value of a digit string written as the decimal form of `n`. */
  lemma DecimalValue(n: nat, d: string)
    requires DecimalString(n) == d
    ensures AllDigits(d) && d != [] && ParseDigits(d) == n && IsDigit(d[0])
  {
    ParseDecimalString(n);
  }

  /** The numbers of two digit runs with non-digits between them. */
  lemma NumbersOfPair(a: string, sep: string, b: string)
    requires a != [] && AllDigits(a) && b != [] && AllDigits(b) && sep != [] && NoDigits(sep)
    ensures HasDigit(a + sep + b)
    ensures Numbers(a + sep + b) == [ParseDigits(a), ParseDigits(b)]
  {
    assert (a + sep + b)[0] == a[0];
    NumbersSeparatedBy(a, sep, b);
    NumbersOfDigits(a);
    NumbersOfDigits(b);
  }

  /*
   * The worked examples below take the pieces of their input as parameters
   * pinned to literals by `requires`. The solver then reasons about the
   * concatenation of named pieces, through the general lemmas above, instead
   * of unfolding one long string literal character by character, which keeps
   * each proof cheap. Each example still covers only the literal inputs the
   * requires admit.
   */

  /** "23-24" and "23, 24" both give [23, 24]: the input is written as its pieces. */
  lemma RangeExamplePair(a: string, sep: string, b: string)
    requires a == "23" && b == "24" && (sep == "-" || sep == ", ")
    ensures HasDigit(a + sep + b) && Range(a + sep + b) == Some([23, 24])
  {
    NumbersOfDecimalPair(23, 24, a, sep, b);
    RangeExpandsAscendingPair(a + sep + b);
    IntervalOfTwo(23);
  }

  /** The decimal texts of two numbers with a separator between them hold those numbers. */
  lemma NumbersOfDecimalPair(x: nat, y: nat, a: string, sep: string, b: string)
    requires DecimalString(x) == a && DecimalString(y) == b && sep != [] && NoDigits(sep)
    ensures HasDigit(a + sep + b) && Numbers(a + sep + b) == [x, y]
  {
    DecimalValue(x, a);
    DecimalValue(y, b);
    NumbersOfPair(a, sep, b);
  }

  lemma IntervalOfTwo(n: nat)
    ensures Interval(n, n + 1) == [n, n + 1]
  {
    var r := Interval(n, n + 1);
    assert |r| == 2 && r[0] == n && r[1] == n + 1;
  }

  /** "1-291" expands to the 291 episodes 1 to 291. */
  lemma RangeExampleLong(a: string, sep: string, b: string)
    requires a == "1" && sep == "-" && b == "291"
    ensures HasDigit(a + sep + b) && Range(a + sep + b).Some?
    ensures var r := Range(a + sep + b).value; |r| == 291 && r[0] == 1 && r[290] == 291
  {
    NumbersOfDecimalPair(1, 291, a, sep, b);
    RangeExpandsAscendingPair(a + sep + b);
  }

  /** "103, The, 09": two numbers that do not ascend, so no range. */
  lemma RangeExampleRejected(a: string, sep: string, b: string)
    requires a == "103" && sep == ", The, " && b == "09"
    ensures HasDigit(a + sep + b) && Range(a + sep + b) == None
  {
    DecimalValue(103, a);
    assert ParseDigits(b) < 100;
    NumbersOfPair(a, sep, b);
    RangeRejectsDescendingPair(a + sep + b);
  }

  // ---------------------------------------------------------------- yearRange

  /** What `yearRange` returns: the start year alone (a number) or a text. */
  datatype YearValue = YearNumber(year: nat) | YearText(text: string)

  /**
   * `yearRange`. `start` and `end` are the first two pieces of `split(/\D+/)`,
   * parsed. A piece that is the empty string stays "" (falsy) in JavaScript;
   * when the input starts with a non-digit, `start` is that "" and JavaScript's
   * coercions make the result "" or "-" followed by `end`.
   */
  function YearRange(input: string): (r: Option<YearValue>)
    ensures r.None? ==> input != [] && IsDigit(input[0])
  {
    var parts := SplitOnNonDigitRuns(input);
    var hasEnd := |parts| >= 2 && parts[1] != [] && ParseDigits(parts[1]) != 0;
    if parts[0] == [] then
      if !hasEnd then Some(YearText(""))
      else Some(YearText("-" + DecimalString(ParseDigits(parts[1]))))
    else
      var start := ParseDigits(parts[0]);
      if !hasEnd then Some(YearNumber(start))
      else
        var end := CompletedEnd(start, ParseDigits(parts[1]));
        if end <= start then None
        else Some(YearText(DecimalString(start) + "-" + DecimalString(end)))
  }

  /** A two-digit end year completed from the start year's century. */
  function CompletedEnd(start: nat, end: nat): (e: nat)
    ensures end >= 100 ==> e == end
    ensures end < 100 ==> e % 100 == end % 100 && e / 100 == start / 100
  {
    if end < 100 then end + start - start % 100 else end
  }

  /**
   * `yearRange` on an input starting with a digit, in terms of its numbers:
   * no (or a zero) second number gives the start alone; otherwise the end is
   * completed, and the range is rejected unless it ascends.
   */
  lemma YearRangeOfNumbers(input: string)
    requires input != [] && IsDigit(input[0])
    ensures var ns := Numbers(input);
      && ns != []
      && (|ns| < 2 || ns[1] == 0 ==> YearRange(input) == Some(YearNumber(ns[0])))
      && (|ns| >= 2 && ns[1] != 0 ==>
            var e := CompletedEnd(ns[0], ns[1]);
            YearRange(input)
              == if e <= ns[0] then None
                 else Some(YearText(DecimalString(ns[0]) + "-" + DecimalString(e))))
  {
    SplitRunsAgreesWithGroups(input);
    GroupsAreDigits(input);
    var parts := SplitOnNonDigitRuns(input);
    assert parts[0] != [];
  }

  /** How a `yearRange` value reads back as text. */
  function YearValueText(v: YearValue): string {
    match v
    case YearNumber(n) => DecimalString(n)
    case YearText(t) => t
  }

  lemma YearTextNumbers(a: nat, e: nat)
    ensures var t := DecimalString(a) + "-" + DecimalString(e);
      t != [] && IsDigit(t[0]) && Numbers(t) == [a, e]
  {
    var t := DecimalString(a) + "-" + DecimalString(e);
    assert t[0] == DecimalString(a)[0];
    NumbersSeparatedBy(DecimalString(a), "-", DecimalString(e));
    NumbersOfDigits(DecimalString(a));
    NumbersOfDigits(DecimalString(e));
    ParseDecimalString(a);
    ParseDecimalString(e);
  }

  /** `yearRange` applied again to the text of its own result gives the same result. */
  lemma YearRangeIdempotent(input: string)
    requires YearRange(input).Some?
    ensures YearRange(YearValueText(YearRange(input).value)) == YearRange(input)
  {
    var parts := SplitOnNonDigitRuns(input);
    var v := YearRange(input).value;
    if parts[0] == [] {
      if v.text == [] {
        assert SplitOnNonDigitRuns([]) == [[]];
      } else {
        var e := ParseDigits(parts[1]);
        var d := DecimalString(e);
        var t := "-" + d;
        assert t == v.text;
        DigitPrefixLengthUnique(t, 0);
        NonDigitPrefixLengthUnique(t, 1);
        assert t[1..] == d;
        DigitPrefixLengthOfDigits(d);
        assert d[..|d|] == d;
        assert SplitOnNonDigitRuns(t) == [[], d];
        ParseDecimalString(e);
      }
    } else {
      assert input != [] && IsDigit(input[0]);
      YearRangeOfNumbers(input);
      var ns := Numbers(input);
      match v
      case YearNumber(n) =>
        var d := DecimalString(n);
        NumbersOfDigits(d);
        ParseDecimalString(n);
        YearRangeOfNumbers(d);
      case YearText(t) =>
        var e := CompletedEnd(ns[0], ns[1]);
        YearTextNumbers(ns[0], e);
        YearRangeOfNumbers(t);
    }
  }

  // The year-range examples take their pieces as pinned parameters, as the range examples do.

  /** "1988 - 89": the two-digit end is completed from the start's century. */
  lemma YearRangeExampleShortEnd(a: string, sep: string, b: string)
    requires a == "1988" && sep == " - " && b == "89"
    ensures YearRange(a + sep + b) == Some(YearText("1988-1989"))
  {
    assert CompletedEnd(1988, 89) == 1989;
    assert DecimalString(1989) == "1989";
    assert a + "-" + "1989" == "1988-1989";
    YearRangeOfDecimalPair(1988, 89, a, sep, b);
  }

  /** "2001-2011" is kept as it is. */
  lemma YearRangeExampleFullEnd(a: string, sep: string, b: string)
    requires a == "2001" && sep == "-" && b == "2011"
    ensures YearRange(a + sep + b) == Some(YearText("2001-2011"))
  {
    assert CompletedEnd(2001, 2011) == 2011;
    assert a + "-" + b == "2001-2011";
    YearRangeOfDecimalPair(2001, 2011, a, sep, b);
  }

  /** "1999-1998" does not ascend, so no year. */
  lemma YearRangeExampleDescending(a: string, sep: string, b: string)
    requires a == "1999" && sep == "-" && b == "1998"
    ensures YearRange(a + sep + b) == None
  {
    YearRangeOfDecimalPair(1999, 1998, a, sep, b);
  }

  /** `yearRange` of the decimal texts of two numbers, the end non-zero, with a separator between. */
  lemma YearRangeOfDecimalPair(x: nat, y: nat, a: string, sep: string, b: string)
    requires DecimalString(x) == a && DecimalString(y) == b && y != 0
    requires sep != [] && NoDigits(sep)
    ensures var e := CompletedEnd(x, y);
      YearRange(a + sep + b)
        == if e <= x then None else Some(YearText(a + "-" + DecimalString(e)))
  {
    NumbersOfDecimalPair(x, y, a, sep, b);
    assert (a + sep + b)[0] == a[0];
    YearRangeOfNumbers(a + sep + b);
  }

  /** A lone year is returned as a number. */
  lemma YearRangeExampleSingle(a: string)
    requires a == "2014"
    ensures YearRange(a) == Some(YearNumber(2014))
  {
    DecimalValue(2014, a);
    NumbersOfDigits(a);
    YearRangeOfNumbers(a);
  }

  // ---------------------------------------------------------------- integer

  /** `integer` reads back the decimal text of any non-negative number. */
  lemma IntegerOfDecimal(n: nat)
    ensures Integer(DecimalString(n)) == Some(n)
  {
    ParseDecimalString(n);
    ParseIntOfDigits(DecimalString(n));
  }

  /** `integer` stops at the first non-digit after the number. */
  lemma IntegerStopsAtNonDigit(d: string, rest: string)
    requires d != [] && AllDigits(d) && (rest == [] || !IsDigit(rest[0]))
    ensures Integer(d + rest) == Some(ParseDigits(d))
  {
    var s := d + rest;
    assert DigitPrefixLength(s) == |d| by {
      assert s[..|d|] == d;
      DigitPrefixLengthUnique(s, |d|);
    }
    ParseIntOfDigitPrefix(s, |d|);
    assert s[..|d|] == d;
  }

  lemma IntegerOfNoDigits(s: string)
    requires !HasDigit(s)
    ensures Integer(s) == None
  {
  }

  /** `lowercase` is idempotent. */
  lemma LowercaseIdempotent(s: string)
    ensures Lowercase(Lowercase(s)) == Lowercase(s)
  {
  }
}
