/**
 * The two custom handlers of src/handlers.js: the codec normaliser (lines
 * 66-70) and the absolute-episode handler (lines 99-114). Both are modelled
 * as functions from the result record to the updated record.
 */
module Handlers {
  import opened Wrappers
  import opened JsString
  import opened Results
  import Digits

  // ---------------------------------------------------------------- codec

  /** The characters of the class `[ .-]`. */
  predicate IsCodecSeparator(c: char) {
    c == ' ' || c == '.' || c == '-'
  }

  predicate NoCodecSeparator(s: string) {
    forall i :: 0 <= i < |s| ==> !IsCodecSeparator(s[i])
  }

  /** `k` is the first position of a codec separator in `s`. */
  predicate FirstCodecSeparatorAt(s: string, k: int) {
    0 <= k < |s| && IsCodecSeparator(s[k]) && NoCodecSeparator(s[..k])
  }

  /** `s.replace(/[ .-]/, "")`: the first space, dot or hyphen is dropped, the rest kept. */
  function RemoveFirstCodecSeparator(s: string): (r: string)
    ensures NoCodecSeparator(s) ==> r == s
    ensures forall k :: FirstCodecSeparatorAt(s, k) ==> r == s[..k] + s[k + 1..]
    decreases |s|
  {
    if s == [] then []
    else if IsCodecSeparator(s[0]) then s[1..]
    else
      assert forall k :: FirstCodecSeparatorAt(s, k) ==> FirstSeparatorInTail(s, k) by {
        forall k | FirstCodecSeparatorAt(s, k)
          ensures FirstSeparatorInTail(s, k)
        {
          SeparatorInTail(s, k);
        }
      }
      [s[0]] + RemoveFirstCodecSeparator(s[1..])
  }

  /** The first separator at `k > 0` is the tail's first, and removing it there removes it from `s`. */
  predicate FirstSeparatorInTail(s: string, k: int)
    requires 0 < k < |s|
  {
    FirstCodecSeparatorAt(s[1..], k - 1) && [s[0]] + (s[1..][..k - 1] + s[1..][k..]) == s[..k] + s[k + 1..]
  }

  lemma SeparatorInTail(s: string, k: int)
    requires s != [] && !IsCodecSeparator(s[0]) && FirstCodecSeparatorAt(s, k)
    ensures 0 < k < |s| && FirstSeparatorInTail(s, k)
  {
    assert s[1..][..k - 1] == s[1..k];
    assert s[1..][k..] == s[k + 1..];
    assert [s[0]] + s[1..k] == s[..k];
  }

  /** Some codec separator occurs exactly when a first one does. */
  lemma {:induction false} FirstCodecSeparatorExists(s: string)
    requires !NoCodecSeparator(s)
    ensures exists k :: FirstCodecSeparatorAt(s, k)
    decreases |s|
  {
    if IsCodecSeparator(s[0]) {
      assert FirstCodecSeparatorAt(s, 0);
    } else {
      FirstCodecSeparatorExists(s[1..]);
      var k :| FirstCodecSeparatorAt(s[1..], k);
      assert s[..k + 1] == [s[0]] + s[1..][..k];
      assert FirstCodecSeparatorAt(s, k + 1);
    }
  }

  /** A codec that holds at most one separator is left with none, so normalising twice changes nothing more. */
  lemma CodecSeparatorRemovedOnce(s: string, k: nat)
    requires FirstCodecSeparatorAt(s, k) && NoCodecSeparator(s[k + 1..])
    ensures NoCodecSeparator(RemoveFirstCodecSeparator(s))
    ensures RemoveFirstCodecSeparator(RemoveFirstCodecSeparator(s)) == RemoveFirstCodecSeparator(s)
  {
    var r := s[..k] + s[k + 1..];
    assert RemoveFirstCodecSeparator(s) == r;
    assert forall i :: 0 <= i < |r| ==> r[i] == (if i < k then s[..k][i] else s[k + 1..][i - k]);
  }

  /**
   * The codec handler: a truthy codec loses its first separator; an absent or
   * empty codec, and every other field, are left as they are.
   */
  function NormaliseCodec(result: ParserResult): (r: ParserResult)
    ensures r == result.(codec := r.codec)
    ensures !StringTruthy(result.codec) ==> r == result
    ensures StringTruthy(result.codec) && NoCodecSeparator(result.codec.value) ==> r == result
    ensures StringTruthy(result.codec) ==>
      forall k :: FirstCodecSeparatorAt(result.codec.value, k) ==>
        r.codec == Some(result.codec.value[..k] + result.codec.value[k + 1..])
  {
    if StringTruthy(result.codec) then result.(codec := Some(RemoveFirstCodecSeparator(result.codec.value)))
    else result
  }

  /** "x.264" and "h 265" are normalised to the bare codec name. */
  lemma NormaliseCodecExamples(r: ParserResult)
    ensures NormaliseCodec(r.(codec := Some("x.264"))).codec == Some("x264")
    ensures NormaliseCodec(r.(codec := Some("h 265"))).codec == Some("h265")
  {
    assert FirstCodecSeparatorAt("x.264", 1) && "x.264"[..1] + "x.264"[2..] == "x264";
    assert FirstCodecSeparatorAt("h 265", 1) && "h 265"[..1] + "h 265"[2..] == "h265";
  }

  /** "x-265" loses its hyphen; "xvid", without a separator, is kept. */
  lemma NormaliseCodecMoreExamples(r: ParserResult)
    ensures NormaliseCodec(r.(codec := Some("x-265"))).codec == Some("x265")
    ensures NormaliseCodec(r.(codec := Some("xvid"))).codec == Some("xvid")
  {
    assert FirstCodecSeparatorAt("x-265", 1) && "x-265"[..1] + "x-265"[2..] == "x265";
  }

  // ---------------------------------------------------------------- the window

  /** The matched components the handler looks for, in the order it lists them. */
  const AnchorFields: seq<Field> := [Resolution, Source, Codec, Audio]

  /** `x` is where the truthy component of one of `fields` first occurs in the title. */
  predicate IsAnchorIndex(title: string, matched: map<Field, string>, fields: seq<Field>, x: int) {
    exists f :: f in fields && MatchedTruthy(matched, f) && IndexOf(title, matched[f]) == x
  }

  /**
   * The title positions of the truthy components among `fields`, keeping only
   * positions past the first character (`indexOf` yields -1 when absent).
   */
  function AnchorIndexes(title: string, matched: map<Field, string>, fields: seq<Field>): (xs: seq<nat>)
    ensures forall i :: 0 <= i < |xs| ==> xs[i] > 0 && IsAnchorIndex(title, matched, fields, xs[i])
    ensures forall f :: f in fields && MatchedTruthy(matched, f) && IndexOf(title, matched[f]) > 0 ==>
      IndexOf(title, matched[f]) in xs
  {
    if fields == [] then []
    else
      var rest := AnchorIndexes(title, matched, fields[1..]);
      var f := fields[0];
      assert forall i :: 0 <= i < |rest| ==> IsAnchorIndex(title, matched, fields, rest[i]) by {
        forall i | 0 <= i < |rest|
          ensures IsAnchorIndex(title, matched, fields, rest[i])
        {
          assert IsAnchorIndex(title, matched, fields[1..], rest[i]);
          var g :| g in fields[1..] && MatchedTruthy(matched, g) && IndexOf(title, matched[g]) == rest[i];
          assert g in fields;
        }
      }
      if MatchedTruthy(matched, f) && IndexOf(title, matched[f]) > 0 then [IndexOf(title, matched[f]) as nat] + rest
      else rest
  }

  /** `Math.min(...xs, bound)`. */
  function MinWith(xs: seq<nat>, bound: nat): (m: nat)
    ensures m <= bound && forall i :: 0 <= i < |xs| ==> m <= xs[i]
    ensures m == bound || m in xs
  {
    if xs == [] then bound
    else
      var rest := MinWith(xs[1..], bound);
      if xs[0] < rest then xs[0] else rest
  }

  /**
   * `endIndex`: the title's length, or the earliest position past the start at
   * which a matched resolution, source, codec or audio string occurs.
   */
  function EndIndex(title: string, matched: map<Field, string>): (e: nat)
    ensures e <= |title|
    ensures forall f :: f in AnchorFields && MatchedTruthy(matched, f) && IndexOf(title, matched[f]) > 0 ==>
      e <= IndexOf(title, matched[f])
    ensures e == |title| || (e > 0 && IsAnchorIndex(title, matched, AnchorFields, e))
  {
    var xs := AnchorIndexes(title, matched, AnchorFields);
    var e := MinWith(xs, |title|);
    if e < |title| then
      assert exists i :: 0 <= i < |xs| && xs[i] == e;
      e
    else |title|
  }

  // ---------------------------------------------------------------- the pattern

  /*
   * The handler searches the window with
   * `/(?:[ .([-]|^)(\d{1,3})[ab]?(?:[ .(\]-]|$)/g`, scanned here by hand in the
   * order a backtracking matcher tries its choices.
   */

  /** One match: it spans `w[start..end]`; its digit group is `w[digitsStart..digitsEnd]`. */
  datatype Hit = Hit(start: nat, digitsStart: nat, digitsEnd: nat, end: nat)

  /** The characters of the class `[ .([-]` before the number. */
  predicate IsLeader(c: char) {
    c == ' ' || c == '.' || c == '(' || c == '[' || c == '-'
  }

  /** The characters of the class `[ .(\]-]` after the number. */
  predicate IsTerminator(c: char) {
    c == ' ' || c == '.' || c == '(' || c == ']' || c == '-'
  }

  /** `(?:[ .(\]-]|$)` tried at `t`: the end of the match, if it fits. */
  function AfterNumber(w: string, t: nat): (r: Option<nat>)
    requires t <= |w|
    ensures r.Some? ==> t <= r.value <= |w| && r.value <= t + 1
    ensures r.Some? ==> t == |w| || IsTerminator(w[t])
    ensures r.Some? ==> NoDigits(w[t..r.value])
    ensures r.Some? <==> t == |w| || IsTerminator(w[t])
    ensures t < |w| && IsTerminator(w[t]) ==> r == Some(t + 1)
    ensures t == |w| ==> r == Some(t)
  {
    if t < |w| && IsTerminator(w[t]) then Some(t + 1)
    else if t == |w| then Some(t)
    else None
  }

  /** `[ab]?(?:[ .(\]-]|$)` fits at `t`: a terminator or the end, straight away or after an `a` or `b`. */
  predicate SuffixFits(w: string, t: nat)
    requires t <= |w|
  {
    || t == |w| || IsTerminator(w[t])
    || ((w[t] == 'a' || w[t] == 'b') && (t + 1 == |w| || IsTerminator(w[t + 1])))
  }

  /** `[ab]?` (greedy, so the letter is tried first) and then the terminator, from `t`. */
  function Suffix(w: string, t: nat): (r: Option<nat>)
    requires t <= |w|
    ensures r.Some? ==> t <= r.value <= |w|
    ensures r.Some? ==> t == |w| || !IsDigit(w[t])
    ensures r.Some? ==> NoDigits(w[t..r.value])
    ensures r.Some? <==> SuffixFits(w, t)
    ensures t == |w| ==> r == Some(t)
    ensures t < |w| && IsTerminator(w[t]) ==> r == Some(t + 1)
    ensures t < |w| && (w[t] == 'a' || w[t] == 'b') ==>
      r == (if t + 1 == |w| then Some(t + 1) else if IsTerminator(w[t + 1]) then Some(t + 2) else None)
  {
    if t < |w| && (w[t] == 'a' || w[t] == 'b') && AfterNumber(w, t + 1).Some? then
      assert w[t..AfterNumber(w, t + 1).value] == [w[t]] + w[t + 1..AfterNumber(w, t + 1).value];
      AfterNumber(w, t + 1)
    else AfterNumber(w, t)
  }

  /** `(\d{1,3})` from `q`, taking `k` digits and backtracking to fewer when the rest fails. */
  function DigitsThen(w: string, q: nat, k: nat): (r: Option<Hit>)
    requires q + k <= |w| && AllDigits(w[q..q + k])
    ensures r.Some? ==> r.value.start == r.value.digitsStart == q && q < r.value.digitsEnd <= q + k
    ensures r.Some? ==> r.value.digitsEnd <= r.value.end <= |w|
    ensures r.Some? ==> r.value.digitsEnd == |w| || !IsDigit(w[r.value.digitsEnd])
    ensures r.Some? ==> NoDigits(w[r.value.digitsEnd..r.value.end])
    ensures r.Some? ==> Suffix(w, r.value.digitsEnd) == Some(r.value.end)
    decreases k
  {
    if k == 0 then None
    else if Suffix(w, q + k).Some? then Some(Hit(q, q, q + k, Suffix(w, q + k).value))
    else
      assert w[q..q + (k - 1)] == w[q..q + k][..k - 1];
      DigitsThen(w, q, k - 1)
  }

  /** The most digits `\d{1,3}` can take at `q`. */
  function MaxDigits(w: string, q: nat): (k: nat)
    requires q <= |w|
    ensures k <= 3 && q + k <= |w| && AllDigits(w[q..q + k])
    ensures k < 3 ==> q + k == |w| || !IsDigit(w[q + k])
  {
    var run := DigitPrefixLength(w[q..]);
    assert w[q..][..run] == w[q..q + run];
    if run < 3 then run
    else
      assert w[q..q + 3] == w[q..q + run][..3];
      3
  }

  /** A match is a whole digit group of at most three digits, with no digit around it. */
  predicate WellFormedHit(w: string, h: Hit) {
    && h.start <= h.digitsStart < h.digitsEnd <= h.end <= |w|
    && h.digitsEnd - h.digitsStart <= 3
    && AllDigits(w[h.digitsStart..h.digitsEnd])
    && NoDigits(w[h.start..h.digitsStart]) && NoDigits(w[h.digitsEnd..h.end])
    && (h.digitsStart == 0 || !IsDigit(w[h.digitsStart - 1]))
    && (h.digitsEnd == |w| || !IsDigit(w[h.digitsEnd]))
  }

  /** `(\d{1,3})[ab]?(?:[ .(\]-]|$)` from `q`. */
  function NumberFrom(w: string, q: nat): (r: Option<Hit>)
    requires q <= |w|
    ensures r.Some? ==> r.value.start == r.value.digitsStart == q && r.value.digitsEnd - q <= 3
    ensures r.Some? ==> q < r.value.digitsEnd <= r.value.end <= |w|
    ensures r.Some? ==> AllDigits(w[q..r.value.digitsEnd])
    ensures r.Some? ==> r.value.digitsEnd == |w| || !IsDigit(w[r.value.digitsEnd])
    ensures r.Some? ==> NoDigits(w[r.value.digitsEnd..r.value.end])
    ensures r.Some? ==> Suffix(w, r.value.digitsEnd) == Some(r.value.end)
  {
    var k := MaxDigits(w, q);
    var r := DigitsThen(w, q, k);
    if r.Some? then
      assert w[q..r.value.digitsEnd] == w[q..q + k][..r.value.digitsEnd - q];
      r
    else r
  }

  /** One attempt of the whole pattern at position `p`: the `[ .([-]` branch first, then `^`. */
  function MatchAt(w: string, p: nat): (r: Option<Hit>)
    requires p <= |w|
    ensures r.Some? ==> r.value.start == p && WellFormedHit(w, r.value)
    ensures r.Some? ==> (p < |w| && IsLeader(w[p]) && r.value.digitsStart == p + 1) || (p == 0 && r.value.digitsStart == 0)
    ensures r.Some? ==> Suffix(w, r.value.digitsEnd) == Some(r.value.end)
  {
    if p < |w| && IsLeader(w[p]) && NumberFrom(w, p + 1).Some? then
      var h := NumberFrom(w, p + 1).value;
      NumberHitWellFormed(w, h.(start := p));
      Some(h.(start := p))
    else if p == 0 && NumberFrom(w, 0).Some? then
      var h := NumberFrom(w, 0).value;
      NumberHitWellFormed(w, h);
      Some(h)
    else None
  }

  /** A whole run of up to three digits with a non-digit suffix, led by nothing or by one leader. */
  lemma NumberHitWellFormed(w: string, h: Hit)
    requires h.digitsStart < h.digitsEnd <= h.end <= |w| && h.digitsEnd - h.digitsStart <= 3
    requires h.start == h.digitsStart || (h.start + 1 == h.digitsStart && IsLeader(w[h.start]))
    requires AllDigits(w[h.digitsStart..h.digitsEnd]) && NoDigits(w[h.digitsEnd..h.end])
    requires h.digitsEnd == |w| || !IsDigit(w[h.digitsEnd])
    requires h.digitsStart == 0 || h.start + 1 == h.digitsStart
    ensures WellFormedHit(w, h)
  {
    if h.start < h.digitsStart {
      assert w[h.start..h.digitsStart] == [w[h.start]];
    }
  }

  /**
   * `(\d{1,3})[ab]?(?:[ .(\]-]|$)` can match from `q` taking `k` digits: they
   * are a whole run of one to three digits, and the suffix fits after them.
   */
  predicate NumberFits(w: string, q: nat, k: nat) {
    && q + k <= |w| && 1 <= k <= 3 && AllDigits(w[q..q + k])
    && (q + k == |w| || !IsDigit(w[q + k])) && SuffixFits(w, q + k)
  }

  /** Where the number part fits, it matches: the whole digit run and then the suffix. */
  lemma NumberFromFits(w: string, q: nat, k: nat)
    requires NumberFits(w, q, k)
    ensures NumberFrom(w, q) == Some(Hit(q, q, q + k, Suffix(w, q + k).value))
  {
    assert MaxDigits(w, q) == k by {
      assert w[q..][..k] == w[q..q + k];
      Digits.DigitPrefixLengthUnique(w[q..], k);
    }
  }

  /** A leader, then a number part that fits: the pattern matches at the leader. */
  lemma MatchAtLeader(w: string, p: nat, k: nat)
    requires p < |w| && IsLeader(w[p]) && NumberFits(w, p + 1, k)
    ensures MatchAt(w, p) == Some(Hit(p, p + 1, p + 1 + k, Suffix(w, p + 1 + k).value))
  {
    NumberFromFits(w, p + 1, k);
  }

  /** A number part that fits at the very start: the pattern matches there through `^`. */
  lemma MatchAtStart(w: string, k: nat)
    requires NumberFits(w, 0, k)
    ensures MatchAt(w, 0) == Some(Hit(0, 0, k, Suffix(w, k).value))
  {
    assert w[0..k][0] == w[0];
    NumberFromFits(w, 0, k);
  }

  /**
   * `w.match(re)` with the `g` flag, from `lastIndex = p`: the leftmost match is
   * taken, the search resumes where it ended, and so on to the end of `w`.
   */
  function MatchAll(w: string, p: nat): (hs: seq<Hit>)
    requires p <= |w| + 1
    ensures forall i :: 0 <= i < |hs| ==> p <= hs[i].start && WellFormedHit(w, hs[i])
    ensures forall i :: 0 <= i < |hs| - 1 ==> hs[i].end <= hs[i + 1].start
    decreases |w| + 1 - p
  {
    if p > |w| then []
    else match MatchAt(w, p)
      case Some(h) => [h] + MatchAll(w, h.end)
      case None => MatchAll(w, p + 1)
  }

  /** The pattern matches at no position of `w` from `a` up to, not including, `b`. */
  predicate NoMatchBetween(w: string, a: nat, b: nat)
    decreases b - a
  {
    a >= b || a > |w| || (MatchAt(w, a).None? && NoMatchBetween(w, a + 1, b))
  }

  lemma {:induction false} NoMatchAt(w: string, a: nat, b: nat, j: nat)
    requires NoMatchBetween(w, a, b) && a <= j < b && j <= |w|
    ensures MatchAt(w, j).None?
    decreases b - a
  {
    if a < j {
      NoMatchAt(w, a + 1, b, j);
    }
  }

  /**
   * `hs` is the list of leftmost, non-overlapping matches from `p` on: the
   * pattern fails at every position before the first one, that one is the match
   * at its start, the rest are found the same way from its end, and the pattern
   * fails everywhere after the last.
   */
  predicate Reports(w: string, p: nat, hs: seq<Hit>)
    decreases |hs|
  {
    if hs == [] then NoMatchBetween(w, p, |w| + 1)
    else
      && hs[0].start <= |w| && NoMatchBetween(w, p, hs[0].start)
      && MatchAt(w, hs[0].start) == Some(hs[0]) && Reports(w, hs[0].end, hs[1..])
  }

  /** The global match reports every match of the pattern, leftmost first, and nothing else. */
  lemma {:induction false} MatchAllIsExact(w: string, p: nat)
    requires p <= |w| + 1
    ensures Reports(w, p, MatchAll(w, p))
    decreases |w| + 1 - p, 1
  {
    if p <= |w| {
      if MatchAt(w, p).Some? {
        ExactAfterHit(w, p);
      } else {
        ExactAfterMiss(w, p);
      }
    }
  }

  lemma {:induction false} ExactAfterHit(w: string, p: nat)
    requires p <= |w| && MatchAt(w, p).Some?
    ensures Reports(w, p, MatchAll(w, p))
    decreases |w| + 1 - p, 0
  {
    var h := MatchAt(w, p).value;
    MatchAllIsExact(w, h.end);
    MatchAllStep(w, p);
    ReportsAfterHit(w, p, h, MatchAll(w, h.end));
  }

  lemma {:induction false} ExactAfterMiss(w: string, p: nat)
    requires p <= |w| && MatchAt(w, p).None?
    ensures Reports(w, p, MatchAll(w, p))
    decreases |w| + 1 - p, 0
  {
    MatchAllIsExact(w, p + 1);
    MatchAllSkip(w, p);
    ReportsAfterMiss(w, p, MatchAll(w, p + 1));
  }

  /** A match at `p` followed by a report from its end is a report from `p`. */
  lemma ReportsAfterHit(w: string, p: nat, h: Hit, rest: seq<Hit>)
    requires p <= |w| && MatchAt(w, p) == Some(h) && Reports(w, h.end, rest)
    ensures Reports(w, p, [h] + rest)
  {
    assert ([h] + rest)[1..] == rest;
  }

  /** A miss at `p`: the search goes on from `p + 1`. */
  lemma MatchAllSkip(w: string, p: nat)
    requires p <= |w| && MatchAt(w, p).None?
    ensures MatchAll(w, p) == MatchAll(w, p + 1)
  {
  }

  /** A miss at `p` lets a report from `p + 1` stand as the report from `p`. */
  lemma ReportsAfterMiss(w: string, p: nat, hs: seq<Hit>)
    requires p <= |w| && MatchAt(w, p).None? && Reports(w, p + 1, hs)
    requires hs != [] ==> p < hs[0].start
    ensures Reports(w, p, hs)
  {
  }

  /** Each reported hit is the match of the pattern at its own start. */
  lemma {:induction false} ReportedHit(w: string, p: nat, hs: seq<Hit>, i: nat)
    requires Reports(w, p, hs) && i < |hs|
    ensures hs[i].start <= |w|
    ensures MatchAt(w, hs[i].start) == Some(hs[i])
    decreases i
  {
    ReportsFirst(w, p, hs);
    if i > 0 {
      var rest := hs[1..];
      ReportedHit(w, hs[0].end, rest, i - 1);
      assert rest[i - 1] == hs[i];
    }
  }

  /** A non-empty report: its first hit is the match at its start, and the rest reports from its end. */
  lemma ReportsFirst(w: string, p: nat, hs: seq<Hit>)
    requires Reports(w, p, hs) && hs != []
    ensures hs[0].start <= |w| && MatchAt(w, hs[0].start) == Some(hs[0])
    ensures Reports(w, hs[0].end, hs[1..])
  {
  }

  /** At a position of `w` from `p` on that lies inside no reported hit, the pattern fails. */
  lemma {:induction false} ReportedMiss(w: string, p: nat, hs: seq<Hit>, j: nat)
    requires Reports(w, p, hs) && p <= j <= |w|
    requires forall i :: 0 <= i < |hs| ==> j < hs[i].start || hs[i].end <= j
    ensures MatchAt(w, j).None?
    decreases |hs|
  {
    if hs == [] {
      NoMatchAt(w, p, |w| + 1, j);
    } else if j < hs[0].start {
      NoMatchAt(w, p, hs[0].start, j);
    } else {
      assert hs[0].end <= j;
      assert forall i :: 0 <= i < |hs| - 1 ==> hs[1..][i] == hs[i + 1];
      ReportedMiss(w, hs[0].end, hs[1..], j);
    }
  }

  /** Every match the global search reports is the pattern's match at that position. */
  lemma MatchAllHitsMatch(w: string, p: nat, i: nat)
    requires p <= |w| + 1 && i < |MatchAll(w, p)|
    ensures MatchAt(w, MatchAll(w, p)[i].start) == Some(MatchAll(w, p)[i])
  {
    MatchAllIsExact(w, p);
    ReportedHit(w, p, MatchAll(w, p), i);
  }

  /** Between the reported matches and after the last one, the pattern matches nowhere. */
  lemma MatchAllMissesGaps(w: string, p: nat, j: nat)
    requires p <= j <= |w|
    requires forall h :: h in MatchAll(w, p) ==> j < h.start || h.end <= j
    ensures MatchAt(w, j).None?
  {
    var hs := MatchAll(w, p);
    MatchAllIsExact(w, p);
    assert forall i :: 0 <= i < |hs| ==> hs[i] in hs;
    ReportedMiss(w, p, hs, j);
  }

  /** The text of a match. */
  function HitText(w: string, h: Hit): string
    requires WellFormedHit(w, h)
  {
    w[h.start..h.end]
  }

  /** `group.replace(/\D/g, "")` on a match leaves exactly its digit group. */
  lemma HitDigits(w: string, h: Hit)
    requires WellFormedHit(w, h)
    ensures RemoveNonDigits(HitText(w, h)) == w[h.digitsStart..h.digitsEnd]
  {
    SliceInThree(w, h.start, h.digitsStart, h.digitsEnd, h.end);
    DigitsBetweenNonDigits(w[h.start..h.digitsStart], w[h.digitsStart..h.digitsEnd], w[h.digitsEnd..h.end]);
  }

  // A step of string algebra split out of a larger proof to keep that proof cheap.
  lemma SliceInThree(w: string, a: nat, b: nat, c: nat, d: nat)
    requires a <= b <= c <= d <= |w|
    ensures w[a..d] == w[a..b] + w[b..c] + w[c..d]
  {
    assert w[a..d] == w[a..c] + w[c..d];
    assert w[a..c] == w[a..b] + w[b..c];
  }

  lemma DigitsBetweenNonDigits(lead: string, digits: string, tail: string)
    requires NoDigits(lead) && AllDigits(digits) && NoDigits(tail)
    ensures RemoveNonDigits(lead + digits + tail) == digits
  {
    RemoveNonDigitsAppend(lead + digits, tail);
    RemoveNonDigitsAppend(lead, digits);
  }

  lemma Pow10UpToThree(k: nat)
    requires k <= 3
    ensures Pow10(k) <= 1000
  {
    assert Pow10(0) == 1 && Pow10(1) == 10 && Pow10(2) == 100 && Pow10(3) == 1000;
  }

  /** The number written in the digit group of a match. */
  function GroupNumber(w: string, h: Hit): nat
    requires WellFormedHit(w, h)
  {
    ParseDigits(w[h.digitsStart..h.digitsEnd])
  }

  /** `parseInt(group.replace(/\D/g, ""), 10)` of a match: the number in its digit group, below 1000. */
  function HitValue(w: string, h: Hit): (n: int)
    requires WellFormedHit(w, h)
    ensures n == GroupNumber(w, h) && 0 <= n < 1000
  {
    var digits := w[h.digitsStart..h.digitsEnd];
    HitDigits(w, h);
    ParseIntOfDigits(digits);
    Pow10UpToThree(|digits|);
    ParseInt(RemoveNonDigits(HitText(w, h))).value
  }

  // ---------------------------------------------------------------- the handler

  /** The window searched: the title up to `endIndex`. */
  function Window(title: string, matched: map<Field, string>): string {
    title[..EndIndex(title, matched)]
  }

  /** The matches found in the window. */
  function Candidates(title: string, matched: map<Field, string>): seq<Hit> {
    MatchAll(Window(title, matched), 0)
  }

  /** `if (match)`: the window yields no match exactly when the pattern matches at no position of it. */
  lemma CandidatesEmptyIffNoMatch(title: string, matched: map<Field, string>)
    ensures var w := Window(title, matched);
      Candidates(title, matched) == [] <==> forall j :: 0 <= j <= |w| ==> MatchAt(w, j).None?
  {
    var w := Window(title, matched);
    MatchAllIsExact(w, 0);
    if Candidates(title, matched) == [] {
      forall j | 0 <= j <= |w|
        ensures MatchAt(w, j).None?
      {
        NoMatchAt(w, 0, |w| + 1, j);
      }
    } else {
      MatchAllHitsMatch(w, 0, 0);
    }
  }

  /** `match.length > 1 ? match.splice(1, match.length) : match`: all but the first when there are several. */
  function Kept<T>(ms: seq<T>): (ks: seq<T>)
    requires ms != []
    ensures |ms| == 1 ==> ks == ms
    ensures |ms| > 1 ==> |ks| == |ms| - 1 && forall i :: 0 <= i < |ks| ==> ks[i] == ms[i + 1]
  {
    if |ms| > 1 then ms[1..] else ms
  }

  /**
   * The episode the handler stores for the matches `hs` of the window `w`: the
   * number in the digit group of each kept match, as one number when only one
   * is kept and as a list otherwise.
   */
  function EpisodeFromMatches(w: string, hs: seq<Hit>): (n: Numbering)
    requires hs != [] && forall i :: 0 <= i < |hs| ==> WellFormedHit(w, hs[i])
    ensures n.One? <==> |hs| <= 2
    ensures |hs| == 1 ==> n == One(GroupNumber(w, hs[0]))
    ensures |hs| > 1 ==> |NumberingValues(n)| == |hs| - 1
    ensures |hs| > 1 ==> forall i :: 1 <= i < |hs| ==> NumberingValues(n)[i - 1] == GroupNumber(w, hs[i])
    ensures forall i :: 0 <= i < |NumberingValues(n)| ==> 0 <= NumberingValues(n)[i] < 1000
  {
    var kept := Kept(hs);
    KeptWellFormed(w, hs);
    var values := HitValues(w, kept);
    if |values| == 1 then One(values[0]) else Many(values)
  }

  lemma KeptWellFormed(w: string, hs: seq<Hit>)
    requires hs != [] && forall i :: 0 <= i < |hs| ==> WellFormedHit(w, hs[i])
    ensures forall i :: 0 <= i < |Kept(hs)| ==> WellFormedHit(w, Kept(hs)[i])
  {
    var kept := Kept(hs);
    if |hs| > 1 {
      forall i | 0 <= i < |kept|
        ensures WellFormedHit(w, kept[i])
      {
        assert kept[i] == hs[i + 1];
      }
    }
  }

  /** The map over the kept matches: each one's value, in order. */
  function HitValues(w: string, ks: seq<Hit>): (vs: seq<int>)
    requires forall i :: 0 <= i < |ks| ==> WellFormedHit(w, ks[i])
    ensures |vs| == |ks|
    ensures forall i :: 0 <= i < |ks| ==> vs[i] == GroupNumber(w, ks[i]) && 0 <= vs[i] < 1000
  {
    seq(|ks|, i requires 0 <= i < |ks| => HitValue(w, ks[i]))
  }

  /**
   * The absolute-episode handler. When neither season nor episode is truthy and
   * the window holds matches, the episode is replaced as `EpisodeFromMatches`
   * states; otherwise the result is left as it is.
   */
  function AbsoluteEpisode(title: string, result: ParserResult, matched: map<Field, string>): (r: ParserResult)
    ensures r == result.(episode := r.episode)
    ensures NumberingTruthy(result.season) || NumberingTruthy(result.episode) ==> r == result
    ensures Candidates(title, matched) == [] ==> r == result
    ensures !NumberingTruthy(result.season) && !NumberingTruthy(result.episode) && Candidates(title, matched) != [] ==>
      r.episode == Some(EpisodeFromMatches(Window(title, matched), Candidates(title, matched)))
  {
    if NumberingTruthy(result.season) || NumberingTruthy(result.episode) then result
    else
      var w := Window(title, matched);
      var hs := MatchAll(w, 0);
      if hs == [] then result
      else result.(episode := Some(EpisodeFromMatches(w, hs)))
  }

  /** Every candidate lies wholly before each matched resolution, source, codec or audio string found past the title's start. */
  lemma CandidatesBeforeAnchors(title: string, matched: map<Field, string>, f: Field)
    requires f in AnchorFields && MatchedTruthy(matched, f) && IndexOf(title, matched[f]) > 0
    ensures var hs := Candidates(title, matched);
      forall i :: 0 <= i < |hs| ==>
        && hs[i].end <= IndexOf(title, matched[f])
        && HitText(Window(title, matched), hs[i]) == title[hs[i].start..hs[i].end]
  {
    var w := Window(title, matched);
    var hs := Candidates(title, matched);
    forall i | 0 <= i < |hs|
      ensures hs[i].end <= IndexOf(title, matched[f])
      ensures HitText(w, hs[i]) == title[hs[i].start..hs[i].end]
    {
      var h := hs[i];
      assert WellFormedHit(w, h);
      PrefixSlice(title, |w|, h.start, h.end);
    }
  }

  // A step of string algebra split out of a larger proof to keep that proof cheap.
  lemma PrefixSlice(t: string, e: nat, a: nat, b: nat)
    requires a <= b <= e <= |t|
    ensures t[..e][a..b] == t[a..b]
  {
  }

  /** Without a digit from position `p > 0` on, the search finds nothing more. */
  lemma {:induction false} MatchAllWithoutDigits(w: string, p: nat)
    requires 0 < p <= |w| + 1 && NoDigits(w[p - 1..])
    ensures MatchAll(w, p) == []
    decreases |w| + 1 - p
  {
    if p <= |w| {
      assert MatchAt(w, p).None?;
      MatchAllWithoutDigits(w, p + 1);
    }
  }

  /** At the start of `d + [c] + rest`, the pattern matches `d` and the separator after it. */
  lemma LeadingNumberHit(d: string, c: char, rest: string)
    requires 1 <= |d| <= 3 && AllDigits(d) && IsTerminator(c)
    ensures MatchAt(d + [c] + rest, 0) == Some(Hit(0, 0, |d|, |d| + 1))
  {
    var w := d + [c] + rest;
    assert w[0..][..|d|] == d;
    assert w[0..][|d|] == c;
    Digits.DigitPrefixLengthUnique(w[0..], |d|);
    assert MaxDigits(w, 0) == |d|;
    assert Suffix(w, |d|) == Some(|d| + 1);
  }

  /** A match at `p` is the first one the search reports, and the search goes on from its end. */
  lemma MatchAllStep(w: string, p: nat)
    requires p <= |w| && MatchAt(w, p).Some?
    ensures MatchAll(w, p) == [MatchAt(w, p).value] + MatchAll(w, MatchAt(w, p).value.end)
  {
  }

  lemma NoDigitsAfterNumber(d: string, c: char, rest: string)
    requires !IsDigit(c) && NoDigits(rest)
    ensures NoDigits((d + [c] + rest)[|d|..])
  {
    var t := (d + [c] + rest)[|d|..];
    forall i | 0 <= i < |t|
      ensures !IsDigit(t[i])
    {
      if i > 0 {
        assert t[i] == rest[i - 1];
      }
    }
  }

  /** The only match in `d + [c] + rest`, when `rest` holds no digit. */
  lemma LeadingNumberOnly(d: string, c: char, rest: string)
    requires 1 <= |d| <= 3 && AllDigits(d) && IsTerminator(c) && NoDigits(rest)
    ensures MatchAll(d + [c] + rest, 0) == [Hit(0, 0, |d|, |d| + 1)]
  {
    var w := d + [c] + rest;
    LeadingNumberHit(d, c, rest);
    NoDigitsAfterNumber(d, c, rest);
    OnlyHit(w, Hit(0, 0, |d|, |d| + 1));
  }

  /** A match at the start after which no digit is left is the only match. */
  lemma OnlyHit(w: string, h: Hit)
    requires MatchAt(w, 0) == Some(h) && 0 < h.end <= |w| + 1 && NoDigits(w[h.end - 1..])
    ensures MatchAll(w, 0) == [h]
  {
    MatchAllStep(w, 0);
    MatchAllWithoutDigits(w, h.end);
  }

  /** With a single candidate and no season or episode yet, the episode becomes that candidate's number. */
  lemma AbsoluteEpisodeSingle(title: string, result: ParserResult, matched: map<Field, string>, h: Hit)
    requires !NumberingTruthy(result.season) && !NumberingTruthy(result.episode)
    requires Candidates(title, matched) == [h]
    ensures WellFormedHit(Window(title, matched), h)
    ensures AbsoluteEpisode(title, result, matched)
              == result.(episode := Some(One(GroupNumber(Window(title, matched), h))))
  {
    assert MatchAll(Window(title, matched), 0)[0] == h;
  }

  /** With nothing matched, the window is the whole title. */
  lemma WindowWithoutAnchors(title: string)
    ensures Window(title, map[]) == title
  {
    assert !IsAnchorIndex(title, map[], AnchorFields, EndIndex(title, map[]));
    assert title[..|title|] == title;
  }

  /**
   * A title that opens with a number of one to three digits followed by a
   * separator, with no other digit, and with no anchor matched: that number
   * becomes the episode, e.g. "102 - The Invitation.avi" gives episode 102.
   */
  lemma AbsoluteEpisodeLeadingNumber(d: string, c: char, rest: string, result: ParserResult)
    requires 1 <= |d| <= 3 && AllDigits(d) && IsTerminator(c) && NoDigits(rest)
    requires !NumberingTruthy(result.season) && !NumberingTruthy(result.episode)
    ensures AbsoluteEpisode(d + [c] + rest, result, map[]) == result.(episode := Some(One(ParseDigits(d))))
  {
    var title := d + [c] + rest;
    var h := Hit(0, 0, |d|, |d| + 1);
    WindowWithoutAnchors(title);
    assert Candidates(title, map[]) == [h] by {
      LeadingNumberOnly(d, c, rest);
    }
    AbsoluteEpisodeSingle(title, result, map[], h);
    assert GroupNumber(title, h) == ParseDigits(d) by {
      assert title[0..|d|] == d;
    }
  }

  /*
   * The example takes the pieces of the title as parameters pinned to literals
   * by `requires`, so that the proof goes through `AbsoluteEpisodeLeadingNumber`
   * on named pieces instead of unfolding one long literal; this keeps it cheap.
   */
  /** "102 - The Invitation.avi", with nothing else found, gives episode 102. */
  lemma AbsoluteEpisodeExample(d: string, rest: string)
    requires d == "102" && rest == "- The Invitation.avi"
    ensures var title := d + " " + rest;
      AbsoluteEpisode(title, EmptyResult(title), map[]).episode == Some(One(102))
  {
    assert ParseDigits(d) == 102 by {
      assert DecimalString(102) == d;
      ParseDecimalString(102);
    }
    assert NoDigits(rest);
    AbsoluteEpisodeLeadingNumber(d, ' ', rest, EmptyResult(d + " " + rest));
  }

  /**
   * `" 1 2"`: the first match takes the space after `1` as its terminator, so
   * the global search resumes past it and misses the `2`, although the pattern
   * does match at that space.
   */
  lemma SharedSeparatorExample(w: string)
    requires w == " 1 2"
    ensures MatchAt(w, 2) == Some(Hit(2, 3, 4, 4))
    ensures MatchAll(w, 0) == [Hit(0, 1, 2, 3)]
  {
    assert w[1..2] == "1" && w[3..4] == "2";
    MatchAtLeader(w, 0, 1);
    MatchAtLeader(w, 2, 1);
    MatchAllStep(w, 0);
    MatchAllSkip(w, 3);
    MatchAllSkip(w, 4);
  }
}
