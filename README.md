# parse-torrent-title: transformers, custom handlers and the default rule registry

This project is a Dafny model of the value-normalising core of parse-torrent-title. That library
pulls metadata out of a release name such as `"The Simpsons S28E21 720p HDTV x264-AVS"`: year,
resolution, source, codec, audio, season and episode numbers, language and the release group.
The model covers:

- the **transformers** of `src/transformers.js`, which turn a captured substring into a value:
  `none`, `value`, `integer`, `boolean`, `lowercase`, `date`, `range`, `yearRange` and `array`;
- the **codec normaliser** (`src/handlers.js:66-70`), which drops the first space, dot or hyphen
  from a found codec, so `"x.264"` becomes `"x264"`;
- the **absolute-episode handler** (`src/handlers.js:99-114`). When neither a season nor an
  episode was found, it searches the title for stand-alone numbers of one to three digits. The
  search stops before the earliest matched resolution, source, codec or audio string that is
  found past the first character. It stores every match but the first as the episode, or the
  only one when there is one; a single stored number is stored as a number, not as a list;
- the **default rule registry** `addDefaults` (`src/handlers.js:3-133`), as the ordered list
  of 69 rule descriptors it registers: field, kind, transformer and options;
- the **result record** of `index.d.ts`.

The code works on JavaScript strings and numbers. Module `JsString` gives the string built-ins
the core calls `replace`, `trim`, `split`, `indexOf`, `parseInt` and `toLowerCase`, as Dafny
functions over `seq<char>`.

Module `Digits` gives an independent reference reading of "the numbers in a string":
`DigitGroups` lists its maximal runs of digits. Lemmas there prove that the
`replace(/\D+/g, " ").trim().split(" ")` chain of `range` yields exactly those groups.

Everything in the core is a function of its inputs. The two handlers update the result object
in place; the model returns the updated record instead.

Files:

- `wrappers.dfy`: `Option`.
- `jsstring.dfy`: the JavaScript string built-ins.
- `digits.dfy`: digit groups and their lemmas.
- `transformers.dfy`: the transformers.
- `results.dfy`: the result record, field names and JavaScript truthiness.
- `handlers.dfy`: the two custom handlers.
- `defaults.dfy`: the registry.

## Model

| member | source | states |
|---|---|---|
| Transformers.Identity | src/transformers.js:1 | `none` returns its capture unchanged |
| Transformers.Value | src/transformers.js:3 | `value(v)` is a transformer that yields `v` whatever it is given |
| Transformers.Integer | src/transformers.js:5 | `parseInt` yields a number only when the capture holds a digit |
| Transformers.IntegerOfDecimal | src/transformers.js:5 | `integer` reads the decimal text of every non-negative number back as that number |
| Transformers.IntegerStopsAtNonDigit | src/transformers.js:5 | `integer` of digits followed by a non-digit is the value of the digits alone |
| JsString.ParseIntOfDigitPrefix | src/transformers.js:5 | `parseInt` of a string that opens with a run of digits is the value of that run, whatever follows |
| Transformers.IntegerOfNoDigits | src/transformers.js:5 | a capture without a digit gives no number (NaN) |
| Transformers.Boolean | src/transformers.js:7 | `boolean` is true for every capture |
| Transformers.Lowercase | src/transformers.js:9 | same length, no ASCII capital left, each capital is shifted by 32, every other character is kept |
| Transformers.LowercaseIdempotent | src/transformers.js:9 | lower-casing twice is lower-casing once |
| Transformers.Array | src/transformers.js:50 | `array(chain)` yields a list of exactly one element, the chained value |
| Transformers.DateFromParts | src/transformers.js:13-16 | with three parts or more: a four-character first part is the year (year-month-day in order), a two-character one is the day (the third part is the year), and any other length puts the third part in both year and day; with two parts (what the as-written `date` yields for `"2018-05-20"`), the second part is the month and the missing third part reads `"undefined"` wherever it is used; with one part, the month and the missing year or day read `"undefined"` |
| Transformers.Date | src/transformers.js:11-17 | a capture of digits alone is a single part, so its date has an `"undefined"` month |
| Transformers.SpacedDigitRuns | src/transformers.js:12-13 | three digit runs joined by single spaces pass the replace and the trim unchanged and split back into those three runs |
| Transformers.DateYearFirstSpaced | src/transformers.js:11-17 | `"YYYY MM DD"` with one space between the parts reads as `"YYYY-MM-DD"` |
| Transformers.DateKeepsSecondSeparator | src/transformers.js:11-17 | as written, only the first non-digit run is replaced: for any second separator other than a space, the month keeps that separator and the day comes out `"undefined"` |
| Transformers.DateAsWrittenExample | src/transformers.js:11-17 | as written, `date("2018-05-20")` is `"2018-05-20-undefined"` |
| Transformers.DateCorrectedYearFirst | src/transformers.js:11-17 | with every non-digit run replaced, a four-digit year first gives year-month-day whatever the separators |
| Transformers.DateCorrectedDayFirst | src/transformers.js:11-17 | with every non-digit run replaced, a two-digit day first gives year-month-day, the year taken from the third part |
| Transformers.DateCorrectedExample | src/transformers.js:11-17 | the corrected date reads `"2018-05-20"` and `"20.05.2018"` both as `"2018-05-20"` |
| Transformers.Interval | src/transformers.js:26 | the fill from `a` to `b` has `b - a + 1` elements, starts at `a`, ends at `b`, and is consecutive |
| Transformers.RangeParts | src/transformers.js:20-23 | the pieces `range` parses are exactly the capture's digit groups when it holds a digit, and a single empty piece when it holds none |
| Digits.ReplaceTrimSplitIsGroups | src/transformers.js:20-23 | when the capture holds a digit, replacing `\D+` by spaces, trimming and splitting on spaces gives exactly its digit groups |
| Digits.SplitRunsAgreesWithGroups | src/transformers.js:35 | for an input that starts with a digit, the first piece of `split(/\D+/)` is its first digit group; a non-empty second piece exists exactly when there is a second group, and it is that group |
| Transformers.Range | src/transformers.js:19-32 | `range` returns either null or a non-empty list of consecutive ascending numbers |
| Transformers.RangeParsesNumbers | src/transformers.js:19-32 | `range` in terms of the numbers of the digit groups: two ascending numbers give their interval; otherwise the numbers are kept if consecutive and rejected if not |
| Transformers.RangeExpandsAscendingPair | src/transformers.js:25-27 | two numbers `a < b` expand to the run `a..b`, which has `b - a + 1` elements |
| Transformers.RangeRejectsDescendingPair | src/transformers.js:25-30 | two numbers with `a >= b` give null |
| Transformers.RangeKeepsOtherCounts | src/transformers.js:28-31 | one number, or three and more, are returned unchanged exactly when consecutive, and null otherwise; a single number is always kept |
| Transformers.RangeIgnoresSeparators | src/transformers.js:21 | any two non-empty runs of non-digits between the same numbers give the same range |
| Transformers.RangeExamplePair | src/transformers.js:19-32 | `"23-24"` and `"23, 24"` give `[23, 24]` |
| Transformers.RangeExampleLong | src/transformers.js:19-32 | `"1-291"` gives the 291 numbers from 1 to 291 |
| Transformers.RangeExampleRejected | src/transformers.js:19-32 | `"103, The, 09"` gives null |
| Transformers.YearRange | src/transformers.js:34-48 | `yearRange` returns null only for input that starts with a digit (a real start year) |
| Transformers.CompletedEnd | src/transformers.js:41-42 | an end below 100 takes the start year's century; a larger end is kept |
| Transformers.YearRangeOfNumbers | src/transformers.js:34-48 | for an input starting with a digit: a missing or zero end gives the start year as a number; otherwise the completed end must exceed the start, giving `"start-end"`, or else null |
| Transformers.YearRangeIdempotent | src/transformers.js:34-48 | applying `yearRange` to the text of its own result gives the same result |
| Transformers.YearRangeExampleShortEnd | src/transformers.js:34-48 | `"1988 - 89"` gives `"1988-1989"` |
| Transformers.YearRangeExampleFullEnd | src/transformers.js:34-48 | `"2001-2011"` gives `"2001-2011"` |
| Transformers.YearRangeExampleDescending | src/transformers.js:45-47 | `"1999-1998"` gives null |
| Transformers.YearRangeExampleSingle | src/transformers.js:39-41 | a lone `"2014"` gives the number 2014 |
| Results.EmptyResult | index.d.ts:8-34 | a fresh result has the given title and no codec, season or episode yet |
| Handlers.RemoveFirstCodecSeparator | src/handlers.js:68 | `replace(/[ .-]/, "")` returns a string without a separator unchanged; otherwise it removes the first separator and keeps everything else in place |
| Handlers.FirstCodecSeparatorExists | src/handlers.js:68 | a string with a space, dot or hyphen has a first one |
| Handlers.CodecSeparatorRemovedOnce | src/handlers.js:68 | a codec with only one separator is left with none, so normalising again changes nothing |
| Handlers.NormaliseCodec | src/handlers.js:66-70 | only the codec field changes; an unset or empty codec is left untouched; otherwise its first separator is removed |
| Handlers.NormaliseCodecExamples | src/handlers.js:66-70 | `"x.264"` becomes `"x264"`, and `"h 265"` becomes `"h265"` |
| Handlers.NormaliseCodecMoreExamples | src/handlers.js:66-70 | `"x-265"` becomes `"x265"`, and `"xvid"` is kept |
| Handlers.AnchorIndexes | src/handlers.js:101-104 | the list holds each truthy matched resolution, source, codec or audio string that occurs in the title after position 0, as its first index in the title; it holds nothing else |
| Handlers.MinWith | src/handlers.js:105 | `Math.min(...xs, bound)` is at most the bound and every element, and is one of them |
| Handlers.EndIndex | src/handlers.js:101-105 | the end index, up to which the title is searched, is at most the title's length and at most every positive anchor index, and it is either the length or one of those positive indexes |
| Handlers.AfterNumber | src/handlers.js:106 | the terminator group after the number matches exactly at a terminator character or at the end of the text; at a terminator it consumes that character, at the end nothing |
| Handlers.Suffix | src/handlers.js:106 | `[ab]?` and then the terminator match exactly where a terminator or the end follows, possibly after one `a` or `b`; the match ends after the terminator it consumes (and after the `a` or `b` when there is one), or at the end of the text; no digit is consumed |
| Handlers.DigitsThen | src/handlers.js:106 | `(\d{1,3})` with backtracking ends its digit group where no digit follows, and the suffix matches from there to the end of the match |
| Handlers.MaxDigits | src/handlers.js:106 | `\d{1,3}` takes at most three digits, and fewer only when the digits run out |
| Handlers.NumberFrom | src/handlers.js:106 | the number part of the pattern matches one to three digits, a whole digit group, and then the suffix to the end of the match |
| Handlers.NumberFromFits | src/handlers.js:106 | conversely, a whole run of one to three digits followed by a fitting suffix is matched, with exactly that run as the digit group |
| Handlers.MatchAt | src/handlers.js:106 | a match found at a position starts there, either at a leader character with the digits right after it or at the very start through `^`; its digit group has one to three digits with no digit on either side, and the suffix follows it |
| Handlers.MatchAtLeader | src/handlers.js:106 | a leader character, then a whole run of one to three digits, an optional `a` or `b`, and a terminator or the end: the pattern matches at the leader with that run as its digit group |
| Handlers.MatchAtStart | src/handlers.js:106 | the same number part at the very start of the text matches there through `^` |
| Handlers.MatchAll | src/handlers.js:106 | the global match returns well-formed matches, in order and without overlap |
| Handlers.SharedSeparatorExample | src/handlers.js:106 | in `" 1 2"` the first match consumes the space after `1`, so the global search resumes past it and finds only `" 1 "`, although the pattern does match at that space |
| Handlers.MatchAllIsExact | src/handlers.js:106 | the global match reports the leftmost match, then the next one from where it ended, and so on: the pattern fails before each reported match and after the last |
| Handlers.ReportedHit | src/handlers.js:106 | each match in such a report is the pattern's match at its own start |
| Handlers.ReportedMiss | src/handlers.js:106 | such a report misses nothing: the pattern fails at every position outside its matches |
| Handlers.MatchAllHitsMatch | src/handlers.js:106 | every match the global search returns is the pattern's match at that position |
| Handlers.MatchAllMissesGaps | src/handlers.js:106 | in the gaps between the returned matches and after the last one, the pattern matches at no position |
| Handlers.HitDigits | src/handlers.js:109 | `replace(/\D/g, "")` on a match leaves exactly its digit group |
| Handlers.HitValue | src/handlers.js:109-110 | the parsed value of a match is the number in its digit group, between 0 and 999 |
| Handlers.Kept | src/handlers.js:108 | with several matches, all but the first are kept in order; a single match is kept |
| Handlers.HitValues | src/handlers.js:108-110 | the values of the kept matches are their digit groups' numbers, in order, each below 1000 |
| Handlers.EpisodeFromMatches | src/handlers.js:107-111 | one or two matches give a single number (the only match, or the second one); more give the list of all but the first; every value is between 0 and 999 |
| Handlers.AbsoluteEpisode | src/handlers.js:99-114 | only the episode field changes. Nothing changes when the season or episode is truthy, or when nothing matches. Otherwise the episode is built from the matches in the searched text |
| Handlers.CandidatesEmptyIffNoMatch | src/handlers.js:106-107 | the search of the window finds nothing exactly when the pattern matches at no position of the window |
| Handlers.CandidatesBeforeAnchors | src/handlers.js:101-106 | every candidate ends before each anchor's first index in the title, and reads the same in the title as in the searched text |
| Handlers.MatchAllWithoutDigits | src/handlers.js:106 | when no digit remains, the global match finds nothing more |
| Handlers.LeadingNumberOnly | src/handlers.js:106 | a title that opens with one to three digits and a terminator, and has no other digit, has exactly that one match |
| Handlers.WindowWithoutAnchors | src/handlers.js:101-106 | with nothing matched, the searched text is the whole title |
| Handlers.AbsoluteEpisodeSingle | src/handlers.js:99-114 | with no season or episode and exactly one candidate, the episode becomes that candidate's number and nothing else changes |
| Handlers.AbsoluteEpisodeLeadingNumber | src/handlers.js:99-114 | such a title, with no season, no episode and no anchors, gets that number as its episode |
| Handlers.AbsoluteEpisodeExample | src/handlers.js:99-114 | `"102 - The Invitation.avi"` gives episode 102 |
| Defaults.DefaultRules | src/handlers.js:3-133 | the registry holds 69 rules |
| Defaults.AbsoluteEpisodeAfterAnchors | src/handlers.js:3-133 | the absolute-episode handler is registered once, at position 53. Every rule that fills resolution, source, codec or audio comes before it |
| Defaults.CodecNormaliserAfterCodecPattern | src/handlers.js:64-70 | the only codec pattern is at position 33, and the only codec normaliser right after it at 34 |
| Defaults.OnlySeasonAgainHasOptions | src/handlers.js:82-89 | the only rule that passes options is the season integer pattern of line 87, at position 45, with `skipIfAlreadyFound: false` |
| Defaults.HandlerPlacement | src/handlers.js:3-133 | for any section contents of the registry's shape, the absolute-episode handler stands alone after the last episode pattern, and every anchor rule precedes it |
| Defaults.CodecPlacement | src/handlers.js:64-70 | for any section contents of the registry's shape, the codec pattern and the normaliser are the two rules that follow the source section |
| Defaults.OptionsPlacement | src/handlers.js:82-89 | for any section contents of the registry's shape, options appear only on the line-87 rule |

## Left out

- The matching engine (`addHandler`, `parse`), the residual title and the result assembly are
  not part of this model. The regular expressions of the pattern rules are recorded only by
  field, transformer and options.
- The one regular expression modelled is the absolute-episode pattern of
  `src/handlers.js:106`. It is scanned by hand, with JavaScript's leftmost, greedy,
  backtracking order.
- Transformers.Range: requires a digit in its input. Every `range` rule captures digits; with
  none, JavaScript would return `[NaN]`, and NaN is not modelled.
- Transformers.Range: the expansion `Array(array[1] - array[0] + 1)` (`src/transformers.js:26`)
  throws a RangeError in JavaScript when the length exceeds 2^32 − 1, for instance on
  `"0-4294967295"`; the model returns the whole interval there. No default rule reaches it:
  every `range` rule (`src/handlers.js:83-85`, `92`, `94`) captures numbers of at most three
  digits, so the length is at most 1000.
- Transformers.Integer: `parseInt(s, 10)` is modelled on an optional sign and decimal digits
  after leading whitespace. JavaScript number precision is left out: the model's integers are
  unbounded, and no capture in the core holds a number too large for a double.
- JavaScript's `length`, `indexOf` and `substring` count UTF-16 code units, while `string` here
  is a sequence of code points. They agree on text without characters outside the Basic
  Multilingual Plane. With such characters, `date`'s `parts[0].length === 4` and `=== 2` tests
  (`src/transformers.js:13-15`) and the handler's `endIndex` (`src/handlers.js:101-105`) can
  differ from the model.
- Transformers.Lowercase: folds only the ASCII letters. Unicode case mapping is left out.
- Transformers.YearRange: the leading non-digit case is modelled with JavaScript's coercions.
  Such an input gives `""`, or `"-"` followed by the end, because the start is the empty
  string there.
- Transformers.Array: the no-chain branch (`chain ? chain(input) : input`) is the case
  `Array(Identity)`. The core imports `array` but never calls it.
- `yearRange` is defined but no default rule uses it: the year rule (`src/handlers.js:6`)
  uses `integer`. So `"2001-2011"` examples concern the transformer itself, not the registry.
- A shorthand year-range end is recognised by its value, `end < 100`
  (`src/transformers.js:41`), not by its digit count: `"2001-099"` completes to 2099 as
  `"2001-99"` does. The model follows that test.
- With several matches, the absolute-episode handler keeps every match but the first
  (`src/handlers.js:108`). The model keeps exactly those.
- The handlers mutate `result` in place. The model returns the updated record, so aliasing of
  the result object is not captured.
- `matched` is modelled as a map from field to the raw matched string.
- Results.ParserResult: `season` and `episode` may hold a list, as `range` and the
  absolute-episode handler store one there. The declared type says `number`.

## Findings

| source | as written | input that shows it | evidently intended | confidence | as-written member | corrected member |
|---|---|---|---|---|---|---|
| src/transformers.js:12 | `replace(/\D+/, " ")` has no `g` flag, so only the first separator becomes a space before the split on spaces | `"2018-05-20"` gives `"2018-05-20-undefined"` | every non-digit run replaced, giving `"2018-05-20"` | not executed | Transformers.DateKeepsSecondSeparator | Transformers.DateCorrectedYearFirst |
