/**
 * The default rule registry of `addDefaults` (src/handlers.js:3-133), as the
 * ordered list of rule descriptors it registers. Patterns are not modelled:
 * a descriptor records the field, whether the rule is a pattern or one of the
 * two custom handlers, the transformer, and the options passed.
 */
module Defaults {
  import opened Wrappers
  import opened Results
  import Handlers

  /** The transformer a pattern rule applies to its capture; `Raw` when none is given. */
  datatype Transformer = Raw | ValueOf(v: string) | ToInteger | ToBoolean | ToLowercase | ToRange

  /** A pattern rule, or one of the two custom handlers. */
  datatype Kind = Pattern | CodecNormaliser | AbsoluteEpisodeHandler

  /** The options object of `addHandler`; `None` where the rule passes none. */
  datatype RuleOptions = RuleOptions(skipIfAlreadyFound: Option<bool>, remove: Option<bool>)

  const NoOptions: RuleOptions := RuleOptions(None, None)

  datatype Rule = Rule(field: Field, kind: Kind, transformer: Transformer, options: RuleOptions)

  /** A pattern rule with no options. */
  function P(field: Field, transformer: Transformer): Rule {
    Rule(field, Pattern, transformer, NoOptions)
  }

  /** Lines 5-40: year, resolution, the flags, region and container. */
  const HeadRules: seq<Rule> := [
    P(Year, ToInteger),
    P(Resolution, ToLowercase), P(Resolution, ToLowercase),
    P(Extended, ToBoolean), P(Convert, ToBoolean), P(Hardcoded, ToBoolean), P(Proper, ToBoolean),
    P(Repack, ToBoolean), P(Retail, ToBoolean), P(Remastered, ToBoolean), P(Unrated, ToBoolean),
    P(Region, Raw),
    P(Container, ToLowercase)]

  /** Lines 42-62: the source rules. */
  const SourceRules: seq<Rule> := [
    P(Source, Raw), P(Source, Raw), P(Source, Raw),
    P(Source, ValueOf("BRRip")), P(Source, ValueOf("BDRip")), P(Source, ValueOf("DVDRip")),
    P(Source, ValueOf("DVD")), P(Source, ValueOf("DVDScr")), P(Source, Raw),
    P(Source, ValueOf("TC")), P(Source, ValueOf("PPVRip")), P(Source, ValueOf("TVRip")),
    P(Source, ValueOf("R5")), P(Source, ValueOf("VHSScr")), P(Source, ValueOf("BluRay")),
    P(Source, ValueOf("WEB-DL")), P(Source, ValueOf("WEBRip")), P(Source, Raw), P(Source, Raw),
    P(Source, ValueOf("HDTV"))]

  /** Line 65: the codec pattern. */
  const CodecPattern: Rule := P(Codec, ToLowercase)

  /** Lines 66-70: the handler that normalises the codec found by the pattern. */
  const CodecNormaliserRule: Rule := Rule(Codec, CodecNormaliser, Raw, NoOptions)

  const CodecRules: seq<Rule> := [CodecPattern, CodecNormaliserRule]

  /** Lines 72-77: the audio rules. */
  const AudioRules: seq<Rule> := [
    P(Audio, ToLowercase), P(Audio, ToLowercase), P(Audio, ValueOf("ac3")),
    P(Audio, ValueOf("dd5.1")), P(Audio, ValueOf("aac"))]

  /** Lines 79-80: the release group. */
  const GroupRules: seq<Rule> := [P(Group, Raw)]

  /** Line 87: the one season rule that also runs when a season was already found. */
  const SeasonAgain: Rule := Rule(Season, Pattern, ToInteger, RuleOptions(Some(false), None))

  /** Lines 83-86: three range patterns and an integer pattern. */
  const EarlySeasonRules: seq<Rule> :=
    [P(Season, ToRange), P(Season, ToRange), P(Season, ToRange), P(Season, ToInteger)]

  /** Lines 88-89: two more integer patterns. */
  const LateSeasonRules: seq<Rule> := [P(Season, ToInteger), P(Season, ToInteger)]

  /** Lines 82-89: the season rules. */
  const SeasonRules: seq<Rule> := EarlySeasonRules + [SeasonAgain] + LateSeasonRules

  /** Lines 91-96: the episode patterns. */
  const EpisodeRules: seq<Rule> := [
    P(Episode, ToRange), P(Episode, ToInteger), P(Episode, ToRange), P(Episode, ToInteger),
    P(Episode, ToInteger)]

  /** Lines 98-114: the absolute-episode handler. */
  const AbsoluteEpisodeRule: Rule := Rule(Episode, AbsoluteEpisodeHandler, Raw, NoOptions)

  /** Lines 116-120: the complete-collection flags. */
  const CompleteRules: seq<Rule> := [
    P(Complete, ToBoolean), P(Complete, ToBoolean), P(Complete, ToBoolean), P(Complete, ToBoolean),
    P(Complete, ToBoolean)]

  /** Lines 122-132: the language rules. */
  const LanguageRules: seq<Rule> := [
    P(Language, ToLowercase), P(Language, ToLowercase), P(Language, ToLowercase),
    P(Language, ToLowercase), P(Language, ToLowercase), P(Language, ValueOf("ita")),
    P(Language, ToLowercase), P(Language, ToLowercase), P(Language, ToLowercase),
    P(Language, ToLowercase)]

  /** The registry, section by section, in registration order. */
  function DefaultRules(): (rs: seq<Rule>)
    ensures |rs| == 69
  {
    HeadRules + SourceRules + CodecRules + AudioRules + GroupRules + SeasonRules + EpisodeRules
      + [AbsoluteEpisodeRule] + CompleteRules + LanguageRules
  }

  /** A rule fills a field the absolute-episode handler reads from `matched`. */
  predicate IsAnchorRule(r: Rule) {
    r.field in Handlers.AnchorFields
  }

  predicate IsAbsoluteEpisode(r: Rule) {
    r.kind == AbsoluteEpisodeHandler
  }

  predicate IsCodecPattern(r: Rule) {
    r.field == Codec && r.kind == Pattern
  }

  predicate IsCodecNormaliser(r: Rule) {
    r.kind == CodecNormaliser
  }

  predicate HasOptions(r: Rule) {
    r.options != NoOptions
  }

  /** No rule of the list satisfies `p`. */
  predicate NoneOf(rs: seq<Rule>, p: Rule -> bool) {
    forall r :: r in rs ==> !p(r)
  }

  /** Pattern rules without options, none of them for the codec. */
  predicate PlainPatterns(rs: seq<Rule>) {
    forall r :: r in rs ==> r.kind == Pattern && r.field != Codec && r.options == NoOptions
  }

  lemma PlainPatternsAppend(a: seq<Rule>, b: seq<Rule>)
    requires PlainPatterns(a) && PlainPatterns(b)
    ensures PlainPatterns(a + b)
  {
  }

  lemma PlainPatternsNoneOf(rs: seq<Rule>)
    requires PlainPatterns(rs)
    ensures NoneOf(rs, IsAbsoluteEpisode) && NoneOf(rs, IsCodecNormaliser)
    ensures NoneOf(rs, IsCodecPattern) && NoneOf(rs, HasOptions)
  {
  }

  lemma HeadPlain() ensures PlainPatterns(HeadRules) { }
  lemma SourcePlain() ensures PlainPatterns(SourceRules) { }
  lemma AudioPlain() ensures PlainPatterns(AudioRules) { }
  lemma GroupPlain() ensures PlainPatterns(GroupRules) { }
  lemma SeasonPlain() ensures PlainPatterns(EarlySeasonRules) && PlainPatterns(LateSeasonRules) { }
  lemma EpisodePlain() ensures PlainPatterns(EpisodeRules) { }
  lemma CompletePlain() ensures PlainPatterns(CompleteRules) && NoneOf(CompleteRules, IsAnchorRule) { }
  lemma LanguagePlain() ensures PlainPatterns(LanguageRules) && NoneOf(LanguageRules, IsAnchorRule) { }

  /**
   * In `a + s + b`, where neither `a` nor `b` has a rule satisfying `p` and
   * within `s` only position `k` does, `p` holds exactly at `|a| + k`.
   */
  lemma OnlyAt(rs: seq<Rule>, a: seq<Rule>, s: seq<Rule>, b: seq<Rule>, k: nat, p: Rule -> bool)
    requires rs == a + s + b
    requires NoneOf(a, p) && NoneOf(b, p)
    requires forall i :: 0 <= i < |s| ==> (p(s[i]) <==> i == k)
    requires k < |s|
    ensures forall i :: 0 <= i < |rs| ==> (p(rs[i]) <==> i == |a| + k)
  {
    forall i | 0 <= i < |rs|
      ensures p(rs[i]) <==> i == |a| + k
    {
      if i < |a| {
        assert rs[i] == a[i];
      } else if i < |a| + |s| {
        assert rs[i] == s[i - |a|];
      } else {
        assert rs[i] == b[i - |a| - |s|];
      }
    }
  }

  /** If no rule of `b` satisfies `p`, in `a + b` it holds only before `|a|`. */
  lemma OnlyBefore(rs: seq<Rule>, a: seq<Rule>, b: seq<Rule>, p: Rule -> bool)
    requires rs == a + b
    requires NoneOf(b, p)
    ensures forall i :: 0 <= i < |rs| && p(rs[i]) ==> i < |a|
  {
    forall i | |a| <= i < |rs|
      ensures !p(rs[i])
    {
      assert rs[i] == b[i - |a|];
    }
  }

  /** The registry's layout, over any section contents of the same kind. */
  predicate Layout(rs: seq<Rule>, head: seq<Rule>, source: seq<Rule>, audio: seq<Rule>,
                   group: seq<Rule>, early: seq<Rule>, late: seq<Rule>, episode: seq<Rule>,
                   complete: seq<Rule>, language: seq<Rule>)
  {
    && rs == head + source + CodecRules + audio + group + (early + [SeasonAgain] + late) + episode
             + [AbsoluteEpisodeRule] + complete + language
    && PlainPatterns(head) && PlainPatterns(source) && PlainPatterns(audio) && PlainPatterns(group)
    && PlainPatterns(early) && PlainPatterns(late) && PlainPatterns(episode)
    && PlainPatterns(complete) && PlainPatterns(language)
    && NoneOf(complete, IsAnchorRule) && NoneOf(language, IsAnchorRule)
  }

  lemma DefaultLayout()
    ensures Layout(DefaultRules(), HeadRules, SourceRules, AudioRules, GroupRules, EarlySeasonRules,
                   LateSeasonRules, EpisodeRules, CompleteRules, LanguageRules)
  {
    HeadPlain();
    SourcePlain();
    AudioPlain();
    GroupPlain();
    SeasonPlain();
    EpisodePlain();
    CompletePlain();
    LanguagePlain();
  }

  lemma HandlerPlacement(rs: seq<Rule>, head: seq<Rule>, source: seq<Rule>, audio: seq<Rule>,
                         group: seq<Rule>, early: seq<Rule>, late: seq<Rule>, episode: seq<Rule>,
                         complete: seq<Rule>, language: seq<Rule>)
    requires Layout(rs, head, source, audio, group, early, late, episode, complete, language)
    ensures var k := |head + source + CodecRules + audio + group + (early + [SeasonAgain] + late) + episode|;
      && (forall j :: 0 <= j < |rs| ==> (IsAbsoluteEpisode(rs[j]) <==> j == k))
      && (forall i :: 0 <= i < |rs| && IsAnchorRule(rs[i]) ==> i < k)
      && k < |rs| && rs[k] == AbsoluteEpisodeRule
  {
    var front := head + source + CodecRules + audio + group + (early + [SeasonAgain] + late) + episode;
    var tail := complete + language;
    PlainPatternsAppend(head, source);
    assert NoneOf(head + source + CodecRules, IsAbsoluteEpisode);
    PlainPatternsAppend(audio, group);
    PlainPatternsAppend(early, late);
    PlainPatternsNoneOf(audio + group);
    PlainPatternsNoneOf(early + late);
    PlainPatternsNoneOf(episode);
    assert NoneOf(front, IsAbsoluteEpisode);
    PlainPatternsAppend(complete, language);
    PlainPatternsNoneOf(tail);
    assert rs == front + [AbsoluteEpisodeRule] + tail;
    OnlyAt(rs, front, [AbsoluteEpisodeRule], tail, 0, IsAbsoluteEpisode);
    assert NoneOf([AbsoluteEpisodeRule] + tail, IsAnchorRule);
    OnlyBefore(rs, front, [AbsoluteEpisodeRule] + tail, IsAnchorRule);
    assert rs[|front|] == AbsoluteEpisodeRule;
  }

  lemma CodecPlacement(rs: seq<Rule>, head: seq<Rule>, source: seq<Rule>, audio: seq<Rule>,
                       group: seq<Rule>, early: seq<Rule>, late: seq<Rule>, episode: seq<Rule>,
                       complete: seq<Rule>, language: seq<Rule>)
    requires Layout(rs, head, source, audio, group, early, late, episode, complete, language)
    ensures forall i :: 0 <= i < |rs| ==> (IsCodecPattern(rs[i]) <==> i == |head| + |source|)
    ensures forall i :: 0 <= i < |rs| ==> (IsCodecNormaliser(rs[i]) <==> i == |head| + |source| + 1)
  {
    var before := head + source;
    var after := audio + group + (early + [SeasonAgain] + late) + episode + [AbsoluteEpisodeRule]
                 + complete + language;
    PlainPatternsAppend(head, source);
    PlainPatternsNoneOf(before);
    PlainPatternsAppend(audio, group);
    PlainPatternsAppend(early, late);
    PlainPatternsNoneOf(audio + group);
    PlainPatternsNoneOf(early + late);
    PlainPatternsNoneOf(episode);
    PlainPatternsAppend(complete, language);
    PlainPatternsNoneOf(complete + language);
    assert NoneOf(after, IsCodecPattern) && NoneOf(after, IsCodecNormaliser);
    assert rs == before + CodecRules + after;
    OnlyAt(rs, before, CodecRules, after, 0, IsCodecPattern);
    OnlyAt(rs, before, CodecRules, after, 1, IsCodecNormaliser);
  }

  lemma OptionsPlacement(rs: seq<Rule>, head: seq<Rule>, source: seq<Rule>, audio: seq<Rule>,
                         group: seq<Rule>, early: seq<Rule>, late: seq<Rule>, episode: seq<Rule>,
                         complete: seq<Rule>, language: seq<Rule>)
    requires Layout(rs, head, source, audio, group, early, late, episode, complete, language)
    ensures var k := |head + source + CodecRules + audio + group + early|;
      && (forall i :: 0 <= i < |rs| ==> (HasOptions(rs[i]) <==> i == k))
      && rs[k] == SeasonAgain
  {
    var before := head + source + CodecRules + audio + group + early;
    var after := late + episode + [AbsoluteEpisodeRule] + complete + language;
    PlainPatternsAppend(head, source);
    PlainPatternsNoneOf(head + source);
    PlainPatternsAppend(audio, group);
    PlainPatternsNoneOf(audio + group);
    PlainPatternsNoneOf(early);
    assert NoneOf(before, HasOptions);
    PlainPatternsAppend(late, episode);
    PlainPatternsNoneOf(late + episode);
    PlainPatternsAppend(complete, language);
    PlainPatternsNoneOf(complete + language);
    assert NoneOf(after, HasOptions);
    assert rs == before + [SeasonAgain] + after;
    OnlyAt(rs, before, [SeasonAgain], after, 0, HasOptions);
    assert rs[|before|] == SeasonAgain;
  }

  lemma SectionLengths()
    ensures |HeadRules| == 13 && |SourceRules| == 20 && |CodecRules| == 2 && |AudioRules| == 5
    ensures |GroupRules| == 1 && |EarlySeasonRules| == 4 && |LateSeasonRules| == 2
    ensures |EpisodeRules| == 5 && |CompleteRules| == 5 && |LanguageRules| == 10
  {
  }

  /**
   * The absolute-episode handler is registered once, at position 53, after
   * every rule that fills resolution, source, codec or audio, so those fields
   * are settled when it reads `matched`.
   */
  lemma AbsoluteEpisodeAfterAnchors()
    ensures var rs := DefaultRules();
      && (forall j :: 0 <= j < |rs| ==> (IsAbsoluteEpisode(rs[j]) <==> j == 53))
      && (forall i :: 0 <= i < |rs| && IsAnchorRule(rs[i]) ==> i < 53)
      && rs[53] == AbsoluteEpisodeRule && AbsoluteEpisodeRule.field == Episode
  {
    DefaultLayout();
    SectionLengths();
    HandlerPlacement(DefaultRules(), HeadRules, SourceRules, AudioRules, GroupRules, EarlySeasonRules,
                     LateSeasonRules, EpisodeRules, CompleteRules, LanguageRules);
  }

  /** The codec pattern is the only one for the codec, and the normaliser runs right after it. */
  lemma CodecNormaliserAfterCodecPattern()
    ensures var rs := DefaultRules();
      && (forall i :: 0 <= i < |rs| ==> (IsCodecPattern(rs[i]) <==> i == 33))
      && (forall j :: 0 <= j < |rs| ==> (IsCodecNormaliser(rs[j]) <==> j == 34))
  {
    DefaultLayout();
    SectionLengths();
    CodecPlacement(DefaultRules(), HeadRules, SourceRules, AudioRules, GroupRules, EarlySeasonRules,
                   LateSeasonRules, EpisodeRules, CompleteRules, LanguageRules);
  }

  /**
   * Only one rule passes options: the season integer pattern of line 87, which
   * asks to run even when a season was already found.
   */
  lemma OnlySeasonAgainHasOptions()
    ensures var rs := DefaultRules();
      && (forall i :: 0 <= i < |rs| ==> (HasOptions(rs[i]) <==> i == 45))
      && rs[45] == SeasonAgain
      && SeasonAgain.field == Season && SeasonAgain.transformer == ToInteger
      && SeasonAgain.options.skipIfAlreadyFound == Some(false)
  {
    DefaultLayout();
    SectionLengths();
    OptionsPlacement(DefaultRules(), HeadRules, SourceRules, AudioRules, GroupRules, EarlySeasonRules,
                     LateSeasonRules, EpisodeRules, CompleteRules, LanguageRules);
  }
}
