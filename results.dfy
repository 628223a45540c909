/**
 * The record a parse fills in (the `ParserResult` interface of index.d.ts) and
 * the names of the fields rules are registered under.
 */
module Results {
  import opened Wrappers
  import Transformers

  /** The field, or handler name, a rule fills. */
  datatype Field =
    | Title | Date | Year | Resolution | Extended | Unrated | Proper | Repack | Convert
    | Hardcoded | Retail | Remastered | Complete | Region | Container | Source | Codec
    | Audio | Group | Volumes | Seasons | Season | Episodes | Episode | Language

  /**
   * A season or episode number: `integer` stores one number, while `range` and
   * the absolute-episode handler may store a list under the same field.
   */
  datatype Numbering = One(n: int) | Many(ns: seq<int>)

  /** Every field but `title` is optional; `None` is JavaScript's absent property. */
  datatype ParserResult = ParserResult(
    title: string,
    date: Option<string>,
    year: Option<Transformers.YearValue>,
    resolution: Option<string>,
    extended: Option<bool>,
    unrated: Option<bool>,
    proper: Option<bool>,
    repack: Option<bool>,
    convert: Option<bool>,
    hardcoded: Option<bool>,
    retail: Option<bool>,
    remastered: Option<bool>,
    complete: Option<bool>,
    region: Option<string>,
    container: Option<string>,
    source: Option<string>,
    codec: Option<string>,
    audio: Option<string>,
    group: Option<string>,
    volumes: Option<seq<int>>,
    seasons: Option<seq<int>>,
    season: Option<Numbering>,
    episodes: Option<seq<int>>,
    episode: Option<Numbering>,
    language: Option<string>)

  /** A result with only its title set. */
  function EmptyResult(title: string): (r: ParserResult)
    ensures r.title == title && r.codec.None? && r.season.None? && r.episode.None?
  {
    ParserResult(title, None, None, None, None, None, None, None, None, None, None, None,
                 None, None, None, None, None, None, None, None, None, None, None, None, None)
  }

  /** JavaScript truthiness of an optional string: present and non-empty. */
  predicate StringTruthy(o: Option<string>) {
    o.Some? && o.value != []
  }

  /** JavaScript truthiness of a season or episode: a non-zero number, or any list. */
  predicate NumberingTruthy(o: Option<Numbering>) {
    match o
    case None => false
    case Some(One(n)) => n != 0
    case Some(Many(_)) => true
  }

  /** The numbers a season or episode entry holds, in order. */
  function NumberingValues(n: Numbering): (vs: seq<int>)
    ensures n.One? ==> vs == [n.n]
    ensures n.Many? ==> vs == n.ns
  {
    match n
    case One(v) => [v]
    case Many(ns) => ns
  }

  /** JavaScript truthiness of `matched[f]`: recorded and non-empty. */
  predicate MatchedTruthy(matched: map<Field, string>, f: Field) {
    f in matched && matched[f] != []
  }
}
