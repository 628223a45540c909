/**
 * The digit groups of a string (its maximal runs of ASCII digits, in order),
 * defined directly by recursion. This is the reference against which the
 * replace/trim/split chains of the transformers are proved.
 */
module Digits {
  import opened JsString

  function DigitGroups(s: string): seq<string>
    decreases |s|
  {
    if s == [] then []
    else if !IsDigit(s[0]) then DigitGroups(s[1..])
    else
      var k := DigitPrefixLength(s);
      [s[..k]] + DigitGroups(s[k..])
  }

  /** Every digit group is a non-empty string of digits. */
  lemma {:induction false} GroupsAreDigits(s: string)
    ensures forall i :: 0 <= i < |DigitGroups(s)| ==> DigitGroups(s)[i] != [] && AllDigits(DigitGroups(s)[i])
    decreases |s|
  {
    if s != [] {
      if !IsDigit(s[0]) {
        GroupsAreDigits(s[1..]);
      } else {
        GroupsAreDigits(s[DigitPrefixLength(s)..]);
      }
    }
  }

  /** The numbers the digit groups of `s` denote, in order. */
  function Numbers(s: string): (ns: seq<nat>)
    ensures |ns| == |DigitGroups(s)|
  {
    GroupsAreDigits(s);
    var gs := DigitGroups(s);
    seq(|gs|, i requires 0 <= i < |gs| => ParseDigits(gs[i]))
  }

  /** A prefix length that is all digits and maximal is the digit prefix length. */
  lemma {:induction false} DigitPrefixLengthUnique(s: string, k: nat)
    requires k <= |s| && AllDigits(s[..k]) && (k < |s| ==> !IsDigit(s[k]))
    ensures DigitPrefixLength(s) == k
    decreases |s|
  {
    if k > 0 {
      assert s[0] == s[..k][0];
      assert s[1..][..k - 1] == s[1..k];
      DigitPrefixLengthUnique(s[1..], k - 1);
    }
  }

  lemma {:induction false} NonDigitPrefixLengthUnique(s: string, k: nat)
    requires k <= |s| && NoDigits(s[..k]) && (k < |s| ==> IsDigit(s[k]))
    ensures NonDigitPrefixLength(s) == k
    decreases |s|
  {
    if k > 0 {
      assert s[0] == s[..k][0];
      assert s[1..][..k - 1] == s[1..k];
      NonDigitPrefixLengthUnique(s[1..], k - 1);
    }
  }

  /** A string without digits has no digit group. */
  lemma {:induction false} GroupsOfNoDigits(s: string)
    requires NoDigits(s)
    ensures DigitGroups(s) == []
    decreases |s|
  {
    if s != [] {
      GroupsOfNoDigits(s[1..]);
    }
  }

  /** A non-empty string of digits is one digit group. */
  lemma GroupsOfDigits(d: string)
    requires d != [] && AllDigits(d)
    ensures DigitGroups(d) == [d]
  {
    DigitPrefixLengthUnique(d, |d|);
    assert d[..|d|] == d;
    assert d[|d|..] == [];
  }

  /** A string has a digit exactly when it has a digit group. */
  lemma {:induction false} GroupsNonEmpty(s: string)
    ensures HasDigit(s) <==> DigitGroups(s) != []
    decreases |s|
  {
    if s != [] {
      if !IsDigit(s[0]) {
        GroupsNonEmpty(s[1..]);
        if HasDigit(s) {
          var i :| 0 <= i < |s| && IsDigit(s[i]);
          assert s[1..][i - 1] == s[i];
        }
        if HasDigit(s[1..]) {
          var i :| 0 <= i < |s[1..]| && IsDigit(s[1..][i]);
          assert s[i + 1] == s[1..][i];
        }
      } else {
        assert IsDigit(s[0]);
      }
    }
  }

  /** Non-digits in front of a string contribute no group. */
  lemma {:induction false} GroupsSkipNonDigits(n: string, y: string)
    requires NoDigits(n)
    ensures DigitGroups(n + y) == DigitGroups(y)
    decreases |n|
  {
    if n != [] {
      assert (n + y)[1..] == n[1..] + y;
      GroupsSkipNonDigits(n[1..], y);
    } else {
      assert n + y == y;
    }
  }

  /** One non-digit character separates the groups on its two sides. */
  lemma {:induction false} GroupsSplitAt(x: string, c: char, y: string)
    requires !IsDigit(c)
    ensures DigitGroups(x + [c] + y) == DigitGroups(x) + DigitGroups(y)
    decreases |x|
  {
    var s := x + [c] + y;
    if x == [] {
      assert s[1..] == y;
    } else if !IsDigit(x[0]) {
      assert s[1..] == x[1..] + [c] + y;
      GroupsSplitAt(x[1..], c, y);
    } else {
      var k := DigitPrefixLength(x);
      assert s[..k] == x[..k];
      DigitPrefixLengthUnique(s, k);
      assert s[k..] == x[k..] + [c] + y;
      GroupsSplitAt(x[k..], c, y);
    }
  }

  /** Any non-empty run of non-digits acts as one separator, whatever it holds. */
  lemma GroupsSeparatedBy(x: string, sep: string, y: string)
    requires sep != [] && NoDigits(sep)
    ensures DigitGroups(x + sep + y) == DigitGroups(x) + DigitGroups(y)
  {
    assert x + sep + y == x + [sep[0]] + (sep[1..] + y);
    GroupsSplitAt(x, sep[0], sep[1..] + y);
    GroupsSkipNonDigits(sep[1..], y);
  }

  /** A digit run, a separator, then anything: the run is the first group. */
  lemma GroupsAfterDigitRun(x: string, sep: string, y: string)
    requires x != [] && AllDigits(x) && sep != [] && NoDigits(sep)
    ensures DigitGroups(x + sep + y) == [x] + DigitGroups(y)
  {
    GroupsSeparatedBy(x, sep, y);
    GroupsOfDigits(x);
  }

  /** The numbers of `x + sep + y` are those of `x` followed by those of `y`. */
  lemma NumbersSeparatedBy(x: string, sep: string, y: string)
    requires sep != [] && NoDigits(sep)
    ensures Numbers(x + sep + y) == Numbers(x) + Numbers(y)
  {
    GroupsSeparatedBy(x, sep, y);
  }

  /** The numbers of a non-empty digit string: its one value. */
  lemma NumbersOfDigits(d: string)
    requires d != [] && AllDigits(d)
    ensures Numbers(d) == [ParseDigits(d)]
  {
    GroupsOfDigits(d);
  }

  /** Joining digit groups with spaces gives a string that starts and ends with a digit. */
  lemma {:induction false} JoinedGroupsEnds(gs: seq<string>)
    requires gs != []
    requires forall i :: 0 <= i < |gs| ==> gs[i] != [] && AllDigits(gs[i])
    ensures var j := Join(gs, ' '); j != [] && IsDigit(j[0]) && IsDigit(j[|j| - 1])
    decreases |gs|
  {
    if |gs| > 1 {
      JoinedGroupsEnds(gs[1..]);
    }
  }

  function LeadingSpace(s: string): string {
    if s != [] && !IsDigit(s[0]) then " " else ""
  }

  function TrailingSpace(s: string): string {
    if s != [] && !IsDigit(s[|s| - 1]) then " " else ""
  }

  lemma ReplaceNoDigits(s: string)
    requires s != [] && NoDigits(s)
    ensures ReplaceNonDigitRuns(s) == " "
  {
    NonDigitPrefixLengthUnique(s, |s|);
    assert s[..|s|] == s;
  }

  /** The shape `ReplaceShape` proves, for one string. */
  predicate ReplacedAsJoined(s: string) {
    ReplaceNonDigitRuns(s) == LeadingSpace(s) + Join(DigitGroups(s), ' ') + TrailingSpace(s)
  }

  /**
   * `s.replace(/\D+/g, " ")` is the digit groups joined by single spaces,
   * with one more space in front and behind when `s` starts or ends with a non-digit.
   */
  lemma {:induction false} ReplaceShape(s: string)
    requires HasDigit(s)
    ensures ReplacedAsJoined(s)
    decreases |s|
  {
    if !IsDigit(s[0]) {
      var j := NonDigitPrefixLength(s);
      if j == |s| {
        assert false;
      }
      ReplaceShape(s[j..]);
      ReplaceShapeNonDigitFirst(s, j);
    } else {
      var k := DigitPrefixLength(s);
      var rest := s[k..];
      if rest == [] {
        ReplaceShapeOneGroup(s, k);
      } else if !HasDigit(rest) {
        ReplaceShapeLastGroup(s, k);
      } else {
        ReplaceShape(rest);
        ReplaceShapeMoreGroups(s, k);
      }
    }
  }

  lemma ReplaceShapeNonDigitFirst(s: string, j: nat)
    requires s != [] && !IsDigit(s[0])
    requires j == NonDigitPrefixLength(s) && j < |s|
    requires ReplacedAsJoined(s[j..])
    ensures ReplacedAsJoined(s)
  {
    GroupsAfterNonDigits(s, j);
    ReplaceOfGroupsAfterNonDigits(s, j);
    ReplaceUnfoldsNonDigits(s, j);
    AssembleAfterSpace(ReplaceNonDigitRuns(s), ReplaceNonDigitRuns(s[j..]),
      Join(DigitGroups(s), ' '), TrailingSpace(s));
  }

  lemma ReplaceUnfoldsNonDigits(s: string, j: nat)
    requires s != [] && !IsDigit(s[0])
    requires j == NonDigitPrefixLength(s)
    ensures ReplaceNonDigitRuns(s) == " " + ReplaceNonDigitRuns(s[j..])
    ensures LeadingSpace(s) == " "
  {
  }

  // A step of string algebra split out of a larger proof to keep that proof cheap.
  lemma AssembleAfterSpace(x: string, y: string, js: string, t: string)
    requires x == " " + y && y == js + t
    ensures x == " " + js + t
  {
  }

  lemma GroupsAfterNonDigits(s: string, j: nat)
    requires j == NonDigitPrefixLength(s)
    ensures DigitGroups(s) == DigitGroups(s[j..])
  {
    assert s == s[..j] + s[j..];
    GroupsSkipNonDigits(s[..j], s[j..]);
  }

  lemma ReplaceOfGroupsAfterNonDigits(s: string, j: nat)
    requires s != [] && !IsDigit(s[0])
    requires j == NonDigitPrefixLength(s) && j < |s|
    requires ReplacedAsJoined(s[j..])
    ensures ReplaceNonDigitRuns(s[j..]) == Join(DigitGroups(s[j..]), ' ') + TrailingSpace(s)
  {
    RestEnds(s, j);
    assert [] + Join(DigitGroups(s[j..]), ' ') == Join(DigitGroups(s[j..]), ' ');
  }

  lemma ReplaceShapeOneGroup(s: string, k: nat)
    requires s != [] && IsDigit(s[0])
    requires k == DigitPrefixLength(s) && k == |s|
    ensures ReplacedAsJoined(s)
  {
    assert s[..k] == s && s[k..] == [];
    OneGroupShape(s);
    assert ReplaceNonDigitRuns(s) == s + [];
  }

  lemma OneGroupShape(s: string)
    requires s != [] && AllDigits(s)
    ensures LeadingSpace(s) == [] && TrailingSpace(s) == [] && Join(DigitGroups(s), ' ') == s
  {
    GroupsOfDigits(s);
  }

  lemma ReplaceShapeLastGroup(s: string, k: nat)
    requires s != [] && IsDigit(s[0])
    requires k == DigitPrefixLength(s) && k < |s| && !HasDigit(s[k..])
    ensures ReplacedAsJoined(s)
  {
    var g := s[..k];
    var rest := s[k..];
    assert NoDigits(rest);
    ReplaceNoDigits(rest);
    GroupsOfNoDigits(rest);
    assert DigitGroups(s) == [g];
    assert rest[|rest| - 1] == s[|s| - 1];
    assert ReplaceNonDigitRuns(s) == g + " ";
  }

  lemma ReplaceShapeMoreGroups(s: string, k: nat)
    requires s != [] && IsDigit(s[0])
    requires k == DigitPrefixLength(s) && k < |s| && HasDigit(s[k..])
    requires ReplacedAsJoined(s[k..])
    ensures ReplacedAsJoined(s)
  {
    JoinOfMoreGroups(s, k);
    ReplaceOfLaterGroups(s, k);
    ReplaceUnfoldsDigits(s, k);
    Assemble(ReplaceNonDigitRuns(s), s[..k], ReplaceNonDigitRuns(s[k..]),
      Join(DigitGroups(s[k..]), ' '), Join(DigitGroups(s), ' '), TrailingSpace(s));
  }

  lemma JoinOfMoreGroups(s: string, k: nat)
    requires s != [] && IsDigit(s[0])
    requires k == DigitPrefixLength(s) && k < |s| && HasDigit(s[k..])
    ensures Join(DigitGroups(s), ' ') == s[..k] + " " + Join(DigitGroups(s[k..]), ' ')
  {
    GroupsNonEmpty(s[k..]);
    assert DigitGroups(s) == [s[..k]] + DigitGroups(s[k..]);
    JoinCons(s[..k], DigitGroups(s[k..]));
  }

  lemma ReplaceOfLaterGroups(s: string, k: nat)
    requires s != [] && IsDigit(s[0])
    requires k == DigitPrefixLength(s) && k < |s|
    requires ReplacedAsJoined(s[k..])
    ensures ReplaceNonDigitRuns(s[k..]) == " " + Join(DigitGroups(s[k..]), ' ') + TrailingSpace(s)
  {
    RestEnds(s, k);
  }

  /** The spaces the replace adds around a suffix: its first character decides the leading one, and it ends where `s` ends. */
  lemma RestEnds(s: string, k: nat)
    requires k < |s|
    ensures LeadingSpace(s[k..]) == if IsDigit(s[k]) then "" else " "
    ensures TrailingSpace(s[k..]) == TrailingSpace(s)
  {
    var rest := s[k..];
    assert rest[0] == s[k];
    assert rest[|rest| - 1] == s[|s| - 1];
  }

  lemma ReplaceUnfoldsDigits(s: string, k: nat)
    requires s != [] && IsDigit(s[0])
    requires k == DigitPrefixLength(s)
    ensures ReplaceNonDigitRuns(s) == s[..k] + ReplaceNonDigitRuns(s[k..])
    ensures LeadingSpace(s) == []
  {
  }

  // A step of string algebra split out of a larger proof to keep that proof cheap.
  lemma Assemble(x: string, g: string, y: string, jn: string, js: string, t: string)
    requires x == g + y && y == " " + jn + t && js == g + " " + jn
    ensures x == [] + js + t
  {
  }

  lemma JoinCons(g: string, gs: seq<string>)
    requires gs != []
    ensures Join([g] + gs, ' ') == g + " " + Join(gs, ' ')
  {
    assert ([g] + gs)[1..] == gs;
  }

  lemma TrimStartUnchanged(x: string)
    requires x == [] || !IsWhitespace(x[0])
    ensures TrimStart(x) == x
  {
  }

  lemma TrimEndUnchanged(x: string)
    requires x == [] || !IsWhitespace(x[|x| - 1])
    ensures TrimEnd(x) == x
  {
  }

  lemma TrimStartDropsSpace(x: string)
    ensures TrimStart([' '] + x) == TrimStart(x)
  {
    assert ([' '] + x)[1..] == x;
  }

  lemma TrimEndDropsSpace(x: string)
    ensures TrimEnd(x + [' ']) == TrimEnd(x)
  {
    assert (x + [' '])[..|x|] == x;
  }

  lemma TrimPadded(lead: string, j: string, trail: string)
    requires lead == "" || lead == " "
    requires trail == "" || trail == " "
    requires j != [] && !IsWhitespace(j[0]) && !IsWhitespace(j[|j| - 1])
    ensures Trim(lead + j + trail) == j
  {
    var u := j + trail;
    assert u[0] == j[0];
    TrimStartUnchanged(u);
    if lead == " " {
      assert lead + j + trail == [' '] + u;
      TrimStartDropsSpace(u);
    } else {
      assert lead + j + trail == u;
    }
    TrimEndUnchanged(j);
    if trail == " " {
      assert u == j + [' '];
      TrimEndDropsSpace(j);
    } else {
      assert u == j;
    }
  }

  /**
   * The chain `s.replace(/\D+/g, " ").trim().split(" ")` yields exactly the
   * digit groups of `s`, when `s` holds a digit.
   */
  lemma ReplaceTrimSplitIsGroups(s: string)
    requires HasDigit(s)
    ensures Split(Trim(ReplaceNonDigitRuns(s)), ' ') == DigitGroups(s)
  {
    var gs := DigitGroups(s);
    TrimmedReplaceIsJoin(s);
    GroupsAreDigits(s);
    GroupsHaveNoSpace(gs);
    GroupsNonEmpty(s);
    SplitJoin(gs, ' ');
  }

  lemma TrimmedReplaceIsJoin(s: string)
    requires HasDigit(s)
    ensures Trim(ReplaceNonDigitRuns(s)) == Join(DigitGroups(s), ' ')
  {
    var gs := DigitGroups(s);
    var j := Join(gs, ' ');
    assert ReplaceNonDigitRuns(s) == LeadingSpace(s) + j + TrailingSpace(s) by {
      ReplaceShape(s);
    }
    assert j != [] && !IsWhitespace(j[0]) && !IsWhitespace(j[|j| - 1]) by {
      GroupsNonEmpty(s);
      GroupsAreDigits(s);
      JoinedGroupsEnds(gs);
    }
    TrimPadded(LeadingSpace(s), j, TrailingSpace(s));
  }

  lemma GroupsHaveNoSpace(gs: seq<string>)
    requires forall i :: 0 <= i < |gs| ==> AllDigits(gs[i])
    ensures forall i :: 0 <= i < |gs| ==> ' ' !in gs[i]
  {
  }

  /**
   * For a string that starts with a digit, `s.split(/\D+/)` begins with the first
   * digit group, and its second piece is non-empty exactly when there is a second
   * digit group, which it then is.
   */
  lemma SplitRunsAgreesWithGroups(s: string)
    requires s != [] && IsDigit(s[0])
    ensures var parts, gs := SplitOnNonDigitRuns(s), DigitGroups(s);
      && gs != [] && parts[0] == gs[0]
      && ((|parts| >= 2 && parts[1] != []) <==> |gs| >= 2)
      && (|gs| >= 2 ==> parts[1] == gs[1])
  {
    var k := DigitPrefixLength(s);
    var rest := s[k..];
    assert DigitGroups(s) == [s[..k]] + DigitGroups(rest);
    if rest != [] {
      var j := NonDigitPrefixLength(rest);
      var r2 := rest[j..];
      assert SplitOnNonDigitRuns(s) == [s[..k]] + SplitOnNonDigitRuns(r2);
      GroupsAfterNonDigits(rest, j);
      if r2 == [] {
        assert DigitGroups(r2) == [];
        assert SplitOnNonDigitRuns(r2) == [[]];
      } else {
        assert IsDigit(r2[0]);
        var k2 := DigitPrefixLength(r2);
        assert DigitGroups(r2) == [r2[..k2]] + DigitGroups(r2[k2..]);
      }
    }
  }
}
