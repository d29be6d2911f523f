/** The part of Python's `re` that the operator classifier relies on, stated by
    meaning: whether a pattern matches a stretch of the text. Match order
    (greedy or lazy repetition, the order alternatives are tried in) only picks
    one match among several, and the classifier asks only whether one exists. */
module Regex {
  import opened Chars

  /** A character class `[...]`. */
  datatype CharSet =
    | Span(lo: char, hi: char)   // `lo-hi`
    | One(c: char)
    | WordChars                  // `\w`
    | SpaceChars                 // `\s`
    | Either(a: CharSet, b: CharSet)

  predicate InSet(cs: CharSet, c: char) {
    match cs
    case Span(lo, hi) => lo <= c <= hi
    case One(d) => c == d
    case WordChars => IsPyWord(c)
    case SpaceChars => IsPySpace(c)
    case Either(a, b) => InSet(a, c) || InSet(b, c)
  }

  /** With `re.IGNORECASE` a character also matches through its other case. */
  predicate SetMatches(cs: CharSet, c: char, icase: bool) {
    InSet(cs, c) || (icase && (InSet(cs, Lower(c)) || InSet(cs, Upper(c))))
  }

  predicate CharMatches(p: char, c: char, icase: bool) {
    p == c || (icase && Lower(p) == Lower(c))
  }

  /** A pattern. */
  datatype Re =
    | Class(cs: CharSet)            // one character of the class
    | Lit(text: string)             // these characters in turn
    | Run(cs: CharSet, min: nat)    // `cs*` (min 0) or `cs+` (min 1), greedy or lazy
    | Cat(a: Re, b: Re)
    | Alt(a: Re, b: Re)             // `a|b`
    | Opt(a: Re)                    // `a?`
    | Boundary                      // `\b`
    | End                           // `$` without `re.MULTILINE`

  /** `r` matches `s[i..j]`. */
  predicate Matches(r: Re, s: string, i: nat, j: nat, icase: bool)
    requires i <= j <= |s|
    decreases r
  {
    match r
    case Class(cs) => j == i + 1 && SetMatches(cs, s[i], icase)
    case Lit(t) => j == i + |t| && forall k :: 0 <= k < |t| ==> CharMatches(t[k], s[i + k], icase)
    case Run(cs, min) => j - i >= min && forall k :: i <= k < j ==> SetMatches(cs, s[k], icase)
    case Cat(a, b) => exists k :: i <= k <= j && Matches(a, s, i, k, icase) && Matches(b, s, k, j, icase)
    case Alt(a, b) => Matches(a, s, i, j, icase) || Matches(b, s, i, j, icase)
    case Opt(a) => i == j || Matches(a, s, i, j, icase)
    case Boundary => i == j && WordBoundary(s, i)
    case End => i == j && (i == |s| || (i + 1 == |s| && s[i] == '\n'))
  }

  /** `re.search(r, s)` is truthy. */
  predicate Search(r: Re, s: string, icase: bool) {
    exists i, j :: 0 <= i <= j <= |s| && Matches(r, s, i, j, icase)
  }

  /** `re.match(r, s)` is truthy (the match is anchored at the start). */
  predicate MatchStart(r: Re, s: string) {
    exists j :: 0 <= j <= |s| && Matches(r, s, 0, j, false)
  }

  /** The patterns one after the other. */
  function Concat(rs: seq<Re>): Re {
    if rs == [] then Lit("") else if |rs| == 1 then rs[0] else Cat(rs[0], Concat(rs[1..]))
  }

  /** The alternation `rs[0]|rs[1]|...`. */
  function AnyOf(rs: seq<Re>): Re
    requires rs != []
  {
    if |rs| == 1 then rs[0] else Alt(rs[0], AnyOf(rs[1..]))
  }

  /** `\b(alternatives)\b`. */
  function WordBounded(alts: seq<Re>): Re
    requires alts != []
  {
    Cat(Boundary, Cat(AnyOf(alts), Boundary))
  }

  /** An alternation matches exactly where one of its alternatives does. */
  lemma {:induction false} AnyOfMatches(rs: seq<Re>, s: string, i: nat, j: nat, icase: bool)
    requires rs != [] && i <= j <= |s|
    ensures Matches(AnyOf(rs), s, i, j, icase) <==> exists k :: 0 <= k < |rs| && Matches(rs[k], s, i, j, icase)
    decreases |rs|
  {
    if |rs| > 1 {
      AnyOfMatches(rs[1..], s, i, j, icase);
      if Matches(AnyOf(rs[1..]), s, i, j, icase) {
        var k :| 0 <= k < |rs[1..]| && Matches(rs[1..][k], s, i, j, icase);
        assert rs[k + 1] == rs[1..][k];
      }
      if exists k :: 0 < k < |rs| && Matches(rs[k], s, i, j, icase) {
        var k :| 0 < k < |rs| && Matches(rs[k], s, i, j, icase);
        assert rs[1..][k - 1] == rs[k];
      }
    }
  }

  /** A word-bounded alternation is found exactly when one alternative matches a
      stretch with a word boundary at each end. */
  lemma WordBoundedSearch(alts: seq<Re>, s: string, icase: bool)
    requires alts != []
    ensures Search(WordBounded(alts), s, icase) <==>
              exists k, i, j :: 0 <= k < |alts| && 0 <= i <= j <= |s|
                && WordBoundary(s, i) && Matches(alts[k], s, i, j, icase) && WordBoundary(s, j)
  {
    if Search(WordBounded(alts), s, icase) {
      WordBoundedFound(alts, s, icase);
    }
    if exists k, i, j :: 0 <= k < |alts| && 0 <= i <= j <= |s|
         && WordBoundary(s, i) && Matches(alts[k], s, i, j, icase) && WordBoundary(s, j) {
      var k, i, j :| 0 <= k < |alts| && 0 <= i <= j <= |s|
         && WordBoundary(s, i) && Matches(alts[k], s, i, j, icase) && WordBoundary(s, j);
      WordBoundedAt(alts, s, icase, k, i, j);
    }
  }

  /** A match of the bounded pattern is a bounded match of one alternative. */
  lemma WordBoundedFound(alts: seq<Re>, s: string, icase: bool)
    requires alts != [] && Search(WordBounded(alts), s, icase)
    ensures exists k, i, j :: 0 <= k < |alts| && 0 <= i <= j <= |s|
              && WordBoundary(s, i) && Matches(alts[k], s, i, j, icase) && WordBoundary(s, j)
  {
    var r := WordBounded(alts);
    var i, j :| 0 <= i <= j <= |s| && Matches(r, s, i, j, icase);
    assert Matches(Cat(Boundary, Cat(AnyOf(alts), Boundary)), s, i, j, icase);
    var m :| i <= m <= j && Matches(Boundary, s, i, m, icase) && Matches(Cat(AnyOf(alts), Boundary), s, m, j, icase);
    assert m == i;
    assert Matches(Cat(AnyOf(alts), Boundary), s, m, j, icase);
    var n :| m <= n <= j && Matches(AnyOf(alts), s, m, n, icase) && Matches(Boundary, s, n, j, icase);
    AnyOfMatches(alts, s, i, n, icase);
    var k :| 0 <= k < |alts| && Matches(alts[k], s, i, n, icase);
    assert WordBoundary(s, i) && Matches(alts[k], s, i, n, icase) && WordBoundary(s, n);
  }

  /** A bounded match of one alternative is a match of the bounded pattern. */
  lemma WordBoundedAt(alts: seq<Re>, s: string, icase: bool, k: nat, i: nat, j: nat)
    requires k < |alts| && i <= j <= |s|
    requires WordBoundary(s, i) && Matches(alts[k], s, i, j, icase) && WordBoundary(s, j)
    ensures Search(WordBounded(alts), s, icase)
  {
    AnyOfMatches(alts, s, i, j, icase);
    assert Matches(Cat(AnyOf(alts), Boundary), s, i, j, icase);
    assert Matches(WordBounded(alts), s, i, j, icase);
  }

  /** Text without word characters has no word boundary, so a word-bounded
      pattern never matches it. */
  lemma NoWordNoBoundedMatch(alts: seq<Re>, s: string, icase: bool)
    requires alts != []
    requires forall k :: 0 <= k < |s| ==> !IsPyWord(s[k])
    ensures !Search(WordBounded(alts), s, icase)
  {
    WordBoundedSearch(alts, s, icase);
  }

  // ---------------------------------------------------------------------------
  // Ruling matches out

  /** `t` fits in `s` from `i` and its first three characters match there:
      a necessary condition for `t` to match from `i` that is cheap to evaluate
      and enough to tell the marker words apart. */
  predicate LitStart(t: string, s: string, i: nat, icase: bool) {
    && i + |t| <= |s|
    && (|t| > 0 ==> CharMatches(t[0], s[i], icase))
    && (|t| > 1 ==> CharMatches(t[1], s[i + 1], icase))
    && (|t| > 2 ==> CharMatches(t[2], s[i + 2], icase))
  }

  /** What the characters from `i` must look like for some match of `r` to start
      there: a necessary condition, so that `!Viable(r, s, i, icase)` rules out
      every match of `r` at `i`. */
  predicate Viable(r: Re, s: string, i: nat, icase: bool)
    decreases r
  {
    match r
    case Class(cs) => i < |s| && SetMatches(cs, s[i], icase)
    case Lit(t) => LitStart(t, s, i, icase)
    case Run(cs, min) => min == 0 || (i < |s| && SetMatches(cs, s[i], icase))
    case Cat(a, b) =>
      if a.Lit? then LitStart(a.text, s, i, icase) && Viable(b, s, i + |a.text|, icase)
      else if a.Opt? then Viable(b, s, i, icase) || Viable(a.a, s, i, icase)
      else Viable(a, s, i, icase)
    case Alt(a, b) => Viable(a, s, i, icase) || Viable(b, s, i, icase)
    case Opt(_) => true
    case Boundary => i <= |s| && WordBoundary(s, i)
    case End => true
  }

  /** Every match of `r` starts where `r` is viable. */
  lemma {:induction false} MatchesViable(r: Re, s: string, i: nat, j: nat, icase: bool)
    requires i <= j <= |s| && Matches(r, s, i, j, icase)
    ensures Viable(r, s, i, icase)
    decreases r
  {
    match r
    case Lit(t) =>
    case Cat(a, b) =>
      var k :| i <= k <= j && Matches(a, s, i, k, icase) && Matches(b, s, k, j, icase);
      if a.Lit? {
        MatchesViable(b, s, k, j, icase);
      } else if a.Opt? {
        if k == i {
          MatchesViable(b, s, k, j, icase);
        } else {
          MatchesViable(a.a, s, i, k, icase);
        }
      } else {
        MatchesViable(a, s, i, k, icase);
      }
    case Alt(a, b) =>
      if Matches(a, s, i, j, icase) {
        MatchesViable(a, s, i, j, icase);
      } else {
        MatchesViable(b, s, i, j, icase);
      }
    case Class(_) =>
    case Run(_, _) =>
    case Opt(_) =>
    case Boundary =>
    case End =>
  }

  /** The pattern begins with a literal word character, as every marker does. */
  predicate WordHeaded(r: Re)
    decreases r
  {
    || (r.Lit? && r.text != [] && IsPyWord(r.text[0]))
    || (r.Cat? && WordHeaded(r.a))
  }

  /** Every alternative is word-headed. */
  predicate AllWordHeaded(alts: seq<Re>) {
    forall k :: 0 <= k < |alts| ==> WordHeaded(alts[k])
  }

  /** No alternative is viable at `i`. */
  predicate NoneViable(alts: seq<Re>, s: string, i: nat, icase: bool) {
    forall k :: 0 <= k < |alts| ==> !Viable(alts[k], s, i, icase)
  }

  /** Case-insensitive matching keeps a character a word character. */
  lemma CharMatchesWord(p: char, c: char, icase: bool)
    requires IsPyWord(p) && CharMatches(p, c, icase)
    ensures IsPyWord(c)
  {
  }

  /** A pattern headed by a word character only starts at a word character. */
  lemma {:induction false} WordHeadedViable(r: Re, s: string, i: nat, icase: bool)
    requires WordHeaded(r) && Viable(r, s, i, icase)
    ensures i < |s| && IsPyWord(s[i])
    decreases r
  {
    if r.Lit? {
      assert LitStart(r.text, s, i, icase);
      CharMatchesWord(r.text[0], s[i], icase);
    } else if r.a.Lit? {
      assert LitStart(r.a.text, s, i, icase);
      CharMatchesWord(r.a.text[0], s[i], icase);
    } else {
      WordHeadedViable(r.a, s, i, icase);
    }
  }

  /** A word-bounded alternation of word-headed patterns is not found when no
      alternative is viable where a word starts. */
  lemma NoBoundedMatch(alts: seq<Re>, s: string, icase: bool, starts: set<nat>)
    requires alts != [] && AllWordHeaded(alts)
    requires forall i :: 0 <= i < |s| && WordBoundary(s, i) && IsPyWord(s[i]) ==> i in starts
    requires forall i :: i in starts ==> NoneViable(alts, s, i, icase)
    ensures !Search(WordBounded(alts), s, icase)
  {
    WordBoundedSearch(alts, s, icase);
    if Search(WordBounded(alts), s, icase) {
      var k, i, j :| 0 <= k < |alts| && 0 <= i <= j <= |s|
        && WordBoundary(s, i) && Matches(alts[k], s, i, j, icase) && WordBoundary(s, j);
      MatchesViable(alts[k], s, i, j, icase);
      WordHeadedViable(alts[k], s, i, icase);
      assert false;
    }
  }

  /** A sequence of patterns headed by a class does not match at the start of
      text that does not start with a character of the class. */
  lemma ClassHeadNoStart(rs: seq<Re>, s: string)
    requires |rs| >= 2 && rs[0].Class? && (|s| == 0 || !InSet(rs[0].cs, s[0]))
    ensures !MatchStart(Concat(rs), s)
  {
    if MatchStart(Concat(rs), s) {
      var j :| 0 <= j <= |s| && Matches(Concat(rs), s, 0, j, false);
      CatSplits(rs[0], Concat(rs[1..]), s, 0, j, false);
      assert false;
    }
  }

  /** An anchored pattern that is not viable at the start does not match. */
  lemma NoMatchStart(r: Re, s: string)
    requires !Viable(r, s, 0, false)
    ensures !MatchStart(r, s)
  {
    if MatchStart(r, s) {
      var j :| 0 <= j <= |s| && Matches(r, s, 0, j, false);
      MatchesViable(r, s, 0, j, false);
    }
  }

  // ---------------------------------------------------------------------------
  // Building matches

  lemma CatMatches(a: Re, b: Re, s: string, i: nat, k: nat, j: nat, icase: bool)
    requires i <= k <= j <= |s| && Matches(a, s, i, k, icase) && Matches(b, s, k, j, icase)
    ensures Matches(Cat(a, b), s, i, j, icase)
  {
  }

  /** Piece `k` of `rs` matches `s` between cuts `k` and `k + 1`. */
  predicate PieceMatches(rs: seq<Re>, s: string, cuts: seq<nat>, k: nat, icase: bool) {
    k < |rs| && k + 1 < |cuts| && cuts[k] <= cuts[k + 1] <= |s| && Matches(rs[k], s, cuts[k], cuts[k + 1], icase)
  }

  /** Pieces `rs` that match the consecutive stretches between `cuts` match,
      one after the other, the whole stretch. */
  lemma {:induction false} ConcatMatchesAt(rs: seq<Re>, s: string, cuts: seq<nat>, icase: bool)
    requires |rs| > 0 && |cuts| == |rs| + 1
    requires forall k :: 0 <= k < |rs| ==> PieceMatches(rs, s, cuts, k, icase)
    ensures cuts[0] <= cuts[|rs|] <= |s| && Matches(Concat(rs), s, cuts[0], cuts[|rs|], icase)
    decreases |rs|
  {
    assert PieceMatches(rs, s, cuts, 0, icase);
    if |rs| > 1 {
      var rest, after := rs[1..], cuts[1..];
      forall k | 0 <= k < |rest| ensures PieceMatches(rest, s, after, k, icase) {
        assert PieceMatches(rs, s, cuts, k + 1, icase);
        assert rest[k] == rs[k + 1] && after[k] == cuts[k + 1] && after[k + 1] == cuts[k + 2];
      }
      ConcatMatchesAt(rest, s, after, icase);
      assert after[|rest|] == cuts[|rs|];
      CatMatches(rs[0], Concat(rest), s, cuts[0], cuts[1], cuts[|rs|], icase);
      assert Concat(rs) == Cat(rs[0], Concat(rest));
    } else {
      assert Concat(rs) == rs[0];
    }
  }

  /** A match of `a` then `b` splits where `a`'s match ends. */
  lemma CatSplits(a: Re, b: Re, s: string, i: nat, j: nat, icase: bool)
    requires i <= j <= |s| && Matches(Cat(a, b), s, i, j, icase)
    ensures exists k :: i <= k <= j && Matches(a, s, i, k, icase) && Matches(b, s, k, j, icase)
  {
  }

  /** `Concat` takes its first pattern off the front. */
  lemma ConcatCons(r: Re, rs: seq<Re>)
    requires rs != []
    ensures Concat([r] + rs) == Cat(r, Concat(rs))
  {
    assert ([r] + rs)[1..] == rs;
  }
}
