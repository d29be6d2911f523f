/** The operator classifier: a free-text operator name is normalised and put
    into one of five categories by a cascade of tests, the first test that
    holds deciding the category and its confidence. */
module PartyClassifier {
  import opened Wrappers
  import opened Chars
  import opened Regex

  // ---------------------------------------------------------------------------
  // Normalisation

  /** The quote characters `[«»"'„“”]`. */
  predicate IsQuote(c: char) {
    c == '«' || c == '»' || c == '"' || c == '\'' || c == '„' || c == '“' || c == '”'
  }

  function QuoteToSpace(c: char): char {
    if IsQuote(c) then ' ' else c
  }

  /** `re.sub(r'\s+', ' ', s)` from position `i`: every whitespace run becomes one space. */
  function CollapseFrom(s: string, i: nat): (r: string)
    requires i <= |s|
    ensures i == |s| ==> r == []
    ensures i < |s| ==> r != [] && r[0] == (if IsPySpace(s[i]) then ' ' else s[i])
    decreases |s| - i
  {
    if i == |s| then []
    else if IsPySpace(s[i]) then [' '] + CollapseFrom(s, SkipFrom(s, IsPySpace, i))
    else [s[i]] + CollapseFrom(s, i + 1)
  }

  function CollapseSpaces(s: string): string {
    CollapseFrom(s, 0)
  }

  /** `PartyClassifier._normalize`. */
  function Normalize(s: Option<string>): string {
    var txt := Strip(s.GetOr(""), IsPySpace);
    Strip(CollapseSpaces(MapChars(QuoteToSpace, txt)), IsPySpace)
  }

  /** Every whitespace character is a plain space, and none is followed by another. */
  predicate SingleSpaced(t: string) {
    forall k :: 0 <= k < |t| && IsPySpace(t[k]) ==> t[k] == ' ' && (k + 1 < |t| ==> !IsPySpace(t[k + 1]))
  }

  predicate NoQuotes(t: string) {
    forall k :: 0 <= k < |t| ==> !IsQuote(t[k])
  }

  /** What `_normalize` promises: trimmed, free of quotes, single-spaced. */
  predicate IsNormal(t: string) {
    && (t != [] ==> !IsPySpace(t[0]) && !IsPySpace(t[|t| - 1]))
    && NoQuotes(t)
    && SingleSpaced(t)
  }

  lemma {:induction false} CollapseFromSpaced(s: string, i: nat)
    requires i <= |s|
    ensures SingleSpaced(CollapseFrom(s, i))
    decreases |s| - i
  {
    if i < |s| {
      var r := CollapseFrom(s, i);
      if IsPySpace(s[i]) {
        var k := SkipFrom(s, IsPySpace, i);
        CollapseFromSpaced(s, k);
        forall q | 0 <= q < |r| && IsPySpace(r[q]) ensures r[q] == ' ' && (q + 1 < |r| ==> !IsPySpace(r[q + 1])) {
          if q > 0 { assert r[q] == CollapseFrom(s, k)[q - 1]; }
          if q + 1 < |r| { assert r[q + 1] == CollapseFrom(s, k)[q]; }
        }
      } else {
        CollapseFromSpaced(s, i + 1);
        forall q | 0 <= q < |r| && IsPySpace(r[q]) ensures r[q] == ' ' && (q + 1 < |r| ==> !IsPySpace(r[q + 1])) {
          assert q > 0;
          assert r[q] == CollapseFrom(s, i + 1)[q - 1];
          if q + 1 < |r| { assert r[q + 1] == CollapseFrom(s, i + 1)[q]; }
        }
      }
    }
  }

  lemma {:induction false} CollapseFromNoQuotes(s: string, i: nat)
    requires i <= |s| && NoQuotes(s)
    ensures NoQuotes(CollapseFrom(s, i))
    decreases |s| - i
  {
    if i < |s| {
      var r := CollapseFrom(s, i);
      var k := if IsPySpace(s[i]) then SkipFrom(s, IsPySpace, i) else i + 1;
      CollapseFromNoQuotes(s, k);
      forall q | 0 <= q < |r| ensures !IsQuote(r[q]) {
        if q > 0 { assert r[q] == CollapseFrom(s, k)[q - 1]; }
      }
    }
  }

  /** Single-spaced text has nothing to collapse. */
  lemma {:induction false} CollapseFromIdentity(s: string, i: nat)
    requires i <= |s| && SingleSpaced(s)
    ensures CollapseFrom(s, i) == s[i..]
    decreases |s| - i
  {
    if i < |s| {
      if IsPySpace(s[i]) {
        SkipFromExact(s, IsPySpace, i, i + 1);
      }
      CollapseFromIdentity(s, i + 1);
      assert s[i..] == [s[i]] + s[i + 1..];
    }
  }

  /** A window of text keeps its single spacing and its lack of quotes. */
  lemma WindowKeeps(s: string, o: nat, n: nat)
    requires o + n <= |s| && NoQuotes(s) && SingleSpaced(s)
    ensures NoQuotes(s[o..o + n]) && SingleSpaced(s[o..o + n])
  {
    var w := s[o..o + n];
    assert forall q :: 0 <= q < |w| ==> w[q] == s[o + q];
  }

  /** `_normalize` always returns normal text. */
  lemma NormalizeIsNormal(s: Option<string>)
    ensures IsNormal(Normalize(s))
  {
    var txt := Strip(s.GetOr(""), IsPySpace);
    var unquoted := MapChars(QuoteToSpace, txt);
    assert NoQuotes(unquoted);
    CollapseFromSpaced(unquoted, 0);
    CollapseFromNoQuotes(unquoted, 0);
    StripKeeps(CollapseSpaces(unquoted));
  }

  /** Stripping single-spaced text without quotes gives normal text. */
  lemma StripKeeps(t: string)
    requires NoQuotes(t) && SingleSpaced(t)
    ensures IsNormal(Strip(t, IsPySpace))
  {
    StripWindow(t, IsPySpace);
    WindowKeeps(t, SkipFrom(t, IsPySpace, 0), |Strip(t, IsPySpace)|);
  }

  /** Normal text normalises to itself. */
  lemma NormalIsFixed(t: string)
    requires IsNormal(t)
    ensures Normalize(Some(t)) == t
  {
    StripIdentity(t, IsPySpace);
    assert MapChars(QuoteToSpace, t) == t;
    CollapseFromIdentity(t, 0);
    StripIdentity(t, IsPySpace);
  }

  /** `_normalize` is idempotent. */
  lemma NormalizeIdempotent(s: Option<string>)
    ensures Normalize(Some(Normalize(s))) == Normalize(s)
  {
    NormalizeIsNormal(s);
    NormalIsFixed(Normalize(s));
  }

  /** `None`, "" and blank text all normalise to "". */
  lemma NormalizeBlank(s: Option<string>)
    requires s.Some? ==> forall k :: 0 <= k < |s.value| ==> IsPySpace(s.value[k])
    ensures Normalize(s) == ""
  {
    var txt := Strip(s.GetOr(""), IsPySpace);
    if s.Some? && s.value != [] {
      var o := SkipFrom(s.value, IsPySpace, 0);
      SkipFromSpan(s.value, IsPySpace, 0);
      assert StripLeft(s.value, IsPySpace) == [];
    }
    assert txt == [];
  }

  // ---------------------------------------------------------------------------
  // The markers

  /** `[А-ЯЁ]` and `[а-яё'-]`. */
  const CyrUpper: CharSet := Either(Span('А', 'Я'), One('Ё'))
  const CyrNameChar: CharSet := Either(Span('а', 'я'), Either(One('ё'), Either(One('\''), One('-'))))
  /** `[A-Z]` and `[A-Za-z'-]`. */
  const LatUpper: CharSet := Span('A', 'Z')
  const LatNameChar: CharSet :=
    Either(Span('A', 'Z'), Either(Span('a', 'z'), Either(One('\''), One('-'))))

  /** Each letter followed by an optional dot: `L\.?T\.?D\.?`. */
  function Dotted(letters: string): Re
    requires letters != []
  {
    if |letters| == 1 then Cat(Lit(letters), Opt(Lit(".")))
    else Cat(Lit([letters[0]]), Cat(Opt(Lit(".")), Dotted(letters[1..])))
  }

  function OptDot(word: string): Re {
    Cat(Lit(word), Opt(Lit(".")))
  }

  const LegalMarkersRu: seq<Re> := [
    Lit("ООО"), Lit("АО"), Lit("ПАО"), Lit("ЗАО"), Lit("ОАО"), Lit("НКО"), Lit("ФГУП"),
    Lit("ГУП"), Lit("МУП"), Lit("СПАО"), Lit("САО"), Lit("НПАО"), Lit("ПК"),
    Lit("ТСЖ"), Lit("ЖСК"), Lit("АНО"), Lit("ФОНД"), Lit("АСОЦИАЦИЯ"), Lit("СРО"), Lit("КФХ"),
    Lit("ПО"), Lit("ПТК"),
    Concat([Lit("Унитарн"), Run(WordChars, 0), Run(SpaceChars, 1), Lit("предпр"), Run(WordChars, 0)]),
    Lit("МЧС"), Lit("МИНОБОРОНЫ"), Lit("МИНИСТЕРСТВО"), Lit("ЦЕНТР"), Lit("УПРАВЛЕНИЕ"),
    Lit("ИНСТИТУТ"), Lit("АВИАКОМПАНИЯ"), Lit("АЭРОФЛОТ"), Lit("AIRLINES"), Lit("MINISTRY"),
    Concat([Lit("ГУ"), Run(SpaceChars, 1), Lit("МЧС")]), Lit("ФГБУ")]

  const LegalMarkersIntl: seq<Re> := [
    Lit("LLC"), OptDot("INC"), Dotted("LTD"), OptDot("LTD"), Lit("GMBH"), Lit("AG"), Dotted("SA"),
    Lit("BV"), Dotted("NV"), Lit("OY"), Lit("AB"), Dotted("SRO"), Dotted("SARL"), Lit("PLC"),
    Lit("LLP"), Concat([OptDot("PTE"), Run(SpaceChars, 1), OptDot("LTD")]), Lit("SAS"), Dotted("SAU")]

  const IeMarkers: seq<Re> := [
    Lit("ИП"),
    Concat([Lit("Индивидуальн"), Run(WordChars, 1), Run(SpaceChars, 1),
            Lit("предпринимател"), Run(WordChars, 1)])]

  /** `^[А-ЯЁ][а-яё'-]+?\s+[А-ЯЁ][а-яё'-]+?\s+[А-ЯЁ][а-яё'-]+$` */
  const FioThree: Re := Concat([
    Class(CyrUpper), Run(CyrNameChar, 1), Run(SpaceChars, 1),
    Class(CyrUpper), Run(CyrNameChar, 1), Run(SpaceChars, 1),
    Class(CyrUpper), Run(CyrNameChar, 1), End])

  /** `^[А-ЯЁ][а-яё'-]+?\s+[А-ЯЁ][а-яё'-]+$` */
  const FioTwo: Re := Concat([
    Class(CyrUpper), Run(CyrNameChar, 1), Run(SpaceChars, 1),
    Class(CyrUpper), Run(CyrNameChar, 1), End])

  /** `^[А-ЯЁ][а-яё'-]+?\s+[А-ЯЁ]\.[А-ЯЁ]\.$` */
  const FioInits: Re := Concat([
    Class(CyrUpper), Run(CyrNameChar, 1), Run(SpaceChars, 1),
    Class(CyrUpper), Lit("."), Class(CyrUpper), Lit("."), End])

  /** `^[A-Z][A-Za-z'-]+(\s+[A-Z][A-Za-z'-]+){1,2}$` */
  const FioLat: Re :=
    var word := Concat([Run(SpaceChars, 1), Class(LatUpper), Run(LatNameChar, 1)]);
    Concat([Class(LatUpper), Run(LatNameChar, 1), word, Opt(word), End])

  const OrgKeywords: seq<string> := [
    "компания", "банк", "страховая", "университет", "институт", "завод", "фабрика",
    "кооператив", "товарищество", "партнёрство", "company", "bank", "university",
    "institute", "foundation", "association", "cooperative", "partnership"]

  /** `w in t`. */
  predicate Contains(t: string, w: string) {
    exists i :: 0 <= i <= |t| && HasAt(t, i, w)
  }

  // ---------------------------------------------------------------------------
  // The cascade

  datatype Category = LegalEntity | IndividualEntrepreneur | Individual | LikelyLegalEntity | Unknown {
    /** The category's name in the result. */
    function Name(): string {
      match this
      case LegalEntity => "legal_entity"
      case IndividualEntrepreneur => "individual_entrepreneur"
      case Individual => "individual"
      case LikelyLegalEntity => "likely_legal_entity"
      case Unknown => "unknown"
    }
  }

  /** `PartyClassification`. */
  datatype PartyClassification = PartyClassification(category: Category, confidence: real, normalized: string)

  /** The patterns a classifier uses: the three marker patterns
      `PartyClassifier.__init__` compiles (with `re.IGNORECASE`, applied to the
      upper-cased text), the four name patterns and the keyword list. */
  datatype Patterns = Patterns(
    legalRu: Re, legalIntl: Re, ie: Re,
    fioThree: Re, fioInits: Re, fioTwo: Re, fioLat: Re,
    keywords: seq<string>)

  const Compiled: Patterns := Patterns(
    WordBounded(LegalMarkersRu), WordBounded(LegalMarkersIntl), WordBounded(IeMarkers),
    FioThree, FioInits, FioTwo, FioLat, OrgKeywords)

  predicate HasLegalMarker(p: Patterns, upper: string) {
    Search(p.legalRu, upper, true) || Search(p.legalIntl, upper, true)
  }

  predicate HasIeMarker(p: Patterns, upper: string) {
    Search(p.ie, upper, true)
  }

  predicate IsCyrillicName(p: Patterns, norm: string) {
    MatchStart(p.fioThree, norm) || MatchStart(p.fioInits, norm) || MatchStart(p.fioTwo, norm)
  }

  predicate IsLatinName(p: Patterns, norm: string) {
    MatchStart(p.fioLat, norm)
  }

  /** `any(w in norm.lower() for w in ORG_KEYWORDS)`. */
  predicate HasOrgKeyword(p: Patterns, norm: string) {
    exists k :: 0 <= k < |p.keywords| && Contains(MapChars(Lower, norm), p.keywords[k])
  }

  /** The tiers of `classify` in the order it tries them, with what each gives. */
  const Tiers: seq<(Category, real)> := [
    (LegalEntity, 0.98), (IndividualEntrepreneur, 0.95), (Individual, 0.9),
    (Individual, 0.8), (LikelyLegalEntity, 0.6), (Unknown, 0.3)]

  /** The tests of the tiers on a normalised text; the last always holds. */
  function TierTests(p: Patterns, norm: string): (r: seq<bool>)
    ensures |r| == |Tiers| && r[|Tiers| - 1]
  {
    var upper := MapChars(Upper, norm);
    [HasLegalMarker(p, upper), HasIeMarker(p, upper), IsCyrillicName(p, norm), IsLatinName(p, norm),
     HasOrgKeyword(p, norm), true]
  }

  /** `PartyClassifier.classify`: normalise, then try the tests in turn. */
  function Classify(p: Patterns, s: Option<string>): PartyClassification {
    var norm := Normalize(s);
    Cascade(TierTests(p, norm), norm)
  }

  /** The `if` chain of `classify` over the outcomes of its tests. */
  function Cascade(tests: seq<bool>, norm: string): PartyClassification
    requires |tests| == |Tiers|
  {
    if tests[0] then PartyClassification(LegalEntity, 0.98, norm)
    else if tests[1] then PartyClassification(IndividualEntrepreneur, 0.95, norm)
    else if tests[2] then PartyClassification(Individual, 0.9, norm)
    else if tests[3] then PartyClassification(Individual, 0.8, norm)
    else if tests[4] then PartyClassification(LikelyLegalEntity, 0.6, norm)
    else PartyClassification(Unknown, 0.3, norm)
  }

  /** The first index from `i` where `tests` holds, given that the last does. */
  function FirstTrue(tests: seq<bool>, i: nat): (k: nat)
    requires i < |tests| && tests[|tests| - 1]
    ensures i <= k < |tests| && tests[k] && forall j :: i <= j < k ==> !tests[j]
    decreases |tests| - i
  {
    if tests[i] then i else FirstTrue(tests, i + 1)
  }

  /** The result tier `k` gives. */
  function TierResult(k: nat, norm: string): PartyClassification
    requires k < |Tiers|
  {
    PartyClassification(Tiers[k].0, Tiers[k].1, norm)
  }

  /** The cascade gives the first tier whose test holds. */
  lemma CascadeIsFirstTier(tests: seq<bool>, norm: string)
    requires |tests| == |Tiers| && tests[|Tiers| - 1]
    ensures Cascade(tests, norm) == TierResult(FirstTrue(tests, 0), norm)
  {
  }

  /** `classify` gives the first tier whose test holds, with the normalised text. */
  lemma ClassifyIsFirstTier(p: Patterns, s: Option<string>)
    ensures Classify(p, s) == TierResult(FirstTrue(TierTests(p, Normalize(s)), 0), Normalize(s))
  {
    CascadeIsFirstTier(TierTests(p, Normalize(s)), Normalize(s));
  }

  /** Confidence strictly falls from each tier to the next, so a confidence
      names its tier. */
  lemma ConfidenceDecreases()
    ensures forall i, j :: 0 <= i < j < |Tiers| ==> Tiers[i].1 > Tiers[j].1
  {
  }

  /** Tier `k` is the first whose test holds. */
  predicate Decides(tests: seq<bool>, k: nat) {
    k < |tests| && tests[k] && forall j :: 0 <= j < k ==> !tests[j]
  }

  /** Tier `k` decides exactly when its test holds and every earlier one fails;
      the result then carries that tier's category and confidence, and always
      the normalised text. */
  lemma FirstTierDecides(p: Patterns, s: Option<string>, k: nat)
    requires k < |Tiers|
    ensures Classify(p, s).normalized == Normalize(s)
    ensures Classify(p, s).confidence == Tiers[k].1 <==> Decides(TierTests(p, Normalize(s)), k)
    ensures Classify(p, s).confidence == Tiers[k].1 ==> Classify(p, s).category == Tiers[k].0
  {
    ClassifyIsFirstTier(p, s);
    TierChoice(TierTests(p, Normalize(s)), k);
  }

  lemma TierChoice(tests: seq<bool>, k: nat)
    requires |tests| == |Tiers| && tests[|Tiers| - 1] && k < |Tiers|
    ensures Tiers[FirstTrue(tests, 0)].1 == Tiers[k].1 <==> Decides(tests, k)
    ensures Tiers[FirstTrue(tests, 0)].1 == Tiers[k].1 ==> Tiers[FirstTrue(tests, 0)].0 == Tiers[k].0
  {
    ConfidenceDecreases();
  }

  /** A legal-entity marker anywhere in the upper-cased text decides, whatever follows. */
  lemma LegalMarkerDecides(p: Patterns, s: Option<string>)
    requires HasLegalMarker(p, MapChars(Upper, Normalize(s)))
    ensures Classify(p, s) == PartyClassification(LegalEntity, 0.98, Normalize(s))
  {
    FirstTierDecides(p, s, 0);
  }

  /** The result when tier `k` decides. */
  lemma TierDecides(p: Patterns, s: Option<string>, k: nat)
    requires Decides(TierTests(p, Normalize(s)), k)
    ensures Classify(p, s) == TierResult(k, Normalize(s))
  {
    FirstTierDecides(p, s, k);
  }

  /** Without a legal-entity marker, an entrepreneur marker decides. */
  lemma IeMarkerTier(p: Patterns, norm: string)
    requires !HasLegalMarker(p, MapChars(Upper, norm)) && HasIeMarker(p, MapChars(Upper, norm))
    ensures Decides(TierTests(p, norm), 1)
  {
  }

  /** Without a marker, a Cyrillic full name decides. */
  lemma CyrillicNameTier(p: Patterns, norm: string)
    requires !HasLegalMarker(p, MapChars(Upper, norm)) && !HasIeMarker(p, MapChars(Upper, norm))
    requires IsCyrillicName(p, norm)
    ensures Decides(TierTests(p, norm), 2)
  {
  }

  /** Without a marker or a Cyrillic name, a Latin name decides. */
  lemma LatinNameTier(p: Patterns, norm: string)
    requires !HasLegalMarker(p, MapChars(Upper, norm)) && !HasIeMarker(p, MapChars(Upper, norm))
    requires !IsCyrillicName(p, norm) && IsLatinName(p, norm)
    ensures Decides(TierTests(p, norm), 3)
  {
  }

  /** When no test before the last holds, the last tier decides. */
  lemma NoTestHolds(p: Patterns, norm: string)
    requires !HasLegalMarker(p, MapChars(Upper, norm)) && !HasIeMarker(p, MapChars(Upper, norm))
    requires !IsCyrillicName(p, norm) && !IsLatinName(p, norm) && !HasOrgKeyword(p, norm)
    ensures Decides(TierTests(p, norm), |Tiers| - 1)
  {
  }

  /** Missing, empty or blank input is `unknown` with confidence 0.3. */
  lemma BlankIsUnknown(s: Option<string>)
    requires s.Some? ==> forall k :: 0 <= k < |s.value| ==> IsPySpace(s.value[k])
    ensures Classify(Compiled, s) == PartyClassification(Unknown, 0.3, "")
  {
    NormalizeBlank(s);
    NothingInEmpty();
    LastTierOnly(Compiled, s);
  }

  lemma LastTierOnly(p: Patterns, s: Option<string>)
    requires Decides(TierTests(p, Normalize(s)), |Tiers| - 1)
    ensures Classify(p, s) == PartyClassification(Unknown, 0.3, Normalize(s))
  {
    FirstTierDecides(p, s, |Tiers| - 1);
  }

  /** On the empty text only the last test holds. */
  lemma NothingInEmpty()
    ensures Decides(TierTests(Compiled, ""), |Tiers| - 1)
  {
    NoMarkerInEmpty();
    NoNameMatchesEmpty();
    NoKeywordInEmpty();
    EmptyLastTier(Compiled);
  }

  lemma EmptyLastTier(p: Patterns)
    requires !HasLegalMarker(p, "") && !HasIeMarker(p, "")
    requires !IsCyrillicName(p, "") && !IsLatinName(p, "") && !HasOrgKeyword(p, "")
    ensures Decides(TierTests(p, ""), |Tiers| - 1)
  {
    var e: string := [];
    assert MapChars(Upper, e) == e;
  }

  lemma NoMarkerInEmpty()
    ensures !HasLegalMarker(Compiled, "") && !HasIeMarker(Compiled, "")
  {
    NoWordNoBoundedMatch(LegalMarkersRu, "", true);
    NoWordNoBoundedMatch(LegalMarkersIntl, "", true);
    NoWordNoBoundedMatch(IeMarkers, "", true);
  }

  lemma NoKeywordInEmpty()
    ensures !HasOrgKeyword(Compiled, "")
  {
    var e: string := [];
    assert MapChars(Lower, e) == e;
    forall k | 0 <= k < |OrgKeywords| ensures !Contains(e, OrgKeywords[k]) {
      assert |OrgKeywords[k]| > 0;
    }
  }

  lemma NoNameMatchesEmpty()
    ensures !IsCyrillicName(Compiled, "") && !IsLatinName(Compiled, "")
  {
    ClassHeadNoStart([Class(CyrUpper), Run(CyrNameChar, 1), Run(SpaceChars, 1),
      Class(CyrUpper), Run(CyrNameChar, 1), Run(SpaceChars, 1),
      Class(CyrUpper), Run(CyrNameChar, 1), End], "");
    ClassHeadNoStart([Class(CyrUpper), Run(CyrNameChar, 1), Run(SpaceChars, 1),
      Class(CyrUpper), Run(CyrNameChar, 1), End], "");
    ClassHeadNoStart([Class(CyrUpper), Run(CyrNameChar, 1), Run(SpaceChars, 1),
      Class(CyrUpper), Lit("."), Class(CyrUpper), Lit("."), End], "");
    var word := Concat([Run(SpaceChars, 1), Class(LatUpper), Run(LatNameChar, 1)]);
    ClassHeadNoStart([Class(LatUpper), Run(LatNameChar, 1), word, Opt(word), End], "");
  }
}
