/** Worked examples of the operator classifier, each proved on the compiled
    patterns: a legal entity, an individual entrepreneur, a full Cyrillic name,
    a Latin name and an association the marker list misses. */
module PartyExamples {
  import opened Wrappers
  import opened Chars
  import opened Regex
  import opened PartyClassifier

  // ---------------------------------------------------------------------------
  // Worked examples

  /** "ООО Ромашка" is a legal entity: `ООО` is a marker and stands as a word. */
  lemma RomashkaIsLegal()
    ensures Classify(Compiled, Some("ООО Ромашка")) == PartyClassification(LegalEntity, 0.98, "ООО Ромашка")
  {
    var t := "ООО Ромашка";
    RomashkaIsNormal();
    NormalIsFixed(t);
    RomashkaUpper();
    MarkerStartsText(LegalMarkersRu, 0, MapChars(Upper, t), 3);
    LegalMarkerDecides(Compiled, Some(t));
  }

  lemma RomashkaIsNormal()
    ensures IsNormal("ООО Ромашка")
  {
  }

  lemma RomashkaUpper()
    ensures var u := MapChars(Upper, "ООО Ромашка");
            |u| > 3 && u[..3] == "ООО" && IsPyWord(u[0]) && IsPyWord(u[2]) && !IsPyWord(u[3])
  {
    var u := MapChars(Upper, "ООО Ромашка");
    assert u[0] == Upper('О') == 'О';
    assert u[1] == 'О' && u[2] == 'О' && u[3] == ' ';
  }

  /** Marker `alts[k]` as the first word of `u` is found by the word-bounded search. */
  lemma MarkerStartsText(alts: seq<Re>, k: nat, u: string, n: nat)
    requires k < |alts| && alts[k].Lit? && |alts[k].text| == n < |u|
    requires u[..n] == alts[k].text && n > 0 && IsPyWord(u[0]) && IsPyWord(u[n - 1]) && !IsPyWord(u[n])
    ensures Search(WordBounded(alts), u, true)
  {
    assert forall m :: 0 <= m < n ==> u[m] == u[..n][m];
    assert Matches(alts[k], u, 0, n, true);
    assert WordBoundary(u, 0) && WordBoundary(u, n);
    WordBoundedSearch(alts, u, true);
    assert 0 <= k < |alts| && 0 <= 0 <= n <= |u|
      && WordBoundary(u, 0) && Matches(alts[k], u, 0, n, true) && WordBoundary(u, n);
  }

  /** "Ассоциация пилотов" is `unknown` with confidence 0.3: the marker list
      spells the word `АСОЦИАЦИЯ`, with one С, and the keywords hold only the
      English `association`, so no tier before the last one holds. */
  lemma AssociationIsUnknown()
    ensures Classify(Compiled, Some("Ассоциация пилотов"))
            == PartyClassification(Unknown, 0.3, "Ассоциация пилотов")
  {
    var t := "Ассоциация пилотов";
    AssociationIsNormal(t);
    NormalIsFixed(t);
    AssociationHasNoMarker();
    AssociationIsNoName();
    AssociationHasNoKeyword();
    NoTestHolds(Compiled, t);
    TierDecides(Compiled, Some(t), 5);
  }

  lemma AssociationIsNormal(t: string)
    requires t == "Ассоциация пилотов"
    ensures IsNormal(t)
  {
  }

  lemma AssociationHasNoMarker()
    ensures var u := MapChars(Upper, "Ассоциация пилотов");
            !HasLegalMarker(Compiled, u) && !HasIeMarker(Compiled, u)
  {
    var u := "АССОЦИАЦИЯ ПИЛОТОВ";
    assert MapChars(Upper, "Ассоциация пилотов") == u;
    AssociationNoRu(u);
    AssociationNoIntl(u);
    AssociationNoIe(u);
    MarkersAbsent(u);
  }

  lemma AssociationWords(u: string)
    requires u == "АССОЦИАЦИЯ ПИЛОТОВ"
    ensures forall i :: 0 <= i < |u| && WordBoundary(u, i) && IsPyWord(u[i]) ==> i in {0, 11}
  {
  }

  lemma AssociationNoRu(u: string)
    requires u == "АССОЦИАЦИЯ ПИЛОТОВ"
    ensures !Search(WordBounded(LegalMarkersRu), u, true)
  {
    AssociationWords(u);
    RuMarkersNotAtAss(u, 0);
    RuMarkersNotAtPi(u, 11);
    RuMarkersAbsent(u, {0, 11});
  }

  lemma AssociationNoIntl(u: string)
    requires u == "АССОЦИАЦИЯ ПИЛОТОВ"
    ensures !Search(WordBounded(LegalMarkersIntl), u, true)
  {
    AssociationWords(u);
    IntlMarkersNotAtCyrillic(u, 0);
    IntlMarkersNotAtCyrillic(u, 11);
    IntlMarkersAbsent(u, {0, 11});
  }

  lemma AssociationNoIe(u: string)
    requires u == "АССОЦИАЦИЯ ПИЛОТОВ"
    ensures !Search(WordBounded(IeMarkers), u, true)
  {
    AssociationWords(u);
    IeMarkersNotAtOther(u, 0);
    IeMarkersNotAtOther(u, 11);
    IeMarkersAbsent(u, {0, 11});
  }

  lemma AssociationIsNoName()
    ensures !IsCyrillicName(Compiled, "Ассоциация пилотов") && !IsLatinName(Compiled, "Ассоциация пилотов")
  {
    var t := "Ассоциация пилотов";
    AssociationFirstWord(t);
    NextWordLower([Class(CyrUpper), Run(CyrNameChar, 1), Run(SpaceChars, 1),
      Class(CyrUpper), Run(CyrNameChar, 1), Run(SpaceChars, 1),
      Class(CyrUpper), Run(CyrNameChar, 1), End], t, 10);
    NextWordLower([Class(CyrUpper), Run(CyrNameChar, 1), Run(SpaceChars, 1),
      Class(CyrUpper), Lit("."), Class(CyrUpper), Lit("."), End], t, 10);
    NextWordLower([Class(CyrUpper), Run(CyrNameChar, 1), Run(SpaceChars, 1),
      Class(CyrUpper), Run(CyrNameChar, 1), End], t, 10);
    var word := Concat([Run(SpaceChars, 1), Class(LatUpper), Run(LatNameChar, 1)]);
    ClassHeadNoStart([Class(LatUpper), Run(LatNameChar, 1), word, Opt(word), End], t);
  }

  lemma AssociationFirstWord(t: string)
    requires t == "Ассоциация пилотов"
    ensures 1 < 10 < |t| - 1 && t[10] == ' ' && !IsPySpace(t[11]) && !InSet(CyrUpper, t[11])
    ensures forall k :: 1 <= k < 10 ==> InSet(CyrNameChar, t[k])
    ensures forall k :: 1 <= k < 10 ==> !IsPySpace(t[k])
    ensures !InSet(LatUpper, t[0])
  {
  }

  lemma AssociationHasNoKeyword()
    ensures !HasOrgKeyword(Compiled, "Ассоциация пилотов")
  {
    var l := MapChars(Lower, "Ассоциация пилотов");
    assert l == "ассоциация пилотов";
    AssociationNoKeywordBefore(l);
    AssociationNoKeywordAfter(l);
    NoKeywordFound(Compiled, "Ассоциация пилотов");
  }

  lemma AssociationNoKeywordBefore(l: string)
    requires l == "ассоциация пилотов"
    ensures forall i :: 0 <= i <= 9 ==> NoKeywordAt(OrgKeywords, l, i)
  {
    assert forall k, i :: 0 <= k < |OrgKeywords| && 0 <= i <= 9 ==> !LitStart(OrgKeywords[k], l, i, false);
  }

  lemma AssociationNoKeywordAfter(l: string)
    requires l == "ассоциация пилотов"
    ensures forall i :: 9 < i <= 18 ==> NoKeywordAt(OrgKeywords, l, i)
  {
    assert forall k, i :: 0 <= k < |OrgKeywords| && 9 < i <= 18 ==> !LitStart(OrgKeywords[k], l, i, false);
  }

  /** "ИП Иванов" is an individual entrepreneur: no legal-entity marker, and
      `ИП` stands as the first word. */
  lemma EntrepreneurIsEntrepreneur()
    ensures Classify(Compiled, Some("ИП Иванов"))
            == PartyClassification(IndividualEntrepreneur, 0.95, "ИП Иванов")
  {
    var t := "ИП Иванов";
    EntrepreneurIsNormal(t);
    NormalIsFixed(t);
    EntrepreneurMarkers(t);
    IeMarkerTier(Compiled, t);
    TierDecides(Compiled, Some(t), 1);
  }

  lemma EntrepreneurIsNormal(t: string)
    requires t == "ИП Иванов"
    ensures IsNormal(t)
  {
  }

  lemma EntrepreneurMarkers(t: string)
    requires t == "ИП Иванов"
    ensures var u := MapChars(Upper, t); !HasLegalMarker(Compiled, u) && HasIeMarker(Compiled, u)
  {
    var u := "ИП ИВАНОВ";
    assert MapChars(Upper, t) == u;
    EntrepreneurNoRu(u);
    EntrepreneurNoIntl(u);
    EntrepreneurIeFound(u);
    OnlyIeMarker(u);
  }

  lemma EntrepreneurIeFound(u: string)
    requires u == "ИП ИВАНОВ"
    ensures Search(WordBounded(IeMarkers), u, true)
  {
    assert u[..2] == "ИП" && IsPyWord(u[0]) && IsPyWord(u[1]) && !IsPyWord(u[2]);
    MarkerStartsText(IeMarkers, 0, u, 2);
  }

  /** Text with an entrepreneur marker and no legal-entity marker. */
  lemma OnlyIeMarker(u: string)
    requires !Search(WordBounded(LegalMarkersRu), u, true) && !Search(WordBounded(LegalMarkersIntl), u, true)
    requires Search(WordBounded(IeMarkers), u, true)
    ensures !HasLegalMarker(Compiled, u) && HasIeMarker(Compiled, u)
  {
  }

  lemma EntrepreneurWords(u: string)
    requires u == "ИП ИВАНОВ"
    ensures forall i :: 0 <= i < |u| && WordBoundary(u, i) && IsPyWord(u[i]) ==> i in {0, 3}
  {
  }

  lemma EntrepreneurNoRu(u: string)
    requires u == "ИП ИВАНОВ"
    ensures !Search(WordBounded(LegalMarkersRu), u, true)
  {
    EntrepreneurWords(u);
    RuMarkersNotAtI(u, 0);
    RuMarkersNotAtI(u, 3);
    RuMarkersAbsent(u, {0, 3});
  }

  lemma EntrepreneurNoIntl(u: string)
    requires u == "ИП ИВАНОВ"
    ensures !Search(WordBounded(LegalMarkersIntl), u, true)
  {
    EntrepreneurWords(u);
    IntlMarkersNotAtCyrillic(u, 0);
    IntlMarkersNotAtCyrillic(u, 3);
    IntlMarkersAbsent(u, {0, 3});
  }

  /** "Иванов Иван Иванович" is an individual with confidence 0.9: surname,
      first name and patronymic in Cyrillic, and no marker. */
  lemma FullNameIsIndividual()
    ensures Classify(Compiled, Some("Иванов Иван Иванович"))
            == PartyClassification(Individual, 0.9, "Иванов Иван Иванович")
  {
    var t := "Иванов Иван Иванович";
    FullNameIsNormal(t);
    NormalIsFixed(t);
    FullNameHasNoMarker(t);
    FullNameMatches();
    CyrillicNameTier(Compiled, t);
    TierDecides(Compiled, Some(t), 2);
  }

  lemma FullNameIsNormal(t: string)
    requires t == "Иванов Иван Иванович"
    ensures IsNormal(t)
  {
  }

  lemma FullNameHasNoMarker(t: string)
    requires t == "Иванов Иван Иванович"
    ensures var u := MapChars(Upper, t); !HasLegalMarker(Compiled, u) && !HasIeMarker(Compiled, u)
  {
    var u := "ИВАНОВ ИВАН ИВАНОВИЧ";
    assert MapChars(Upper, t) == u;
    FullNameNoRu(u);
    FullNameNoIntl(u);
    FullNameNoIe(u);
    MarkersAbsent(u);
  }

  lemma FullNameWords(u: string)
    requires u == "ИВАНОВ ИВАН ИВАНОВИЧ"
    ensures forall i :: 0 <= i < |u| && WordBoundary(u, i) && IsPyWord(u[i]) ==> i in {0, 7, 12}
  {
  }

  lemma FullNameNoRu(u: string)
    requires u == "ИВАНОВ ИВАН ИВАНОВИЧ"
    ensures !Search(WordBounded(LegalMarkersRu), u, true)
  {
    FullNameWords(u);
    RuMarkersNotAtI(u, 0);
    RuMarkersNotAtI(u, 7);
    RuMarkersNotAtI(u, 12);
    RuMarkersAbsent(u, {0, 7, 12});
  }

  lemma FullNameNoIntl(u: string)
    requires u == "ИВАНОВ ИВАН ИВАНОВИЧ"
    ensures !Search(WordBounded(LegalMarkersIntl), u, true)
  {
    FullNameWords(u);
    IntlMarkersNotAtCyrillic(u, 0);
    IntlMarkersNotAtCyrillic(u, 7);
    IntlMarkersNotAtCyrillic(u, 12);
    IntlMarkersAbsent(u, {0, 7, 12});
  }

  lemma FullNameNoIe(u: string)
    requires u == "ИВАНОВ ИВАН ИВАНОВИЧ"
    ensures !Search(WordBounded(IeMarkers), u, true)
  {
    FullNameWords(u);
    IeMarkersNotAtIv(u, 0);
    IeMarkersNotAtIv(u, 7);
    IeMarkersNotAtIv(u, 12);
    IeMarkersAbsent(u, {0, 7, 12});
  }

  lemma FullNameMatches()
    ensures MatchStart(FioThree, "Иванов Иван Иванович")
  {
    var t := "Иванов Иван Иванович";
    var rs := [Class(CyrUpper), Run(CyrNameChar, 1), Run(SpaceChars, 1),
      Class(CyrUpper), Run(CyrNameChar, 1), Run(SpaceChars, 1),
      Class(CyrUpper), Run(CyrNameChar, 1), End];
    var cuts: seq<nat> := [0, 1, 6, 7, 8, 11, 12, 13, 20, 20];
    forall k | 0 <= k < |rs| ensures PieceMatches(rs, t, cuts, k, false) {
      if k == 0 || k == 3 || k == 6 { assert InSet(CyrUpper, t[cuts[k]]); }
      else if k == 2 || k == 5 { assert IsPySpace(t[cuts[k]]); }
      else if k == 1 { assert forall m :: 1 <= m < 6 ==> InSet(CyrNameChar, t[m]); }
      else if k == 4 { assert forall m :: 8 <= m < 11 ==> InSet(CyrNameChar, t[m]); }
      else if k == 7 { assert forall m :: 13 <= m < 20 ==> InSet(CyrNameChar, t[m]); }
    }
    ConcatMatchesAt(rs, t, cuts, false);
    assert Matches(FioThree, t, 0, 20, false);
  }

  /** "John Smith" is an individual with confidence 0.8: a Latin first name
      and surname, no marker, and no Cyrillic capital to start a Cyrillic name. */
  lemma LatinNameIsIndividual()
    ensures Classify(Compiled, Some("John Smith"))
            == PartyClassification(Individual, 0.8, "John Smith")
  {
    var t := "John Smith";
    LatinNameIsNormal(t);
    NormalIsFixed(t);
    LatinNameHasNoMarker(t);
    LatinNameIsNotCyrillic(t);
    LatinNameMatches();
    LatinNameTier(Compiled, t);
    TierDecides(Compiled, Some(t), 3);
  }

  lemma LatinNameIsNormal(t: string)
    requires t == "John Smith"
    ensures IsNormal(t)
  {
  }

  lemma LatinNameHasNoMarker(t: string)
    requires t == "John Smith"
    ensures var u := MapChars(Upper, t); !HasLegalMarker(Compiled, u) && !HasIeMarker(Compiled, u)
  {
    var u := "JOHN SMITH";
    assert MapChars(Upper, t) == u;
    LatinNameNoRu(u);
    LatinNameNoIntl(u);
    LatinNameNoIe(u);
    MarkersAbsent(u);
  }

  lemma LatinNameWords(u: string)
    requires u == "JOHN SMITH"
    ensures forall i :: 0 <= i < |u| && WordBoundary(u, i) && IsPyWord(u[i]) ==> i in {0, 5}
  {
  }

  lemma LatinNameNoRu(u: string)
    requires u == "JOHN SMITH"
    ensures !Search(WordBounded(LegalMarkersRu), u, true)
  {
    LatinNameWords(u);
    RuMarkersNotAtLatin(u, 0);
    RuMarkersNotAtLatin(u, 5);
    RuMarkersAbsent(u, {0, 5});
  }

  lemma LatinNameNoIntl(u: string)
    requires u == "JOHN SMITH"
    ensures !Search(WordBounded(LegalMarkersIntl), u, true)
  {
    LatinNameWords(u);
    IntlMarkersNotAtLatin(u, 0);
    IntlMarkersNotAtSm(u, 5);
    IntlMarkersAbsent(u, {0, 5});
  }

  lemma LatinNameNoIe(u: string)
    requires u == "JOHN SMITH"
    ensures !Search(WordBounded(IeMarkers), u, true)
  {
    LatinNameWords(u);
    IeMarkersNotAtOther(u, 0);
    IeMarkersNotAtOther(u, 5);
    IeMarkersAbsent(u, {0, 5});
  }

  lemma LatinNameIsNotCyrillic(t: string)
    requires t == "John Smith"
    ensures !IsCyrillicName(Compiled, t)
  {
    assert !InSet(CyrUpper, t[0]);
    ClassHeadNoStart([Class(CyrUpper), Run(CyrNameChar, 1), Run(SpaceChars, 1),
      Class(CyrUpper), Run(CyrNameChar, 1), Run(SpaceChars, 1),
      Class(CyrUpper), Run(CyrNameChar, 1), End], t);
    ClassHeadNoStart([Class(CyrUpper), Run(CyrNameChar, 1), Run(SpaceChars, 1),
      Class(CyrUpper), Run(CyrNameChar, 1), End], t);
    ClassHeadNoStart([Class(CyrUpper), Run(CyrNameChar, 1), Run(SpaceChars, 1),
      Class(CyrUpper), Lit("."), Class(CyrUpper), Lit("."), End], t);
  }

  lemma LatinNameMatches()
    ensures MatchStart(FioLat, "John Smith")
  {
    var t := "John Smith";
    var pieces := [Run(SpaceChars, 1), Class(LatUpper), Run(LatNameChar, 1)];
    var word := Concat(pieces);
    var wordCuts: seq<nat> := [4, 5, 6, 10];
    forall k | 0 <= k < |pieces| ensures PieceMatches(pieces, t, wordCuts, k, false) {
      if k == 0 { assert IsPySpace(t[4]); }
      else if k == 1 { assert InSet(LatUpper, t[5]); }
      else { assert forall m :: 6 <= m < 10 ==> IsAsciiLower(t[m]); LowerIsLatNameChar(); }
    }
    ConcatMatchesAt(pieces, t, wordCuts, false);
    var rs := [Class(LatUpper), Run(LatNameChar, 1), word, Opt(word), End];
    var cuts: seq<nat> := [0, 1, 4, 10, 10, 10];
    forall k | 0 <= k < |rs| ensures PieceMatches(rs, t, cuts, k, false) {
      if k == 0 { assert InSet(LatUpper, t[0]); }
      else if k == 1 { assert forall m :: 1 <= m < 4 ==> IsAsciiLower(t[m]); LowerIsLatNameChar(); }
    }
    ConcatMatchesAt(rs, t, cuts, false);
    assert Matches(FioLat, t, 0, 10, false);
  }

  lemma LowerIsLatNameChar()
    ensures forall c :: IsAsciiLower(c) ==> InSet(LatNameChar, c)
  {
    forall c | IsAsciiLower(c) ensures InSet(LatNameChar, c) {
      assert InSet(Span('a', 'z'), c);
    }
  }

  // ---------------------------------------------------------------------------
  // Where a marker cannot start

  lemma RuMarkersWordHeaded()
    ensures AllWordHeaded(LegalMarkersRu)
  {
    RuHeadWordHeaded();
    RuTailWordHeaded();
  }

  lemma RuHeadWordHeaded()
    ensures forall k :: 0 <= k < 20 ==> WordHeaded(LegalMarkersRu[k])
  {
  }

  lemma RuTailWordHeaded()
    ensures forall k :: 20 <= k < |LegalMarkersRu| ==> WordHeaded(LegalMarkersRu[k])
  {
  }

  lemma IntlMarkersWordHeaded()
    ensures AllWordHeaded(LegalMarkersIntl)
  {
    assert forall k :: 0 <= k < |LegalMarkersIntl| ==> WordHeaded(LegalMarkersIntl[k]);
  }

  lemma IeMarkersWordHeaded()
    ensures AllWordHeaded(IeMarkers)
  {
    assert forall k :: 0 <= k < |IeMarkers| ==> WordHeaded(IeMarkers[k]);
  }

  /** No marker of a list is found in `u` when none can start at any word start. */
  lemma RuMarkersAbsent(u: string, starts: set<nat>)
    requires forall i :: 0 <= i < |u| && WordBoundary(u, i) && IsPyWord(u[i]) ==> i in starts
    requires forall i :: i in starts ==> NoneViable(LegalMarkersRu, u, i, true)
    ensures !Search(WordBounded(LegalMarkersRu), u, true)
  {
    RuMarkersWordHeaded();
    NoBoundedMatch(LegalMarkersRu, u, true, starts);
  }

  lemma IntlMarkersAbsent(u: string, starts: set<nat>)
    requires forall i :: 0 <= i < |u| && WordBoundary(u, i) && IsPyWord(u[i]) ==> i in starts
    requires forall i :: i in starts ==> NoneViable(LegalMarkersIntl, u, i, true)
    ensures !Search(WordBounded(LegalMarkersIntl), u, true)
  {
    IntlMarkersWordHeaded();
    NoBoundedMatch(LegalMarkersIntl, u, true, starts);
  }

  lemma IeMarkersAbsent(u: string, starts: set<nat>)
    requires forall i :: 0 <= i < |u| && WordBoundary(u, i) && IsPyWord(u[i]) ==> i in starts
    requires forall i :: i in starts ==> NoneViable(IeMarkers, u, i, true)
    ensures !Search(WordBounded(IeMarkers), u, true)
  {
    IeMarkersWordHeaded();
    NoBoundedMatch(IeMarkers, u, true, starts);
  }

  /** Text the three marker lists miss has neither kind of marker. */
  lemma MarkersAbsent(u: string)
    requires !Search(WordBounded(LegalMarkersRu), u, true) && !Search(WordBounded(LegalMarkersIntl), u, true)
    requires !Search(WordBounded(IeMarkers), u, true)
    ensures !HasLegalMarker(Compiled, u) && !HasIeMarker(Compiled, u)
  {
  }

  /** No Russian marker starts `АСС` (the one that would, `АСОЦИАЦИЯ`, has one С). */
  lemma RuMarkersNotAtAss(s: string, i: nat)
    requires i + 3 <= |s| && s[i] == 'А' && s[i + 1] == 'С' && s[i + 2] == 'С'
    ensures NoneViable(LegalMarkersRu, s, i, true)
  {
    RuHeadNotAtAss(s, i);
    RuMiddleNotAtAss(s, i);
    RuTailNotAtAss(s, i);
  }

  lemma RuHeadNotAtAss(s: string, i: nat)
    requires i + 3 <= |s| && s[i] == 'А' && s[i + 1] == 'С' && s[i + 2] == 'С'
    ensures forall k :: 0 <= k < 17 ==> !Viable(LegalMarkersRu[k], s, i, true)
  {
  }

  lemma RuMiddleNotAtAss(s: string, i: nat)
    requires i + 3 <= |s| && s[i] == 'А' && s[i + 1] == 'С' && s[i + 2] == 'С'
    ensures forall k :: 17 <= k < 27 ==> !Viable(LegalMarkersRu[k], s, i, true)
  {
  }

  lemma RuTailNotAtAss(s: string, i: nat)
    requires i + 3 <= |s| && s[i] == 'А' && s[i + 1] == 'С' && s[i + 2] == 'С'
    ensures forall k :: 27 <= k < |LegalMarkersRu| ==> !Viable(LegalMarkersRu[k], s, i, true)
  {
  }

  lemma RuMarkersNotAtPi(s: string, i: nat)
    requires i + 2 <= |s| && s[i] == 'П' && s[i + 1] == 'И'
    ensures NoneViable(LegalMarkersRu, s, i, true)
  {
    RuHeadNotAtPi(s, i);
    RuMiddleNotAtPi(s, i);
    RuTailNotAtPi(s, i);
  }

  lemma RuHeadNotAtPi(s: string, i: nat)
    requires i + 2 <= |s| && s[i] == 'П' && s[i + 1] == 'И'
    ensures forall k :: 0 <= k < 17 ==> !Viable(LegalMarkersRu[k], s, i, true)
  {
  }

  lemma RuMiddleNotAtPi(s: string, i: nat)
    requires i + 2 <= |s| && s[i] == 'П' && s[i + 1] == 'И'
    ensures forall k :: 17 <= k < 27 ==> !Viable(LegalMarkersRu[k], s, i, true)
  {
  }

  lemma RuTailNotAtPi(s: string, i: nat)
    requires i + 2 <= |s| && s[i] == 'П' && s[i + 1] == 'И'
    ensures forall k :: 27 <= k < |LegalMarkersRu| ==> !Viable(LegalMarkersRu[k], s, i, true)
  {
  }

  /** The one Russian marker that starts with И is `ИНСТИТУТ`. */
  lemma RuMarkersNotAtI(s: string, i: nat)
    requires i + 2 <= |s| && s[i] == 'И' && s[i + 1] != 'Н' && s[i + 1] != 'н'
    ensures NoneViable(LegalMarkersRu, s, i, true)
  {
    RuHeadNotAtI(s, i);
    RuMiddleNotAtI(s, i);
    RuTailNotAtI(s, i);
  }

  lemma RuHeadNotAtI(s: string, i: nat)
    requires i < |s| && s[i] == 'И'
    ensures forall k :: 0 <= k < 17 ==> !Viable(LegalMarkersRu[k], s, i, true)
  {
  }

  lemma RuMiddleNotAtI(s: string, i: nat)
    requires i < |s| && s[i] == 'И'
    ensures forall k :: 17 <= k < 27 ==> !Viable(LegalMarkersRu[k], s, i, true)
  {
  }

  lemma RuTailNotAtI(s: string, i: nat)
    requires i + 2 <= |s| && s[i] == 'И' && s[i + 1] != 'Н' && s[i + 1] != 'н'
    ensures forall k :: 27 <= k < |LegalMarkersRu| ==> !Viable(LegalMarkersRu[k], s, i, true)
  {
  }

  /** The Russian list's Latin markers are `AIRLINES` and `MINISTRY`. */
  lemma RuMarkersNotAtLatin(s: string, i: nat)
    requires i < |s| && IsAsciiUpper(s[i]) && s[i] != 'A' && s[i] != 'M'
    ensures NoneViable(LegalMarkersRu, s, i, true)
  {
    RuHeadNotAtLatin(s, i);
    RuMiddleNotAtLatin(s, i);
    RuTailNotAtLatin(s, i);
  }

  lemma RuHeadNotAtLatin(s: string, i: nat)
    requires i < |s| && IsAsciiUpper(s[i])
    ensures forall k :: 0 <= k < 17 ==> !Viable(LegalMarkersRu[k], s, i, true)
  {
  }

  lemma RuMiddleNotAtLatin(s: string, i: nat)
    requires i < |s| && IsAsciiUpper(s[i])
    ensures forall k :: 17 <= k < 27 ==> !Viable(LegalMarkersRu[k], s, i, true)
  {
  }

  lemma RuTailNotAtLatin(s: string, i: nat)
    requires i < |s| && IsAsciiUpper(s[i]) && s[i] != 'A' && s[i] != 'M'
    ensures forall k :: 27 <= k < |LegalMarkersRu| ==> !Viable(LegalMarkersRu[k], s, i, true)
  {
  }

  lemma IntlMarkersNotAtCyrillic(s: string, i: nat)
    requires i < |s| && IsCyrillic(s[i])
    ensures NoneViable(LegalMarkersIntl, s, i, true)
  {
    assert forall k :: 0 <= k < |LegalMarkersIntl| ==> !Viable(LegalMarkersIntl[k], s, i, true);
  }

  /** The international markers start with one of `LIGASBNOP`. */
  lemma IntlMarkersNotAtLatin(s: string, i: nat)
    requires i < |s| && IsAsciiUpper(s[i])
    requires s[i] !in {'L', 'I', 'G', 'A', 'S', 'B', 'N', 'O', 'P'}
    ensures NoneViable(LegalMarkersIntl, s, i, true)
  {
    assert forall k :: 0 <= k < |LegalMarkersIntl| ==> !Viable(LegalMarkersIntl[k], s, i, true);
  }

  /** After `S` the international markers go on with `A`, `R` or a dot. */
  lemma IntlMarkersNotAtSm(s: string, i: nat)
    requires i + 3 <= |s| && s[i] == 'S' && s[i + 1] == 'M'
    ensures NoneViable(LegalMarkersIntl, s, i, true)
  {
    assert forall k :: 0 <= k < |LegalMarkersIntl| ==> !Viable(LegalMarkersIntl[k], s, i, true);
  }

  lemma IeMarkersNotAtOther(s: string, i: nat)
    requires i < |s| && s[i] != 'И' && s[i] != 'и'
    ensures NoneViable(IeMarkers, s, i, true)
  {
    assert forall k :: 0 <= k < |IeMarkers| ==> !Viable(IeMarkers[k], s, i, true);
  }

  lemma IeMarkersNotAtIv(s: string, i: nat)
    requires i + 2 <= |s| && s[i] == 'И' && s[i + 1] == 'В'
    ensures NoneViable(IeMarkers, s, i, true)
  {
    assert forall k :: 0 <= k < |IeMarkers| ==> !Viable(IeMarkers[k], s, i, true);
  }

  // ---------------------------------------------------------------------------
  // Where a name or a keyword cannot match

  /** A Cyrillic first word followed by a word in lower case matches no
      `[А-ЯЁ][а-яё'-]+?\s+[А-ЯЁ]...` pattern: the run of spaces can only be
      the one at `w`, and the letter after it is not a capital. */
  lemma NextWordLower(rs: seq<Re>, s: string, w: nat)
    requires |rs| >= 5 && rs[0] == Class(CyrUpper) && rs[1] == Run(CyrNameChar, 1)
    requires rs[2] == Run(SpaceChars, 1) && rs[3] == Class(CyrUpper)
    requires 1 < w < |s| - 1 && s[w] == ' ' && !IsPySpace(s[w + 1]) && !InSet(CyrUpper, s[w + 1])
    requires forall k :: 1 <= k < w ==> InSet(CyrNameChar, s[k])
    requires forall k :: 1 <= k < w ==> !IsPySpace(s[k])
    ensures !MatchStart(Concat(rs), s)
  {
    var r1 := rs[1..];
    var r2 := r1[1..];
    var r3 := r2[1..];
    var r4 := r3[1..];
    assert Concat(rs) == Cat(rs[0], Concat(r1));
    assert Concat(r1) == Cat(r1[0], Concat(r2));
    assert Concat(r2) == Cat(r2[0], Concat(r3));
    assert Concat(r3) == Cat(r3[0], Concat(r4));
    assert r1[0] == rs[1] && r2[0] == rs[2] && r3[0] == rs[3];
    NameThenLower(Concat(r4), s, w);
  }

  lemma NameThenLower(tail: Re, s: string, w: nat)
    requires 1 < w < |s| - 1 && s[w] == ' ' && !IsPySpace(s[w + 1]) && !InSet(CyrUpper, s[w + 1])
    requires forall k :: 1 <= k < w ==> InSet(CyrNameChar, s[k])
    requires forall k :: 1 <= k < w ==> !IsPySpace(s[k])
    ensures !MatchStart(Cat(Class(CyrUpper), Cat(Run(CyrNameChar, 1), Cat(Run(SpaceChars, 1), Cat(Class(CyrUpper), tail)))), s)
  {
    var after := Cat(Run(SpaceChars, 1), Cat(Class(CyrUpper), tail));
    SpacesThenNoCapital(tail, s, w);
    forall i, j | 1 <= i < w && i <= j <= |s| ensures !Matches(after, s, i, j, false) {
      NoSpacesAt(Cat(Class(CyrUpper), tail), s, i);
    }
    NameRunStops(after, s, w);
    ClassThenNothing(CyrUpper, Cat(Run(CyrNameChar, 1), after), s);
  }

  /** One character followed by a pattern that matches nothing from 1 matches
      nothing from the start. */
  lemma ClassThenNothing(cs: CharSet, rest: Re, s: string)
    requires 0 < |s|
    requires forall j :: 1 <= j <= |s| ==> !Matches(rest, s, 1, j, false)
    ensures forall j :: 0 <= j <= |s| ==> !Matches(Cat(Class(cs), rest), s, 0, j, false)
  {
  }

  /** A run of name characters from 1 cannot cross the space at `w`, so when
      `after` matches from no position up to `w`, the run followed by `after`
      matches nowhere. */
  lemma NameRunStops(after: Re, s: string, w: nat)
    requires 1 < w < |s| && !InSet(CyrNameChar, s[w])
    requires forall i, j :: 1 <= i <= w && i <= j <= |s| ==> !Matches(after, s, i, j, false)
    ensures forall j :: 1 <= j <= |s| ==> !Matches(Cat(Run(CyrNameChar, 1), after), s, 1, j, false)
  {
  }

  /** `\s+` cannot start at a character that is not a space. */
  lemma NoSpacesAt(rest: Re, s: string, i: nat)
    requires i < |s| && !IsPySpace(s[i])
    ensures forall j :: i <= j <= |s| ==> !Matches(Cat(Run(SpaceChars, 1), rest), s, i, j, false)
  {
  }

  /** After the spaces at `w`, `[А-ЯЁ]` finds a character that is neither a
      space nor a capital. */
  lemma SpacesThenNoCapital(tail: Re, s: string, w: nat)
    requires w + 1 < |s| && !IsPySpace(s[w + 1]) && !InSet(CyrUpper, s[w + 1])
    ensures forall j :: w <= j <= |s| ==> !Matches(Cat(Run(SpaceChars, 1), Cat(Class(CyrUpper), tail)), s, w, j, false)
  {
    OneSpaceAt(s, w);
    forall k, j | w <= k <= j <= |s| && Matches(Run(SpaceChars, 1), s, w, k, false)
      ensures !Matches(Cat(Class(CyrUpper), tail), s, k, j, false)
    {
      assert k == w + 1;
    }
  }

  /** `\s+` from `w` stops at `w + 1` when that is not a space. */
  lemma OneSpaceAt(s: string, w: nat)
    requires w + 1 < |s| && !IsPySpace(s[w + 1])
    ensures forall k :: w <= k <= |s| && Matches(Run(SpaceChars, 1), s, w, k, false) ==> k == w + 1
  {
  }

  /** No keyword starts at `i`. */
  predicate NoKeywordAt(keywords: seq<string>, l: string, i: nat) {
    forall k :: 0 <= k < |keywords| ==> !LitStart(keywords[k], l, i, false)
  }

  /** No keyword occurs in text where none can start at any position. */
  lemma NoKeywordFound(p: Patterns, norm: string)
    requires forall i :: 0 <= i <= |MapChars(Lower, norm)| ==> NoKeywordAt(p.keywords, MapChars(Lower, norm), i)
    ensures !HasOrgKeyword(p, norm)
  {
    var l := MapChars(Lower, norm);
    forall k, i | 0 <= k < |p.keywords| && 0 <= i <= |l| ensures !HasAt(l, i, p.keywords[k]) {
      KeywordStarts(p.keywords[k], l, i);
      assert NoKeywordAt(p.keywords, l, i);
    }
  }

  /** A keyword found at `i` starts there. */
  lemma KeywordStarts(w: string, l: string, i: nat)
    ensures HasAt(l, i, w) ==> LitStart(w, l, i, false)
  {
    if HasAt(l, i, w) {
      assert forall m :: 0 <= m < |w| ==> w[m] == l[i..i + |w|][m];
    }
  }
}
