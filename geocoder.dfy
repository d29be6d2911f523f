/** The telegram coordinate decoder (`DefaultGeocoder` in
    src/services/parse_service/geocoder.py).

    A token such as `5506N03730E` (or `5506С03730В` with Cyrillic hemisphere
    letters) is turned into a signed (latitude, longitude) pair. Each side is read
    as "all digits but the last two are degrees, the last two (with an optional
    fraction) are minutes", so the reading of a six-digit latitude `550630` is
    5506 degrees and 30 minutes. Python floats are modelled by exact reals. */
module Geocoder {
  import opened Wrappers
  import opened Chars

  datatype LatLon = LatLon(lat: real, lon: real)

  // ---------------------------------------------------------------------------
  // Normalisation

  /** The Cyrillic hemisphere letters С, Ю, В, З become N, S, E, W. */
  function Latinize(c: char): char {
    if c == 'С' then 'N'
    else if c == 'Ю' then 'S'
    else if c == 'В' then 'E'
    else if c == 'З' then 'W'
    else c
  }

  function CommaToSpace(c: char): char {
    if c == ',' then ' ' else c
  }

  /** `s.replace("  ", " ")`: every non-overlapping pair of spaces, scanned from
      the left, becomes a single space (three spaces become two). */
  function HalveDoubleSpaces(s: string): (r: string)
    ensures |r| <= |s|
  {
    HalveFrom(s, 0)
  }

  /** `HalveDoubleSpaces` applied to `s[i..]`. */
  function HalveFrom(s: string, i: nat): (r: string)
    requires i <= |s|
    ensures |r| <= |s| - i
    decreases |s| - i
  {
    if i + 1 < |s| && s[i] == ' ' && s[i + 1] == ' ' then [' '] + HalveFrom(s, i + 2)
    else if i == |s| then []
    else [s[i]] + HalveFrom(s, i + 1)
  }

  /** The replacements between upper-casing and the hemisphere mapping. */
  function Clean(s: string): string {
    HalveDoubleSpaces(MapChars(CommaToSpace, Delete(Delete(Delete(s, '°'), '\''), '"')))
  }

  /** The text the decoder searches: stripped, upper-cased, degree and quote marks
      removed, commas turned into spaces, and Cyrillic hemisphere letters mapped
      to Latin ones. */
  function Normalize(val: string): string {
    MapChars(Latinize, Clean(MapChars(Upper, Strip(val, IsPySpace))))
  }

  predicate IsNS(c: char) { c == 'N' || c == 'S' }

  predicate IsEW(c: char) { c == 'E' || c == 'W' }

  predicate IsDot(c: char) { c == '.' }

  // ---------------------------------------------------------------------------
  // Decoding

  /** The value of the digits after a decimal point: `.25` is 0.25. */
  function FracValue(frac: string): (v: real)
    requires AllDigits(frac)
    ensures 0.0 <= v <= 1.0
  {
    if frac == [] then 0.0 else (DigitValue(frac[0]) as real + FracValue(frac[1..])) / 10.0
  }

  /** `float(mm.frac)`: two minute digits and an optional decimal fraction. */
  function MinutesValue(mm: string, frac: string): real
    requires AllDigits(mm) && AllDigits(frac)
  {
    DigitsValue(mm) as real + FracValue(frac)
  }

  /** `_parse_part`: spaces are dropped and the rest must match
      `^(\d+)(\d{2}(?:\.\d+)?)$`, where `$` also matches before a final newline;
      the value is the degrees plus the minutes divided by 60. */
  function ParsePart(part: string): (r: Option<real>)
    ensures r.Some? ==> r.value >= 0.0
  {
    var p := Delete(part, ' ');
    MatchPart(if |p| > 0 && p[|p| - 1] == '\n' then p[..|p| - 1] else p)
  }

  /** The anchored match of `(\d+)(\d{2}(?:\.\d+)?)` against all of `q`: the
      greedy first group leaves exactly two integer digits to the minutes. */
  function MatchPart(q: string): (r: Option<real>)
    ensures r.Some? ==> r.value >= 0.0
  {
    var dot := FindFirst(q, IsDot);
    var whole := q[..dot];
    var frac := if dot < |q| then q[dot + 1..] else [];
    if |whole| >= 3 && AllDigits(whole) && AllDigits(frac) && (dot < |q| ==> frac != []) then
      var n := |whole|;
      Some(DigitsValue(whole[..n - 2]) as real + MinutesValue(whole[n - 2..], frac) / 60.0)
    else
      None
  }

  /** `s[start:stop]` for 0 <= start: empty when stop <= start. */
  function Between(s: string, start: nat, stop: nat): string
    requires stop <= |s|
  {
    if start < stop then s[start..stop] else []
  }

  /** `parse_latlon`: `None` for a missing token, otherwise the decoding of the
      normalised text. */
  function ParseLatLon(val: Option<string>): (r: Option<LatLon>)
    ensures val.None? ==> r.None?
  {
    if val.None? then None else Decode(Normalize(val.value))
  }

  /** The search on the normalised text: `None` without an N/S or an E/W letter;
      otherwise the stripped text before the N/S letter and the stripped text
      between it and the E/W letter are decoded. */
  function Decode(s: string): (r: Option<LatLon>)
  {
    var i := FindFirst(s, IsNS);
    var j := FindFirst(s, IsEW);
    if i == |s| || j == |s| then None
    else Assemble(Strip(s[..i], IsPySpace), Strip(Between(s, i + 1, j), IsPySpace),
                  s[i] == 'S', s[j] == 'W')
  }

  /** `-v` when the hemisphere is negative (S or W), `v` otherwise. */
  function Signed(v: real, negative: bool): real {
    if negative then -v else v
  }

  /** `None` for an empty latitude or longitude text or a text `ParsePart`
      rejects; otherwise the parts, negated for S and W. */
  function Assemble(latPart: string, lonPart: string, south: bool, west: bool): (r: Option<LatLon>)
  {
    if latPart == [] || lonPart == [] then None
    else
      var latDec := ParsePart(latPart);
      var lonDec := ParsePart(lonPart);
      if latDec.None? || lonDec.None? then None
      else Some(LatLon(Signed(latDec.value, south),
                       Signed(lonDec.value, west)))
  }

  lemma AssembleSome(latPart: string, lonPart: string, south: bool, west: bool)
    requires Assemble(latPart, lonPart, south, west).Some?
    ensures latPart != [] && lonPart != []
    ensures ParsePart(latPart).Some? && ParsePart(lonPart).Some?
    ensures Assemble(latPart, lonPart, south, west).value
         == LatLon(Signed(ParsePart(latPart).value, south),
                   Signed(ParsePart(lonPart).value, west))
  {
  }

  // ---------------------------------------------------------------------------
  // What the decoder promises

  /** Without a latitude letter or a longitude letter there is no result. */
  lemma NoHemisphereNoResult(val: string)
    requires (forall k :: 0 <= k < |Normalize(val)| ==> !IsNS(Normalize(val)[k]))
          || (forall k :: 0 <= k < |Normalize(val)| ==> !IsEW(Normalize(val)[k]))
    ensures ParseLatLon(Some(val)) == None
  {
    var s := Normalize(val);
    var i := FindFirst(s, IsNS);
    var j := FindFirst(s, IsEW);
    assert i == |s| || j == |s|;
  }

  /** An E/W letter before the first N/S letter leaves the longitude text empty. */
  lemma LongitudeBeforeLatitudeNoResult(val: string)
    requires FindFirst(Normalize(val), IsEW) < FindFirst(Normalize(val), IsNS)
    ensures ParseLatLon(Some(val)) == None
  {
  }

  /** A decoded latitude is the value of the stripped text before the first N/S
      letter, negated for S. */
  lemma DecodeLatitude(s: string)
    requires Decode(s).Some?
    ensures var i := FindFirst(s, IsNS);
            && i < |s|
            && var lat := ParsePart(Strip(s[..i], IsPySpace));
               && lat.Some?
               && Decode(s).value.lat == Signed(lat.value, s[i] == 'S')
  {
    var i := FindFirst(s, IsNS);
    var j := FindFirst(s, IsEW);
    AssembleSome(Strip(s[..i], IsPySpace), Strip(Between(s, i + 1, j), IsPySpace), s[i] == 'S', s[j] == 'W');
  }

  /** A decoded longitude is the value of the stripped, non-empty text between the
      N/S letter and the first E/W letter, negated for W; so the E/W letter comes
      after the N/S letter. */
  lemma DecodeLongitude(s: string)
    requires Decode(s).Some?
    ensures var i := FindFirst(s, IsNS);
            var j := FindFirst(s, IsEW);
            && i + 1 < j < |s|
            && var lon := ParsePart(Strip(s[i + 1..j], IsPySpace));
               && lon.Some?
               && Decode(s).value.lon == Signed(lon.value, s[j] == 'W')
  {
    var i := FindFirst(s, IsNS);
    var j := FindFirst(s, IsEW);
    AssembleSome(Strip(s[..i], IsPySpace), Strip(Between(s, i + 1, j), IsPySpace), s[i] == 'S', s[j] == 'W');
    assert Strip([], IsPySpace) == [];
    assert Between(s, i + 1, j) == s[i + 1..j];
  }

  /** A negative latitude comes only from an S letter and a negative longitude only
      from a W letter; S and W never give a positive value. */
  lemma SignFollowsHemisphere(s: string)
    requires Decode(s).Some?
    ensures var r := Decode(s).value;
            var i := FindFirst(s, IsNS);
            var j := FindFirst(s, IsEW);
            && i < |s| && j < |s|
            && (r.lat < 0.0 ==> s[i] == 'S') && (s[i] == 'S' ==> r.lat <= 0.0)
            && (r.lon < 0.0 ==> s[j] == 'W') && (s[j] == 'W' ==> r.lon <= 0.0)
  {
    DecodeLatitude(s);
    DecodeLongitude(s);
  }

  // ---------------------------------------------------------------------------
  // Round trip: a coordinate written in the telegram notation decodes to itself

  /** Degrees, two minute digits and an optional fraction of a minute, as the
      telegrams write one side of a coordinate. */
  function FormatPart(deg: nat, mm: nat, frac: string): (s: string)
    requires mm < 100 && AllDigits(frac)
  {
    NatToDigits(deg) + TwoDigits(mm) + (if frac == [] then [] else "." + frac)
  }

  /** The value `FormatPart` denotes. */
  function PartMeaning(deg: nat, mm: nat, frac: string): real
    requires AllDigits(frac)
  {
    deg as real + (mm as real + FracValue(frac)) / 60.0
  }

  lemma ParsePartRoundTrip(deg: nat, mm: nat, frac: string)
    requires mm < 100 && AllDigits(frac)
    ensures ParsePart(FormatPart(deg, mm, frac)) == Some(PartMeaning(deg, mm, frac))
  {
    var p := FormatPart(deg, mm, frac);
    FormatPartMatches(deg, mm, frac);
    DeleteAbsent(p, ' ');
    assert ParsePart(p) == MatchPart(p);
  }

  lemma FormatPartMatches(deg: nat, mm: nat, frac: string)
    requires mm < 100 && AllDigits(frac)
    ensures var p := FormatPart(deg, mm, frac);
            ' ' !in p && p != [] && p[|p| - 1] != '\n' && MatchPart(p) == Some(PartMeaning(deg, mm, frac))
  {
    var d := NatToDigits(deg);
    var m := TwoDigits(mm);
    var whole := d + m;
    assert AllDigits(whole) by {
      forall k | 0 <= k < |whole| ensures IsDigit(whole[k]) {
        if k < |d| { assert whole[k] == d[k]; } else { assert whole[k] == m[k - |d|]; }
      }
    }
    assert FormatPart(deg, mm, frac) == whole + (if frac == [] then [] else "." + frac);
    MatchDigits(whole, frac);
    assert whole[..|whole| - 2] == d;
    assert whole[|whole| - 2..] == m;
    PartValue(deg, mm, frac, DigitsValue(whole[..|whole| - 2]), MinutesValue(whole[|whole| - 2..], frac));
  }

  /** The value matched for the digits of `deg` and `mm` is `PartMeaning`. */
  lemma PartValue(deg: nat, mm: nat, frac: string, dv: nat, mv: real)
    requires mm < 100 && AllDigits(frac) && dv == deg && mv == mm as real + FracValue(frac)
    ensures dv as real + mv / 60.0 == PartMeaning(deg, mm, frac)
  {
  }

  /** An integer text of at least three digits with an optional fraction matches,
      and its last two integer digits are the minutes. */
  lemma MatchDigits(whole: string, frac: string)
    requires |whole| >= 3 && AllDigits(whole) && AllDigits(frac)
    ensures var p := whole + (if frac == [] then [] else "." + frac);
            var n := |whole|;
            && ' ' !in p && p != [] && p[|p| - 1] != '\n'
            && MatchPart(p) == Some(DigitsValue(whole[..n - 2]) as real + MinutesValue(whole[n - 2..], frac) / 60.0)
  {
    if frac == [] {
      assert whole + [] == whole;
      MatchWhole(whole);
    } else {
      MatchFraction(whole, frac);
      assert whole + ("." + frac) == whole + "." + frac;
    }
  }

  lemma MatchWhole(whole: string)
    requires |whole| >= 3 && AllDigits(whole)
    ensures var n := |whole|;
            && ' ' !in whole && whole[n - 1] != '\n'
            && MatchPart(whole) == Some(DigitsValue(whole[..n - 2]) as real + MinutesValue(whole[n - 2..], []) / 60.0)
  {
    var dot := FindFirst(whole, IsDot);
    assert dot == |whole|;
    assert ' ' !in whole by {
      forall k | 0 <= k < |whole| ensures whole[k] != ' ' { assert IsDigit(whole[k]); }
    }
    assert whole[..dot] == whole;
  }

  lemma MatchFraction(whole: string, frac: string)
    requires |whole| >= 3 && AllDigits(whole) && AllDigits(frac) && frac != []
    ensures var p := whole + "." + frac;
            var n := |whole|;
            && ' ' !in p && p[|p| - 1] != '\n'
            && MatchPart(p) == Some(DigitsValue(whole[..n - 2]) as real + MinutesValue(whole[n - 2..], frac) / 60.0)
  {
    var p := whole + "." + frac;
    var dot := FindFirst(p, IsDot);
    assert p[|whole|] == '.';
    assert dot == |whole| by {
      FindFirstLeast(p, IsDot, |whole|);
    }
    assert p[dot + 1..] == frac;
    assert p[|p| - 1] == frac[|frac| - 1];
    assert ' ' !in p by {
      forall k | 0 <= k < |p| ensures p[k] != ' ' {
        if k < |whole| { assert p[k] == whole[k]; } else if k > |whole| { assert p[k] == frac[k - |whole| - 1]; }
      }
    }
    assert p[..dot] == whole;
  }

  /** A whole token: latitude, N or S, longitude, E or W. */
  function FormatToken(latDeg: nat, latMin: nat, south: bool,
                       lonDeg: nat, lonMin: nat, west: bool): string
    requires latMin < 100 && lonMin < 100
  {
    TokenText(FormatPart(latDeg, latMin, []), south, FormatPart(lonDeg, lonMin, []), west)
  }

  function TokenText(lat: string, south: bool, lon: string, west: bool): string {
    lat + [if south then 'S' else 'N'] + lon + [if west then 'W' else 'E']
  }

  /** The hemisphere letters a telegram may use for a latitude or a longitude. */
  predicate IsLatLetter(c: char) { c == 'N' || c == 'S' || c == 'С' || c == 'Ю' }

  predicate IsLonLetter(c: char) { c == 'E' || c == 'W' || c == 'В' || c == 'З' }

  /** The characters a coordinate token is made of. */
  predicate TokenChar(c: char) {
    IsDigit(c) || IsLatLetter(c) || IsLonLetter(c)
  }

  /** On a text of digits and hemisphere letters, normalisation only maps the
      Cyrillic letters to Latin ones. */
  lemma TokenNormalize(t: string)
    requires forall k :: 0 <= k < |t| ==> TokenChar(t[k])
    ensures Normalize(t) == MapChars(Latinize, t)
  {
    StripIdentity(t, IsPySpace);
    UpperTokenChars(t);
    CleanTokenChars(t);
  }

  lemma UpperTokenChars(t: string)
    requires forall k :: 0 <= k < |t| ==> TokenChar(t[k])
    ensures MapChars(Upper, t) == t
  {
    var u := MapChars(Upper, t);
    forall k | 0 <= k < |t| ensures u[k] == t[k] {
      TokenCharFixed(t[k]);
    }
  }

  lemma TokenCharFixed(c: char)
    requires TokenChar(c)
    ensures Upper(c) == c && CommaToSpace(c) == c && !IsPySpace(c)
    ensures c != '°' && c != '\'' && c != '"' && c != ' '
  {
  }

  lemma LatinizeLetters(c: char)
    ensures IsLatLetter(c) ==> IsNS(Latinize(c)) && (Latinize(c) == 'S' <==> c == 'S' || c == 'Ю')
    ensures IsLonLetter(c) ==> IsEW(Latinize(c)) && (Latinize(c) == 'W' <==> c == 'W' || c == 'З')
    ensures IsDigit(c) || IsNS(c) || IsEW(c) ==> Latinize(c) == c
  {
  }

  lemma CleanTokenChars(t: string)
    requires forall k :: 0 <= k < |t| ==> TokenChar(t[k])
    ensures Clean(t) == t
  {
    assert '°' !in t && '\'' !in t && '"' !in t && ' ' !in t by {
      forall k | 0 <= k < |t| ensures t[k] != '°' && t[k] != '\'' && t[k] != '"' && t[k] != ' ' {
        TokenCharFixed(t[k]);
      }
    }
    DeleteAbsent(t, '°');
    DeleteAbsent(t, '\'');
    DeleteAbsent(t, '"');
    var c := MapChars(CommaToSpace, t);
    forall k | 0 <= k < |t| ensures c[k] == t[k] {
      TokenCharFixed(t[k]);
    }
    assert c == t;
    HalveAbsent(t);
  }

  /** Text without spaces has no pair of spaces to halve. */
  lemma HalveAbsent(s: string)
    requires ' ' !in s
    ensures HalveDoubleSpaces(s) == s
  {
    HalveFromAbsent(s, 0);
  }

  lemma {:induction false} HalveFromAbsent(s: string, i: nat)
    requires ' ' !in s && i <= |s|
    ensures HalveFrom(s, i) == s[i..]
    decreases |s| - i
  {
    if i < |s| {
      assert s[i] != ' ';
      HalveFromAbsent(s, i + 1);
      assert s[i..] == [s[i]] + s[i + 1..];
    }
  }

  /** Decoding a token written from degrees and minutes gives back the signed
      decimal degrees. */
  lemma TokenRoundTrip(latDeg: nat, latMin: nat, south: bool,
                       lonDeg: nat, lonMin: nat, west: bool)
    requires latMin < 100 && lonMin < 100
    ensures ParseLatLon(Some(FormatToken(latDeg, latMin, south, lonDeg, lonMin, west)))
         == Some(LatLon(
              Signed(PartMeaning(latDeg, latMin, []), south),
              Signed(PartMeaning(lonDeg, lonMin, []), west)))
  {
    FormatPartAccepted(latDeg, latMin);
    FormatPartAccepted(lonDeg, lonMin);
    TokenDecodes(FormatPart(latDeg, latMin, []), south, FormatPart(lonDeg, lonMin, []), west,
                 PartMeaning(latDeg, latMin, []), PartMeaning(lonDeg, lonMin, []));
  }

  /** A token of two accepted digit texts and hemisphere letters decodes to their
      values, signed by the letters. */
  lemma TokenDecodes(a: string, south: bool, b: string, west: bool, latV: real, lonV: real)
    requires Accepted(a, latV) && Accepted(b, lonV)
    ensures ParseLatLon(Some(TokenText(a, south, b, west)))
         == Some(LatLon(Signed(latV, south), Signed(lonV, west)))
  {
    var ns := if south then 'S' else 'N';
    var ew := if west then 'W' else 'E';
    assert TokenText(a, south, b, west) == a + [ns] + b + [ew];
    TokenNormal(a, ns, b, ew);
    DecodeToken(a, ns, b, ew);
    AssembleParts(a, b, ns == 'S', ew == 'W', latV, lonV);
  }

  /** Two accepted parts assemble into a pair. */
  lemma AssembleParts(latPart: string, lonPart: string, south: bool, west: bool, latV: real, lonV: real)
    requires latPart != [] && lonPart != []
    requires ParsePart(latPart) == Some(latV) && ParsePart(lonPart) == Some(lonV)
    ensures Assemble(latPart, lonPart, south, west)
         == Some(LatLon(Signed(latV, south), Signed(lonV, west)))
  {
  }

  /** A non-empty digit text that `ParsePart` reads as `v`. */
  predicate Accepted(a: string, v: real) {
    a != [] && AllDigits(a) && ParsePart(a) == Some(v)
  }

  lemma FormatPartAccepted(deg: nat, mm: nat)
    requires mm < 100
    ensures Accepted(FormatPart(deg, mm, []), PartMeaning(deg, mm, []))
  {
    AppendDigits(NatToDigits(deg), TwoDigits(mm));
    ParsePartRoundTrip(deg, mm, []);
  }

  /** A token made of digits and Latin hemisphere letters is already normal. */
  lemma TokenNormal(a: string, ns: char, b: string, ew: char)
    requires AllDigits(a) && AllDigits(b) && IsNS(ns) && IsEW(ew)
    ensures Normalize(a + [ns] + b + [ew]) == a + [ns] + b + [ew]
  {
    var t := a + [ns] + b + [ew];
    forall k | 0 <= k < |t| ensures TokenChar(t[k]) && Latinize(t[k]) == t[k] {
      if k < |a| { assert t[k] == a[k]; }
      else if |a| < k < |a| + 1 + |b| { assert t[k] == b[k - |a| - 1]; }
      LatinizeLetters(t[k]);
    }
    TokenNormalize(t);
    assert MapChars(Latinize, t) == t;
  }

  /** A token the telegram grammar admits (at least three digits, a latitude
      letter, at least three digits, a longitude letter) always decodes, and a
      Cyrillic letter acts as its Latin equivalent. */
  lemma TelegramTokenDecodes(a: string, x: char, b: string, y: char)
    requires AllDigits(a) && AllDigits(b) && |a| >= 3 && |b| >= 3
    requires IsLatLetter(x) && IsLonLetter(y)
    ensures ParsePart(a).Some? && ParsePart(b).Some?
    ensures ParseLatLon(Some(a + [x] + b + [y]))
         == Some(LatLon(Signed(ParsePart(a).value, x == 'S' || x == 'Ю'),
                        Signed(ParsePart(b).value, y == 'W' || y == 'З')))
  {
    var lx := Latinize(x);
    var ly := Latinize(y);
    LatinizeLetters(x);
    LatinizeLetters(y);
    TelegramNormal(a, x, b, y);
    DigitsAccepted(a);
    DigitsAccepted(b);
    DecodeToken(a, lx, b, ly);
    AssembleParts(a, b, lx == 'S', ly == 'W', ParsePart(a).value, ParsePart(b).value);
  }

  /** Normalising a telegram token only latinizes its two letters. */
  lemma TelegramNormal(a: string, x: char, b: string, y: char)
    requires AllDigits(a) && AllDigits(b) && IsLatLetter(x) && IsLonLetter(y)
    ensures Normalize(a + [x] + b + [y]) == a + [Latinize(x)] + b + [Latinize(y)]
  {
    var t := a + [x] + b + [y];
    assert forall k :: 0 <= k < |t| ==> TokenChar(t[k]) by {
      forall k | 0 <= k < |t| ensures TokenChar(t[k]) {
        if k < |a| { assert t[k] == a[k]; }
        else if |a| < k < |a| + 1 + |b| { assert t[k] == b[k - |a| - 1]; }
      }
    }
    TokenNormalize(t);
    calc {
      MapChars(Latinize, t);
      { MapCharsAppend(Latinize, a + [x] + b, [y]); }
      MapChars(Latinize, a + [x] + b) + MapChars(Latinize, [y]);
      { MapCharsAppend(Latinize, a + [x], b); MapCharsAppend(Latinize, a, [x]); }
      MapChars(Latinize, a) + MapChars(Latinize, [x]) + MapChars(Latinize, b) + MapChars(Latinize, [y]);
      { LatinizeDigits(a); LatinizeDigits(b); SingleLatinize(x); SingleLatinize(y); }
      a + [Latinize(x)] + b + [Latinize(y)];
    }
  }

  lemma SingleLatinize(c: char)
    ensures MapChars(Latinize, [c]) == [Latinize(c)]
  {
  }

  lemma LatinizeDigits(a: string)
    requires AllDigits(a)
    ensures MapChars(Latinize, a) == a
  {
    var m := MapChars(Latinize, a);
    forall k | 0 <= k < |a| ensures m[k] == a[k] {
      LatinizeLetters(a[k]);
    }
  }

  /** Three or more digits always form an accepted part. */
  lemma DigitsAccepted(a: string)
    requires AllDigits(a) && |a| >= 3
    ensures ParsePart(a).Some?
  {
    MatchWhole(a);
    DeleteAbsent(a, ' ');
  }

  /** The search splits a normal token at its two letters. */
  lemma DecodeToken(a: string, ns: char, b: string, ew: char)
    requires AllDigits(a) && AllDigits(b) && IsNS(ns) && IsEW(ew)
    ensures Decode(a + [ns] + b + [ew]) == Assemble(a, b, ns == 'S', ew == 'W')
  {
    var t := a + [ns] + b + [ew];
    var i, j := |a|, |a| + 1 + |b|;
    assert FindFirst(t, IsNS) == i && FindFirst(t, IsEW) == j by { TokenLetters(a, ns, b, ew); }
    assert t[i] == ns && t[j] == ew && t[..i] == a && Between(t, i + 1, j) == b by { TokenParts(a, ns, b, ew); }
    assert Strip(a, IsPySpace) == a && Strip(b, IsPySpace) == b by { DigitsStrip(a); DigitsStrip(b); }
    DecodeAt(t, i, j, a, b, ns == 'S', ew == 'W');
  }

  /** Where the two hemisphere letters of a normal token are. */
  lemma TokenLetters(a: string, ns: char, b: string, ew: char)
    requires AllDigits(a) && AllDigits(b) && IsNS(ns) && IsEW(ew)
    ensures FindFirst(a + [ns] + b + [ew], IsNS) == |a|
    ensures FindFirst(a + [ns] + b + [ew], IsEW) == |a| + 1 + |b|
  {
    var t := a + [ns] + b + [ew];
    FindFirstAfter(a, ns, b + [ew], IsNS);
    assert t == a + [ns] + (b + [ew]);
    var pre := a + [ns] + b;
    assert forall k :: 0 <= k < |pre| ==> !IsEW(pre[k]) by {
      forall k | 0 <= k < |pre| ensures !IsEW(pre[k]) {
        if k < |a| { assert pre[k] == a[k]; }
        else if k > |a| { assert pre[k] == b[k - |a| - 1]; }
      }
    }
    FindFirstAfter(pre, ew, [], IsEW);
    assert t == pre + [ew] + [];
  }

  /** The texts before and between the letters of a normal token. */
  lemma TokenParts(a: string, ns: char, b: string, ew: char)
    ensures var t := a + [ns] + b + [ew];
            && t[|a|] == ns && t[|a| + 1 + |b|] == ew
            && t[..|a|] == a && Between(t, |a| + 1, |a| + 1 + |b|) == b
  {
    var t := a + [ns] + b + [ew];
    assert t[..|a|] == a;
    assert Between(t, |a| + 1, |a| + 1 + |b|) == b;
  }

  /** `Decode` once both letters are found and the parts around them are known. */
  lemma DecodeAt(t: string, i: nat, j: nat, lat: string, lon: string, south: bool, west: bool)
    requires i < |t| && j < |t| && FindFirst(t, IsNS) == i && FindFirst(t, IsEW) == j
    requires Strip(t[..i], IsPySpace) == lat && Strip(Between(t, i + 1, j), IsPySpace) == lon
    requires (t[i] == 'S') == south && (t[j] == 'W') == west
    ensures Decode(t) == Assemble(lat, lon, south, west)
  {
  }

  lemma AppendDigits(x: string, y: string)
    requires AllDigits(x) && AllDigits(y)
    ensures AllDigits(x + y)
  {
    assert forall k :: 0 <= k < |x + y| ==> (x + y)[k] == if k < |x| then x[k] else y[k - |x|];
  }

  lemma DigitsStrip(s: string)
    requires AllDigits(s)
    ensures Strip(s, IsPySpace) == s
  {
    StripIdentity(s, IsPySpace);
  }

  // ---------------------------------------------------------------------------
  // The greedy split of the part regex

  /** `5506` is 55 degrees 6 minutes. */
  lemma FourDigitLatitude()
    ensures ParsePart("5506") == Some(55.1)
  {
    ParsePartRoundTrip(55, 6, []);
    assert FormatPart(55, 6, []) == "5506";
  }

  /** `550630` is 5506 degrees 30 minutes, not 55 degrees 6 minutes 30 seconds. */
  lemma SixDigitLatitudeIsGreedy()
    ensures ParsePart("550630") == Some(5506.5)
    ensures ParsePart("550630") != Some(55.0 + 6.0 / 60.0 + 30.0 / 3600.0)
  {
    var p := "550630";
    ParseSixDigits();
    assert ParsePart(p) == MatchPart(p) by { DeleteAbsent(p, ' '); }
  }

  lemma ParseSixDigits()
    ensures MatchPart("550630") == Some(5506.5)
  {
    var p := "550630";
    MatchDigits(p, []);
    assert p + [] == p;
    assert p[..4] == "5506" && p[4..] == "30";
    DigitsOf5506();
    assert DigitsValue("30") == 30 by {
      assert "30"[..1] == "3" && "3"[..0] == [];
    }
  }

  lemma DigitsOf5506()
    ensures DigitsValue("5506") == 5506
  {
    assert "5506"[..3] == "550" && "550"[..2] == "55" && "55"[..1] == "5" && "5"[..0] == [];
  }

  // ---------------------------------------------------------------------------
  // Cyrillic hemisphere letters decode like their Latin equivalents

  /** Writing С, Ю, В, З instead of N, S, E, W never changes the decoded value. */
  lemma CyrillicLikeLatin(val: string)
    ensures ParseLatLon(Some(val)) == ParseLatLon(Some(MapChars(Latinize, val)))
  {
    NormalizeLatinized(val);
  }

  lemma NormalizeLatinized(val: string)
    ensures Normalize(MapChars(Latinize, val)) == Normalize(val)
  {
    LatinizeKeepsSpace();
    StripMapChars(Latinize, val, IsPySpace);
    LatinizedText(Strip(val, IsPySpace));
  }

  /** The hemisphere letters are not white space, and nothing else changes. */
  lemma LatinizeKeepsSpace()
    ensures forall c :: IsPySpace(Latinize(c)) == IsPySpace(c)
  {
  }

  lemma LatinizedText(w: string)
    ensures MapChars(Latinize, Clean(MapChars(Upper, MapChars(Latinize, w))))
         == MapChars(Latinize, Clean(MapChars(Upper, w)))
  {
    var x := MapChars(Upper, MapChars(Latinize, w));
    var y := MapChars(Upper, w);
    calc {
      MapChars(Latinize, Clean(x));
      { CleanLatinize(x); }
      Clean(MapChars(Latinize, x));
      { LatinizeAfterUpper(w); }
      Clean(MapChars(Latinize, y));
      { CleanLatinize(y); }
      MapChars(Latinize, Clean(y));
    }
  }

  /** Upper-casing then mapping hemisphere letters gives the same text whether or
      not the letters were mapped before upper-casing. */
  lemma LatinizeAfterUpper(w: string)
    ensures MapChars(Latinize, MapChars(Upper, MapChars(Latinize, w)))
         == MapChars(Latinize, MapChars(Upper, w))
  {
    var a := MapChars(Latinize, MapChars(Upper, MapChars(Latinize, w)));
    var b := MapChars(Latinize, MapChars(Upper, w));
    forall k | 0 <= k < |w| ensures a[k] == b[k] {
      LatinizeUpperChar(w[k]);
    }
  }

  lemma LatinizeUpperChar(c: char)
    ensures Latinize(Upper(Latinize(c))) == Latinize(Upper(c))
  {
  }

  /** The replacements touch none of the hemisphere letters, so they commute
      with the mapping of Cyrillic letters. */
  lemma CleanLatinize(s: string)
    ensures MapChars(Latinize, Clean(s)) == Clean(MapChars(Latinize, s))
  {
    var d1 := Delete(s, '°');
    var d2 := Delete(d1, '\'');
    var d3 := Delete(d2, '"');
    DeleteMapChars(Latinize, s, '°');
    DeleteMapChars(Latinize, d1, '\'');
    DeleteMapChars(Latinize, d2, '"');
    CommaLatinize(d3);
    HalveMapChars(Latinize, MapChars(CommaToSpace, d3));
  }

  lemma CommaLatinize(s: string)
    ensures MapChars(Latinize, MapChars(CommaToSpace, s)) == MapChars(CommaToSpace, MapChars(Latinize, s))
  {
  }

  /** A character map that sends spaces, and only spaces, to spaces commutes with
      halving double spaces. */
  lemma HalveMapChars(f: char -> char, s: string)
    requires forall x :: (f(x) == ' ') == (x == ' ')
    ensures HalveDoubleSpaces(MapChars(f, s)) == MapChars(f, HalveDoubleSpaces(s))
  {
    HalveFromMapChars(f, s, 0);
  }

  lemma {:induction false} HalveFromMapChars(f: char -> char, s: string, i: nat)
    requires forall x :: (f(x) == ' ') == (x == ' ')
    requires i <= |s|
    ensures HalveFrom(MapChars(f, s), i) == MapChars(f, HalveFrom(s, i))
    decreases |s| - i
  {
    var t := MapChars(f, s);
    if i + 1 < |s| && s[i] == ' ' && s[i + 1] == ' ' {
      assert t[i] == ' ' && t[i + 1] == ' ';
      HalveFromMapChars(f, s, i + 2);
      MapCharsAppend(f, [' '], HalveFrom(s, i + 2));
    } else if i < |s| {
      assert !(i + 1 < |t| && t[i] == ' ' && t[i + 1] == ' ');
      HalveFromMapChars(f, s, i + 1);
      MapCharsAppend(f, [s[i]], HalveFrom(s, i + 1));
    }
  }
}
