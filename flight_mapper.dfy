/** The flight row mapper: one spreadsheet row of a flight-plan journal (the
    SHR plan telegram, the DEP departure and ARR arrival messages and the air
    traffic centre) becomes a flight record.

    Each regular expression the mapper uses is written out as a scanner over the
    text: a literal marker, then character runs. `Search` is the leftmost match
    of `re.search`, `TokensFrom` the left-to-right scan of `re.findall`. */
module FlightMapper {
  import opened Wrappers
  import opened Chars
  import opened Geocoder

  // ---------------------------------------------------------------------------
  // Rows

  /** A cell of the row: missing (`None`), a string, or any other value with
      the text `str()` gives it (an empty spreadsheet cell is the float NaN,
      `Other("nan")`). */
  datatype Cell = Null | Text(s: string) | Other(repr: string)

  /** `str(text) if text is not None else ""`. */
  function CellText(c: Cell): string {
    match c
    case Null => ""
    case Text(s) => s
    case Other(r) => r
  }

  /** A row (`pd.Series`): column labels with their cells, in column order. */
  type Row = seq<(string, Cell)>

  /** The position of the first column labelled `key`, or `|row|`. */
  function KeyIndex(row: Row, key: string, i: nat): (k: nat)
    requires i <= |row|
    ensures i <= k <= |row| && (k < |row| ==> row[k].0 == key)
    decreases |row| - i
  {
    if i == |row| || row[i].0 == key then i else KeyIndex(row, key, i + 1)
  }

  /** `row.get(key, default)`. */
  function RowGet(row: Row, key: string, default: Cell): Cell {
    var k := KeyIndex(row, key, 0);
    if k < |row| then row[k].1 else default
  }

  lemma {:induction false} KeyIndexLeast(row: Row, key: string, i: nat)
    requires i <= |row|
    ensures forall q :: i <= q < KeyIndex(row, key, i) ==> row[q].0 != key
    decreases |row| - i
  {
    if i < |row| && row[i].0 != key {
      KeyIndexLeast(row, key, i + 1);
    }
  }

  /** `row.get` returns the cell of the first column with that label, and the
      default exactly when no column has it. */
  lemma RowGetMeaning(row: Row, key: string, default: Cell)
    ensures (forall q :: 0 <= q < |row| ==> row[q].0 != key) ==> RowGet(row, key, default) == default
    ensures forall q :: 0 <= q < |row| && row[q].0 == key && (forall p :: 0 <= p < q ==> row[p].0 != key)
              ==> RowGet(row, key, default) == row[q].1
  {
    KeyIndexLeast(row, key, 0);
  }

  // ---------------------------------------------------------------------------
  // The patterns

  /** The regular expressions of the mapper:
      `Spaced(m, None)` is `m\s+(\d+)`, `Spaced(m, Some(n))` is `m\s+(\d{n})`,
      `TypeCode` is `TYP/([A-Z0-9]+)` and `TokenAfter(m)` is
      `m\b[\s\S]*?(\d{4,6}[NSСЮ]\d{5,7}[EWВЗ])`. */
  datatype Pattern = Spaced(marker: string, width: Option<nat>) | TypeCode | TokenAfter(marker: string)

  const SidPattern: Pattern := Spaced("-SID", None)
  const DatePattern: Pattern := Spaced("-ADD", Some(6))
  const DepTimePattern: Pattern := Spaced("-ATD", Some(4))
  const ArrTimePattern: Pattern := Spaced("-ATA", Some(4))
  const TakeoffPattern: Pattern := TokenAfter("-ADEPZ")
  const LandingPattern: Pattern := TokenAfter("-ADARRZ")

  predicate IsTypeChar(c: char) { IsAsciiUpper(c) || IsDigit(c) }

  /** `\s+` then `\d+` or `\d{n}` from `k`: the captured digits. The space run
      and the digit run are maximal, so no backtracking can help. */
  function SpacedDigits(s: string, k: nat, width: Option<nat>): (r: Option<string>)
    requires k <= |s|
    ensures r.Some? ==> AllDigits(r.value) && (width.None? ==> r.value != [])
    ensures r.Some? && width.Some? ==> |r.value| == width.value
  {
    var w := SkipFrom(s, IsPySpace, k);
    var e := SkipFrom(s, IsDigit, w);
    SkipFromSpan(s, IsDigit, w);
    if w == k then None
    else match width
      case None => if e > w then Some(s[w..e]) else None
      case Some(n) => if e - w >= n then Some(s[w..w + n]) else None
  }

  /** Where the coordinate token `\d{4,6}[NSСЮ]\d{5,7}[EWВЗ]` that starts at `k`
      ends, if one starts there. A digit run is followed by a letter only at its
      end, so each run must be taken whole. */
  function TokenEnd(s: string, k: nat): (r: Option<nat>)
    requires k <= |s|
    ensures r.Some? ==> k + 11 <= r.value <= |s|
  {
    var d := SkipFrom(s, IsDigit, k);
    if !(4 <= d - k <= 6 && d < |s| && IsLatLetter(s[d])) then None
    else
      var e := SkipFrom(s, IsDigit, d + 1);
      if 5 <= e - d - 1 <= 7 && e < |s| && IsLonLetter(s[e]) then Some(e + 1) else None
  }

  predicate DigitsIn(s: string, i: nat, j: nat)
    requires i <= j <= |s|
  {
    forall q :: i <= q < j ==> IsDigit(s[q])
  }

  /** The token pattern read literally at `k`: `m` digits, a latitude letter,
      `n` digits, a longitude letter. */
  predicate TokenAt(s: string, k: nat, m: nat, n: nat) {
    && 4 <= m <= 6 && 5 <= n <= 7 && k + m + n + 2 <= |s|
    && DigitsIn(s, k, k + m) && IsLatLetter(s[k + m])
    && DigitsIn(s, k + m + 1, k + m + 1 + n) && IsLonLetter(s[k + m + 1 + n])
  }

  /** The scanner finds a token at `k` exactly when the pattern matches there,
      and it ends where the pattern's match does. */
  lemma TokenEndMeaning(s: string, k: nat)
    requires k <= |s|
    ensures forall m, n :: TokenAt(s, k, m, n) ==> TokenEnd(s, k) == Some(k + m + n + 2)
    ensures TokenEnd(s, k).Some? ==>
              exists m, n :: TokenAt(s, k, m, n) && TokenEnd(s, k) == Some(k + m + n + 2)
  {
    forall m, n | TokenAt(s, k, m, n) ensures TokenEnd(s, k) == Some(k + m + n + 2) {
      SkipFromExact(s, IsDigit, k, k + m);
      SkipFromExact(s, IsDigit, k + m + 1, k + m + 1 + n);
    }
    if TokenEnd(s, k).Some? {
      var d := SkipFrom(s, IsDigit, k);
      var e := SkipFrom(s, IsDigit, d + 1);
      SkipFromSpan(s, IsDigit, k);
      SkipFromSpan(s, IsDigit, d + 1);
      assert TokenAt(s, k, d - k, e - d - 1);
    }
  }

  /** The first position from `b` where a token starts (`[\s\S]*?` is lazy), or `|s|`. */
  function FirstTokenFrom(s: string, b: nat): (q: nat)
    requires b <= |s|
    ensures b <= q <= |s| && (q < |s| ==> TokenEnd(s, q).Some?)
    decreases |s| - b
  {
    if b == |s| || TokenEnd(s, b).Some? then b else FirstTokenFrom(s, b + 1)
  }

  lemma {:induction false} FirstTokenFromLeast(s: string, b: nat)
    requires b <= |s|
    ensures forall q :: b <= q < FirstTokenFrom(s, b) ==> TokenEnd(s, q).None?
    decreases |s| - b
  {
    if b < |s| && TokenEnd(s, b).None? {
      FirstTokenFromLeast(s, b + 1);
    }
  }

  /** The group a pattern captures when its match starts at `i`. */
  function MatchAt(p: Pattern, s: string, i: nat): Option<string>
    requires i <= |s|
  {
    match p
    case Spaced(marker, width) =>
      if HasAt(s, i, marker) then SpacedDigits(s, i + |marker|, width) else None
    case TypeCode =>
      if HasAt(s, i, "TYP/") then
        var e := SkipFrom(s, IsTypeChar, i + 4);
        if e > i + 4 then Some(s[i + 4..e]) else None
      else None
    case TokenAfter(marker) =>
      if HasAt(s, i, marker) && WordBoundary(s, i + |marker|) then
        var q := FirstTokenFrom(s, i + |marker|);
        if q < |s| then Some(s[q..TokenEnd(s, q).value]) else None
      else None
  }

  /** The first start position from `i` where the pattern matches, or `|s| + 1`. */
  function FirstMatchFrom(p: Pattern, s: string, i: nat): (j: nat)
    requires i <= |s|
    ensures i <= j <= |s| + 1 && (j <= |s| ==> MatchAt(p, s, j).Some?)
    decreases |s| - i
  {
    if MatchAt(p, s, i).Some? then i
    else if i == |s| then |s| + 1
    else FirstMatchFrom(p, s, i + 1)
  }

  lemma {:induction false} FirstMatchFromLeast(p: Pattern, s: string, i: nat)
    requires i <= |s|
    ensures forall q :: i <= q < FirstMatchFrom(p, s, i) && q <= |s| ==> MatchAt(p, s, q).None?
    decreases |s| - i
  {
    if MatchAt(p, s, i).None? && i < |s| {
      FirstMatchFromLeast(p, s, i + 1);
    }
  }

  /** `re.search(pattern, s).group(1)`, or `None` without a match. */
  function Search(p: Pattern, s: string): Option<string> {
    var j := FirstMatchFrom(p, s, 0);
    if j <= |s| then MatchAt(p, s, j) else None
  }

  /** `re.search` reports the match that starts leftmost, and nothing only when
      the pattern matches nowhere. */
  lemma SearchLeftmost(p: Pattern, s: string)
    ensures Search(p, s).None? <==> forall j :: 0 <= j <= |s| ==> MatchAt(p, s, j).None?
    ensures Search(p, s).Some? ==>
              exists j :: 0 <= j <= |s| && Search(p, s) == MatchAt(p, s, j)
                && forall q :: 0 <= q < j ==> MatchAt(p, s, q).None?
  {
    FirstMatchFromLeast(p, s, 0);
  }

  /** `DefaultMapper._extract`: the text of the cell, searched. */
  function Extract(cell: Cell, p: Pattern): Option<string> {
    Search(p, CellText(cell))
  }

  /** Python's `x or d` on an optional string. */
  function Or(x: Option<string>, d: string): string {
    if x.Some? && x.value != "" then x.value else d
  }

  // ---------------------------------------------------------------------------
  // Identification

  function FlightIdOf(dep: Cell): string {
    Or(Extract(dep, SidPattern), "")
  }

  function UavTypeOf(shr: Cell): string {
    Or(Extract(shr, TypeCode), "UNKNOWN")
  }

  /** The flight id is the digits after the first `-SID` of DEP, and "" when
      there are none. */
  lemma FlightIdDefault(dep: Cell)
    ensures Extract(dep, SidPattern).None? ==> FlightIdOf(dep) == ""
    ensures Extract(dep, SidPattern).Some? ==>
              FlightIdOf(dep) == Extract(dep, SidPattern).value
              && FlightIdOf(dep) != "" && AllDigits(FlightIdOf(dep))
  {
    var t := CellText(dep);
    var j := FirstMatchFrom(SidPattern, t, 0);
    if j <= |t| {
      assert HasAt(t, j, "-SID");
    }
  }

  /** The drone type is the code after the first `TYP/` of SHR, and "UNKNOWN"
      when there is none. */
  lemma UavTypeDefault(shr: Cell)
    ensures Extract(shr, TypeCode).None? ==> UavTypeOf(shr) == "UNKNOWN"
    ensures Extract(shr, TypeCode).Some? ==>
              UavTypeOf(shr) == Extract(shr, TypeCode).value
              && UavTypeOf(shr) != ""
              && forall q :: 0 <= q < |UavTypeOf(shr)| ==> IsTypeChar(UavTypeOf(shr)[q])
  {
    var t := CellText(shr);
    var j := FirstMatchFrom(TypeCode, t, 0);
    if j <= |t| {
      SkipFromSpan(t, IsTypeChar, j + 4);
    }
  }

  // ---------------------------------------------------------------------------
  // Coordinates

  function TakeoffOf(dep: Cell): Option<LatLon> {
    ParseLatLon(Extract(dep, TakeoffPattern))
  }

  function LandingOf(arr: Cell): Option<LatLon> {
    ParseLatLon(Extract(arr, LandingPattern))
  }

  /** Every token the scanner finds decodes. */
  lemma ScannedTokenDecodes(s: string, k: nat)
    requires k <= |s| && TokenEnd(s, k).Some?
    ensures ParseLatLon(Some(s[k..TokenEnd(s, k).value])).Some?
  {
    var d := SkipFrom(s, IsDigit, k);
    var e := SkipFrom(s, IsDigit, d + 1);
    SkipFromSpan(s, IsDigit, k);
    SkipFromSpan(s, IsDigit, d + 1);
    assert TokenEnd(s, k) == Some(e + 1);
    var a := s[k..d];
    var b := s[d + 1..e];
    var t := s[k..e + 1];
    assert t == a + [s[d]] + b + [s[e]];
    DecodesSome(a, s[d], b, s[e], t);
  }

  /** A text that is a telegram token decodes to some point. */
  lemma DecodesSome(a: string, x: char, b: string, y: char, t: string)
    requires AllDigits(a) && AllDigits(b) && |a| >= 3 && |b| >= 3
    requires IsLatLetter(x) && IsLonLetter(y) && t == a + [x] + b + [y]
    ensures ParseLatLon(Some(t)).Some?
  {
    TelegramTokenDecodes(a, x, b, y);
  }

  /** Whatever a token pattern captures decodes. */
  lemma TokenCaptureDecodes(marker: string, s: string)
    requires Search(TokenAfter(marker), s).Some?
    ensures ParseLatLon(Search(TokenAfter(marker), s)).Some?
  {
    var j := FirstMatchFrom(TokenAfter(marker), s, 0);
    var q := FirstTokenFrom(s, j + |marker|);
    ScannedTokenDecodes(s, q);
  }

  /** Without the marker, a token pattern matches nowhere. */
  lemma NoMarkerNoToken(marker: string, s: string)
    requires forall i :: 0 <= i <= |s| ==> !HasAt(s, i, marker)
    ensures Search(TokenAfter(marker), s).None?
  {
    forall j | 0 <= j <= |s| ensures MatchAt(TokenAfter(marker), s, j).None? {
      assert !HasAt(s, j, marker);
    }
    SearchLeftmost(TokenAfter(marker), s);
  }

  /** A point after a marker exists exactly when the pattern captures a token,
      and never without the marker. */
  lemma MarkerPoint(marker: string, s: string)
    ensures ParseLatLon(Search(TokenAfter(marker), s)).Some? <==> Search(TokenAfter(marker), s).Some?
    ensures (forall i :: 0 <= i <= |s| ==> !HasAt(s, i, marker))
              ==> ParseLatLon(Search(TokenAfter(marker), s)).None?
  {
    if Search(TokenAfter(marker), s).Some? {
      TokenCaptureDecodes(marker, s);
    }
    if forall i :: 0 <= i <= |s| ==> !HasAt(s, i, marker) {
      NoMarkerNoToken(marker, s);
    }
  }

  /** The takeoff point exists exactly when DEP holds `-ADEPZ` followed, after
      a word boundary, by a token; it is the first such token, decoded. */
  lemma TakeoffPoint(dep: Cell)
    ensures TakeoffOf(dep).Some? <==> Extract(dep, TakeoffPattern).Some?
    ensures (forall i :: 0 <= i <= |CellText(dep)| ==> !HasAt(CellText(dep), i, "-ADEPZ"))
              ==> TakeoffOf(dep).None?
  {
    MarkerPoint("-ADEPZ", CellText(dep));
  }

  /** The landing point follows the same rule from `-ADARRZ` in ARR. */
  lemma LandingPoint(arr: Cell)
    ensures LandingOf(arr).Some? <==> Extract(arr, LandingPattern).Some?
    ensures (forall i :: 0 <= i <= |CellText(arr)| ==> !HasAt(CellText(arr), i, "-ADARRZ"))
              ==> LandingOf(arr).None?
  {
    MarkerPoint("-ADARRZ", CellText(arr));
  }

  // ---------------------------------------------------------------------------
  // The route

  /** `re.findall(r"^-M.*$", shr, flags=re.MULTILINE)`: the lines that start with `-M`. */
  function RouteLines(shr: string): (r: seq<string>)
    ensures forall l :: l in r <==> l in Split(shr, '\n') && HasAt(l, 0, "-M")
  {
    LinesWithPrefix(Split(shr, '\n'))
  }

  function LinesWithPrefix(ls: seq<string>): (r: seq<string>)
    ensures forall l :: l in r <==> l in ls && HasAt(l, 0, "-M")
  {
    if ls == [] then []
    else
      var rest := LinesWithPrefix(ls[..|ls| - 1]);
      var l := ls[|ls| - 1];
      assert ls == ls[..|ls| - 1] + [l];
      if HasAt(l, 0, "-M") then rest + [l] else rest
  }

  /** The kept lines keep their order: filtering distributes over joining
      lists, so each part's lines come out in place. */
  lemma {:induction false} LinesWithPrefixAppend(a: seq<string>, b: seq<string>)
    ensures LinesWithPrefix(a + b) == LinesWithPrefix(a) + LinesWithPrefix(b)
    decreases |b|
  {
    if b == [] {
      assert a + b == a;
    } else {
      var init := b[..|b| - 1];
      assert (a + b)[..|a + b| - 1] == a + init;
      assert (a + b)[|a + b| - 1] == b[|b| - 1];
      LinesWithPrefixAppend(a, init);
    }
  }

  /** `re.findall` of the token pattern from `i`: tokens left to right, the scan
      resuming after each one. */
  function TokensFrom(s: string, i: nat): seq<string>
    requires i <= |s|
    decreases |s| - i
  {
    if i == |s| then []
    else match TokenEnd(s, i)
      case Some(e) => [s[i..e]] + TokensFrom(s, e)
      case None => TokensFrom(s, i + 1)
  }

  function Tokens(line: string): seq<string> {
    TokensFrom(line, 0)
  }

  /** The tokens of all lines, line after line. */
  function RouteTokens(lines: seq<string>): seq<string> {
    if lines == [] then [] else RouteTokens(lines[..|lines| - 1]) + Tokens(lines[|lines| - 1])
  }

  /** `self.geocoder.parse_latlon(c)` on a token. */
  function PointOf(c: string): Option<LatLon> {
    ParseLatLon(Some(c))
  }

  /** The tokens decoded by `decode`, skipping those it rejects (`if pt:`). */
  function PointsOfTokens(decode: string -> Option<LatLon>, cs: seq<string>): seq<LatLon> {
    if cs == [] then []
    else
      var p := decode(cs[|cs| - 1]);
      PointsOfTokens(decode, cs[..|cs| - 1]) + (if p.Some? then [p.value] else [])
  }

  function RoutePointsOf(shr: string): seq<LatLon> {
    PointsOfTokens(PointOf, RouteTokens(RouteLines(shr)))
  }

  /** `route_points or None`. */
  function NonEmptyOrNone<T>(xs: seq<T>): (r: Option<seq<T>>)
    ensures r.None? <==> xs == []
    ensures r.Some? ==> r.value == xs
  {
    if xs == [] then None else Some(xs)
  }

  /** The nested loops of `map_row` that collect the route points, with the
      geocoder passed in as `decode`. */
  method CollectPoints(lines: seq<string>, decode: string -> Option<LatLon>) returns (points: seq<LatLon>)
    ensures points == PointsOfTokens(decode, RouteTokens(lines))
  {
    points := [];
    var i := 0;
    while i < |lines|
      invariant 0 <= i <= |lines|
      invariant points == PointsOfTokens(decode, RouteTokens(lines[..i]))
    {
      var coords := Tokens(lines[i]);
      var done := RouteTokens(lines[..i]);
      var j := 0;
      assert done + coords[..0] == done;
      while j < |coords|
        invariant 0 <= j <= |coords|
        invariant points == PointsOfTokens(decode, done + coords[..j])
      {
        var pt := decode(coords[j]);
        PointsSnoc(decode, done, coords, j);
        if pt.Some? {
          points := points + [pt.value];
        }
        j := j + 1;
      }
      RouteSnoc(lines, i);
      assert coords[..j] == coords;
      i := i + 1;
    }
    assert lines[..i] == lines;
  }

  /** One more token decoded: its point, if any, comes last. */
  lemma PointsSnoc(decode: string -> Option<LatLon>, done: seq<string>, coords: seq<string>, j: nat)
    requires j < |coords|
    ensures PointsOfTokens(decode, done + coords[..j + 1])
         == PointsOfTokens(decode, done + coords[..j])
            + (if decode(coords[j]).Some? then [decode(coords[j]).value] else [])
  {
    var cs := done + coords[..j + 1];
    assert cs[..|cs| - 1] == done + coords[..j];
  }

  /** One more line: its tokens come after those of the lines before it. */
  lemma RouteSnoc(lines: seq<string>, i: nat)
    requires i < |lines|
    ensures RouteTokens(lines[..i + 1]) == RouteTokens(lines[..i]) + Tokens(lines[i])
  {
    assert lines[..i + 1][..i] == lines[..i];
  }

  /** Every token of a line is a token the scanner found, so each decodes. */
  lemma {:induction false} TokensFromDecode(s: string, i: nat)
    requires i <= |s|
    ensures AllDecode(PointOf, TokensFrom(s, i))
    decreases |s| - i
  {
    if i == |s| {
      assert TokensFrom(s, i) == [];
    } else if TokenEnd(s, i).Some? {
      var e := TokenEnd(s, i).value;
      TokensFromDecode(s, e);
      ScannedTokenDecodes(s, i);
      TokensTaken(PointOf, s, i, e);
    } else {
      TokensFromDecode(s, i + 1);
      TokensSkipped(PointOf, s, i);
    }
  }

  /** A token found at `i` that decodes keeps the rest decoding. */
  lemma TokensTaken(decode: string -> Option<LatLon>, s: string, i: nat, e: nat)
    requires i < |s| && TokenEnd(s, i) == Some(e)
    requires decode(s[i..e]).Some? && AllDecode(decode, TokensFrom(s, e))
    ensures AllDecode(decode, TokensFrom(s, i))
  {
    AllDecodeAppend(decode, [s[i..e]], TokensFrom(s, e));
  }

  /** A position where no token starts adds nothing. */
  lemma TokensSkipped(decode: string -> Option<LatLon>, s: string, i: nat)
    requires i < |s| && TokenEnd(s, i).None? && AllDecode(decode, TokensFrom(s, i + 1))
    ensures AllDecode(decode, TokensFrom(s, i))
  {
  }

  predicate AllDecode(decode: string -> Option<LatLon>, cs: seq<string>) {
    forall q :: 0 <= q < |cs| ==> decode(cs[q]).Some?
  }

  lemma AllDecodeAppend(decode: string -> Option<LatLon>, a: seq<string>, b: seq<string>)
    requires AllDecode(decode, a) && AllDecode(decode, b)
    ensures AllDecode(decode, a + b)
  {
    forall q | 0 <= q < |a + b| ensures decode((a + b)[q]).Some? {
      if q < |a| { assert (a + b)[q] == a[q]; } else { assert (a + b)[q] == b[q - |a|]; }
    }
  }

  lemma {:induction false} RouteTokensDecode(lines: seq<string>)
    ensures AllDecode(PointOf, RouteTokens(lines))
  {
    if lines != [] {
      RouteTokensDecode(lines[..|lines| - 1]);
      TokensFromDecode(lines[|lines| - 1], 0);
      AllDecodeAppend(PointOf, RouteTokens(lines[..|lines| - 1]), Tokens(lines[|lines| - 1]));
    }
  }

  /** When `decode` accepts every token, the points are the tokens decoded, one
      each, in order. */
  lemma {:induction false} PointsOfDecodingTokens(decode: string -> Option<LatLon>, cs: seq<string>)
    requires AllDecode(decode, cs)
    ensures |PointsOfTokens(decode, cs)| == |cs|
    ensures forall q :: 0 <= q < |cs| ==> Some(PointsOfTokens(decode, cs)[q]) == decode(cs[q])
  {
    if cs != [] {
      var init := cs[..|cs| - 1];
      assert AllDecode(decode, init) by {
        forall q | 0 <= q < |init| ensures decode(init[q]).Some? {
          assert init[q] == cs[q];
        }
      }
      PointsOfDecodingTokens(decode, init);
    }
  }

  /** The route is every token of the `-M` lines of SHR, decoded, line by line
      and left to right; the `if pt:` filter never drops one. */
  lemma RouteIsDecodedTokens(shr: string)
    ensures var cs := RouteTokens(RouteLines(shr));
            |RoutePointsOf(shr)| == |cs|
            && forall q :: 0 <= q < |cs| ==> Some(RoutePointsOf(shr)[q]) == ParseLatLon(Some(cs[q]))
  {
    RouteTokensDecode(RouteLines(shr));
    PointsOfDecodingTokens(PointOf, RouteTokens(RouteLines(shr)));
  }

  /** Every recorded token has the telegram shape. */
  lemma {:induction false} TokensFromShape(s: string, i: nat)
    requires i <= |s|
    ensures forall q :: 0 <= q < |TokensFrom(s, i)| ==> TokenShaped(TokensFrom(s, i)[q])
    decreases |s| - i
  {
    if i < |s| {
      match TokenEnd(s, i)
      case Some(e) =>
        TokensFromShape(s, e);
        TokenEndShaped(s, i);
      case None =>
        TokensFromShape(s, i + 1);
    }
  }

  /** The whole text is one token: `\d{4,6}[NSСЮ]\d{5,7}[EWВЗ]`. */
  ghost predicate TokenShaped(t: string) {
    exists m: nat, n: nat :: TokenAt(t, 0, m, n) && |t| == m + n + 2
  }

  lemma TokenEndShaped(s: string, k: nat)
    requires k <= |s| && TokenEnd(s, k).Some?
    ensures TokenShaped(s[k..TokenEnd(s, k).value])
  {
    TokenEndMeaning(s, k);
    var m, n :| TokenAt(s, k, m, n) && TokenEnd(s, k) == Some(k + m + n + 2);
    var t := s[k..k + m + n + 2];
    assert forall q :: 0 <= q < |t| ==> t[q] == s[k + q];
    assert TokenAt(t, 0, m, n);
  }

  // ---------------------------------------------------------------------------
  // Timestamps (`pd.to_datetime(..., format="%y%m%d%H%M", errors="coerce")`)

  /** A minute-precision timestamp, or pandas' not-a-time. */
  datatype Timestamp = Stamp(year: int, month: int, day: int, hour: int, minute: int) | NaT

  predicate IsLeap(y: int) {
    y % 4 == 0 && (y % 100 != 0 || y % 400 == 0)
  }

  function DaysInMonth(y: int, m: int): (n: int)
    requires 1 <= m <= 12
    ensures 28 <= n <= 31
  {
    if m == 2 then (if IsLeap(y) then 29 else 28)
    else if m == 4 || m == 6 || m == 9 || m == 11 then 30
    else 31
  }

  predicate ValidStamp(t: Timestamp) {
    t.Stamp? && 1 <= t.month <= 12 && 1 <= t.day <= DaysInMonth(t.year, t.month)
    && 0 <= t.hour <= 23 && 0 <= t.minute <= 59
  }

  /** `%y`: 69..99 are 1969..1999, 00..68 are 2000..2068. */
  function CenturyYear(yy: nat): (y: int)
    requires yy < 100
    ensures 1969 <= y <= 2068 && y % 100 == yy
  {
    if yy <= 68 then 2000 + yy else 1900 + yy
  }

  /** The two-digit field at `i`. */
  function Field(t: string, i: nat): (v: nat)
    requires i + 2 <= |t| && IsDigit(t[i]) && IsDigit(t[i + 1])
    ensures v < 100
  {
    DigitValue(t[i]) * 10 + DigitValue(t[i + 1])
  }

  /** `yymmddHHMM` read as five two-digit fields; an impossible date or time is NaT. */
  function ParseStamp(t: string): (r: Timestamp)
    ensures r.Stamp? ==> ValidStamp(r) && 1969 <= r.year <= 2068
  {
    if |t| != 10 || !AllDigits(t) then NaT
    else
      var st := Stamp(CenturyYear(Field(t, 0)), Field(t, 2), Field(t, 4), Field(t, 6), Field(t, 8));
      if ValidStamp(st) then st else NaT
  }

  /** `DefaultMapper._make_timestamp`: a timestamp only when both parts are
      present and non-empty. */
  function MakeTimestamp(yymmdd: Option<string>, hhmm: Option<string>): Option<Timestamp> {
    if yymmdd.Some? && hhmm.Some? && yymmdd.value != "" && hhmm.value != ""
    then Some(ParseStamp(yymmdd.value + hhmm.value))
    else None
  }

  /** The ten digits of a timestamp. */
  function StampDigits(t: Timestamp): string
    requires ValidStamp(t) && 1969 <= t.year <= 2068
  {
    TwoDigits(t.year % 100) + TwoDigits(t.month) + TwoDigits(t.day)
      + TwoDigits(t.hour) + TwoDigits(t.minute)
  }

  /** Every valid timestamp of the `%y` range is read back from its digits. */
  lemma ParseStampRoundTrip(t: Timestamp)
    requires ValidStamp(t) && 1969 <= t.year <= 2068
    ensures ParseStamp(StampDigits(t)) == t
  {
    var a, b, c := TwoDigits(t.year % 100), TwoDigits(t.month), TwoDigits(t.day);
    var d, e := TwoDigits(t.hour), TwoDigits(t.minute);
    var s := StampDigits(t);
    assert s == a + b + c + d + e;
    FieldOfTwoDigits(s, 0, t.year % 100);
    FieldOfTwoDigits(s, 2, t.month);
    FieldOfTwoDigits(s, 4, t.day);
    FieldOfTwoDigits(s, 6, t.hour);
    FieldOfTwoDigits(s, 8, t.minute);
    assert AllDigits(s) by {
      forall q | 0 <= q < |s| ensures IsDigit(s[q]) {
        if q < 2 { assert s[q] == a[q]; }
        else if q < 4 { assert s[q] == b[q - 2]; }
        else if q < 6 { assert s[q] == c[q - 4]; }
        else if q < 8 { assert s[q] == d[q - 6]; }
        else { assert s[q] == e[q - 8]; }
      }
    }
    CenturyYearOf(t.year);
    ParseStampFields(s, t);
  }

  /** The fields of a ten-digit text that are those of a valid stamp give that stamp. */
  lemma ParseStampFields(s: string, t: Timestamp)
    requires ValidStamp(t) && |s| == 10 && AllDigits(s) && t.year % 100 < 100
    requires CenturyYear(Field(s, 0)) == t.year && Field(s, 2) == t.month && Field(s, 4) == t.day
    requires Field(s, 6) == t.hour && Field(s, 8) == t.minute
    ensures ParseStamp(s) == t
  {
  }

  /** `%y` reads the last two digits of a year in its range back as that year. */
  lemma CenturyYearOf(y: int)
    requires 1969 <= y <= 2068
    ensures CenturyYear(y % 100) == y
  {
    if y < 2000 {
      assert y % 100 == y - 1900;
    } else {
      assert y % 100 == y - 2000;
    }
  }

  /** The field at `i` of a text holding the two digits of `v` there is `v`. */
  lemma FieldOfTwoDigits(s: string, i: nat, v: nat)
    requires v < 100 && i + 2 <= |s| && s[i..i + 2] == TwoDigits(v)
    ensures IsDigit(s[i]) && IsDigit(s[i + 1]) && Field(s, i) == v
  {
    assert s[i] == TwoDigits(v)[0] && s[i + 1] == TwoDigits(v)[1];
  }

  /** An impossible date is coerced to NaT rather than raising. */
  lemma ThirteenthMonthIsNaT()
    ensures ParseStamp("2413010000") == NaT
  {
  }

  /** Days from 1969-01-01 to the first day of year `y`, as a closed form. */
  function DaysBeforeYear(y: int): int {
    365 * (y - 1969) + (y - 1) / 4 - 492
  }

  function YearLength(y: int): int {
    if IsLeap(y) then 366 else 365
  }

  /** The same count, year by year. */
  function CountDaysBeforeYear(y: int): int
    decreases y - 1969
  {
    if y <= 1969 then 0 else CountDaysBeforeYear(y - 1) + YearLength(y - 1)
  }

  /** The closed form counts leap years correctly from 1969 up to 2100. */
  lemma {:induction false} DaysBeforeYearCounts(y: int)
    requires 1969 <= y <= 2100
    ensures DaysBeforeYear(y) == CountDaysBeforeYear(y)
    decreases y - 1969
  {
    if y > 1969 {
      DaysBeforeYearCounts(y - 1);
      LeapInRange(y - 1);
      assert (y - 1) / 4 - (y - 2) / 4 == (if (y - 1) % 4 == 0 then 1 else 0);
    }
  }

  lemma LeapInRange(y: int)
    requires 1969 <= y < 2100
    ensures IsLeap(y) <==> y % 4 == 0
  {
    if y % 4 == 0 && y % 100 == 0 {
      assert y == 2000;
    }
  }

  function DaysBeforeMonth(y: int, m: int): int
    requires 1 <= m <= 12
  {
    if m == 1 then 0 else DaysBeforeMonth(y, m - 1) + DaysInMonth(y, m - 1)
  }

  /** Days since 1969-01-01. */
  function DayNumber(t: Timestamp): int
    requires ValidStamp(t)
  {
    DaysBeforeYear(t.year) + DaysBeforeMonth(t.year, t.month) + (t.day - 1)
  }

  /** `Timestamp.weekday()`: Monday is 0; 1969-01-01 was a Wednesday. */
  function Weekday(t: Timestamp): (w: int)
    requires ValidStamp(t)
    ensures 0 <= w < 7
  {
    (DayNumber(t) + 2) % 7
  }

  /** New Year's Day follows the last day of December: the day numbers are
      one calendar. */
  lemma NewYearFollowsDecember(y: int, h: int, mi: int)
    requires 1969 <= y < 2100 && 0 <= h <= 23 && 0 <= mi <= 59
    ensures DayNumber(Stamp(y + 1, 1, 1, h, mi)) == DayNumber(Stamp(y, 12, 31, h, mi)) + 1
  {
    DaysBeforeYearCounts(y);
    DaysBeforeYearCounts(y + 1);
    DaysBeforeDecember(y);
  }

  lemma DaysBeforeDecember(y: int)
    ensures DaysBeforeMonth(y, 12) == 334 + (if IsLeap(y) then 1 else 0)
  {
    var feb := DaysInMonth(y, 2);
    assert DaysBeforeMonth(y, 2) == 31;
    assert DaysBeforeMonth(y, 3) == 31 + feb;
    assert DaysBeforeMonth(y, 4) == 62 + feb;
    assert DaysBeforeMonth(y, 5) == 92 + feb;
    assert DaysBeforeMonth(y, 6) == 123 + feb;
    assert DaysBeforeMonth(y, 7) == 153 + feb;
    assert DaysBeforeMonth(y, 8) == 184 + feb;
    assert DaysBeforeMonth(y, 9) == 215 + feb;
    assert DaysBeforeMonth(y, 10) == 245 + feb;
    assert DaysBeforeMonth(y, 11) == 276 + feb;
    assert DaysBeforeMonth(y, 12) == 306 + feb;
  }

  /** The next day of the same month has the next day number and weekday. */
  lemma NextDayNextWeekday(t: Timestamp)
    requires ValidStamp(t) && t.day < DaysInMonth(t.year, t.month)
    ensures var u := t.(day := t.day + 1);
            ValidStamp(u) && DayNumber(u) == DayNumber(t) + 1 && Weekday(u) == (Weekday(t) + 1) % 7
  {
  }

  lemma SaturdayExample()
    ensures Weekday(Stamp(2024, 1, 6, 12, 0)) == 5
  {
    assert DaysBeforeMonth(2024, 1) == 0;
  }

  /** Minutes since 1969-01-01 00:00. */
  function MinuteNumber(t: Timestamp): int
    requires ValidStamp(t)
  {
    DayNumber(t) * 1440 + t.hour * 60 + t.minute
  }

  /** A `timedelta` in minutes, or pandas' NaT difference. */
  datatype Delta = Minutes(minutes: int) | NaTDelta

  /** `arr_time - dep_time`, with NaT on either side giving NaT. */
  function Difference(arr: Timestamp, dep: Timestamp): Delta {
    if ValidStamp(arr) && ValidStamp(dep) then Minutes(MinuteNumber(arr) - MinuteNumber(dep))
    else NaTDelta
  }

  /** The duration exists only when both times do. */
  function DurationOf(dep: Option<Timestamp>, arr: Option<Timestamp>): Option<Delta> {
    if dep.Some? && arr.Some? then Some(Difference(arr.value, dep.value)) else None
  }

  /** `dep_time and dep_time.weekday() >= 5`: `None` without a departure; NaT is
      truthy but its weekday is NaN, so the comparison is false. */
  function IsWeekendOf(dep: Option<Timestamp>): Option<bool> {
    match dep
    case None => None
    case Some(t) => if ValidStamp(t) then Some(Weekday(t) >= 5) else Some(false)
  }

  // ---------------------------------------------------------------------------
  // The flight record

  function DepTimeOf(dep: Cell): Option<Timestamp> {
    MakeTimestamp(Extract(dep, DatePattern), Extract(dep, DepTimePattern))
  }

  /** The arrival time reuses the date from DEP. */
  function ArrTimeOf(dep: Cell, arr: Cell): Option<Timestamp> {
    MakeTimestamp(Extract(dep, DatePattern), Extract(arr, ArrTimePattern))
  }

  /** Minutes since midnight. */
  function ClockMinutes(t: Timestamp): int
    requires t.Stamp?
  {
    t.hour * 60 + t.minute
  }

  /** Two timestamps on one calendar date. */
  predicate SameDate(a: Timestamp, d: Timestamp) {
    a.Stamp? && d.Stamp? && a.year == d.year && a.month == d.month && a.day == d.day
  }

  /** Both times parse the same date digits, so two timestamps share their date. */
  lemma SameDateTimes(dep: Cell, arr: Cell)
    requires DepTimeOf(dep).Some? && ArrTimeOf(dep, arr).Some?
    requires DepTimeOf(dep).value.Stamp? && ArrTimeOf(dep, arr).value.Stamp?
    ensures SameDate(ArrTimeOf(dep, arr).value, DepTimeOf(dep).value)
  {
    SpacedWidth("-ADD", 6, CellText(dep));
    SharedDateCaptures(Extract(dep, DatePattern), Extract(dep, DepTimePattern), Extract(arr, ArrTimePattern));
  }

  /** The same, for any six date digits and two clock captures. */
  lemma SharedDateCaptures(date: Option<string>, x: Option<string>, y: Option<string>)
    requires date.Some? && |date.value| == 6
    requires MakeTimestamp(date, x).Some? && MakeTimestamp(date, y).Some?
    requires MakeTimestamp(date, x).value.Stamp? && MakeTimestamp(date, y).value.Stamp?
    ensures SameDate(MakeTimestamp(date, y).value, MakeTimestamp(date, x).value)
  {
    SharedDate(date.value, x.value, y.value);
  }

  /** Two times of one date: the duration is the difference of the clock times,
      less than a day either way and never clamped. */
  lemma SameDayDuration(d: Option<Timestamp>, a: Option<Timestamp>)
    requires d.Some? && a.Some? && ValidStamp(d.value) && ValidStamp(a.value) && SameDate(a.value, d.value)
    ensures DurationOf(d, a) == Some(Minutes(ClockMinutes(a.value) - ClockMinutes(d.value)))
    ensures -1440 < ClockMinutes(a.value) - ClockMinutes(d.value) < 1440
  {
    SameDayDifference(a.value, d.value);
  }

  /** A fixed-width capture has that width. */
  lemma SpacedWidth(marker: string, n: nat, s: string)
    requires Search(Spaced(marker, Some(n)), s).Some?
    ensures |Search(Spaced(marker, Some(n)), s).value| == n
  {
    var j := FirstMatchFrom(Spaced(marker, Some(n)), s, 0);
    assert Search(Spaced(marker, Some(n)), s) == SpacedDigits(s, j + |marker|, Some(n));
  }

  /** Two stamps read from the same date digits fall on the same date. */
  lemma SharedDate(date: string, x: string, y: string)
    requires |date| == 6
    requires ParseStamp(date + x).Stamp? && ParseStamp(date + y).Stamp?
    ensures SameDate(ParseStamp(date + y), ParseStamp(date + x))
  {
    var ds, da := date + x, date + y;
    assert ds[..6] == da[..6];
    assert ds[0] == da[0] && ds[1] == da[1] && ds[2] == da[2] && ds[3] == da[3];
    assert ds[4] == da[4] && ds[5] == da[5];
  }

  /** On one date the difference is that of the clock times, less than a day. */
  lemma SameDayDifference(a: Timestamp, d: Timestamp)
    requires ValidStamp(a) && ValidStamp(d) && SameDate(a, d)
    ensures Difference(a, d) == Minutes(ClockMinutes(a) - ClockMinutes(d))
    ensures -1440 < ClockMinutes(a) - ClockMinutes(d) < 1440
  {
    assert DayNumber(a) == DayNumber(d);
  }

  lemma EarlierLandingClockGivesNegativeDuration()
    ensures Difference(Stamp(2024, 1, 6, 8, 0), Stamp(2024, 1, 6, 23, 30)) == Minutes(-930)
  {
  }

  /** Why `map_row` cannot produce a flight: `re.findall` on an SHR cell that is not a string. */
  datatype MapError = TypeError

  /** The flight record (`Flight`); `is_holiday` is not part of this model. */
  datatype Flight = Flight(
    flightId: string,
    uavType: string,
    takeoff: Option<LatLon>,
    landing: Option<LatLon>,
    depTime: Option<Timestamp>,
    arrTime: Option<Timestamp>,
    duration: Option<Delta>,
    city: Cell,
    routePoints: Option<seq<LatLon>>,
    isWeekend: Option<bool>,
    raw: Row)

  const CityColumn: string := "Центр ЕС ОрВД"

  /** What `DefaultMapper.map_row` returns or raises for a row. */
  function FlightOf(row: Row): Result<Flight, MapError> {
    var city := RowGet(row, CityColumn, Text(""));
    var shr := RowGet(row, "SHR", Text(""));
    var dep := RowGet(row, "DEP", Text(""));
    var arr := RowGet(row, "ARR", Text(""));
    if !shr.Text? then Failure(TypeError)
    else
      var depTime := DepTimeOf(dep);
      var arrTime := ArrTimeOf(dep, arr);
      Success(Flight(FlightIdOf(dep), UavTypeOf(shr), TakeoffOf(dep), LandingOf(arr),
                     depTime, arrTime, DurationOf(depTime, arrTime), city,
                     NonEmptyOrNone(RoutePointsOf(shr.s)), IsWeekendOf(depTime), row))
  }

  /** `DefaultMapper.map_row`. */
  method MapRow(row: Row) returns (r: Result<Flight, MapError>)
    ensures r == FlightOf(row)
  {
    var city := RowGet(row, CityColumn, Text(""));
    var shr := RowGet(row, "SHR", Text(""));
    var dep := RowGet(row, "DEP", Text(""));
    var arr := RowGet(row, "ARR", Text(""));
    var sid := FlightIdOf(dep);
    var uavType := UavTypeOf(shr);
    if !shr.Text? {
      return Failure(TypeError);
    }
    var points := CollectPoints(RouteLines(shr.s), PointOf);
    var takeoff := TakeoffOf(dep);
    var landing := LandingOf(arr);
    var depTime := DepTimeOf(dep);
    var arrTime := ArrTimeOf(dep, arr);
    var duration: Option<Delta> := None;
    if depTime.Some? && arrTime.Some? {
      duration := Some(Difference(arrTime.value, depTime.value));
    }
    r := Success(Flight(sid, uavType, takeoff, landing, depTime, arrTime, duration, city,
                        NonEmptyOrNone(points), IsWeekendOf(depTime), row));
  }

  /** A row fails exactly when its SHR cell is present but not a string. */
  lemma MapRowFails(row: Row)
    ensures FlightOf(row).Failure? <==> !RowGet(row, "SHR", Text("")).Text?
  {
  }

  /** The city is the air traffic centre column, "" when absent, and the raw
      record is the row itself. */
  lemma CityAndRaw(row: Row)
    requires FlightOf(row).Success?
    ensures FlightOf(row).value.city == RowGet(row, CityColumn, Text(""))
    ensures (forall q :: 0 <= q < |row| ==> row[q].0 != CityColumn) ==> FlightOf(row).value.city == Text("")
    ensures FlightOf(row).value.raw == row
  {
    RowGetMeaning(row, CityColumn, Text(""));
  }

  /** The timestamps exist exactly when the DEP date and the matching clock time
      are both found, the duration exactly when both timestamps exist, and the
      weekend flag exactly when the departure does. */
  lemma FlightTimes(row: Row)
    requires FlightOf(row).Success?
    ensures var f, dep, arr := FlightOf(row).value, RowGet(row, "DEP", Text("")), RowGet(row, "ARR", Text(""));
            && (f.depTime.Some? <==> Extract(dep, DatePattern).Some? && Extract(dep, DepTimePattern).Some?)
            && (f.arrTime.Some? <==> Extract(dep, DatePattern).Some? && Extract(arr, ArrTimePattern).Some?)
            && (f.duration.Some? <==> f.depTime.Some? && f.arrTime.Some?)
            && (f.isWeekend.Some? <==> f.depTime.Some?)
            && (f.isWeekend == Some(true) <==> f.depTime.Some? && ValidStamp(f.depTime.value) && Weekday(f.depTime.value) >= 5)
  {
    var dep, arr := RowGet(row, "DEP", Text("")), RowGet(row, "ARR", Text(""));
    NonEmptyCapture(CellText(dep), DatePattern);
    NonEmptyCapture(CellText(dep), DepTimePattern);
    NonEmptyCapture(CellText(arr), ArrTimePattern);
  }

  /** Each digit pattern captures a non-empty text, so `if yymmdd and hhmm` only
      tests presence. */
  lemma NonEmptyCapture(s: string, p: Pattern)
    requires p == DatePattern || p == DepTimePattern || p == ArrTimePattern
    ensures Search(p, s).Some? ==> Search(p, s).value != ""
  {
    var j := FirstMatchFrom(p, s, 0);
    if j <= |s| {
      assert HasAt(s, j, p.marker);
    }
  }

  /** The route is `None` exactly when no `-M` line of SHR holds a token; otherwise
      it is every such token, decoded, in order. */
  lemma FlightRoute(row: Row)
    requires FlightOf(row).Success?
    ensures var f, shr := FlightOf(row).value, RowGet(row, "SHR", Text("")).s;
            var cs := RouteTokens(RouteLines(shr));
            && (f.routePoints.None? <==> cs == [])
            && (f.routePoints.Some? ==>
                  |f.routePoints.value| == |cs|
                  && forall q :: 0 <= q < |cs| ==> Some(f.routePoints.value[q]) == ParseLatLon(Some(cs[q])))
  {
    RouteIsDecodedTokens(RowGet(row, "SHR", Text("")).s);
  }
}
