# UAV flight-telegram ingestion: a Dafny model

This project models the data-derivation core of a system that ingests
air-traffic telegrams about unmanned aircraft flights, assigns them to
administrative regions, and serves the results to a web client. It proves
properties of that model. The modelled parts are:

- **Coordinate decoder** (`Geocoder`, geocoder.dfy). It turns a telegram
  token such as `5506N03730E`, or `5506С03730В` with Cyrillic hemisphere
  letters, into a signed (latitude, longitude) pair. Python floats are exact
  reals here.
- **Flight row mapper** (`FlightMapper`, flight_mapper.dfy). From one
  spreadsheet row it extracts the flight id, the aircraft type, the route
  points from the `-M` lines of the SHR block, the takeoff and landing points,
  the departure and arrival timestamps, the duration, and the weekend flag. The
  regular expressions are written as scanners over strings.
- **Operator classifier** (`PartyClassifier`, party_classifier.dfy, on top of
  a small regular-expression model `Regex`, regex.dfy). It normalises the
  operator text and runs the six-tier first-match cascade. `PartyExamples`
  (party_examples.dfy) works the cascade through on five operator names.
- **Region loading** (`RegionService`, region_service.dfy). This covers
  shapefile name-field detection, safe name lookup, cutting a shape into
  rings, grouping rings by region name, and the upsert of each region into
  the `regions` table (a `RegionTable` object).
- **Region migration** (`ShapemapMigration`, shapemap_migration.dfy). Its
  grouping helpers are the service's, so the `RegionService` members model
  them for both files. This module holds what differs:
  - the sibling-file URLs;
  - the bulk insert without upsert;
  - a `geopolygon_str` made of every point of the region.
- **Region trigger** (`RegionTrigger`, region_trigger.dfy). The row trigger
  `uav_flights_before_insert_update` is a `FlightRow` object whose fields are
  assigned step by step.
- **Web-client helpers** (`AuthProfile`, auth_profile.dfy; `ClassNames`,
  class_names.dfy). These are group normalisation, initials, the profile
  built from the identity provider's answer, the group check, and
  `classNames`.
- **Dashboard embedding** (`DashboardService`, dashboard_service.dfy). This
  is the embed-token payload and the embed URL.

`Chars` (chars.dfy) holds the character classes and the string operations of
Python's `str` and JavaScript's `String` that the code uses. `Wrappers`
(wrappers.dfy) holds `Option` (`None`/`null`) and `Result` (a raised
exception).

Foreign calls are parameters of the model:
- the polygon area, region containment (`ST_Contains`) and `jwt.encode`;
- the clock, passed as `now`;
- whether saving a region raises, passed as `raises`.

Two results of the code may surprise a reader, and the model keeps both:
- Read as degrees, minutes and seconds, the latitude `550630` would be
  55°06′30″, and `550630N0373030E` would be about (55.1083, 37.5083). The
  pattern `^(\d+)(\d{2}(?:\.\d+)?)$` is greedy, though, and leaves only two
  digits to the minutes. So the code reads `550630` as 5506 degrees and 30
  minutes, that is 5506.5 (`Geocoder.SixDigitLatitudeIsGreedy`).
- An operator named "Ассоциация пилотов" would be expected to come out as
  `likely_legal_entity` with 0.6. In the code it is `unknown` with 0.3
  (`PartyExamples.AssociationIsUnknown`), for two reasons:
  - the Russian marker is spelt `АСОЦИАЦИЯ`, with one С (party_classifier.py
    line 7), so the name holds no marker;
  - the keyword list (lines 26-45) has only the English `association`.

## Model

| member | source | states |
|---|---|---|
| Geocoder.ParseLatLon | src/services/parse_service/geocoder.py:11-13 | A missing token decodes to `None`. |
| Geocoder.NoHemisphereNoResult | src/services/parse_service/geocoder.py:23-26 | If the normalised text has no N/S letter or no E/W letter, the result is `None`. |
| Geocoder.LongitudeBeforeLatitudeNoResult | src/services/parse_service/geocoder.py:29-34 | If the first E/W letter comes before the first N/S letter, the longitude text is empty and the result is `None`. |
| Geocoder.AssembleSome | src/services/parse_service/geocoder.py:31-43 | A result exists only when both parts are non-empty and both parse; it is then the two part values, each signed by its hemisphere (no partial results). |
| Geocoder.AssembleParts | src/services/parse_service/geocoder.py:31-43 | Conversely, two non-empty parts that parse give the pair of their signed values. |
| Geocoder.DecodeLatitude | src/services/parse_service/geocoder.py:23-41 | The latitude is the parse of the stripped text before the first N/S letter, negated exactly for S. |
| Geocoder.DecodeLongitude | src/services/parse_service/geocoder.py:23-43 | The longitude is the parse of the stripped text between the first N/S and the first E/W letter, negated exactly for W. |
| Geocoder.SignFollowsHemisphere | src/services/parse_service/geocoder.py:40-43 | A negative latitude means S, and S means a latitude of at most 0; the same holds for longitude and W. |
| Geocoder.CyrillicLikeLatin | src/services/parse_service/geocoder.py:14-21 | Any text decodes exactly like the same text with С/Ю/В/З replaced by N/S/E/W. |
| Geocoder.NormalizeLatinized | src/services/parse_service/geocoder.py:14-21 | Normalisation gives the same text whether or not the Cyrillic hemisphere letters were mapped first. |
| Geocoder.TokenNormalize | src/services/parse_service/geocoder.py:14-21 | On a text of digits and hemisphere letters, normalisation only maps the Cyrillic letters to Latin ones. |
| Geocoder.CleanTokenChars | src/services/parse_service/geocoder.py:14-15 | Removing degree and quote marks, turning commas into spaces and halving double spaces leave a token's characters unchanged. |
| Geocoder.HalveAbsent | src/services/parse_service/geocoder.py:15 | `replace("  ", " ")` leaves a text without spaces unchanged. |
| Geocoder.LatinizeLetters | src/services/parse_service/geocoder.py:16-21 | Each Cyrillic or Latin latitude letter maps to N or S, and it maps to S exactly for S and Ю; likewise E/W, with W exactly for W and З. Digits and Latin letters are unchanged. |
| Geocoder.ParsePart | src/services/parse_service/geocoder.py:46-54 | An accepted part has a non-negative value. |
| Geocoder.MatchDigits | src/services/parse_service/geocoder.py:48-54 | Three or more digits, with an optional fraction, match; the value is the number of all but the last two integer digits plus the last two digits with the fraction, divided by 60. |
| Geocoder.ParsePartRoundTrip | src/services/parse_service/geocoder.py:46-54 | The text of degrees `deg`, two-digit minutes `mm` and fraction `frac` parses back to `deg + mm.frac / 60`. |
| Geocoder.FormatPartMatches | src/services/parse_service/geocoder.py:48-54 | Such a text has no space and no final newline, and the anchored match accepts it with the same value. |
| Geocoder.FourDigitLatitude | src/services/parse_service/geocoder.py:48-54 | `"5506"` parses to 55.1. |
| Geocoder.SixDigitLatitudeIsGreedy | src/services/parse_service/geocoder.py:48-54 | `"550630"` parses to 5506.5 and not to 55°06′30″. |
| Geocoder.DigitsAccepted | src/services/parse_service/geocoder.py:48-50 | Every string of at least three digits parses. |
| Geocoder.TokenRoundTrip | src/services/parse_service/geocoder.py:11-54 | A token formatted from degrees, minutes and hemispheres decodes to the signed degrees plus minutes/60 on each side. |
| Geocoder.TokenDecodes | src/services/parse_service/geocoder.py:11-44 | Digit parts with accepted values, joined with Latin hemisphere letters, decode to the pair of their values signed by S and W. |
| Geocoder.TelegramTokenDecodes | src/services/parse_service/geocoder.py:11-54 | A token of at least three digits, any latitude letter, at least three digits and any longitude letter always decodes, with S/Ю and W/З negating. |
| Geocoder.DecodeToken | src/services/parse_service/geocoder.py:23-39 | On such a token the search splits exactly at the two letters, and the parts are the digit runs. |
| FlightMapper.MapRow | src/services/parse_service/mapper.py:19-72 | `map_row` with its route loop computes exactly the flight `FlightOf` describes, or the error. |
| FlightMapper.MapRowFails | src/services/parse_service/mapper.py:21-28 | A row fails (with `TypeError` from `re.findall`) exactly when its SHR cell is present but not a string. |
| FlightMapper.RowGetMeaning | src/services/parse_service/mapper.py:20-23 | `row.get(key, default)` is the default when no column has the key; otherwise it is the first such column's cell. |
| FlightMapper.CityAndRaw | src/services/parse_service/mapper.py:20-71 | The city is the "Центр ЕС ОрВД" cell, or "" when that column is absent; the raw record is the row. |
| FlightMapper.SearchLeftmost | src/services/parse_service/mapper.py:74-77 | `_extract` finds nothing exactly when the pattern matches at no position; otherwise it returns the capture at the leftmost matching position. |
| FlightMapper.FlightIdDefault | src/services/parse_service/mapper.py:25 | The flight id is "" without `-SID <digits>` in DEP; otherwise it is those digits. |
| FlightMapper.UavTypeDefault | src/services/parse_service/mapper.py:26 | The type is "UNKNOWN" without `TYP/<code>` in SHR; otherwise it is the non-empty code of capitals and digits. |
| FlightMapper.RouteLines | src/services/parse_service/mapper.py:28 | The route lines are exactly the lines of SHR that start with `-M`. |
| FlightMapper.LinesWithPrefixAppend | src/services/parse_service/mapper.py:28 | The filter distributes over joining lists, so the kept lines stay in their order, with repeats kept. |
| FlightMapper.TokenEndMeaning | src/services/parse_service/mapper.py:31 | The scanner finds a token at a position exactly when 4–6 digits, a latitude letter, 5–7 digits and a longitude letter start there; it ends after them. |
| FlightMapper.FirstTokenFromLeast | src/services/parse_service/mapper.py:31 | `findall` takes the leftmost token: no token starts before the one found. |
| FlightMapper.TokensFromShape | src/services/parse_service/mapper.py:31 | Every token found has the token shape. |
| FlightMapper.RouteTokensDecode | src/services/parse_service/mapper.py:31-35 | Every route token decodes, so `if pt` never drops a point. |
| FlightMapper.CollectPoints | src/services/parse_service/mapper.py:29-35 | The nested loop appends the decoded tokens of the lines, line by line and left to right. |
| FlightMapper.PointsOfDecodingTokens | src/services/parse_service/mapper.py:32-35 | When every token decodes, there is one point per token, in order, and each is that token's decoding. |
| FlightMapper.RouteIsDecodedTokens | src/services/parse_service/mapper.py:28-35 | The route points are the decodings of all `-M`-line tokens, in order. |
| FlightMapper.NonEmptyOrNone | src/services/parse_service/mapper.py:67 | `route_points or None` is `None` exactly for the empty list, and the list itself otherwise. |
| FlightMapper.FlightRoute | src/services/parse_service/mapper.py:28-67 | A flight's route is `None` exactly when no `-M` line holds a token; otherwise it is every token, decoded, in order. |
| FlightMapper.TakeoffPoint | src/services/parse_service/mapper.py:37-40 | The takeoff point exists exactly when a token follows `-ADEPZ` in DEP; there is none without the marker. |
| FlightMapper.LandingPoint | src/services/parse_service/mapper.py:41-44 | The landing point exists exactly when a token follows `-ADARRZ` in ARR; there is none without the marker. |
| FlightMapper.TokenCaptureDecodes | src/services/parse_service/mapper.py:37-44 | The token captured after a marker always decodes. |
| FlightMapper.FlightTimes | src/services/parse_service/mapper.py:46-56 | A departure time exists exactly when DEP has both `-ADD` and `-ATD`; an arrival time exactly when DEP has `-ADD` and ARR has `-ATA`; a duration exactly when both times do; a weekend flag exactly when the departure does; the flag is true exactly for a valid departure on Saturday or Sunday. |
| FlightMapper.NonEmptyCapture | src/services/parse_service/mapper.py:80 | The date and time captures are never empty, so `if yymmdd and hhmm` tests only presence. |
| FlightMapper.ParseStamp | src/services/parse_service/mapper.py:81 | Parsing `%y%m%d%H%M` gives a valid date and time with a year in 1969..2068, or NaT (the error is coerced, not raised). |
| FlightMapper.ParseStampRoundTrip | src/services/parse_service/mapper.py:81 | Each valid timestamp in that range parses back from its ten digits. |
| FlightMapper.CenturyYear | src/services/parse_service/mapper.py:81 | A two-digit year `yy` maps to the year of 1969..2068 that ends in `yy`. |
| FlightMapper.ThirteenthMonthIsNaT | src/services/parse_service/mapper.py:81 | `"2413010000"` (month 13) is coerced to NaT. |
| FlightMapper.DaysInMonth | src/services/parse_service/mapper.py:81 | A month has 28 to 31 days. |
| FlightMapper.SameDateTimes | src/services/parse_service/mapper.py:46-50 | The arrival reuses the departure's `-ADD` date: both timestamps have the same year, month and day. |
| FlightMapper.SameDayDuration | src/services/parse_service/mapper.py:52-54 | With both times on one date, the duration is the difference of the clock times in minutes, strictly between -1440 and 1440. |
| FlightMapper.SameDayDifference | src/services/parse_service/mapper.py:54 | On one date, arrival minus departure is the difference of the clock minutes. |
| FlightMapper.EarlierLandingClockGivesNegativeDuration | src/services/parse_service/mapper.py:52-54 | A landing clock before the takeoff clock gives a negative duration (-930 minutes for 23:30 to 08:00); nothing is clamped. |
| FlightMapper.Weekday | src/services/parse_service/mapper.py:56 | The weekday is in 0..6. |
| FlightMapper.NextDayNextWeekday | src/services/parse_service/mapper.py:56 | The next day of a month has the next day number and the next weekday. |
| FlightMapper.NewYearFollowsDecember | src/services/parse_service/mapper.py:56 | 1 January follows 31 December in the day numbering. |
| FlightMapper.DaysBeforeYearCounts | src/services/parse_service/mapper.py:56 | The closed form for the days before a year equals the sum of the year lengths since 1969. |
| FlightMapper.SaturdayExample | src/services/parse_service/mapper.py:56 | 6 January 2024 is a Saturday (weekday 5). |
| Regex.WordBoundedSearch | backend/services/parse_service/party_classifier.py:5-19 | `\b(alternatives)\b` is found exactly when one alternative matches between two word boundaries. |
| Regex.NoWordNoBoundedMatch | backend/services/parse_service/party_classifier.py:5-19 | A text with no word character holds no word-bounded marker. |
| PartyClassifier.NormalizeIsNormal | backend/services/parse_service/party_classifier.py:67-71 | `_normalize` output is trimmed, holds none of «»"'„“”, and every whitespace in it is a single plain space. |
| PartyClassifier.CollapseFromSpaced | backend/services/parse_service/party_classifier.py:70 | After `re.sub(r'\s+', ' ', ...)` no whitespace follows whitespace. |
| PartyClassifier.CollapseFromNoQuotes | backend/services/parse_service/party_classifier.py:69-70 | Collapsing whitespace brings back no quote. |
| PartyClassifier.CollapseFromIdentity | backend/services/parse_service/party_classifier.py:70 | Collapsing leaves single-spaced text unchanged. |
| PartyClassifier.NormalIsFixed | backend/services/parse_service/party_classifier.py:67-71 | A normal text normalises to itself. |
| PartyClassifier.NormalizeIdempotent | backend/services/parse_service/party_classifier.py:67-71 | Normalising twice equals normalising once. |
| PartyClassifier.NormalizeBlank | backend/services/parse_service/party_classifier.py:68-71 | `None` and all-whitespace texts normalise to "". |
| PartyClassifier.TierTests | backend/services/parse_service/party_classifier.py:77-91 | There is one test per tier, and the last (`unknown`) always holds. |
| PartyClassifier.FirstTrue | backend/services/parse_service/party_classifier.py:77-91 | The tier found is the first whose test holds. |
| PartyClassifier.CascadeIsFirstTier | backend/services/parse_service/party_classifier.py:77-91 | The `if` chain returns the category and confidence of the first tier whose test holds. |
| PartyClassifier.ClassifyIsFirstTier | backend/services/parse_service/party_classifier.py:73-91 | `classify` returns the first applicable tier's category and confidence, with the normalised text. |
| PartyClassifier.FirstTierDecides | backend/services/parse_service/party_classifier.py:73-91 | The result carries the normalised text. Its confidence is tier `k`'s exactly when tier `k`'s test holds and every earlier one fails, and then its category is tier `k`'s. |
| PartyClassifier.ConfidenceDecreases | backend/services/parse_service/party_classifier.py:77-91 | Confidence strictly decreases along the tiers: 0.98, 0.95, 0.9, 0.8, 0.6, 0.3. |
| PartyClassifier.LegalMarkerDecides | backend/services/parse_service/party_classifier.py:77-78 | A legal-form marker in the upper-cased text gives `legal_entity` with 0.98, whatever else holds. |
| PartyExamples.RomashkaIsLegal | backend/services/parse_service/party_classifier.py:5-11 | "ООО Ромашка" is a legal entity with 0.98. |
| PartyClassifier.TierDecides | backend/services/parse_service/party_classifier.py:73-91 | When tier `k` decides (its test holds and no earlier one does), `classify` returns tier `k`'s category and confidence with the normalised text. |
| PartyClassifier.IeMarkerTier | backend/services/parse_service/party_classifier.py:77-81 | With no legal-form marker and an entrepreneur marker, tier 1 (`individual_entrepreneur`) decides. |
| PartyClassifier.CyrillicNameTier | backend/services/parse_service/party_classifier.py:77-84 | With no marker of either kind and a Cyrillic name shape, tier 2 (`individual`, 0.9) decides. |
| PartyClassifier.LatinNameTier | backend/services/parse_service/party_classifier.py:77-86 | With no marker, no Cyrillic name shape and a Latin name shape, tier 3 (`individual`, 0.8) decides. |
| PartyClassifier.NoTestHolds | backend/services/parse_service/party_classifier.py:77-91 | With no marker, no name shape and no keyword, the last tier (`unknown`) decides. |
| PartyExamples.AssociationIsUnknown | backend/services/parse_service/party_classifier.py:5-91 | "Ассоциация пилотов" is `unknown` with 0.3 and the text unchanged. |
| PartyExamples.AssociationHasNoMarker | backend/services/parse_service/party_classifier.py:5-19 | The upper-cased "АССОЦИАЦИЯ ПИЛОТОВ" holds no legal-form and no entrepreneur marker. |
| PartyExamples.RuMarkersNotAtAss | backend/services/parse_service/party_classifier.py:5-9 | No Russian legal-form marker can start at `АСС`. |
| PartyExamples.AssociationIsNoName | backend/services/parse_service/party_classifier.py:21-24 | "Ассоциация пилотов" matches none of the four name shapes, since its second word is in lower case. |
| PartyExamples.AssociationHasNoKeyword | backend/services/parse_service/party_classifier.py:26-45 | No organisation keyword occurs in "ассоциация пилотов". |
| PartyExamples.EntrepreneurIsEntrepreneur | backend/services/parse_service/party_classifier.py:73-81 | "ИП Иванов" is `individual_entrepreneur` with 0.95. |
| PartyExamples.EntrepreneurIeFound | backend/services/parse_service/party_classifier.py:19 | The entrepreneur marker `ИП` is found as a whole word in "ИП ИВАНОВ". |
| PartyExamples.FullNameIsIndividual | backend/services/parse_service/party_classifier.py:73-84 | "Иванов Иван Иванович" is `individual` with 0.9. |
| PartyExamples.FullNameMatches | backend/services/parse_service/party_classifier.py:21 | "Иванов Иван Иванович" matches the three-word Cyrillic name shape. |
| PartyExamples.LatinNameIsIndividual | backend/services/parse_service/party_classifier.py:73-86 | "John Smith" is `individual` with 0.8. |
| PartyExamples.LatinNameMatches | backend/services/parse_service/party_classifier.py:24 | "John Smith" matches the Latin name shape. |
| PartyExamples.LatinNameIsNotCyrillic | backend/services/parse_service/party_classifier.py:21-23 | "John Smith" matches no Cyrillic name shape. |
| Regex.NoBoundedMatch | backend/services/parse_service/party_classifier.py:5-19 | A word-bounded alternation of patterns that each begin with a word character is not found when none can start where a word starts. |
| Regex.MatchesViable | backend/services/parse_service/party_classifier.py:5-24 | Every match of a pattern starts where the pattern's first characters fit. |
| Regex.ConcatMatchesAt | backend/services/parse_service/party_classifier.py:21-24 | Pieces matching consecutive stretches of a text match, one after the other, the whole stretch. |
| PartyClassifier.LastTierOnly | backend/services/parse_service/party_classifier.py:91 | When only the last tier applies, the result is `unknown` with 0.3. |
| PartyClassifier.BlankIsUnknown | backend/services/parse_service/party_classifier.py:67-91 | `None`, "" and all-whitespace input are `unknown` with 0.3 and the text "". |
| Regex.ClassHeadNoStart | backend/services/parse_service/party_classifier.py:21-24 | A pattern that begins with a character class does not match from the start of a text whose first character is outside the class, the empty text included. |
| PartyClassifier.NoNameMatchesEmpty | backend/services/parse_service/party_classifier.py:83-86 | No name shape matches the empty text. |
| PartyClassifier.NoMarkerInEmpty | backend/services/parse_service/party_classifier.py:77-81 | No legal or IE marker is found in the empty text. |
| PartyClassifier.NoKeywordInEmpty | backend/services/parse_service/party_classifier.py:88 | No organisation keyword occurs in the empty text. |
| RegionService.AttributeFields | backend/services/region_service.py:20 | `sf.fields[1:]` drops the deletion flag, and gives [] with no fields. |
| RegionService.DetectNameFieldIndexSpec | backend/services/region_service.py:19-25 | With a preferred field, the index is the first one whose upper-cased name is preferred. Otherwise it is 1 with two or more fields, 0 with one, and `None` with none. The migration's copy (alembic/versions/b7f3c9d5a2e1_shapemap.py lines 78-84) is the same. |
| RegionService.PreferredFromLeast | backend/services/region_service.py:22-24 | The search returns the first preferred field and skips only non-preferred ones. |
| RegionService.DeletionFlagOnly | backend/services/region_service.py:20-25 | A file whose only field is the deletion flag has no name field. |
| RegionService.SafeRecordName | backend/services/region_service.py:28-34 | The name is the rendered value at an in-range index holding a value; any other name is "UNKNOWN". The migration's copy (alembic/versions/b7f3c9d5a2e1_shapemap.py lines 87-90) is the same. |
| RegionService.UnknownName | backend/services/region_service.py:28-34 | A missing or out-of-range index, or a `None` value, gives "UNKNOWN". |
| RegionService.ShapeToPolygons | backend/services/region_service.py:37-50 | The loop returns the rings `ShapeRings` describes. |
| RegionService.RingsAreLarge | backend/services/region_service.py:48-49 | Every ring returned has at least 3 points. |
| RegionService.RingsAreTheLargeStretches | backend/services/region_service.py:42-49 | The rings are exactly the stretches `points[bounds[i]:bounds[i+1]]` of at least 3 points. The migration's copy (alembic/versions/b7f3c9d5a2e1_shapemap.py lines 93-105) is the same. |
| RegionService.NoPartsNoRings | backend/services/region_service.py:40-46 | No points, or no part offsets, give no rings. |
| RegionService.RingsCoverPoints | backend/services/region_service.py:42-49 | With well-formed offsets and every stretch large, the rings, in order, are all the points. |
| RegionService.GroupPolygonsByRegion | backend/services/region_service.py:53-68 | A record/shape count mismatch raises before grouping; otherwise the dictionary is the one the per-shape `setdefault(...).extend(...)` builds. The migration's copy (alembic/versions/b7f3c9d5a2e1_shapemap.py lines 61-75) is the same. |
| RegionService.SetDefaultExtend | backend/services/region_service.py:66-67 | `setdefault(name, []).extend(rings)` appends the rings to the name's list, starting an empty list for a new name. |
| RegionService.SetDefaultExtendValid | backend/services/region_service.py:66-67 | It keeps keys unique and in insertion order. |
| RegionService.GroupedStep | backend/services/region_service.py:60-67 | A shape without rings leaves the dictionary as it is; otherwise its rings extend its name's list. |
| RegionService.GroupedCollects | backend/services/region_service.py:60-68 | A name is a key exactly when its shapes gave rings, and its list is their rings in shape order. |
| RegionService.GroupedValid | backend/services/region_service.py:59-68 | The grouped dictionary has each name once. |
| RegionService.GroupedRingsLarge | backend/services/region_service.py:63-74 | Every grouped ring has at least 3 points, so saving keeps all of them. |
| RegionService.ValidRingsMembers | backend/services/region_service.py:74 | The valid rings are the rings with at least 3 points. |
| RegionService.ValidRingsOfLarge | backend/services/region_service.py:74 | Filtering rings that all have 3 points or more changes nothing. |
| RegionService.LargestIsFirstMaximum | backend/services/region_service.py:77 | `max(..., key=area)` picks a ring of maximal area, the first of them on ties. |
| RegionService.Exterior | backend/services/region_service.py:79 | The exterior starts with the ring and is closed on its first point. |
| RegionService.SwapAll | backend/services/region_service.py:79 | Each stored pair is the point with x and y swapped, in order. |
| RegionService.ServiceRow | backend/services/region_service.py:77-95 | The saved row has the region's name, one of its valid rings, and as `geopolygon_str` that ring's closed exterior as [y, x] pairs. |
| RegionService.UpsertedSpec | backend/services/region_service.py:82-97 | After the select-then-update-or-insert the name has a row, every row with the name is the new one, other rows stay in place, and a row is added exactly when the name was missing. |
| RegionService.UpsertIdempotent | backend/services/region_service.py:82-97 | Upserting the same row twice equals upserting it once. |
| RegionService.RegionTable.Upsert | backend/services/region_service.py:82-97 | The table's rows become the upserted rows. |
| RegionService.RegionTable.SaveRegions | backend/services/region_service.py:71-99 | The loop saves the regions in dictionary order: skip without a valid ring, skip one that raises, otherwise upsert. |
| RegionService.SavedStep | backend/services/region_service.py:72-99 | Saving one more region applies that region's save to the table so far. |
| RegionService.SaveOneKeepsOthers | backend/services/region_service.py:74-99 | Saving one region never drops rows and leaves rows of other names unchanged; so does a skipped or raising region. |
| RegionService.SaveOneWrites | backend/services/region_service.py:74-97 | A region with a valid ring that does not raise ends up with exactly its service row. |
| RegionService.SaveOneKeepsName | backend/services/region_service.py:82-97 | Saving another name keeps a name's row as it was. |
| RegionService.SavedKeepsOthers | backend/services/region_service.py:72-99 | After the loop no row is lost, and a row whose region was not written is unchanged. |
| RegionService.SavedWritesEach | backend/services/region_service.py:72-99 | After the loop every region that has a valid ring and does not raise has exactly its service row; an error on one region does not stop the later ones. |
| ShapemapMigration.SiblingUrl | alembic/versions/b7f3c9d5a2e1_shapemap.py:41-42 | The `.shx`/`.dbf` URL is the `.shp` URL without its last 4 characters, plus "." and the extension. |
| ShapemapMigration.SiblingOfShp | alembic/versions/b7f3c9d5a2e1_shapemap.py:41-42 | A `.shp` URL gives the sibling URL with the same stem. |
| ShapemapMigration.AllLatLonIsEveryPoint | alembic/versions/b7f3c9d5a2e1_shapemap.py:121 | `geopolygon_str` lists every point of every ring of the region, in order, as [lat, lon]. |
| ShapemapMigration.MigrationRow | alembic/versions/b7f3c9d5a2e1_shapemap.py:117-129 | The object has the region's name, and its `geopolygon_str` is every point wrapped in one outer list. |
| ShapemapMigration.CollectObjects | alembic/versions/b7f3c9d5a2e1_shapemap.py:111-129 | The loop collects the objects `Objects` describes, or stops at the first region that raises. |
| ShapemapMigration.ObjectsStep | alembic/versions/b7f3c9d5a2e1_shapemap.py:112-129 | One more region is skipped without a valid ring, ends the run if it raises, and otherwise appends its object. |
| ShapemapMigration.FailureStays | alembic/versions/b7f3c9d5a2e1_shapemap.py:108-132 | An exception ends the migration: once failed, it stays failed. |
| ShapemapMigration.ObjectsFailIff | alembic/versions/b7f3c9d5a2e1_shapemap.py:111-129 | It fails exactly when a region with a valid ring raises. |
| ShapemapMigration.ObjectsOnePerRegion | alembic/versions/b7f3c9d5a2e1_shapemap.py:112-129 | A successful run gives one object per region with a valid ring, in dictionary order, each built from that region's rings. |
| ShapemapMigration.WrittenNamesSpec | alembic/versions/b7f3c9d5a2e1_shapemap.py:112-116 | The objects' names are exactly the regions with a valid ring, each once. |
| ShapemapMigration.SaveRegionsBulk | alembic/versions/b7f3c9d5a2e1_shapemap.py:108-132 | On success all objects are appended to the table at once, without any upsert; on an exception nothing is committed. |
| RegionTrigger.PointOf | alembic/versions/3893d4b3641d_add_trigger_regions.py:27-43 | A point exists exactly when both coordinates do; longitude is x, latitude is y, and the SRID is 4326. |
| RegionTrigger.FirstContainingSpec | alembic/versions/3893d4b3641d_add_trigger_regions.py:46-49 | No region is found exactly when none contains the point; otherwise it is the id of a containing region. |
| RegionTrigger.SelectRegion | alembic/versions/3893d4b3641d_add_trigger_regions.py:46-49 | `SELECT id ... LIMIT 1` returns the first containing region in table order, or `NULL`. |
| RegionTrigger.RegionOfSpec | alembic/versions/3893d4b3641d_add_trigger_regions.py:45-61 | A region id exists exactly when the point exists and some region contains it, and it is such a region's id. |
| RegionTrigger.MajorOf | alembic/versions/3893d4b3641d_add_trigger_regions.py:63-69 | The major region is the takeoff region when there is one, else the landing region, else `NULL`. |
| RegionTrigger.MajorRegionSpec | alembic/versions/3893d4b3641d_add_trigger_regions.py:45-69 | A flight has a major region exactly when its takeoff or landing point lies in some region, and the takeoff region wins. |
| RegionTrigger.FlightRow.BuildPoints | alembic/versions/3893d4b3641d_add_trigger_regions.py:27-43 | It sets the three points from their coordinate pairs and changes nothing else. |
| RegionTrigger.FlightRow.LookUpRegions | alembic/versions/3893d4b3641d_add_trigger_regions.py:45-61 | It sets the takeoff and landing region ids from the points and changes nothing else. |
| RegionTrigger.FlightRow.ChooseMajorRegion | alembic/versions/3893d4b3641d_add_trigger_regions.py:63-69 | It sets the major region from the two region ids and changes nothing else. |
| RegionTrigger.FlightRow.BeforeInsertUpdate | alembic/versions/3893d4b3641d_add_trigger_regions.py:24-72 | Every derived column is a function of the coordinate columns, and the coordinates and all other columns are unchanged. |
| RegionTrigger.FireTwice | alembic/versions/3893d4b3641d_add_trigger_regions.py:83-89 | A row updated again, which fires the trigger a second time, gets the same derived columns as after one firing: both points, the coordinates, both region ids and the major region are those of the original coordinates, and the coordinates and other columns are unchanged. |
| AuthProfile.NonEmptyMembers | frontend/src/context/AuthContext.tsx:77 | `filter(Boolean)` keeps exactly the non-empty strings. |
| AuthProfile.LastSegmentOfPath | frontend/src/context/AuthContext.tsx:38 | The last non-empty `/` segment of `pre/segment//...` is `segment`, whatever the prefix and the trailing slashes. |
| AuthProfile.SegmentOfPath | frontend/src/context/AuthContext.tsx:37-38 | After trimming, the last segment of a group path is its final name. |
| AuthProfile.GroupPathIsLastSegment | frontend/src/context/AuthContext.tsx:36-53 | A group path normalises like its last segment alone. |
| AuthProfile.RoleAliases | frontend/src/context/AuthContext.tsx:39-52 | A group is `admin` exactly for a lower-cased segment "admin"/"administrators", and `operator` exactly for "operator"/"operators". Any other group is its lower-cased segment. |
| AuthProfile.NormalizedIsLowerCase | frontend/src/context/AuthContext.tsx:39-52 | The normalised name is lower case. |
| AuthProfile.DisplayHasNoDashes | frontend/src/context/AuthContext.tsx:48-50 | The display of a non-role group has no `-` or `_`. |
| AuthProfile.CollapseRun | frontend/src/context/AuthContext.tsx:49 | A run of dashes and underscores between two other characters becomes exactly one space. |
| AuthProfile.CollapseRemovesDashes | frontend/src/context/AuthContext.tsx:49 | After the replacement no `-` or `_` remains. |
| AuthProfile.CollapseWithoutDashes | frontend/src/context/AuthContext.tsx:49 | The replacement leaves a text without dashes unchanged. |
| AuthProfile.CapitalizeIdempotent | frontend/src/context/AuthContext.tsx:50 | Capitalising word starts twice equals doing it once. |
| AuthProfile.CapitalizeKeepsLowerCase | frontend/src/context/AuthContext.tsx:50 | Capitalising changes only case. |
| AuthProfile.WordsAreWords | frontend/src/context/AuthContext.tsx:56-58 | `split(/\s+/).filter(Boolean)` gives non-empty parts without whitespace. |
| AuthProfile.NoWordsIff | frontend/src/context/AuthContext.tsx:56-62 | There is no part exactly when the name is all whitespace. |
| AuthProfile.WordsOfJoin | frontend/src/context/AuthContext.tsx:56-58 | Splitting words joined by single spaces gives the words back. |
| AuthProfile.InitialsSpec | frontend/src/context/AuthContext.tsx:55-67 | An all-whitespace name has the initials "—". Otherwise they are 1 or 2 characters, and the first is the upper-cased first non-space character. |
| AuthProfile.InitialsOfWords | frontend/src/context/AuthContext.tsx:55-66 | For two or more words the initials are the upper-cased first letters of the first two. |
| AuthProfile.NameCandidates | frontend/src/context/AuthContext.tsx:72 | `[lastName, firstName].filter(Boolean)` keeps the names that are set, last name first. |
| AuthProfile.FullNameEmptyIff | frontend/src/context/AuthContext.tsx:70-75 | The full name is empty exactly when both names are empty and the first fallback present (user name, then e-mail) is "". |
| AuthProfile.FullNameInitials | frontend/src/context/AuthContext.tsx:70-93 | With both names set, the full name is "last first" and its initials are theirs. |
| AuthProfile.BuildProfile | frontend/src/context/AuthContext.tsx:69-98 | `buildProfile` returns the profile `ProfileOf` describes. |
| AuthProfile.CollectGroups | frontend/src/context/AuthContext.tsx:78-89 | The loop yields the deduplicated normalised names and the chosen display. |
| AuthProfile.NormalsStep | frontend/src/context/AuthContext.tsx:81-82 | One more raw group appends its normalised name. |
| AuthProfile.DedupSnoc | frontend/src/context/AuthContext.tsx:83-85 | One more name is pushed exactly when it is not there yet. |
| AuthProfile.DedupMembers | frontend/src/context/AuthContext.tsx:83-85 | The deduplicated list has the same members, each once. |
| AuthProfile.DedupFirstOccurrence | frontend/src/context/AuthContext.tsx:83-85 | The names keep the order of their first occurrences. |
| AuthProfile.ProfileGroups | frontend/src/context/AuthContext.tsx:81-85 | The profile's groups are exactly the normalised names of the raw groups, each once. |
| AuthProfile.NormalsMembers | frontend/src/context/AuthContext.tsx:81-82 | A name is among the normalised names exactly when some raw group normalises to it. |
| AuthProfile.ChosenSpec | frontend/src/context/AuthContext.tsx:86-88 | From the dash placeholder, the display is the first display other than "—", or stays "—". |
| AuthProfile.DisplayGroupSpec | frontend/src/context/AuthContext.tsx:79-88 | No groups give "Нет доступа". Otherwise the display is the first group display other than "—", or "—" when every display is "—". |
| AuthProfile.HasGroupSpec | frontend/src/context/AuthContext.tsx:128-133 | A missing or empty requirement passes and a non-empty one fails without a profile. Otherwise it passes exactly when some required name equals some profile group, ignoring case. |
| AuthProfile.HoldsOwnGroups | frontend/src/context/AuthContext.tsx:128-133 | A user passes a check for any spelling, in any case, of a group they were given. |
| AuthProfile.HasGroupAppend | frontend/src/context/AuthContext.tsx:132 | Requiring either of two lists is requiring the one or the other. |
| AuthProfile.HasGroupIgnoresCase | frontend/src/context/AuthContext.tsx:131-132 | Upper-casing the required names does not change the outcome. |
| DashboardService.EmbedPayload | backend/services/dashboard_service.py:29-37 | The payload has `embedId`, the fixed `dlEmbedService` marker, `iat` = now and `exp` = `iat` + ttl. It has a `params` key exactly when params are given and non-empty, and that key then equals them. |
| DashboardService.EmbedPayloadUnique | backend/services/dashboard_service.py:30-37 | Those claims determine the payload: two payloads meeting them are equal. |
| DashboardService.SignJwtPs256 | backend/services/dashboard_service.py:7-39 | The token is the encoding, with the private key, of a payload with those claims. |
| DashboardService.EmbedUrlShape | backend/services/dashboard_service.py:48-49 | The URL is the base without its trailing slashes, then `/embeds/dash#dl_embed_token=`, then the token. |
| DashboardService.ExtraSlashesIgnored | backend/services/dashboard_service.py:48 | Extra trailing slashes on the base never change the URL. |
| ClassNames.KeptMembers | frontend/src/utils/classNames.ts:2 | A string is kept exactly when it is a non-empty argument; `undefined`, `null`, `false` and "" are dropped. |
| ClassNames.KeptAppend | frontend/src/utils/classNames.ts:2 | Filtering splits over concatenation, so the kept values stay in argument order. |
| ClassNames.KeptNonEmpty | frontend/src/utils/classNames.ts:2 | Every kept value is non-empty. |
| ClassNames.ClassNamesAppend | frontend/src/utils/classNames.ts:2 | Two argument lists side by side give their results joined by exactly one space when both are non-empty. |
| ClassNames.ClassNamesEmptyIff | frontend/src/utils/classNames.ts:2 | The result is "" exactly when no argument is truthy. |
| ClassNames.ClassNamesSplit | frontend/src/utils/classNames.ts:2 | When no argument holds a space, splitting the result at spaces gives back the kept values, so they are separated by single spaces. |
| ClassNames.ClassNamesAllTruthy | frontend/src/utils/classNames.ts:2 | With every argument truthy, the result is `values.join(' ')`. |

## Left out

- The network and the database: the shapefile download, the SQL session and its commits, and the `fetch` of the profile. The trigger's `regions` table and the migration's table are values passed in.
- Geometry: shapely polygons, the pyproj reprojection, polygon area and `ST_Contains` are parameters (`Geometry`, `contains`). The area's `int(...) / 1000000` is kept, on reals.
- Floating point: every coordinate, minute value and area is an exact real, with no rounding.
- `holidays.RU()` and the `is_holiday` flag (mapper.py line 57): the holiday calendar is a foreign library.
- pandas: a row is a list of (column, cell) pairs with `row.get` taking the first column of a name. Duplicate column labels, which pandas returns as a Series, are not modelled, and `raw` is the row itself rather than `to_dict()`.
- FlightMapper.ParseStamp: it is exact for the ten-digit strings `map_row` builds. For other lengths it gives NaT and does not model pandas' one-digit field matches.
- ShapemapMigration.MigrationRow: the migration stores `geopolygon_str` as the `str(...)` text of the list (b7f3c9d5a2e1_shapemap.py line 121), while the service stores the list itself (region_service.py line 79). Both are the same list of [lat, lon] pairs here, and how Python renders the list is not modelled.
- `str()` of a value: a cell that is neither `None` nor a string carries the text `str()` gives it (an empty spreadsheet cell is NaN, rendered "nan"), and a shapefile record value carries its rendering. How Python renders numbers is not modelled.
- Unicode: case mapping and `\w` cover ASCII and the Cyrillic block U+0400..U+045F; `\d` is the ASCII digits; whitespace is the usual Python and JavaScript sets. Other scripts are uncased and non-word.
- Regular expressions are modelled by their meaning: match existence for the classifier, leftmost match for `_extract`. Python's `re.IGNORECASE` is case mapping in both directions over the modelled alphabet, and backtracking order is not modelled.
- `LIMIT 1` without `ORDER BY` returns some containing region; the model takes the first in the order the table is given.
- The exceptions `save_regions_to_db` catches are a predicate `raises` on the region name; what is printed is not modelled.
- `jwt.encode` is a parameter of `SignJwtPs256`, and the clock's integer second is the parameter `now`.
- `USERS_API_BASE` and `PROFILE_ENDPOINT` (AuthContext.tsx lines 4-6) are configuration read at start-up.
- AuthProfile.DisplayGroupSpec: "Нет доступа" is shown for no groups. The converse does not hold in the code either, since a group displayed as "Нет доступа" shows the same text, so it is not claimed.
- The React state, `isLoading`, `refresh` and the UI around the profile.
