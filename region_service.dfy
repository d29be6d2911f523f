/** Loading administrative regions from a shapefile
    (backend/services/region_service.py).

    A shapefile holds one record (a row of attribute values) and one shape per
    feature; a shape is a list of points cut into rings at its part offsets.
    The rings of every feature are grouped under the feature's region name, and
    each region is then written to the `regions` table: updated when a row with
    that name exists, inserted otherwise.

    Geometry is kept abstract: the area the largest ring is chosen by and the
    projected area stored for it are parameters, as is the failure of the
    geometry or database step for a region. */
module RegionService {
  import opened Wrappers
  import opened Chars

  /** A shapefile point `(x, y)`: longitude and latitude. */
  type Point = (real, real)

  /** A ring (`Polygon` in the source): its points in order. */
  type Ring = seq<Point>

  // ---------------------------------------------------------------------------
  // Python slicing

  /** A slice bound as Python reads it: negative counts from the end, and the
      result is clamped into `0..n`. */
  function SliceBound(i: int, n: nat): (r: nat)
    ensures r <= n
    ensures 0 <= i <= n ==> r == i
  {
    if i < 0 then (if i + n < 0 then 0 else i + n) else if i > n then n else i
  }

  /** `s[start:stop]`. */
  function PySlice<T>(s: seq<T>, start: int, stop: int): (r: seq<T>)
    ensures 0 <= start <= stop <= |s| ==> r == s[start..stop]
    ensures |r| <= |s|
  {
    var a := SliceBound(start, |s|);
    var b := SliceBound(stop, |s|);
    if a < b then s[a..b] else []
  }

  // ---------------------------------------------------------------------------
  // The name field

  /** The field names looked for first, compared upper-cased. */
  const Preferred: set<string> := {"NAME", "NAME_1", "NAME_RU", "REGION", "SUBJECT", "NAME_RUS", "NAME_RU_1"}

  predicate IsPreferred(field: string) {
    MapChars(Upper, field) in Preferred
  }

  /** `sf.fields[1:]`: the field names without the leading deletion flag. */
  function AttributeFields(allFields: seq<string>): (fields: seq<string>)
    ensures |allFields| > 0 ==> fields == allFields[1..]
    ensures |allFields| == 0 ==> fields == []
  {
    if |allFields| == 0 then [] else allFields[1..]
  }

  /** The first preferred field at or after `i`. */
  function PreferredFrom(fields: seq<string>, i: nat): (r: Option<nat>)
    requires i <= |fields|
    ensures r.Some? ==> i <= r.value < |fields| && IsPreferred(fields[r.value])
    decreases |fields| - i
  {
    if i == |fields| then None
    else if IsPreferred(fields[i]) then Some(i)
    else PreferredFrom(fields, i + 1)
  }

  /** `_detect_name_field_index`: an index into the attribute fields (the
      record's values), or `None` when there are no attribute fields. */
  function DetectNameFieldIndex(allFields: seq<string>): Option<nat> {
    var fields := AttributeFields(allFields);
    var p := PreferredFrom(fields, 0);
    if p.Some? then p
    else if |fields| > 1 then Some(1)
    else if |fields| == 1 then Some(0)
    else None
  }

  lemma {:induction false} PreferredFromLeast(fields: seq<string>, i: nat)
    requires i <= |fields|
    ensures PreferredFrom(fields, i).Some? ==>
              forall j :: i <= j < PreferredFrom(fields, i).value ==> !IsPreferred(fields[j])
    ensures PreferredFrom(fields, i).None? ==> forall j :: i <= j < |fields| ==> !IsPreferred(fields[j])
    decreases |fields| - i
  {
    if i < |fields| && !IsPreferred(fields[i]) {
      PreferredFromLeast(fields, i + 1);
    }
  }

  /** The name field is the first preferred attribute field; without one it is
      the second attribute field, then the only one, then none. */
  lemma DetectNameFieldIndexSpec(allFields: seq<string>)
    ensures var fields := AttributeFields(allFields);
            var r := DetectNameFieldIndex(allFields);
            && ((exists i :: 0 <= i < |fields| && IsPreferred(fields[i])) ==>
                  && r.Some? && r.value < |fields| && IsPreferred(fields[r.value])
                  && forall j :: 0 <= j < r.value ==> !IsPreferred(fields[j]))
            && ((forall i :: 0 <= i < |fields| ==> !IsPreferred(fields[i])) ==>
                  r == (if |fields| > 1 then Some(1) else if |fields| == 1 then Some(0) else None))
  {
    PreferredFromLeast(AttributeFields(allFields), 0);
  }

  /** The deletion flag is never taken for the name, even when it is the only
      field. */
  lemma DeletionFlagOnly(flag: string)
    ensures DetectNameFieldIndex([flag]) == None
  {
  }

  // ---------------------------------------------------------------------------
  // The record name

  /** A record value: `None`, or a value with the text `str()` gives it. */
  datatype FieldValue = NoValue | Value(shown: string)

  /** `_safe_record_name`. */
  function SafeRecordName(rec: seq<FieldValue>, index: Option<int>): (r: string)
    ensures r != "UNKNOWN" ==> index.Some? && 0 <= index.value < |rec| && rec[index.value] == Value(r)
    ensures index.Some? && 0 <= index.value < |rec| && rec[index.value].Value? ==>
              r == rec[index.value].shown
  {
    if index.Some? && 0 <= index.value < |rec| then
      match rec[index.value]
      case NoValue => "UNKNOWN"
      case Value(v) => v
    else "UNKNOWN"
  }

  /** A missing value, a missing index and an index past the record all give
      the placeholder name. */
  lemma UnknownName(rec: seq<FieldValue>, index: Option<int>)
    requires index.None? || index.value < 0 || index.value >= |rec| || rec[index.value] == NoValue
    ensures SafeRecordName(rec, index) == "UNKNOWN"
  {
  }

  // ---------------------------------------------------------------------------
  // Rings

  /** Ring `i` of a shape: the points between bound `i` and bound `i + 1`. */
  function RingAt(points: seq<Point>, bounds: seq<int>, i: nat): Ring
    requires i + 1 < |bounds|
  {
    PySlice(points, bounds[i], bounds[i + 1])
  }

  /** The rings of at least 3 points among the first `k` rings, in order. */
  function KeptRings(points: seq<Point>, bounds: seq<int>, k: nat): seq<Ring>
    requires k < |bounds|
  {
    if k == 0 then []
    else
      var ring := RingAt(points, bounds, k - 1);
      KeptRings(points, bounds, k - 1) + (if |ring| >= 3 then [ring] else [])
  }

  /** The part offsets closed by the number of points. */
  function Bounds(points: seq<Point>, parts: seq<int>): seq<int> {
    parts + [|points|]
  }

  /** What `_shape_to_polygons` returns. */
  function ShapeRings(points: seq<Point>, parts: seq<int>): seq<Ring> {
    if points == [] then [] else KeptRings(points, Bounds(points, parts), |parts|)
  }

  /** `_shape_to_polygons`: cut the points at the part offsets and keep the
      rings of at least 3 points. */
  method ShapeToPolygons(points: seq<Point>, parts: seq<int>) returns (polygons: seq<Ring>)
    ensures polygons == ShapeRings(points, parts)
  {
    if |points| == 0 {
      return [];
    }
    var bounds := parts + [|points|];
    polygons := [];
    var i := 0;
    while i < |bounds| - 1
      invariant 0 <= i <= |bounds| - 1
      invariant polygons == KeptRings(points, bounds, i)
    {
      var ring := PySlice(points, bounds[i], bounds[i + 1]);
      if |ring| >= 3 {
        polygons := polygons + [ring];
      }
      i := i + 1;
    }
  }

  lemma {:induction false} KeptRingsLarge(points: seq<Point>, bounds: seq<int>, k: nat)
    requires k < |bounds|
    ensures forall r :: r in KeptRings(points, bounds, k) ==> |r| >= 3
  {
    if k > 0 {
      KeptRingsLarge(points, bounds, k - 1);
    }
  }

  /** Every ring returned has at least 3 points. */
  lemma RingsAreLarge(points: seq<Point>, parts: seq<int>)
    ensures forall r :: r in ShapeRings(points, parts) ==> |r| >= 3
  {
    if points != [] {
      KeptRingsLarge(points, Bounds(points, parts), |parts|);
    }
  }

  lemma {:induction false} KeptRingsMembers(points: seq<Point>, bounds: seq<int>, k: nat, r: Ring)
    requires k < |bounds|
    ensures r in KeptRings(points, bounds, k) <==>
              exists i :: 0 <= i < k && RingAt(points, bounds, i) == r && |r| >= 3
  {
    if k > 0 {
      KeptRingsMembers(points, bounds, k - 1, r);
    }
  }

  /** A ring is returned exactly when it is the stretch between two adjacent
      bounds (the last running to the end) and has at least 3 points. */
  lemma RingsAreTheLargeStretches(points: seq<Point>, parts: seq<int>, r: Ring)
    requires points != []
    ensures r in ShapeRings(points, parts) <==>
              exists i :: 0 <= i < |parts| && RingAt(points, Bounds(points, parts), i) == r && |r| >= 3
  {
    KeptRingsMembers(points, Bounds(points, parts), |parts|, r);
  }

  /** No points, or no part offsets, give no rings. */
  lemma NoPartsNoRings(points: seq<Point>, parts: seq<int>)
    ensures ShapeRings(points, []) == [] && ShapeRings([], parts) == []
  {
  }

  /** Offsets that start at 0, increase and stay within the points. */
  predicate WellFormedParts(points: seq<Point>, parts: seq<int>) {
    && |parts| > 0 && parts[0] == 0
    && (forall i :: 0 <= i < |parts| - 1 ==> parts[i] <= parts[i + 1])
    && (forall i :: 0 <= i < |parts| ==> parts[i] <= |points|)
  }

  function Flatten(rings: seq<Ring>): seq<Point> {
    if rings == [] then [] else Flatten(rings[..|rings| - 1]) + rings[|rings| - 1]
  }

  lemma {:induction false} KeptRingsCover(points: seq<Point>, bounds: seq<int>, k: nat)
    requires k < |bounds| && bounds[0] == 0
    requires forall i :: 0 <= i < |bounds| - 1 ==> bounds[i] <= bounds[i + 1]
    requires forall i :: 0 <= i < |bounds| ==> 0 <= bounds[i] <= |points|
    requires forall i :: 0 <= i < k ==> |RingAt(points, bounds, i)| >= 3
    ensures Flatten(KeptRings(points, bounds, k)) == points[..bounds[k]]
  {
    if k > 0 {
      KeptRingsCover(points, bounds, k - 1);
      var rs := KeptRings(points, bounds, k - 1);
      var ring := RingAt(points, bounds, k - 1);
      assert KeptRings(points, bounds, k) == rs + [ring];
      assert (rs + [ring])[..|rs + [ring]| - 1] == rs;
      assert ring == points[bounds[k - 1]..bounds[k]];
      assert points[..bounds[k - 1]] + points[bounds[k - 1]..bounds[k]] == points[..bounds[k]];
    }
  }

  /** With well-formed offsets and every ring large enough, the rings returned
      are the points cut apart: together, in order, they give back every point. */
  lemma RingsCoverPoints(points: seq<Point>, parts: seq<int>)
    requires points != [] && WellFormedParts(points, parts)
    requires forall i :: 0 <= i < |parts| ==> |RingAt(points, Bounds(points, parts), i)| >= 3
    ensures Flatten(ShapeRings(points, parts)) == points
  {
    var bounds := Bounds(points, parts);
    assert forall i :: 0 <= i < |bounds| - 1 ==> bounds[i] <= bounds[i + 1] by {
      forall i | 0 <= i < |bounds| - 1 ensures bounds[i] <= bounds[i + 1] {
        if i < |parts| - 1 {
          assert bounds[i] == parts[i] && bounds[i + 1] == parts[i + 1];
        }
      }
    }
    assert forall i :: 0 <= i < |bounds| ==> 0 <= bounds[i] <= |points| by {
      forall i | 0 <= i < |bounds| ensures 0 <= bounds[i] <= |points| {
        if i < |parts| {
          assert bounds[i] == parts[i];
          if i > 0 {
            OffsetsNonNegative(parts, i);
          }
        }
      }
    }
    KeptRingsCover(points, bounds, |parts|);
  }

  lemma {:induction false} OffsetsNonNegative(parts: seq<int>, i: nat)
    requires 0 <= i < |parts| && parts[0] == 0
    requires forall j :: 0 <= j < |parts| - 1 ==> parts[j] <= parts[j + 1]
    ensures parts[i] >= 0
  {
    if i > 0 {
      OffsetsNonNegative(parts, i - 1);
    }
  }

  // ---------------------------------------------------------------------------
  // Grouping

  /** A shape: its points and the offsets where its parts start. */
  datatype Shape = Shape(points: seq<Point>, parts: seq<int>)

  /** The `regions` dict: its keys in insertion order and the ring list of each. */
  datatype RegionPolygons = RegionPolygons(order: seq<string>, rings: map<string, seq<Ring>>) {
    /** The insertion order lists each key once, and only the keys. */
    ghost predicate Valid() {
      && (forall i, j :: 0 <= i < j < |order| ==> order[i] != order[j])
      && (forall n :: n in rings <==> n in order)
    }
  }

  const NoRegions: RegionPolygons := RegionPolygons([], map[])

  /** `regions.setdefault(name, []).extend(polygons)`. */
  function SetDefaultExtend(d: RegionPolygons, name: string, polygons: seq<Ring>): (r: RegionPolygons)
    ensures r.rings == d.rings[name := (if name in d.rings then d.rings[name] else []) + polygons]
  {
    assert [] + polygons == polygons;
    if name in d.rings then RegionPolygons(d.order, d.rings[name := d.rings[name] + polygons])
    else RegionPolygons(d.order + [name], d.rings[name := polygons])
  }

  /** Extending keeps each key listed once, and only the keys. */
  lemma SetDefaultExtendValid(d: RegionPolygons, name: string, polygons: seq<Ring>)
    requires d.Valid()
    ensures SetDefaultExtend(d, name, polygons).Valid()
  {
  }

  /** The region dict after the first `k` shapes, given each shape's name and rings. */
  lemma GroupedStep(names: seq<string>, rings: seq<seq<Ring>>, k: nat)
    requires k < |names| == |rings|
    ensures Grouped(names, rings, k + 1) ==
              if rings[k] == [] then Grouped(names, rings, k)
              else SetDefaultExtend(Grouped(names, rings, k), names[k], rings[k])
  {
  }

  function Grouped(names: seq<string>, rings: seq<seq<Ring>>, k: nat): RegionPolygons
    requires k <= |names| == |rings|
  {
    if k == 0 then NoRegions
    else
      var d := Grouped(names, rings, k - 1);
      if rings[k - 1] == [] then d else SetDefaultExtend(d, names[k - 1], rings[k - 1])
  }

  /** The rings of the first `k` shapes named `name`, in shape order. */
  function Collected(names: seq<string>, rings: seq<seq<Ring>>, name: string, k: nat): seq<Ring>
    requires k <= |names| == |rings|
  {
    if k == 0 then []
    else Collected(names, rings, name, k - 1) + (if names[k - 1] == name then rings[k - 1] else [])
  }

  /** A name is a key exactly when some of its shapes have rings, and its list
      is then all their rings, in shape order; so no list is empty. */
  lemma {:induction false} GroupedCollects(names: seq<string>, rings: seq<seq<Ring>>, name: string, k: nat)
    requires k <= |names| == |rings|
    ensures name in Grouped(names, rings, k).rings <==> Collected(names, rings, name, k) != []
    ensures name in Grouped(names, rings, k).rings ==>
              Grouped(names, rings, k).rings[name] == Collected(names, rings, name, k)
  {
    if k > 0 {
      GroupedCollects(names, rings, name, k - 1);
    }
  }

  lemma {:induction false} GroupedValid(names: seq<string>, rings: seq<seq<Ring>>, k: nat)
    requires k <= |names| == |rings|
    ensures Grouped(names, rings, k).Valid()
  {
    if k > 0 {
      GroupedValid(names, rings, k - 1);
      if rings[k - 1] != [] {
        SetDefaultExtendValid(Grouped(names, rings, k - 1), names[k - 1], rings[k - 1]);
      }
    }
  }

  lemma {:induction false} CollectedLarge(names: seq<string>, rings: seq<seq<Ring>>, name: string, k: nat)
    requires k <= |names| == |rings|
    requires forall i, x :: 0 <= i < |rings| && x in rings[i] ==> |x| >= 3
    ensures forall x :: x in Collected(names, rings, name, k) ==> |x| >= 3
  {
    if k > 0 {
      CollectedLarge(names, rings, name, k - 1);
    }
  }

  /** Every ring grouped from shapes has at least 3 points, so saving keeps
      all of a region's rings as valid. */
  lemma GroupedRingsLarge(names: seq<string>, shapes: seq<Shape>, name: string)
    requires |names| == |shapes|
    requires name in Grouped(names, RingsOfShapes(shapes), |shapes|).rings
    ensures ValidRings(Grouped(names, RingsOfShapes(shapes), |shapes|).rings[name])
              == Grouped(names, RingsOfShapes(shapes), |shapes|).rings[name]
  {
    var rings := RingsOfShapes(shapes);
    forall i, x | 0 <= i < |rings| && x in rings[i] ensures |x| >= 3 {
      RingsAreLarge(shapes[i].points, shapes[i].parts);
    }
    GroupedCollects(names, rings, name, |shapes|);
    CollectedLarge(names, rings, name, |shapes|);
    ValidRingsOfLarge(Collected(names, rings, name, |shapes|));
  }

  /** The error `group_polygons_by_region` raises. */
  datatype GroupError = LengthMismatch

  /** The name of each record. */
  function RecordNames(records: seq<seq<FieldValue>>, index: Option<nat>): (names: seq<string>)
    ensures |names| == |records|
  {
    seq(|records|, i requires 0 <= i < |records| => SafeRecordName(records[i], index))
  }

  /** The rings of each shape. */
  function RingsOfShapes(shapes: seq<Shape>): (rings: seq<seq<Ring>>)
    ensures |rings| == |shapes|
  {
    seq(|shapes|, i requires 0 <= i < |shapes| => ShapeRings(shapes[i].points, shapes[i].parts))
  }

  /** `group_polygons_by_region`, given the field names, the records and the
      shapes the reader holds. */
  method GroupPolygonsByRegion(allFields: seq<string>, records: seq<seq<FieldValue>>, shapes: seq<Shape>)
    returns (r: Result<RegionPolygons, GroupError>)
    ensures |records| != |shapes| <==> r == Failure(LengthMismatch)
    ensures r.Success? ==>
              r.value == Grouped(RecordNames(records, DetectNameFieldIndex(allFields)), RingsOfShapes(shapes), |shapes|)
  {
    if |records| != |shapes| {
      return Failure(LengthMismatch);
    }
    var index := DetectNameFieldIndex(allFields);
    ghost var names := RecordNames(records, index);
    ghost var rings := RingsOfShapes(shapes);
    var regions := NoRegions;
    var idx := 0;
    while idx < |shapes|
      invariant 0 <= idx <= |shapes|
      invariant regions == Grouped(names, rings, idx)
    {
      var name := SafeRecordName(records[idx], index);
      var polygons := ShapeToPolygons(shapes[idx].points, shapes[idx].parts);
      assert name == names[idx] && polygons == rings[idx];
      GroupedStep(names, rings, idx);
      if polygons != [] {
        regions := SetDefaultExtend(regions, name, polygons);
      }
      idx := idx + 1;
    }
    return Success(regions);
  }

  // ---------------------------------------------------------------------------
  // Saving

  /** How `geopolygon_str` is laid out: a list of `[lat, lon]` pairs, or that
      list wrapped in one more list. */
  datatype LatLonList = Pairs(pairs: seq<(real, real)>) | Wrapped(pairs: seq<(real, real)>)

  /** A row of the `regions` table. */
  datatype RegionRow = RegionRow(name: string, area: real, geopolygon: Ring, geopolygonStr: LatLonList)

  /** `int(a)`: truncation toward zero. */
  function Trunc(a: real): int {
    if a >= 0.0 then a.Floor else -((-a).Floor)
  }

  /** The stored area: the projected area in square metres truncated to an
      integer, in square kilometres. */
  function AreaKm2(squareMetres: real): real {
    Trunc(squareMetres) as real / 1000000.0
  }

  /** `[r for r in polygons if len(r) >= 3]`. */
  function ValidRings(polygons: seq<Ring>): seq<Ring> {
    if polygons == [] then []
    else
      var last := polygons[|polygons| - 1];
      ValidRings(polygons[..|polygons| - 1]) + (if |last| >= 3 then [last] else [])
  }

  /** The valid rings are the rings of at least 3 points. */
  lemma {:induction false} ValidRingsMembers(polygons: seq<Ring>, x: Ring)
    ensures x in ValidRings(polygons) <==> x in polygons && |x| >= 3
    decreases |polygons|
  {
    if polygons != [] {
      var init := polygons[..|polygons| - 1];
      ValidRingsMembers(init, x);
      assert polygons == init + [polygons[|polygons| - 1]];
    }
  }

  /** Rings from grouping all have at least 3 points, so the filter keeps them all. */
  lemma {:induction false} ValidRingsOfLarge(polygons: seq<Ring>)
    requires forall x :: x in polygons ==> |x| >= 3
    ensures ValidRings(polygons) == polygons
    decreases |polygons|
  {
    if polygons != [] {
      var init := polygons[..|polygons| - 1];
      assert forall x :: x in init ==> x in polygons;
      ValidRingsOfLarge(init);
      assert polygons == init + [polygons[|polygons| - 1]];
    }
  }

  /** `max(rs, key=area)`: the first ring of largest area. */
  function Largest(rs: seq<Ring>, area: Ring -> real): (k: nat)
    requires rs != []
    ensures k < |rs|
  {
    if |rs| == 1 then 0
    else
      var b := Largest(rs[..|rs| - 1], area);
      if area(rs[|rs| - 1]) > area(rs[b]) then |rs| - 1 else b
  }

  /** The chosen ring has the largest area, and every ring before it a smaller one. */
  lemma {:induction false} LargestIsFirstMaximum(rs: seq<Ring>, area: Ring -> real)
    requires rs != []
    ensures var k := Largest(rs, area);
            && (forall j :: 0 <= j < |rs| ==> area(rs[j]) <= area(rs[k]))
            && (forall j :: 0 <= j < k ==> area(rs[j]) < area(rs[k]))
    decreases |rs|
  {
    if |rs| > 1 {
      var init := rs[..|rs| - 1];
      LargestIsFirstMaximum(init, area);
      assert forall j :: 0 <= j < |rs| - 1 ==> init[j] == rs[j];
    }
  }

  /** The exterior coordinates of a polygon built from a ring: the ring, closed
      by its first point when it is not closed already. */
  function Exterior(ring: Ring): (e: Ring)
    ensures |ring| <= |e| && e[..|ring|] == ring
    ensures ring != [] ==> e[0] == ring[0] && e[|e| - 1] == ring[0]
  {
    if ring == [] || ring[|ring| - 1] == ring[0] then ring else ring + [ring[0]]
  }

  /** `(x, y)` as `[y, x]`, i.e. `(lat, lon)`. */
  function SwapAll(ring: Ring): (r: seq<(real, real)>)
    ensures |r| == |ring|
    ensures forall i :: 0 <= i < |ring| ==> r[i] == (ring[i].1, ring[i].0)
  {
    seq(|ring|, i requires 0 <= i < |ring| => (ring[i].1, ring[i].0))
  }

  /** The abstract geometry of `save_regions_to_db`: the planar area the
      largest ring is chosen by, and the area after reprojection to an
      equal-area system, in square metres. */
  datatype Geometry = Geometry(planarArea: Ring -> real, projectedArea: Ring -> real)

  /** The row the service writes for a region with these valid rings. */
  function ServiceRow(name: string, valid: seq<Ring>, g: Geometry): (row: RegionRow)
    requires valid != []
    ensures row.name == name && row.geopolygon in valid
    ensures row.geopolygonStr == Pairs(SwapAll(Exterior(row.geopolygon)))
  {
    var ring := valid[Largest(valid, g.planarArea)];
    RegionRow(name, AreaKm2(g.projectedArea(ring)), ring, Pairs(SwapAll(Exterior(ring))))
  }

  /** Write `row` to every row with its name, at their places. */
  function UpdateNamed(rows: seq<RegionRow>, row: RegionRow): (r: seq<RegionRow>)
    ensures |r| == |rows|
  {
    seq(|rows|, i requires 0 <= i < |rows| => if rows[i].name == row.name then row else rows[i])
  }

  predicate HasName(rows: seq<RegionRow>, name: string) {
    exists i :: 0 <= i < |rows| && rows[i].name == name
  }

  /** The name of `row` has a row, and every row with that name is `row`. */
  predicate NamedRowIs(rows: seq<RegionRow>, row: RegionRow) {
    HasName(rows, row.name) && forall i :: 0 <= i < |rows| && rows[i].name == row.name ==> rows[i] == row
  }

  /** The select-then-update-or-insert of one region. */
  function Upserted(rows: seq<RegionRow>, row: RegionRow): seq<RegionRow> {
    if HasName(rows, row.name) then UpdateNamed(rows, row) else rows + [row]
  }

  /** After an upsert the name has a row, every row with the name is the new
      one, every other row is unchanged in its place, and a row was added
      exactly when the name was missing. */
  lemma UpsertedSpec(rows: seq<RegionRow>, row: RegionRow)
    ensures var r := Upserted(rows, row);
            && HasName(r, row.name)
            && (forall i :: 0 <= i < |r| && r[i].name == row.name ==> r[i] == row)
            && (forall i :: 0 <= i < |rows| && rows[i].name != row.name ==> r[i] == rows[i])
            && (forall i :: |rows| <= i < |r| ==> r[i] == row)
            && |r| == |rows| + (if HasName(rows, row.name) then 0 else 1)
  {
    var r := Upserted(rows, row);
    if HasName(rows, row.name) {
      var i :| 0 <= i < |rows| && rows[i].name == row.name;
      assert r[i].name == row.name;
    } else {
      assert r[|rows|] == row;
    }
  }

  /** Upserting the same row twice is upserting it once. */
  lemma UpsertIdempotent(rows: seq<RegionRow>, row: RegionRow)
    ensures Upserted(Upserted(rows, row), row) == Upserted(rows, row)
  {
    var r := Upserted(rows, row);
    UpsertedSpec(rows, row);
    assert UpdateNamed(r, row) == r;
  }

  /** What happens to one region: skipped when it has no valid ring or its
      geometry or database step raises (the error is reported and the loop
      goes on), upserted otherwise. */
  function SaveOne(rows: seq<RegionRow>, name: string, polygons: seq<Ring>, g: Geometry, raises: string -> bool)
    : seq<RegionRow>
  {
    var valid := ValidRings(polygons);
    if valid == [] || raises(name) then rows else Upserted(rows, ServiceRow(name, valid, g))
  }

  /** The rows after the first `k` regions in dict order. */
  function SavedUpTo(rows: seq<RegionRow>, d: RegionPolygons, g: Geometry, raises: string -> bool, k: nat)
    : seq<RegionRow>
    requires k <= |d.order| && d.Valid()
  {
    if k == 0 then rows
    else
      var name := d.order[k - 1];
      SaveOne(SavedUpTo(rows, d, g, raises, k - 1), name, d.rings[name], g, raises)
  }

  /** The regions that get a row: a valid ring and no error. */
  predicate Written(d: RegionPolygons, name: string, raises: string -> bool) {
    name in d.rings && ValidRings(d.rings[name]) != [] && !raises(name)
  }

  /** The `regions` table. */
  class RegionTable {
    var rows: seq<RegionRow>

    constructor(initial: seq<RegionRow>)
      ensures rows == initial
    {
      rows := initial;
    }

    /** One region's select, then update or insert. */
    method Upsert(row: RegionRow)
      modifies this
      ensures rows == Upserted(old(rows), row)
    {
      var found := false;
      var i := 0;
      while i < |rows|
        invariant 0 <= i <= |rows|
        invariant found <==> exists j :: 0 <= j < i && rows[j].name == row.name
      {
        if rows[i].name == row.name {
          found := true;
        }
        i := i + 1;
      }
      if found {
        rows := UpdateNamed(rows, row);
      } else {
        rows := rows + [row];
      }
    }

    /** `save_regions_to_db`. */
    method SaveRegions(d: RegionPolygons, g: Geometry, raises: string -> bool)
      requires d.Valid()
      modifies this
      ensures rows == SavedUpTo(old(rows), d, g, raises, |d.order|)
    {
      var k := 0;
      while k < |d.order|
        invariant 0 <= k <= |d.order|
        invariant rows == SavedUpTo(old(rows), d, g, raises, k)
      {
        var name := d.order[k];
        var polygons := d.rings[name];
        var valid := ValidRings(polygons);
        SavedStep(old(rows), d, g, raises, k);
        if valid != [] && !raises(name) {
          Upsert(ServiceRow(name, valid, g));
        }
        k := k + 1;
      }
    }
  }

  /** One more region in dict order: its save applies to the rows before it. */
  lemma SavedStep(rows: seq<RegionRow>, d: RegionPolygons, g: Geometry, raises: string -> bool, k: nat)
    requires d.Valid() && k < |d.order|
    ensures SavedUpTo(rows, d, g, raises, k + 1)
         == SaveOne(SavedUpTo(rows, d, g, raises, k), d.order[k], d.rings[d.order[k]], g, raises)
  {
  }

  /** Saving one region changes only rows with its name, and those only when
      it is written; rows are only ever added. */
  lemma SaveOneKeepsOthers(prev: seq<RegionRow>, name: string, polygons: seq<Ring>, g: Geometry,
                           raises: string -> bool)
    ensures var r := SaveOne(prev, name, polygons, g, raises);
            && |prev| <= |r|
            && forall i :: 0 <= i < |prev| && (prev[i].name != name || ValidRings(polygons) == [] || raises(name))
                 ==> r[i] == prev[i]
  {
    var valid := ValidRings(polygons);
    if valid != [] && !raises(name) {
      UpsertedSpec(prev, ServiceRow(name, valid, g));
    }
  }

  /** A row of a region that is not written stays as it was, in its place;
      rows are only ever added. */
  lemma {:induction false} SavedKeepsOthers(rows: seq<RegionRow>, d: RegionPolygons, g: Geometry,
                                            raises: string -> bool, k: nat)
    requires d.Valid() && k <= |d.order|
    ensures var r := SavedUpTo(rows, d, g, raises, k);
            && |rows| <= |r|
            && forall i :: 0 <= i < |rows| && !Written(d, rows[i].name, raises) ==> r[i] == rows[i]
  {
    if k > 0 {
      SavedKeepsOthers(rows, d, g, raises, k - 1);
      var prev := SavedUpTo(rows, d, g, raises, k - 1);
      var name := d.order[k - 1];
      SaveOneKeepsOthers(prev, name, d.rings[name], g, raises);
      var r := SavedUpTo(rows, d, g, raises, k);
      assert r == SaveOne(prev, name, d.rings[name], g, raises);
      forall i | 0 <= i < |rows| && !Written(d, rows[i].name, raises) ensures r[i] == rows[i] {
        assert prev[i] == rows[i];
      }
    }
  }

  /** Saving another region leaves a name's rows as they were. */
  lemma SaveOneKeepsName(prev: seq<RegionRow>, other: string, polygons: seq<Ring>, g: Geometry,
                         raises: string -> bool, name: string, row: RegionRow)
    requires other != name && row.name == name && NamedRowIs(prev, row)
    ensures NamedRowIs(SaveOne(prev, other, polygons, g, raises), row)
  {
    var valid := ValidRings(polygons);
    if valid != [] && !raises(other) {
      var written := ServiceRow(other, valid, g);
      UpsertedSpec(prev, written);
      var r := Upserted(prev, written);
      var i :| 0 <= i < |prev| && prev[i].name == name;
      assert r[i] == prev[i];
    }
  }

  /** Saving a region with a valid ring and no error gives it exactly the row
      built from its rings. */
  lemma SaveOneWrites(prev: seq<RegionRow>, name: string, polygons: seq<Ring>, g: Geometry,
                      raises: string -> bool)
    requires ValidRings(polygons) != [] && !raises(name)
    ensures NamedRowIs(SaveOne(prev, name, polygons, g, raises), ServiceRow(name, ValidRings(polygons), g))
  {
    UpsertedSpec(prev, ServiceRow(name, ValidRings(polygons), g));
  }

  lemma PrefixMember(order: seq<string>, k: nat, name: string)
    requires 0 < k <= |order| && name in order[..k] && name != order[k - 1]
    ensures name in order[..k - 1]
  {
    var j :| 0 <= j < k && order[..k][j] == name;
    assert order[..k - 1][j] == name;
  }

  /** After saving, each written region has a row, and every row with its name
      is the row built from its rings. */
  lemma {:induction false} SavedWritesEach(rows: seq<RegionRow>, d: RegionPolygons, g: Geometry,
                                           raises: string -> bool, k: nat, name: string)
    requires d.Valid() && k <= |d.order|
    requires name in d.order[..k] && Written(d, name, raises)
    ensures NamedRowIs(SavedUpTo(rows, d, g, raises, k), ServiceRow(name, ValidRings(d.rings[name]), g))
  {
    var row := ServiceRow(name, ValidRings(d.rings[name]), g);
    if d.order[k - 1] == name {
      SavedWritesLast(rows, d, g, raises, k, name);
    } else {
      PrefixMember(d.order, k, name);
      SavedWritesEach(rows, d, g, raises, k - 1, name);
      SavedKeepsName(rows, d, g, raises, k, row);
    }
  }

  /** The region saved last gets its row. */
  lemma SavedWritesLast(rows: seq<RegionRow>, d: RegionPolygons, g: Geometry,
                        raises: string -> bool, k: nat, name: string)
    requires d.Valid() && 0 < k <= |d.order| && d.order[k - 1] == name && Written(d, name, raises)
    ensures NamedRowIs(SavedUpTo(rows, d, g, raises, k), ServiceRow(name, ValidRings(d.rings[name]), g))
  {
    SavedStep(rows, d, g, raises, k - 1);
    SaveOneWrites(SavedUpTo(rows, d, g, raises, k - 1), name, d.rings[name], g, raises);
  }

  /** Saving a region of another name keeps a name's row. */
  lemma SavedKeepsName(rows: seq<RegionRow>, d: RegionPolygons, g: Geometry,
                       raises: string -> bool, k: nat, row: RegionRow)
    requires d.Valid() && 0 < k <= |d.order| && d.order[k - 1] != row.name
    requires NamedRowIs(SavedUpTo(rows, d, g, raises, k - 1), row)
    ensures NamedRowIs(SavedUpTo(rows, d, g, raises, k), row)
  {
    var last := d.order[k - 1];
    SavedStep(rows, d, g, raises, k - 1);
    SaveOneKeepsName(SavedUpTo(rows, d, g, raises, k - 1), last, d.rings[last], g, raises, row.name, row);
  }
}
