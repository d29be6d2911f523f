/** The data migration that loads the regions once
    (alembic/versions/b7f3c9d5a2e1_shapemap.py).

    Its grouping helpers (`_group_polygons_by_region`, `_detect_name_field_index`,
    `_safe_record_name`, `_shape_to_polygons`) are the service's, line for
    line, and are the members of `RegionService`. What differs is saving: one
    object per region is collected and the objects are inserted in bulk, with
    no lookup of existing rows and no per-region error handling, and the
    stored `geopolygon_str` lists the points of every ring of the region. */
module ShapemapMigration {
  import opened Wrappers
  import opened RegionService

  // ---------------------------------------------------------------------------
  // The sibling files

  /** `shp_url[:-4] + "." + ext`: the `.shx` and `.dbf` files next to the `.shp`. */
  function SiblingUrl(shpUrl: string, ext: string): (url: string)
    ensures |shpUrl| >= 4 ==> url == shpUrl[..|shpUrl| - 4] + "." + ext
    ensures |shpUrl| < 4 ==> url == "." + ext
  {
    PySlice(shpUrl, 0, -4) + "." + ext
  }

  /** The URL of a `.shp` file gives the URLs of its siblings with the same stem. */
  lemma SiblingOfShp(stem: string, ext: string)
    ensures SiblingUrl(stem + ".shp", ext) == stem + "." + ext
  {
    assert (stem + ".shp")[..|stem|] == stem;
  }

  // ---------------------------------------------------------------------------
  // The objects

  /** `[[pt[1], pt[0]] for poly in polygons for pt in poly]`. */
  function AllLatLon(polygons: seq<Ring>): seq<(real, real)> {
    if polygons == [] then []
    else AllLatLon(polygons[..|polygons| - 1]) + SwapAll(polygons[|polygons| - 1])
  }

  lemma SwapAllAppend(a: Ring, b: Ring)
    ensures SwapAll(a + b) == SwapAll(a) + SwapAll(b)
  {
  }

  /** The list holds every point of every ring, in order, as `(lat, lon)`. */
  lemma {:induction false} AllLatLonIsEveryPoint(polygons: seq<Ring>)
    ensures AllLatLon(polygons) == SwapAll(Flatten(polygons))
    decreases |polygons|
  {
    if polygons != [] {
      var init := polygons[..|polygons| - 1];
      AllLatLonIsEveryPoint(init);
      SwapAllAppend(Flatten(init), polygons[|polygons| - 1]);
    }
  }

  /** The object built for a region: the largest valid ring and its area, as in
      the service, and every point of the region in `geopolygon_str`. */
  function MigrationRow(name: string, polygons: seq<Ring>, g: Geometry): (row: RegionRow)
    requires ValidRings(polygons) != []
    ensures row.name == name && row.geopolygonStr == Wrapped(AllLatLon(polygons))
  {
    var valid := ValidRings(polygons);
    var ring := valid[Largest(valid, g.planarArea)];
    RegionRow(name, AreaKm2(g.projectedArea(ring)), ring, Wrapped(AllLatLon(polygons)))
  }

  /** The objects for the first `k` regions in dict order. The first region
      whose geometry raises ends the migration with its name. */
  function Objects(d: RegionPolygons, g: Geometry, raises: string -> bool, k: nat): Result<seq<RegionRow>, string>
    requires k <= |d.order| && d.Valid()
  {
    if k == 0 then Success([])
    else
      var before := Objects(d, g, raises, k - 1);
      var name := d.order[k - 1];
      var polygons := d.rings[name];
      if before.Failure? || ValidRings(polygons) == [] then before
      else if raises(name) then Failure(name)
      else Success(before.value + [MigrationRow(name, polygons, g)])
  }

  /** The objects `save_regions_to_db` collects. */
  method CollectObjects(d: RegionPolygons, g: Geometry, raises: string -> bool)
    returns (r: Result<seq<RegionRow>, string>)
    requires d.Valid()
    ensures r == Objects(d, g, raises, |d.order|)
  {
    var objs: seq<RegionRow> := [];
    var k := 0;
    while k < |d.order|
      invariant 0 <= k <= |d.order|
      invariant Objects(d, g, raises, k) == Success(objs)
    {
      var name := d.order[k];
      var polygons := d.rings[name];
      var valid := ValidRings(polygons);
      ObjectsStep(d, g, raises, k, objs);
      if valid != [] {
        if raises(name) {
          FailureStays(d, g, raises, k + 1);
          return Failure(name);
        }
        objs := objs + [MigrationRow(name, polygons, g)];
      }
      k := k + 1;
    }
    return Success(objs);
  }

  /** One more region after a successful prefix. */
  lemma ObjectsStep(d: RegionPolygons, g: Geometry, raises: string -> bool, k: nat, objs: seq<RegionRow>)
    requires d.Valid() && k < |d.order| && Objects(d, g, raises, k) == Success(objs)
    ensures var name := d.order[k];
            Objects(d, g, raises, k + 1)
            == if ValidRings(d.rings[name]) == [] then Success(objs)
               else if raises(name) then Failure(name)
               else Success(objs + [MigrationRow(name, d.rings[name], g)])
  {
  }

  /** Once a region has raised, the migration stays failed. */
  lemma {:induction false} FailureStays(d: RegionPolygons, g: Geometry, raises: string -> bool, k: nat)
    requires d.Valid() && k <= |d.order| && Objects(d, g, raises, k).Failure?
    ensures Objects(d, g, raises, |d.order|) == Objects(d, g, raises, k)
    decreases |d.order| - k
  {
    if k < |d.order| {
      FailureStays(d, g, raises, k + 1);
    }
  }

  /** The regions that get an object: those with a valid ring. */
  predicate HasValidRing(d: RegionPolygons, name: string) {
    name in d.rings && ValidRings(d.rings[name]) != []
  }

  /** It fails exactly when a region with a valid ring raises. */
  lemma {:induction false} ObjectsFailIff(d: RegionPolygons, g: Geometry, raises: string -> bool, k: nat)
    requires d.Valid() && k <= |d.order|
    ensures Objects(d, g, raises, k).Failure? <==>
              exists i :: 0 <= i < k && HasValidRing(d, d.order[i]) && raises(d.order[i])
  {
    if k > 0 {
      ObjectsFailIff(d, g, raises, k - 1);
    }
  }

  /** The names of the regions with a valid ring among the first `k`, in dict order. */
  function WrittenNames(d: RegionPolygons, k: nat): seq<string>
    requires k <= |d.order|
  {
    if k == 0 then []
    else WrittenNames(d, k - 1) + (if HasValidRing(d, d.order[k - 1]) then [d.order[k - 1]] else [])
  }

  function Names(rows: seq<RegionRow>): seq<string> {
    seq(|rows|, i requires 0 <= i < |rows| => rows[i].name)
  }

  /** The object of a region is the one built from the region's rings. */
  predicate BuiltFrom(d: RegionPolygons, g: Geometry, row: RegionRow) {
    HasValidRing(d, row.name) && row == MigrationRow(row.name, d.rings[row.name], g)
  }

  /** A successful run gives one object per region with a valid ring, in dict
      order, each built from that region's rings. */
  lemma {:induction false} ObjectsOnePerRegion(d: RegionPolygons, g: Geometry, raises: string -> bool, k: nat)
    requires d.Valid() && k <= |d.order|
    ensures Objects(d, g, raises, k).Success? ==> Names(Objects(d, g, raises, k).value) == WrittenNames(d, k)
    ensures Objects(d, g, raises, k).Success? ==>
              forall i :: 0 <= i < |Objects(d, g, raises, k).value| ==> BuiltFrom(d, g, Objects(d, g, raises, k).value[i])
  {
    if k > 0 {
      ObjectsOnePerRegion(d, g, raises, k - 1);
    }
  }

  /** The written names are the regions with a valid ring, each once. */
  lemma {:induction false} WrittenNamesSpec(d: RegionPolygons, k: nat)
    requires d.Valid() && k <= |d.order|
    ensures forall n :: n in WrittenNames(d, k) <==> n in d.order[..k] && HasValidRing(d, n)
    ensures forall i, j :: 0 <= i < j < |WrittenNames(d, k)| ==> WrittenNames(d, k)[i] != WrittenNames(d, k)[j]
  {
    if k > 0 {
      WrittenNamesSpec(d, k - 1);
      assert d.order[..k] == d.order[..k - 1] + [d.order[k - 1]];
      assert d.order[k - 1] !in d.order[..k - 1];
    }
  }

  /** `save_regions_to_db`: collect the objects, then insert them all at once;
      when a region raises, nothing is committed. */
  method SaveRegionsBulk(table: RegionTable, d: RegionPolygons, g: Geometry, raises: string -> bool)
    returns (r: Result<seq<RegionRow>, string>)
    requires d.Valid()
    modifies table
    ensures r == Objects(d, g, raises, |d.order|)
    ensures r.Success? ==> table.rows == old(table.rows) + r.value
    ensures r.Failure? ==> table.rows == old(table.rows)
  {
    r := CollectObjects(d, g, raises);
    if r.Success? && r.value != [] {
      table.rows := table.rows + r.value;
    }
  }
}
