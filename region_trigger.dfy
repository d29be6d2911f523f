/** The row trigger `uav_flights_before_insert_update`
    (alembic/versions/3893d4b3641d_add_trigger_regions.py).

    Before a flight row is inserted or updated, the trigger builds its three
    points from the coordinate columns, looks up the region containing the
    takeoff and the landing point, and sets the flight's major region. The
    `NEW` record is an object whose fields are assigned step by step.
    `ST_Contains` is a parameter. */
module RegionTrigger {
  import opened Wrappers
  import opened RegionService

  /** `ST_SetSRID(ST_MakePoint(x, y), srid)`. */
  datatype GeoPoint = GeoPoint(x: real, y: real, srid: int)

  /** The SRID of WGS 84 longitude/latitude. */
  const Wgs84: int := 4326

  /** A row of `regions`: its id and its polygon. */
  datatype Region = Region(id: int, geopolygon: Ring)

  /** The point of a coordinate pair: present when both coordinates are, with
      the longitude as `x` and the latitude as `y`. */
  function PointOf(lat: Option<real>, lon: Option<real>): (p: Option<GeoPoint>)
    ensures p.Some? <==> lat.Some? && lon.Some?
    ensures p.Some? ==> p.value.x == lon.value && p.value.y == lat.value && p.value.srid == Wgs84
  {
    if lat.Some? && lon.Some? then Some(GeoPoint(lon.value, lat.value, Wgs84)) else None
  }

  /** The first region, in table order, whose polygon contains the point. */
  function FirstContaining(regions: seq<Region>, contains: (Ring, GeoPoint) -> bool, p: GeoPoint, i: nat)
    : (r: Option<int>)
    requires i <= |regions|
    decreases |regions| - i
  {
    if i == |regions| then None
    else if contains(regions[i].geopolygon, p) then Some(regions[i].id)
    else FirstContaining(regions, contains, p, i + 1)
  }

  /** The region id found for a point: none without a point or without a
      containing region, otherwise a containing region's id. */
  lemma {:induction false} FirstContainingSpec(regions: seq<Region>, contains: (Ring, GeoPoint) -> bool,
                                               p: GeoPoint, i: nat)
    requires i <= |regions|
    ensures FirstContaining(regions, contains, p, i).None? <==>
              forall j :: i <= j < |regions| ==> !contains(regions[j].geopolygon, p)
    ensures FirstContaining(regions, contains, p, i).Some? ==>
              exists j :: i <= j < |regions| && contains(regions[j].geopolygon, p)
                && regions[j].id == FirstContaining(regions, contains, p, i).value
    decreases |regions| - i
  {
    if i < |regions| && !contains(regions[i].geopolygon, p) {
      FirstContainingSpec(regions, contains, p, i + 1);
    }
  }

  /** `SELECT id INTO ... FROM regions WHERE ST_Contains(regions.geopolygon, point)
      LIMIT 1`: no row leaves the target `NULL`. */
  method SelectRegion(regions: seq<Region>, contains: (Ring, GeoPoint) -> bool, p: GeoPoint)
    returns (id: Option<int>)
    ensures id == FirstContaining(regions, contains, p, 0)
  {
    var i := 0;
    while i < |regions|
      invariant 0 <= i <= |regions|
      invariant FirstContaining(regions, contains, p, 0) == FirstContaining(regions, contains, p, i)
    {
      if contains(regions[i].geopolygon, p) {
        return Some(regions[i].id);
      }
      i := i + 1;
    }
    return None;
  }

  /** The region of an optional point. */
  function RegionOf(regions: seq<Region>, contains: (Ring, GeoPoint) -> bool, p: Option<GeoPoint>): Option<int> {
    if p.Some? then FirstContaining(regions, contains, p.value, 0) else None
  }

  /** The major region: the takeoff region, else the landing region. */
  function MajorOf(takeoff: Option<int>, landing: Option<int>): (m: Option<int>)
    ensures m.Some? <==> takeoff.Some? || landing.Some?
    ensures takeoff.Some? ==> m == takeoff
    ensures takeoff.None? ==> m == landing
  {
    if takeoff.Some? then takeoff else if landing.Some? then landing else None
  }

  /** A region is found for a point exactly when the point exists and some
      region contains it; the id found is such a region's. */
  lemma RegionOfSpec(regions: seq<Region>, contains: (Ring, GeoPoint) -> bool, p: Option<GeoPoint>)
    ensures RegionOf(regions, contains, p).Some? <==>
              p.Some? && exists j :: 0 <= j < |regions| && contains(regions[j].geopolygon, p.value)
    ensures RegionOf(regions, contains, p).Some? ==>
              exists j :: 0 <= j < |regions| && contains(regions[j].geopolygon, p.value)
                && regions[j].id == RegionOf(regions, contains, p).value
  {
    if p.Some? {
      FirstContainingSpec(regions, contains, p.value, 0);
    }
  }

  /** A flight has a major region exactly when its takeoff or its landing
      point lies in some region; the takeoff's region wins. */
  lemma MajorRegionSpec(regions: seq<Region>, contains: (Ring, GeoPoint) -> bool,
                        takeoff: Option<GeoPoint>, landing: Option<GeoPoint>)
    ensures var t := RegionOf(regions, contains, takeoff);
            var l := RegionOf(regions, contains, landing);
            && (MajorOf(t, l).Some? <==>
                  (takeoff.Some? && exists j :: 0 <= j < |regions| && contains(regions[j].geopolygon, takeoff.value))
                  || (landing.Some? && exists j :: 0 <= j < |regions| && contains(regions[j].geopolygon, landing.value)))
            && (t.Some? ==> MajorOf(t, l) == t)
  {
    RegionOfSpec(regions, contains, takeoff);
    RegionOfSpec(regions, contains, landing);
  }

  /** The `NEW` record of a `uav_flights` row. */
  class FlightRow {
    var takeoffLat: Option<real>
    var takeoffLon: Option<real>
    var landingLat: Option<real>
    var landingLon: Option<real>
    var latitude: Option<real>
    var longitude: Option<real>
    var takeoffPoint: Option<GeoPoint>
    var landingPoint: Option<GeoPoint>
    var coordinates: Option<GeoPoint>
    var takeoffRegionId: Option<int>
    var landingRegionId: Option<int>
    var majorRegionId: Option<int>
    /** Every other column, by name, as the trigger receives it. */
    var others: map<string, string>

    constructor(takeoffLat: Option<real>, takeoffLon: Option<real>, landingLat: Option<real>,
                landingLon: Option<real>, latitude: Option<real>, longitude: Option<real>,
                others: map<string, string>)
      ensures this.takeoffLat == takeoffLat && this.takeoffLon == takeoffLon
      ensures this.landingLat == landingLat && this.landingLon == landingLon
      ensures this.latitude == latitude && this.longitude == longitude
      ensures takeoffPoint.None? && landingPoint.None? && coordinates.None?
      ensures takeoffRegionId.None? && landingRegionId.None? && majorRegionId.None?
      ensures this.others == others
    {
      this.takeoffLat := takeoffLat;
      this.takeoffLon := takeoffLon;
      this.landingLat := landingLat;
      this.landingLon := landingLon;
      this.latitude := latitude;
      this.longitude := longitude;
      takeoffPoint := None;
      landingPoint := None;
      coordinates := None;
      takeoffRegionId := None;
      landingRegionId := None;
      majorRegionId := None;
      this.others := others;
    }

    /** The trigger body. Every derived column is a function of the coordinate
        columns alone, and nothing else in the row changes. */
    method BeforeInsertUpdate(regions: seq<Region>, contains: (Ring, GeoPoint) -> bool)
      modifies this
      ensures takeoffPoint == PointOf(takeoffLat, takeoffLon)
      ensures landingPoint == PointOf(landingLat, landingLon)
      ensures coordinates == PointOf(latitude, longitude)
      ensures takeoffRegionId == RegionOf(regions, contains, takeoffPoint)
      ensures landingRegionId == RegionOf(regions, contains, landingPoint)
      ensures majorRegionId == MajorOf(takeoffRegionId, landingRegionId)
      ensures takeoffLat == old(takeoffLat) && takeoffLon == old(takeoffLon)
      ensures landingLat == old(landingLat) && landingLon == old(landingLon)
      ensures latitude == old(latitude) && longitude == old(longitude)
      ensures others == old(others)
    {
      BuildPoints();
      LookUpRegions(regions, contains);
      ChooseMajorRegion();
    }

    /** The first three steps: a point for each coordinate pair with both parts. */
    method BuildPoints()
      modifies this
      ensures takeoffPoint == PointOf(takeoffLat, takeoffLon)
      ensures landingPoint == PointOf(landingLat, landingLon)
      ensures coordinates == PointOf(latitude, longitude)
      ensures takeoffLat == old(takeoffLat) && takeoffLon == old(takeoffLon)
      ensures landingLat == old(landingLat) && landingLon == old(landingLon)
      ensures latitude == old(latitude) && longitude == old(longitude)
      ensures takeoffRegionId == old(takeoffRegionId) && landingRegionId == old(landingRegionId)
      ensures majorRegionId == old(majorRegionId) && others == old(others)
    {
      if takeoffLat.Some? && takeoffLon.Some? {
        takeoffPoint := Some(GeoPoint(takeoffLon.value, takeoffLat.value, Wgs84));
      } else {
        takeoffPoint := None;
      }

      if landingLat.Some? && landingLon.Some? {
        landingPoint := Some(GeoPoint(landingLon.value, landingLat.value, Wgs84));
      } else {
        landingPoint := None;
      }

      if latitude.Some? && longitude.Some? {
        coordinates := Some(GeoPoint(longitude.value, latitude.value, Wgs84));
      } else {
        coordinates := None;
      }
    }

    /** The next two steps: the region of the takeoff and of the landing point. */
    method LookUpRegions(regions: seq<Region>, contains: (Ring, GeoPoint) -> bool)
      modifies this
      ensures takeoffRegionId == RegionOf(regions, contains, takeoffPoint)
      ensures landingRegionId == RegionOf(regions, contains, landingPoint)
      ensures takeoffLat == old(takeoffLat) && takeoffLon == old(takeoffLon)
      ensures landingLat == old(landingLat) && landingLon == old(landingLon)
      ensures latitude == old(latitude) && longitude == old(longitude)
      ensures takeoffPoint == old(takeoffPoint) && landingPoint == old(landingPoint)
      ensures coordinates == old(coordinates)
      ensures majorRegionId == old(majorRegionId) && others == old(others)
    {
      if takeoffPoint.Some? {
        takeoffRegionId := SelectRegion(regions, contains, takeoffPoint.value);
      } else {
        takeoffRegionId := None;
      }

      if landingPoint.Some? {
        landingRegionId := SelectRegion(regions, contains, landingPoint.value);
      } else {
        landingRegionId := None;
      }
    }

    /** The last step: the takeoff region, else the landing region. */
    method ChooseMajorRegion()
      modifies this
      ensures majorRegionId == MajorOf(takeoffRegionId, landingRegionId)
      ensures takeoffLat == old(takeoffLat) && takeoffLon == old(takeoffLon)
      ensures landingLat == old(landingLat) && landingLon == old(landingLon)
      ensures latitude == old(latitude) && longitude == old(longitude)
      ensures takeoffPoint == old(takeoffPoint) && landingPoint == old(landingPoint)
      ensures coordinates == old(coordinates)
      ensures takeoffRegionId == old(takeoffRegionId) && landingRegionId == old(landingRegionId)
      ensures others == old(others)
    {
      if takeoffRegionId.Some? {
        majorRegionId := takeoffRegionId;
      } else if landingRegionId.Some? {
        majorRegionId := landingRegionId;
      } else {
        majorRegionId := None;
      }
    }
  }

  /** Firing the trigger twice gives the same row as firing it once: the
      derived columns depend only on the coordinates, which it does not change. */
  method FireTwice(row: FlightRow, regions: seq<Region>, contains: (Ring, GeoPoint) -> bool)
    modifies row
    ensures row.takeoffPoint == PointOf(old(row.takeoffLat), old(row.takeoffLon))
    ensures row.landingPoint == PointOf(old(row.landingLat), old(row.landingLon))
    ensures row.coordinates == PointOf(old(row.latitude), old(row.longitude))
    ensures row.takeoffRegionId == RegionOf(regions, contains, PointOf(old(row.takeoffLat), old(row.takeoffLon)))
    ensures row.landingRegionId == RegionOf(regions, contains, PointOf(old(row.landingLat), old(row.landingLon)))
    ensures row.majorRegionId ==
              MajorOf(RegionOf(regions, contains, PointOf(old(row.takeoffLat), old(row.takeoffLon))),
                      RegionOf(regions, contains, PointOf(old(row.landingLat), old(row.landingLon))))
    ensures row.takeoffLat == old(row.takeoffLat) && row.takeoffLon == old(row.takeoffLon)
    ensures row.landingLat == old(row.landingLat) && row.landingLon == old(row.landingLon)
    ensures row.latitude == old(row.latitude) && row.longitude == old(row.longitude)
    ensures row.others == old(row.others)
  {
    row.BeforeInsertUpdate(regions, contains);
    row.BeforeInsertUpdate(regions, contains);
  }
}
