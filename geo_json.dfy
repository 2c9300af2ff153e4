/** GeoJSON point geometry as the map controller reads it. Positions list longitude
    before latitude (section 3.1.1 of RFC 7946); values are micro-degrees. */
module GeoJson {
  import opened Wrappers

  datatype Point = Point(coordinates: seq<int>)

  /** The position the map writes for a marker at (lat, lng): longitude first. */
  function PointAt(lat: int, lng: int): (g: Point)
    ensures |g.coordinates| == 2
  {
    Point([lng, lat])
  }

  /** `getGeometryLat`: the second coordinate; `undefined` when the position is shorter. */
  function GeometryLat(g: Point): (lat: Option<int>)
    ensures lat.Some? <==> |g.coordinates| >= 2
  {
    if |g.coordinates| >= 2 then Some(g.coordinates[1]) else None
  }

  /** `getGeometryLng`: the first coordinate; `undefined` for an empty position. */
  function GeometryLng(g: Point): (lng: Option<int>)
    ensures lng.Some? <==> |g.coordinates| >= 1
  {
    if |g.coordinates| >= 1 then Some(g.coordinates[0]) else None
  }

  /** Reading back a written position gives the latitude and longitude it was built from. */
  lemma ReadBackPosition(lat: int, lng: int)
    ensures GeometryLat(PointAt(lat, lng)) == Some(lat)
    ensures GeometryLng(PointAt(lat, lng)) == Some(lng)
  {
  }

  /** A two-element position is rebuilt exactly from what the accessors read. */
  lemma RebuildPosition(g: Point)
    requires |g.coordinates| == 2
    ensures PointAt(GeometryLat(g).value, GeometryLng(g).value) == g
  {
    assert g.coordinates == [g.coordinates[0], g.coordinates[1]];
  }
}
