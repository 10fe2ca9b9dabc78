/** Cumulative route distance over an ordered list of geocoded points
    (`calculer_distance_totale`, evaluation.py). The geodesic formula is an oracle
    `dist` over coordinate pairs; rounding to two decimals is not modelled. */
module RouteDistance {

  /** A resolved place: the name the extractor kept and its coordinates. */
  datatype GeoPoint = GeoPoint(name: string, lat: real, lon: real)

  datatype Coord = Coord(lat: real, lon: real)

  function CoordOf(p: GeoPoint): Coord
  {
    Coord(p.lat, p.lon)
  }

  /** A distance oracle that never reports a negative length. */
  ghost predicate NonNegative(dist: (Coord, Coord) -> real)
  {
    forall a, b :: dist(a, b) >= 0.0
  }

  /** Length of the path through `points` in order: the sum over i in 0 .. |points| - 2
      of the distance from point i to point i + 1. */
  function PathLength(points: seq<GeoPoint>, dist: (Coord, Coord) -> real): real
    decreases |points|
  {
    if |points| < 2 then 0.0
    else
      var n := |points|;
      PathLength(points[..n - 1], dist) + dist(CoordOf(points[n - 2]), CoordOf(points[n - 1]))
  }

  /** The loop of `calculer_distance_totale`: 0 below two points, otherwise the
      accumulated leg distances, first leg first. */
  method TotalDistance(points: seq<GeoPoint>, dist: (Coord, Coord) -> real) returns (total: real)
    ensures |points| < 2 ==> total == 0.0
    ensures total == PathLength(points, dist)
  {
    if |points| < 2 {
      return 0.0;
    }
    total := 0.0;
    var i := 0;
    while i < |points| - 1
      invariant 0 <= i <= |points| - 1
      invariant total == PathLength(points[..i + 1], dist)
    {
      total := total + dist(CoordOf(points[i]), CoordOf(points[i + 1]));
      i := i + 1;
      assert points[..i + 1][..i] == points[..i];
    }
    assert points[..i + 1] == points;
  }

  /** With a non-negative oracle every route has a non-negative length. */
  lemma {:induction false} PathLengthNonNegative(points: seq<GeoPoint>, dist: (Coord, Coord) -> real)
    requires NonNegative(dist)
    ensures PathLength(points, dist) >= 0.0
    decreases |points|
  {
    if |points| >= 2 {
      PathLengthNonNegative(points[..|points| - 1], dist);
    }
  }

  /** Appending a point adds exactly the leg from the old last point to it. */
  lemma AppendAddsLastLeg(points: seq<GeoPoint>, p: GeoPoint, dist: (Coord, Coord) -> real)
    requires |points| >= 1
    ensures PathLength(points + [p], dist)
            == PathLength(points, dist) + dist(CoordOf(points[|points| - 1]), CoordOf(p))
  {
    assert (points + [p])[..|points|] == points;
  }

  /** Appending a point never shortens the route. */
  lemma AppendNeverDecreases(points: seq<GeoPoint>, p: GeoPoint, dist: (Coord, Coord) -> real)
    requires NonNegative(dist)
    ensures PathLength(points + [p], dist) >= PathLength(points, dist)
  {
    if |points| >= 1 {
      AppendAddsLastLeg(points, p, dist);
    } else {
      assert points + [p] == [p];
    }
  }

  /** More generally, a prefix of a route is never longer than the route. */
  lemma {:induction false} PrefixNeverLonger(points: seq<GeoPoint>, k: nat, dist: (Coord, Coord) -> real)
    requires NonNegative(dist)
    requires k <= |points|
    ensures PathLength(points[..k], dist) <= PathLength(points, dist)
    decreases |points| - k
  {
    if k < |points| {
      PrefixNeverLonger(points, k + 1, dist);
      assert points[..k + 1] == points[..k] + [points[k]];
      AppendNeverDecreases(points[..k], points[k], dist);
    } else {
      assert points[..k] == points;
    }
  }
}
