/** The trip statistics that build_readme.py burns into each map image.

    A parsed GPX file is a sequence of tracks, each a sequence of segments,
    each a sequence of points. Distance and ascent are folds over pairs of
    consecutive points, taken INSIDE one segment only: the last point of a
    segment is never paired with the first point of the next one.

    This module holds the data model and the reference definitions of the two
    totals, together with the properties they have. */
module TripStats {

  /** A track point as parsed from the file. Elevations are always present. */
  datatype Point = Point(latitude: real, longitude: real, elevation: real)

  /** A waypoint: a point of interest independent of the track. */
  datatype Waypoint = Waypoint(latitude: real, longitude: real)

  datatype Segment = Segment(points: seq<Point>)

  datatype Track = Track(segments: seq<Segment>)

  /** What the GPX parser yields for one file. */
  datatype Gpx = Gpx(tracks: seq<Track>, waypoints: seq<Waypoint>)

  type NonNegReal = r: real | r >= 0.0

  /** The 3D distance `point.distance_3d(prev)` computed by the GPX library:
      opaque here, known only to be non-negative. */
  type Distance3D = (Point, Point) -> NonNegReal

  /** Elevation gained stepping from `prev` to `p`: the delta when it is
      positive, otherwise nothing (a descent is not subtracted). */
  function Gain(prev: Point, p: Point): (g: real)
    ensures g >= 0.0 && g >= p.elevation - prev.elevation
    ensures g == 0.0 || g == p.elevation - prev.elevation
  {
    var delta := p.elevation - prev.elevation;
    if delta > 0.0 then delta else 0.0
  }

  /** Elevation lost stepping from `prev` to `p`; the mirror image of Gain. */
  function Loss(prev: Point, p: Point): (l: real)
    ensures l >= 0.0 && Gain(prev, p) - l == p.elevation - prev.elevation
  {
    var delta := p.elevation - prev.elevation;
    if delta < 0.0 then -delta else 0.0
  }

  /** Cumulative ascent along one segment: the gains of its consecutive pairs. */
  function SegmentAscent(pts: seq<Point>): (r: real)
    ensures r >= 0.0
  {
    if |pts| < 2 then 0.0
    else SegmentAscent(pts[..|pts| - 1]) + Gain(pts[|pts| - 2], pts[|pts| - 1])
  }

  /** Cumulative descent along one segment; not computed by the program, used
      to characterise when ascent equals the net elevation gain. */
  function SegmentDescent(pts: seq<Point>): (r: real)
    ensures r >= 0.0
  {
    if |pts| < 2 then 0.0
    else SegmentDescent(pts[..|pts| - 1]) + Loss(pts[|pts| - 2], pts[|pts| - 1])
  }

  /** Cumulative 3D distance along one segment. */
  function SegmentDistance(pts: seq<Point>, dist: Distance3D): (r: real)
    ensures r >= 0.0
  {
    if |pts| < 2 then 0.0
    else SegmentDistance(pts[..|pts| - 1], dist) + dist(pts[|pts| - 1], pts[|pts| - 2])
  }

  /** The segments of all tracks, in file order. */
  function SegmentsOf(tracks: seq<Track>): (r: seq<Segment>)
    ensures |tracks| == 1 ==> r == tracks[0].segments
  {
    if |tracks| == 0 then []
    else SegmentsOf(tracks[..|tracks| - 1]) + tracks[|tracks| - 1].segments
  }

  /** The points of all segments, in file order. */
  function PointsOf(segs: seq<Segment>): (r: seq<Point>)
    ensures |segs| == 1 ==> r == segs[0].points
  {
    if |segs| == 0 then []
    else PointsOf(segs[..|segs| - 1]) + segs[|segs| - 1].points
  }

  /** How many points the segments hold, counted segment by segment; the
      flattened point list has exactly this length. */
  function PointCount(segs: seq<Segment>): (n: nat)
    ensures n == |PointsOf(segs)|
  {
    if |segs| == 0 then 0
    else PointCount(segs[..|segs| - 1]) + |segs[|segs| - 1].points|
  }

  /** Total ascent: the per-segment ascents added up. */
  function Ascent(segs: seq<Segment>): (r: real)
    ensures r >= 0.0
  {
    if |segs| == 0 then 0.0
    else Ascent(segs[..|segs| - 1]) + SegmentAscent(segs[|segs| - 1].points)
  }

  /** Total distance: the per-segment distances added up. */
  function Distance(segs: seq<Segment>, dist: Distance3D): (r: real)
    ensures r >= 0.0
  {
    if |segs| == 0 then 0.0
    else Distance(segs[..|segs| - 1], dist) + SegmentDistance(segs[|segs| - 1].points, dist)
  }

  function TripSegments(gpx: Gpx): seq<Segment>
  {
    SegmentsOf(gpx.tracks)
  }

  function TripPoints(gpx: Gpx): seq<Point>
  {
    PointsOf(TripSegments(gpx))
  }

  function TripAscent(gpx: Gpx): real
  {
    Ascent(TripSegments(gpx))
  }

  function TripDistance(gpx: Gpx, dist: Distance3D): real
  {
    Distance(TripSegments(gpx), dist)
  }

  /** Elevation never drops between consecutive points. */
  predicate NonDecreasing(pts: seq<Point>)
  {
    forall i :: 0 < i < |pts| ==> pts[i - 1].elevation <= pts[i].elevation
  }

  /** Totals are additive over segment lists: each segment contributes on its
      own, whatever precedes or follows it. */
  lemma {:induction false} AscentAppend(a: seq<Segment>, b: seq<Segment>, dist: Distance3D)
    ensures Ascent(a + b) == Ascent(a) + Ascent(b)
    ensures Distance(a + b, dist) == Distance(a, dist) + Distance(b, dist)
    decreases |b|
  {
    if |b| == 0 {
      assert a + b == a;
    } else {
      var b' := b[..|b| - 1];
      assert (a + b)[..|a + b| - 1] == a + b';
      assert (a + b)[|a + b| - 1] == b[|b| - 1];
      AscentAppend(a, b', dist);
    }
  }

  /** Flattening is additive over segment lists too. */
  lemma {:induction false} PointsOfAppend(a: seq<Segment>, b: seq<Segment>)
    ensures PointsOf(a + b) == PointsOf(a) + PointsOf(b)
    decreases |b|
  {
    if |b| == 0 {
      assert a + b == a;
    } else {
      var b' := b[..|b| - 1];
      assert (a + b)[..|a + b| - 1] == a + b';
      assert (a + b)[|a + b| - 1] == b[|b| - 1];
      PointsOfAppend(a, b');
    }
  }

  /** No point is lost in flattening: every point of every segment is in
      the flattened list. */
  lemma {:induction false} EveryPointFlattened(segs: seq<Segment>, i: nat, j: nat)
    requires i < |segs| && j < |segs[i].points|
    ensures segs[i].points[j] in PointsOf(segs)
    decreases |segs|
  {
    var n := |segs|;
    if i < n - 1 {
      EveryPointFlattened(segs[..n - 1], i, j);
    }
  }

  /** No segment is lost either: every segment of every track is visited. */
  lemma {:induction false} EverySegmentVisited(tracks: seq<Track>, i: nat, j: nat)
    requires i < |tracks| && j < |tracks[i].segments|
    ensures tracks[i].segments[j] in SegmentsOf(tracks)
    decreases |tracks|
  {
    var n := |tracks|;
    if i < n - 1 {
      EverySegmentVisited(tracks[..n - 1], i, j);
    }
  }

  /** A segment with fewer than two points adds nothing to either total,
      wherever it sits among the other segments. */
  lemma ShortSegmentAddsNothing(a: seq<Segment>, s: Segment, b: seq<Segment>, dist: Distance3D)
    requires |s.points| < 2
    ensures Ascent(a + [s] + b) == Ascent(a + b)
    ensures Distance(a + [s] + b, dist) == Distance(a + b, dist)
  {
    AscentAppend(a + [s], b, dist);
    AscentAppend(a, [s], dist);
    AscentAppend(a, b, dist);
    assert [s][..0] == [];
  }

  /** Ascent of two runs of points read as ONE segment: the ascents of the
      runs plus the gain across the seam between them. */
  lemma {:induction false} SegmentAscentJoin(a: seq<Point>, b: seq<Point>)
    requires |a| > 0 && |b| > 0
    ensures SegmentAscent(a + b) == SegmentAscent(a) + Gain(a[|a| - 1], b[0]) + SegmentAscent(b)
    decreases |b|
  {
    if |b| == 1 {
      assert (a + b)[..|a + b| - 1] == a;
    } else {
      var b' := b[..|b| - 1];
      assert (a + b)[..|a + b| - 1] == a + b';
      assert (a + b)[|a + b| - 2] == b[|b| - 2];
      SegmentAscentJoin(a, b');
    }
  }

  /** Segment locality: two consecutive segments total exactly the ascent of
      their concatenation MINUS the gain across the seam, because no pair is
      formed across a segment boundary. */
  lemma SplitSegmentDropsSeamGain(a: seq<Point>, b: seq<Point>)
    requires |a| > 0 && |b| > 0
    ensures Ascent([Segment(a), Segment(b)]) == SegmentAscent(a + b) - Gain(a[|a| - 1], b[0])
  {
    SegmentAscentJoin(a, b);
    var segs := [Segment(a), Segment(b)];
    assert segs[..1] == [Segment(a)];
    assert segs[..1][..0] == [];
    assert Ascent(segs[..1]) == SegmentAscent(a);
  }

  /** A concrete seam: one point at 0 m and one at 10 m climb 10 m as one
      segment, but 0 m as two one-point segments. */
  lemma SeamIsNotPaired()
    ensures var p := Point(0.0, 0.0, 0.0);
            var q := Point(0.0, 0.0, 10.0);
            Ascent([Segment([p]), Segment([q])]) == 0.0 &&
            Ascent([Segment([p, q])]) == 10.0
  {
    var p := Point(0.0, 0.0, 0.0);
    var q := Point(0.0, 0.0, 10.0);
    SplitSegmentDropsSeamGain([p], [q]);
    assert [p] + [q] == [p, q];
    assert [Segment([p, q])][..0] == [];
  }

  /** Ascent minus descent is the net elevation change of the segment. */
  lemma {:induction false} AscentMinusDescent(pts: seq<Point>)
    requires |pts| > 0
    ensures SegmentAscent(pts) - SegmentDescent(pts) == pts[|pts| - 1].elevation - pts[0].elevation
    decreases |pts|
  {
    if |pts| > 1 {
      var pre := pts[..|pts| - 1];
      AscentMinusDescent(pre);
      assert pre[0] == pts[0];
    }
  }

  /** A segment descends nowhere exactly when its elevations never drop. */
  lemma {:induction false} NoDescentIffNonDecreasing(pts: seq<Point>)
    ensures SegmentDescent(pts) == 0.0 <==> NonDecreasing(pts)
    decreases |pts|
  {
    if |pts| >= 2 {
      var pre := pts[..|pts| - 1];
      NoDescentIffNonDecreasing(pre);
      if NonDecreasing(pts) {
        assert NonDecreasing(pre) by {
          forall i | 0 < i < |pre| ensures pre[i - 1].elevation <= pre[i].elevation {
            assert pts[i - 1].elevation <= pts[i].elevation;
          }
        }
        assert pts[|pts| - 2].elevation <= pts[|pts| - 1].elevation;
      } else if SegmentDescent(pts) == 0.0 {
        assert NonDecreasing(pre);
        assert Loss(pts[|pts| - 2], pts[|pts| - 1]) == 0.0;
        forall i | 0 < i < |pts| ensures pts[i - 1].elevation <= pts[i].elevation {
          if i < |pts| - 1 {
            assert pre[i - 1] == pts[i - 1] && pre[i] == pts[i];
          }
        }
        assert false;
      }
    }
  }

  /** Ascent is at least the net climb from the first to the last point. */
  lemma {:induction false} AscentAtLeastNetClimb(pts: seq<Point>)
    requires |pts| > 0
    ensures SegmentAscent(pts) >= pts[|pts| - 1].elevation - pts[0].elevation
  {
    AscentMinusDescent(pts);
  }

  /** Ascent equals the net climb exactly when the profile never descends. */
  lemma AscentIsNetClimbIffNonDecreasing(pts: seq<Point>)
    requires |pts| > 0
    ensures SegmentAscent(pts) == pts[|pts| - 1].elevation - pts[0].elevation <==> NonDecreasing(pts)
  {
    AscentMinusDescent(pts);
    NoDescentIffNonDecreasing(pts);
  }

  /** The profile 0 m, 10 m, 0 m climbs 10 m: the descent neither cancels the
      climb nor is counted as climbing. */
  lemma PeakProfileClimbsTen(lat: real, lon: real)
    ensures SegmentAscent([Point(lat, lon, 0.0), Point(lat, lon, 10.0), Point(lat, lon, 0.0)]) == 10.0
  {
    var s := [Point(lat, lon, 0.0), Point(lat, lon, 10.0), Point(lat, lon, 0.0)];
    assert s[..2][..1] == [s[0]];
    assert SegmentAscent(s[..2][..1]) == 0.0;
    assert SegmentAscent(s[..2]) == 10.0;
    assert Gain(s[1], s[2]) == 0.0;
  }
}
