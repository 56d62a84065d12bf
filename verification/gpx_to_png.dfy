/** The computational part of `gpx_to_png`: the nested loop that flattens the
    parsed file into coordinate lists while accumulating distance and ascent,
    the waypoint lists, the projection of both to planar coordinates, and the
    figures shown in the overlay. Drawing, the basemap and the image file are
    not modelled; the projection and the 3D distance are parameters. */
module GpxToPng {
  import opened TripStats

  datatype Option<T> = None | Some(value: T)

  /** A map projection of one (longitude, latitude) pair to planar (x, y). */
  type Projection = (real, real) -> (real, real)

  /** What the figure is drawn from: the projected track, the projected
      waypoints, whether waypoint markers are drawn, and the overlay figures. */
  datatype Plot = Plot(x: seq<real>, y: seq<real>,
                       xWaypoints: seq<real>, yWaypoints: seq<real>,
                       waypointMarkers: bool,
                       km: real, ascent: real)

  /** The three coordinate lists hold, position by position, the latitude,
      longitude and elevation of the points `pts`. */
  predicate Flattened(lats: seq<real>, lons: seq<real>, alts: seq<real>, pts: seq<Point>)
  {
    |lats| == |pts| && |lons| == |pts| && |alts| == |pts| &&
    forall k :: 0 <= k < |pts| ==>
      lats[k] == pts[k].latitude && lons[k] == pts[k].longitude && alts[k] == pts[k].elevation
  }

  lemma FlattenedAppend(lats: seq<real>, lons: seq<real>, alts: seq<real>, pts: seq<Point>,
                        lats': seq<real>, lons': seq<real>, alts': seq<real>, pts': seq<Point>)
    requires Flattened(lats, lons, alts, pts) && Flattened(lats', lons', alts', pts')
    ensures Flattened(lats + lats', lons + lons', alts + alts', pts + pts')
  {
    forall k | 0 <= k < |pts + pts'|
      ensures (lats + lats')[k] == (pts + pts')[k].latitude
      ensures (lons + lons')[k] == (pts + pts')[k].longitude
      ensures (alts + alts')[k] == (pts + pts')[k].elevation
    {
      if k >= |pts| {
        assert (pts + pts')[k] == pts'[k - |pts|];
      }
    }
  }

  /** The walk over one segment: every point is appended to the coordinate
      lists, and from the second point on, the distance to and the positive
      elevation change from the previous point are added to the totals. The
      walk starts with no previous point, so nothing is paired across a
      segment boundary. */
  method WalkSegment(segment: Segment, dist: Distance3D)
    returns (lats: seq<real>, lons: seq<real>, alts: seq<real>, distance: real, ascent: real)
    ensures ascent == SegmentAscent(segment.points)
    ensures distance == SegmentDistance(segment.points, dist)
    ensures Flattened(lats, lons, alts, segment.points)
  {
    lats, lons, alts := [], [], [];
    distance, ascent := 0.0, 0.0;
    var pts := segment.points;
    var prev: Option<Point> := None;
    var i := 0;
    while i < |pts|
      invariant 0 <= i <= |pts|
      invariant prev == if i == 0 then None else Some(pts[i - 1])
      invariant ascent == SegmentAscent(pts[..i])
      invariant distance == SegmentDistance(pts[..i], dist)
      invariant Flattened(lats, lons, alts, pts[..i])
    {
      var point := pts[i];
      assert pts[..i + 1][..i] == pts[..i];
      lats := lats + [point.latitude];
      lons := lons + [point.longitude];
      alts := alts + [point.elevation];
      if prev.Some? {
        var p := prev.value;
        distance := distance + dist(point, p);
        var deltaAlt := point.elevation - p.elevation;
        if deltaAlt > 0.0 {
          ascent := ascent + deltaAlt;
        }
      }
      prev := Some(point);
      i := i + 1;
    }
    assert pts[..i] == pts;
  }

  /** The walk over the segments of one track, in order. */
  method WalkTrack(track: Track, dist: Distance3D)
    returns (lats: seq<real>, lons: seq<real>, alts: seq<real>, distance: real, ascent: real)
    ensures ascent == Ascent(track.segments)
    ensures distance == Distance(track.segments, dist)
    ensures Flattened(lats, lons, alts, PointsOf(track.segments))
  {
    lats, lons, alts := [], [], [];
    distance, ascent := 0.0, 0.0;
    var segments := track.segments;
    var si := 0;
    while si < |segments|
      invariant 0 <= si <= |segments|
      invariant ascent == Ascent(segments[..si])
      invariant distance == Distance(segments[..si], dist)
      invariant Flattened(lats, lons, alts, PointsOf(segments[..si]))
    {
      var segment := segments[si];
      var segLats, segLons, segAlts, segDistance, segAscent := WalkSegment(segment, dist);
      assert segments[..si + 1][..si] == segments[..si];
      FlattenedAppend(lats, lons, alts, PointsOf(segments[..si]), segLats, segLons, segAlts, segment.points);
      lats, lons, alts := lats + segLats, lons + segLons, alts + segAlts;
      distance := distance + segDistance;
      ascent := ascent + segAscent;
      si := si + 1;
    }
    assert segments[..si] == segments;
  }

  /** The waypoint walk: latitudes and longitudes in file order. */
  method WalkWaypoints(waypoints: seq<Waypoint>) returns (wpLats: seq<real>, wpLons: seq<real>)
    ensures |wpLats| == |waypoints| && |wpLons| == |waypoints|
    ensures forall k :: 0 <= k < |waypoints| ==>
              wpLats[k] == waypoints[k].latitude && wpLons[k] == waypoints[k].longitude
  {
    wpLats, wpLons := [], [];
    var wi := 0;
    while wi < |waypoints|
      invariant 0 <= wi <= |waypoints|
      invariant |wpLats| == wi && |wpLons| == wi
      invariant forall k :: 0 <= k < wi ==>
                  wpLats[k] == waypoints[k].latitude && wpLons[k] == waypoints[k].longitude
    {
      var wp := waypoints[wi];
      wpLats := wpLats + [wp.latitude];
      wpLons := wpLons + [wp.longitude];
      wi := wi + 1;
    }
  }

  /** The walk over the whole file: the segments of every track in order,
      then the waypoints. The coordinate lists hold every track point in file
      order, as many as the segments hold, and the totals are the
      segment-local folds. */
  method CollectTrackData(gpx: Gpx, dist: Distance3D)
    returns (lats: seq<real>, lons: seq<real>, alts: seq<real>,
             wpLats: seq<real>, wpLons: seq<real>,
             totalDistance: real, totalAscent: real)
    ensures totalAscent == TripAscent(gpx) && totalAscent >= 0.0
    ensures totalDistance == TripDistance(gpx, dist) && totalDistance >= 0.0
    ensures |lats| == PointCount(TripSegments(gpx))
    ensures Flattened(lats, lons, alts, TripPoints(gpx))
    ensures |wpLats| == |wpLons| == |gpx.waypoints|
    ensures forall k :: 0 <= k < |wpLats| ==>
              wpLats[k] == gpx.waypoints[k].latitude && wpLons[k] == gpx.waypoints[k].longitude
  {
    lats, lons, alts := [], [], [];
    totalDistance, totalAscent := 0.0, 0.0;
    var tracks := gpx.tracks;
    var ti := 0;
    while ti < |tracks|
      invariant 0 <= ti <= |tracks|
      invariant totalAscent == Ascent(SegmentsOf(tracks[..ti]))
      invariant totalDistance == Distance(SegmentsOf(tracks[..ti]), dist)
      invariant Flattened(lats, lons, alts, PointsOf(SegmentsOf(tracks[..ti])))
    {
      var track := tracks[ti];
      var trkLats, trkLons, trkAlts, trkDistance, trkAscent := WalkTrack(track, dist);
      ghost var done := SegmentsOf(tracks[..ti]);
      assert tracks[..ti + 1][..ti] == tracks[..ti];
      assert SegmentsOf(tracks[..ti + 1]) == done + track.segments;
      AscentAppend(done, track.segments, dist);
      PointsOfAppend(done, track.segments);
      FlattenedAppend(lats, lons, alts, PointsOf(done), trkLats, trkLons, trkAlts, PointsOf(track.segments));
      lats, lons, alts := lats + trkLats, lons + trkLons, alts + trkAlts;
      totalDistance := totalDistance + trkDistance;
      totalAscent := totalAscent + trkAscent;
      ti := ti + 1;
    }
    assert tracks[..ti] == tracks;
    wpLats, wpLons := WalkWaypoints(gpx.waypoints);
  }

  /** Meters to kilometers, as shown in the overlay. */
  function Km(meters: real): (km: real)
    ensures km * 1000.0 == meters
    ensures meters >= 0.0 ==> 0.0 <= km <= meters
  {
    meters / 1000.0
  }

  /** `proj.transform(lons, lats)`: projects the two coordinate lists pair by
      pair, keeping count and order. */
  function Transform(proj: Projection, lons: seq<real>, lats: seq<real>): (r: (seq<real>, seq<real>))
    requires |lons| == |lats|
    ensures |r.0| == |lons| && |r.1| == |lons|
    ensures forall k :: 0 <= k < |lons| ==> (r.0[k], r.1[k]) == proj(lons[k], lats[k])
  {
    if |lons| == 0 then ([], [])
    else
      var xy := proj(lons[0], lats[0]);
      var rest := Transform(proj, lons[1..], lats[1..]);
      ([xy.0] + rest.0, [xy.1] + rest.1)
  }

  /** The waypoint projection: the transform is only invoked when there are
      waypoints; otherwise both lists stay empty. */
  function ProjectWaypoints(proj: Projection, wpLons: seq<real>, wpLats: seq<real>): (r: (seq<real>, seq<real>))
    requires |wpLons| == |wpLats|
    ensures |r.0| == |wpLons| && |r.1| == |wpLons|
    ensures |wpLons| == 0 ==> r == ([], [])
  {
    if |wpLons| > 0 && |wpLats| > 0 then Transform(proj, wpLons, wpLats) else ([], [])
  }

  /** The data behind one map image: the track drawn as a projected line,
      waypoint markers drawn exactly when the file has waypoints, and the
      overlay figures. */
  method GpxToPlot(gpx: Gpx, dist: Distance3D, proj: Projection) returns (plot: Plot)
    ensures |plot.x| == |plot.y| == PointCount(TripSegments(gpx))
    ensures forall k :: 0 <= k < |plot.x| ==>
              var p := TripPoints(gpx)[k];
              (plot.x[k], plot.y[k]) == proj(p.longitude, p.latitude)
    ensures |plot.xWaypoints| == |plot.yWaypoints| == |gpx.waypoints|
    ensures forall k :: 0 <= k < |plot.xWaypoints| ==>
              var w := gpx.waypoints[k];
              (plot.xWaypoints[k], plot.yWaypoints[k]) == proj(w.longitude, w.latitude)
    ensures plot.waypointMarkers <==> |gpx.waypoints| > 0
    ensures plot.km * 1000.0 == TripDistance(gpx, dist) && plot.km >= 0.0
    ensures plot.ascent == TripAscent(gpx) && plot.ascent >= 0.0
  {
    var lats, lons, alts, wpLats, wpLons, totalDistance, totalAscent := CollectTrackData(gpx, dist);
    var xy := Transform(proj, lons, lats);
    var wpXy := ProjectWaypoints(proj, wpLons, wpLats);
    var markers := |wpXy.0| > 0 && |wpXy.1| > 0;
    plot := Plot(xy.0, xy.1, wpXy.0, wpXy.1, markers, Km(totalDistance), totalAscent);
  }
}
