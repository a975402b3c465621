/** `write_gpx`: the GPX 1.1 file written for one downloaded track. The file is modelled as its
    name and the lines written to it, in order; `format(x, '.7f')` and `str(x)` on floats are
    parameters. */
module Gpx {
  import opened Base
  import opened Points

  datatype GpxFile = GpxFile(name: string, lines: seq<string>)

  function Abs(x: real): real
  {
    if x < 0.0 then -x else x
  }

  /** The device marks a waypoint by adding 100 to the latitude. */
  predicate IsWaypoint(p: Point)
  {
    Abs(p.lat) > 100.0
  }

  predicate IsTrackPoint(p: Point)
  {
    Abs(p.lat) < 100.0
  }

  const XmlDeclaration: string := "<?xml version=\"1.0\" encoding=\"UTF-8\" standalone=\"no\" ?>\n"
  const GpxOpen: string :=
    "<gpx xmlns=\"http://www.topografix.com/GPX/1/1\" creator=\"Py3DG200\" version=\"1.6\""
      + " xmlns:xsi=\"http://www.w3.org/2001/XMLSchema-instance\""
      + " xsi:schemaLocation=\"http://www.topografix.com/GPX/1/1"
      + " http://www.topografix.com/GPX/1/1/gpx.xsd\">\n"
  const Prolog: seq<string> := [XmlDeclaration, GpxOpen]

  const WaypointClose: string := "    </wpt>\n"
  const TrackPointClose: string := "      </trkpt>\n"

  /** One `<wpt>` or `<trkpt>` element: position, time, speed and, for a five-field point only,
      the elevation. */
  function Element(tag: string, indent: string, lat: real, p: Point,
                   fixed7: real -> string, str: real -> string): seq<string>
  {
    [indent + "<" + tag + " lat=\"" + fixed7(lat) + "\" lon=\"" + fixed7(p.lon) + "\">\n",
     indent + "  <time>" + p.time + "</time>\n",
     indent + "  <speed>" + str(p.speed) + "</speed>\n"]
    + (if p.alt.Some? then [indent + "  <ele>" + str(p.alt.value) + "</ele>\n"] else [])
    + [indent + "</" + tag + ">\n"]
  }

  /** The first loop of `write_gpx`: a waypoint for each point with |lat| > 100, at lat - 100. */
  function Waypoints(track: seq<Point>, fixed7: real -> string, str: real -> string): seq<string>
  {
    if track == [] then []
    else
      var p := track[|track| - 1];
      Waypoints(track[..|track| - 1], fixed7, str)
        + (if IsWaypoint(p) then Element("wpt", "    ", p.lat - 100.0, p, fixed7, str) else [])
  }

  /** The second loop: a track point for each point with |lat| < 100. */
  function TrackPoints(track: seq<Point>, fixed7: real -> string, str: real -> string): seq<string>
  {
    if track == [] then []
    else
      var p := track[|track| - 1];
      TrackPoints(track[..|track| - 1], fixed7, str)
        + (if IsTrackPoint(p) then Element("trkpt", "      ", p.lat, p, fixed7, str) else [])
  }

  function TrackOpen(first: Point): seq<string>
  {
    ["  <trk>\n", "    <name>DG-200 " + first.time + "</name>\n", "    <trkseg>\n"]
  }

  const TrackClose: seq<string> := ["    </trkseg>\n", "  </trk>\n", "</gpx>\n"]

  /** The file for a track whose every entry is a point: named after the first point's timestamp. */
  function GpxOf(folder: string, track: seq<Point>, fixed7: real -> string, str: real -> string): GpxFile
    requires track != []
  {
    GpxFile(folder + "/" + track[0].time + ".gpx",
            Prolog + Waypoints(track, fixed7, str) + TrackOpen(track[0])
              + TrackPoints(track, fixed7, str) + TrackClose)
  }

  predicate AllPoints(track: seq<Option<Point>>)
  {
    forall i :: 0 <= i < |track| ==> track[i].Some?
  }

  function Values(track: seq<Option<Point>>): (r: seq<Point>)
    requires AllPoints(track)
    ensures |r| == |track| && forall i :: 0 <= i < |track| ==> r[i] == track[i].value
  {
    if track == [] then [] else Values(track[..|track| - 1]) + [track[|track| - 1].value]
  }

  /** `write_gpx(folder, track)`: `track[0][2]` raises on an empty track and `point[0]` on an entry
      `process_point` left as None. */
  function WriteGpxResult(folder: string, track: seq<Option<Point>>,
                          fixed7: real -> string, str: real -> string): (r: Result<GpxFile>)
    ensures r.Success? <==> track != [] && AllPoints(track)
    ensures r.Success? ==> r.value.name == folder + "/" + track[0].value.time + ".gpx"
  {
    if track == [] || !AllPoints(track) then Failure(Malformed)
    else Success(GpxOf(folder, Values(track), fixed7, str))
  }

  /** One more entry of the track, in the first loop. */
  lemma ExtendValues(track: seq<Option<Point>>, i: nat)
    requires i < |track| && AllPoints(track[..i]) && track[i].Some?
    ensures AllPoints(track[..i + 1])
    ensures var vs, p := Values(track[..i]), track[i].value;
      && Values(track[..i + 1]) == vs + [p]
      && (forall fixed7: real -> string, str: real -> string ::
            Waypoints(vs + [p], fixed7, str) == Waypoints(vs, fixed7, str)
              + (if IsWaypoint(p) then Element("wpt", "    ", p.lat - 100.0, p, fixed7, str) else []))
  {
    assert track[..i + 1][..i] == track[..i];
    var vs, p := Values(track[..i]), track[i].value;
    assert (vs + [p])[..|vs|] == vs;
  }

  /** `write_gpx`: the header, the waypoint loop, the track header, the track point loop and the
      closing tags, in the order they are written. */
  method WriteGpx(folder: string, track: seq<Option<Point>>,
                  fixed7: real -> string, str: real -> string) returns (r: Result<GpxFile>)
    ensures r == WriteGpxResult(folder, track, fixed7, str)
  {
    if |track| == 0 || track[0].None? {
      return Failure(Malformed);
    }
    var first := track[0].value;
    var name := folder + "/" + first.time + ".gpx";
    var lines := Prolog;
    var waypoints := WriteWaypoints(track, fixed7, str);
    if waypoints.None? {
      return Failure(Malformed);
    }
    lines := lines + waypoints.value;
    lines := lines + TrackOpen(first);
    var points := WriteTrackPoints(Values(track), fixed7, str);
    lines := lines + points;
    lines := lines + TrackClose;
    r := Success(GpxFile(name, lines));
  }

  /** The first loop; `abs(point[0])` raises on an entry that is None. */
  method WriteWaypoints(track: seq<Option<Point>>, fixed7: real -> string, str: real -> string)
    returns (r: Option<seq<string>>)
    ensures r.Some? <==> AllPoints(track)
    ensures r.Some? ==> AllPoints(track) && r.value == Waypoints(Values(track), fixed7, str)
  {
    var lines := [];
    for i := 0 to |track|
      invariant AllPoints(track[..i])
      invariant lines == Waypoints(Values(track[..i]), fixed7, str)
    {
      if track[i].None? {
        return None;
      }
      var point := track[i].value;
      ExtendValues(track, i);
      if IsWaypoint(point) {
        lines := lines + Element("wpt", "    ", point.lat - 100.0, point, fixed7, str);
      }
    }
    assert track[..|track|] == track;
    r := Some(lines);
  }

  /** The second loop. */
  method WriteTrackPoints(track: seq<Point>, fixed7: real -> string, str: real -> string)
    returns (lines: seq<string>)
    ensures lines == TrackPoints(track, fixed7, str)
  {
    lines := [];
    for i := 0 to |track|
      invariant lines == TrackPoints(track[..i], fixed7, str)
    {
      var point := track[i];
      assert track[..i + 1][..i] == track[..i];
      if IsTrackPoint(point) {
        lines := lines + Element("trkpt", "      ", point.lat, point, fixed7, str);
      }
    }
    assert track[..|track|] == track;
  }

  // ---- which points become which elements -------------------------------------------------

  /** The points of `track` that `keep` selects, in their order. */
  function Filter(track: seq<Point>, keep: Point -> bool): (r: seq<Point>)
    ensures |r| <= |track|
  {
    if track == [] then []
    else Filter(track[..|track| - 1], keep) + (if keep(track[|track| - 1]) then [track[|track| - 1]] else [])
  }

  /** One element per point, in order, at its latitude less `shift`. */
  function Elements(tag: string, indent: string, shift: real, ps: seq<Point>,
                    fixed7: real -> string, str: real -> string): seq<string>
  {
    if ps == [] then []
    else
      var p := ps[|ps| - 1];
      Elements(tag, indent, shift, ps[..|ps| - 1], fixed7, str) + Element(tag, indent, p.lat - shift, p, fixed7, str)
  }

  lemma ElementsSnoc(tag: string, indent: string, shift: real, ps: seq<Point>, p: Point,
                     fixed7: real -> string, str: real -> string)
    ensures Elements(tag, indent, shift, ps + [p], fixed7, str)
      == Elements(tag, indent, shift, ps, fixed7, str) + Element(tag, indent, p.lat - shift, p, fixed7, str)
  {
    assert (ps + [p])[..|ps|] == ps;
  }

  /** The waypoint loop writes one `<wpt>` per point with |lat| > 100, in track order, at lat - 100. */
  lemma {:induction false} WaypointsInOrder(track: seq<Point>, fixed7: real -> string, str: real -> string)
    ensures Waypoints(track, fixed7, str) == Elements("wpt", "    ", 100.0, Filter(track, IsWaypoint), fixed7, str)
  {
    if track != [] {
      var init, p := track[..|track| - 1], track[|track| - 1];
      WaypointsInOrder(init, fixed7, str);
      var before := Filter(init, IsWaypoint);
      if IsWaypoint(p) {
        assert Filter(track, IsWaypoint) == before + [p];
        assert Waypoints(track, fixed7, str)
          == Waypoints(init, fixed7, str) + Element("wpt", "    ", p.lat - 100.0, p, fixed7, str);
        ElementsSnoc("wpt", "    ", 100.0, before, p, fixed7, str);
      } else {
        assert Filter(track, IsWaypoint) == before + [] == before;
        assert Waypoints(track, fixed7, str) == Waypoints(init, fixed7, str) + [];
      }
    }
  }

  /** The track point loop writes one `<trkpt>` per point with |lat| < 100, in track order, at its
      latitude. */
  lemma {:induction false} TrackPointsInOrder(track: seq<Point>, fixed7: real -> string, str: real -> string)
    ensures TrackPoints(track, fixed7, str) == Elements("trkpt", "      ", 0.0, Filter(track, IsTrackPoint), fixed7, str)
  {
    if track != [] {
      var init, p := track[..|track| - 1], track[|track| - 1];
      TrackPointsInOrder(init, fixed7, str);
      var before := Filter(init, IsTrackPoint);
      if IsTrackPoint(p) {
        assert Filter(track, IsTrackPoint) == before + [p];
        assert TrackPoints(track, fixed7, str)
          == TrackPoints(init, fixed7, str) + Element("trkpt", "      ", p.lat, p, fixed7, str);
        ElementsSnoc("trkpt", "      ", 0.0, before, p, fixed7, str);
        assert p.lat - 0.0 == p.lat;
      } else {
        assert Filter(track, IsTrackPoint) == before + [] == before;
        assert TrackPoints(track, fixed7, str) == TrackPoints(init, fixed7, str) + [];
      }
    }
  }

  /** A waypoint stored at latitude 148 and a track point at 48: one `<wpt>` at 48 and one `<trkpt>` at 48. */
  lemma WaypointAndTrackPoint(w: Point, t: Point, fixed7: real -> string, str: real -> string)
    requires w.lat == 148.0 && t.lat == 48.0
    ensures Waypoints([w, t], fixed7, str) == Element("wpt", "    ", 48.0, w, fixed7, str)
    ensures TrackPoints([w, t], fixed7, str) == Element("trkpt", "      ", 48.0, t, fixed7, str)
  {
    assert [w, t][..1] == [w] && [w][..0] == [];
    assert IsWaypoint(w) && !IsWaypoint(t) && !IsTrackPoint(w) && IsTrackPoint(t);
    assert Waypoints([w], fixed7, str) == [] + Element("wpt", "    ", 48.0, w, fixed7, str);
    assert Waypoints([w, t], fixed7, str) == Waypoints([w], fixed7, str) + [];
    assert TrackPoints([w], fixed7, str) == [] + [];
    assert TrackPoints([w, t], fixed7, str) == TrackPoints([w], fixed7, str) + Element("trkpt", "      ", 48.0, t, fixed7, str);
  }

  function CountLine(lines: seq<string>, line: string): nat
  {
    if lines == [] then 0
    else CountLine(lines[..|lines| - 1], line) + (if lines[|lines| - 1] == line then 1 else 0)
  }

  lemma {:induction false} CountLineAppend(a: seq<string>, b: seq<string>, line: string)
    ensures CountLine(a + b, line) == CountLine(a, line) + CountLine(b, line)
    decreases |b|
  {
    if b == [] {
      assert a + b == a;
    } else {
      assert (a + b)[..|a + b| - 1] == a + b[..|b| - 1];
      CountLineAppend(a, b[..|b| - 1], line);
    }
  }

  function NumWaypoints(track: seq<Point>): nat
  {
    if track == [] then 0
    else NumWaypoints(track[..|track| - 1]) + (if IsWaypoint(track[|track| - 1]) then 1 else 0)
  }

  function NumTrackPoints(track: seq<Point>): nat
  {
    if track == [] then 0
    else NumTrackPoints(track[..|track| - 1]) + (if IsTrackPoint(track[|track| - 1]) then 1 else 0)
  }

  /** No point is both a waypoint and a track point; the points left out of the file are exactly
      those with |lat| == 100. */
  lemma {:induction false} PartitionCounts(track: seq<Point>)
    ensures NumWaypoints(track) + NumTrackPoints(track) <= |track|
    ensures NumWaypoints(track) + NumTrackPoints(track) == |track| <==>
      forall i :: 0 <= i < |track| ==> Abs(track[i].lat) != 100.0
  {
    if track != [] {
      var init := track[..|track| - 1];
      PartitionCounts(init);
      assert forall i :: 0 <= i < |init| ==> init[i] == track[i];
    }
  }

  lemma {:induction false} CountAbsent(lines: seq<string>, line: string)
    requires forall i :: 0 <= i < |lines| ==> lines[i] != line
    ensures CountLine(lines, line) == 0
  {
    if lines != [] {
      CountAbsent(lines[..|lines| - 1], line);
    }
  }

  /** A waypoint element closes with the waypoint closing tag once and holds no track point
      closing tag. */
  lemma WaypointElementCloses(lat: real, p: Point, fixed7: real -> string, str: real -> string)
    ensures var w := Element("wpt", "    ", lat, p, fixed7, str);
      CountLine(w, WaypointClose) == 1 && CountLine(w, TrackPointClose) == 0
  {
    var w := Element("wpt", "    ", lat, p, fixed7, str);
    var wb := w[..|w| - 1];
    assert "    " + "</" + "wpt" + ">\n" == WaypointClose;
    assert w == wb + [WaypointClose];
    assert forall i :: 0 <= i < |wb| ==> (wb[i][4] == '<' && wb[i][5] == 'w') || (wb[i][4] == ' ' && wb[i][7] != '/') by {
      assert wb[0][4] == '<' && wb[0][5] == 'w';
      assert wb[1][4] == ' ' && wb[1][7] == 't' && wb[2][4] == ' ' && wb[2][7] == 's';
      assert |wb| == 4 ==> wb[3][4] == ' ' && wb[3][7] == 'e';
    }
    assert WaypointClose[4] == '<' && WaypointClose[5] == '/' && TrackPointClose[4] == ' ' && TrackPointClose[7] == '/';
    CountAbsent(wb, WaypointClose);
    CountAbsent(wb, TrackPointClose);
    CountLineAppend(wb, [WaypointClose], WaypointClose);
    CountLineAppend(wb, [WaypointClose], TrackPointClose);
  }

  /** A track point element closes with the track point closing tag once and holds no waypoint
      closing tag. */
  lemma TrackPointElementCloses(lat: real, p: Point, fixed7: real -> string, str: real -> string)
    ensures var t := Element("trkpt", "      ", lat, p, fixed7, str);
      CountLine(t, WaypointClose) == 0 && CountLine(t, TrackPointClose) == 1
  {
    var t := Element("trkpt", "      ", lat, p, fixed7, str);
    var tb := t[..|t| - 1];
    assert "      " + "</" + "trkpt" + ">\n" == TrackPointClose;
    assert t == tb + [TrackPointClose];
    assert forall i :: 0 <= i < |tb| ==> tb[i][4] == ' ' && tb[i][7] != '/' by {
      assert tb[0][4] == ' ' && tb[0][7] == 't';
      assert tb[1][4] == ' ' && tb[1][7] == ' ' && tb[2][4] == ' ' && tb[2][7] == ' ';
      assert |tb| == 4 ==> tb[3][4] == ' ' && tb[3][7] == ' ';
    }
    assert WaypointClose[4] == '<' && TrackPointClose[7] == '/';
    CountAbsent(tb, WaypointClose);
    CountAbsent(tb, TrackPointClose);
    CountLineAppend(tb, [TrackPointClose], WaypointClose);
    CountLineAppend(tb, [TrackPointClose], TrackPointClose);
  }

  lemma {:induction false} WaypointsCloses(track: seq<Point>, fixed7: real -> string, str: real -> string)
    ensures CountLine(Waypoints(track, fixed7, str), WaypointClose) == NumWaypoints(track)
    ensures CountLine(Waypoints(track, fixed7, str), TrackPointClose) == 0
  {
    if track != [] {
      var p := track[|track| - 1];
      var init := track[..|track| - 1];
      WaypointsCloses(init, fixed7, str);
      var e := if IsWaypoint(p) then Element("wpt", "    ", p.lat - 100.0, p, fixed7, str) else [];
      WaypointElementCloses(p.lat - 100.0, p, fixed7, str);
      CountLineAppend(Waypoints(init, fixed7, str), e, WaypointClose);
      CountLineAppend(Waypoints(init, fixed7, str), e, TrackPointClose);
    }
  }

  lemma {:induction false} TrackPointsCloses(track: seq<Point>, fixed7: real -> string, str: real -> string)
    ensures CountLine(TrackPoints(track, fixed7, str), TrackPointClose) == NumTrackPoints(track)
    ensures CountLine(TrackPoints(track, fixed7, str), WaypointClose) == 0
  {
    if track != [] {
      var p := track[|track| - 1];
      var init := track[..|track| - 1];
      TrackPointsCloses(init, fixed7, str);
      var e := if IsTrackPoint(p) then Element("trkpt", "      ", p.lat, p, fixed7, str) else [];
      TrackPointElementCloses(p.lat, p, fixed7, str);
      CountLineAppend(TrackPoints(init, fixed7, str), e, WaypointClose);
      CountLineAppend(TrackPoints(init, fixed7, str), e, TrackPointClose);
    }
  }

  /** The fixed lines of the file contain neither closing tag. */
  lemma FixedLinesClean(first: Point)
    ensures CountLine(Prolog, WaypointClose) == 0 && CountLine(Prolog, TrackPointClose) == 0
    ensures CountLine(TrackOpen(first), WaypointClose) == 0 && CountLine(TrackOpen(first), TrackPointClose) == 0
    ensures CountLine(TrackClose, WaypointClose) == 0 && CountLine(TrackClose, TrackPointClose) == 0
  {
    assert WaypointClose[0] == ' ' && WaypointClose[2] == ' ' && WaypointClose[4] == '<';
    assert WaypointClose[5] == '/' && WaypointClose[6] == 'w';
    assert TrackPointClose[0] == ' ' && TrackPointClose[2] == ' ' && TrackPointClose[4] == ' ';
    assert |XmlDeclaration| > 20 && |GpxOpen| > 20;
    var open := TrackOpen(first);
    assert open[0][2] == '<' && open[1][4] == '<' && open[1][5] == 'n' && open[2][4] == '<' && open[2][5] == 't';
    assert TrackClose[0][4] == '<' && TrackClose[0][6] == 't' && TrackClose[1][2] == '<' && TrackClose[2][0] == '<';
    CountAbsent(Prolog, WaypointClose);
    CountAbsent(Prolog, TrackPointClose);
    CountAbsent(open, WaypointClose);
    CountAbsent(open, TrackPointClose);
    CountAbsent(TrackClose, WaypointClose);
    CountAbsent(TrackClose, TrackPointClose);
  }

  /** The file holds one waypoint per point with |lat| > 100 and one track point per point with
      |lat| < 100, and nothing else closes either kind of element. */
  lemma GpxElementCounts(folder: string, track: seq<Point>, fixed7: real -> string, str: real -> string)
    requires track != []
    ensures var lines := GpxOf(folder, track, fixed7, str).lines;
      && CountLine(lines, WaypointClose) == NumWaypoints(track)
      && CountLine(lines, TrackPointClose) == NumTrackPoints(track)
  {
    var w := Waypoints(track, fixed7, str);
    var t := TrackPoints(track, fixed7, str);
    WaypointsCloses(track, fixed7, str);
    TrackPointsCloses(track, fixed7, str);
    FixedLinesClean(track[0]);
    var open := TrackOpen(track[0]);
    CountLineAppend(Prolog, w, WaypointClose);
    CountLineAppend(Prolog + w, open, WaypointClose);
    CountLineAppend(Prolog + w + open, t, WaypointClose);
    CountLineAppend(Prolog + w + open + t, TrackClose, WaypointClose);
    CountLineAppend(Prolog, w, TrackPointClose);
    CountLineAppend(Prolog + w, open, TrackPointClose);
    CountLineAppend(Prolog + w + open, t, TrackPointClose);
    CountLineAppend(Prolog + w + open + t, TrackClose, TrackPointClose);
  }
}
