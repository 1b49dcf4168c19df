/** The last stage of the flight-plan route source (plot.cpp:769-861): each point
    adds the slice of its airway, SID or STAR geometry that leads to it, then a node
    of its own. */
module Stitcher {
  import opened Common
  import opened Grammar
  import opened Resolver

  /** A stitched route, the message of the first error, or a path the C++ leaves undefined. */
  datatype Outcome = Built(route: Route) | Failed(error: string) | Undefined

  /** The geometry a connector is read from. */
  datatype Geometry = SidGeometry | StarGeometry | AirwayGeometry

  /** The pass's result once `ades` is appended to a non-empty STAR (plot.cpp:769). */
  function Finish(st: Scan): (r: Scan)
    ensures r.(star := st.star) == st
    ensures st.star == [] ==> r.star == []
    ensures st.star != [] ==> |r.star| == |st.star| + 1 && r.star[..|st.star|] == st.star && r.star[|st.star|] == st.ades
  {
    if st.star != [] then st.(star := st.star + [st.ades]) else st
  }

  /** `std::find` with IEEE equality: the first index whose position equals `p`. */
  function IndexOf(ats: seq<Pos>, p: Pos): (r: Option<nat>)
    ensures r.Some? ==> r.value < |ats| && Same(ats[r.value], p) &&
                        forall k :: 0 <= k < r.value ==> !Same(ats[k], p)
    ensures r.None? ==> forall k :: 0 <= k < |ats| ==> !Same(ats[k], p)
  {
    if ats == [] then None
    else if Same(ats[0], p) then Some(0)
    else match IndexOf(ats[1..], p)
      case None => None
      case Some(k) => Some(k + 1)
  }

  /** `Node(lat, lon)` for every position, in order. */
  function Plain(ps: seq<Pos>): (r: Route)
    ensures |r| == |ps| && forall k :: 0 <= k < |ps| ==> r[k] == PlainNode(ps[k])
  {
    seq(|ps|, k requires 0 <= k < |ps| => PlainNode(ps[k]))
  }

  function Reversed(ps: seq<Pos>): (r: seq<Pos>)
    ensures |r| == |ps| && forall k :: 0 <= k < |ps| ==> r[k] == ps[|ps| - 1 - k]
  {
    seq(|ps|, k requires 0 <= k < |ps| => ps[|ps| - 1 - k])
  }

  /** The node a point contributes: at its segment end, with its hold unless the length
      is 0, and labelled with its name unless the name starts with a digit. */
  function PointNode(p: Point, at: Pos): Node
  {
    Node(at.lat, at.lon, false, if IsDigit(At(p.name, 0)) then [] else p.name,
         if p.hold.Some? && p.hold.value.length != 0 then p.hold else None)
  }

  /** Where point `i` ends its segment: the departure aerodrome for the first point of a
      SID, the arrival aerodrome for the last point of a STAR, else its resolved position. */
  function SegmentEnd(points: seq<Point>, st: Scan, i: nat): Result<Pos>
    requires i < |points|
  {
    if i == 0 && st.sid != [] then Ok(st.adep)
    else if i == |points| - 1 && st.star != [] then Ok(st.ades)
    else
      var name := points[i].name;
      if name in st.positions && st.positions[name].lat.Deg? then Ok(st.positions[name])
      else Err("could not find point '" + name + "'")
  }

  /** A SID's first point ends at the departure aerodrome and a STAR's last point at the
      arrival aerodrome, even when the pass never set it (then it is unresolved); any
      other point ends at its resolved position, and one whose latitude is NaN (a named
      point the database did not give) is "could not find point". */
  lemma SegmentEnds(points: seq<Point>, st: Scan, i: nat)
    requires i < |points|
    ensures var r := SegmentEnd(points, st, i);
      (i == 0 && st.sid != [] ==> r == Ok(st.adep)) &&
      (!(i == 0 && st.sid != []) && i == |points| - 1 && st.star != [] ==> r == Ok(st.ades)) &&
      (!(i == 0 && st.sid != []) && !(i == |points| - 1 && st.star != []) ==>
         (r.Ok? ==> points[i].name in st.positions && r.value == st.positions[points[i].name] && r.value.lat.Deg?) &&
         (r.Err? ==> r.error == "could not find point '" + points[i].name + "'"))
  {
  }

  /** The geometry connector `c` into point `i` is read from. */
  function GeometryFor(points: seq<Point>, st: Scan, i: nat, c: string): (r: Result<(Geometry, seq<Pos>)>)
    ensures r.Ok? && r.value.0 != AirwayGeometry ==> |r.value.1| > 0
  {
    if i == 1 && st.sid != [] then Ok((SidGeometry, st.sid))
    else if i == |points| - 1 && st.star != [] then Ok((StarGeometry, st.star))
    else if c in st.airways then Ok((AirwayGeometry, st.airways[c]))
    else Err("could not find airway '" + c + "'")
  }

  /** The nodes between the `from` and `to` indices: forwards from `from` (SID, STAR) or
      from `from + 1` (airway) up to `to`, else backwards strictly between them. */
  function Between(ats: seq<Pos>, g: Geometry, from: nat, to: nat): (r: Outcome)
    requires from < |ats| && to <= |ats|
    ensures !r.Failed?
    ensures r.Undefined? <==> from == 0 && to == 0
    ensures r.Built? ==> |r.route| <= |ats| && forall n :: n in r.route ==> exists k :: 0 <= k < |ats| && n == PlainNode(ats[k])
  {
    if from < to then Built(Plain(ats[if g == AirwayGeometry then from + 1 else from..to]))
    else if from == 0 then Undefined
    else if from > to + 1 then Built(Plain(Reversed(ats[to + 1..from])))
    else Built([])
  }

  /** What connector `i - 1` inserts between points `i - 1` and `i`. */
  function Insert(points: seq<Point>, conns: seq<Option<string>>, st: Scan, i: nat, start: Pos, end: Pos): Outcome
    requires 0 < i < |points| && |conns| == |points| - 1
  {
    match conns[i - 1]
    case None => Built([])
    case Some(c) =>
      match GeometryFor(points, st, i, c)
      case Err(e) => Failed(e)
      case Ok((g, ats)) =>
        var from := if g == SidGeometry then Some(0) else IndexOf(ats, start);
        var to := if g == StarGeometry then Some(|ats|) else IndexOf(ats, end);
        if from.None? then Failed("discontinuity (" + points[i - 1].name + " to " + c + ")")
        else if to.None? then Failed("discontinuity (" + c + " to " + points[i].name + ")")
        else Between(ats, g, from.value, to.value)
  }

  /** The point loop from point `i`, `start` being the previous segment end. */
  function StitchFrom(points: seq<Point>, conns: seq<Option<string>>, st: Scan, i: nat, start: Pos, route: Route): (r: Outcome)
    requires i <= |points| && |conns| == |points| - 1
    ensures r.Built? ==> |r.route| >= |route| + |points| - i
    decreases |points| - i
  {
    if i == |points| then Built(route)
    else
      match SegmentEnd(points, st, i)
      case Err(e) => Failed(e)
      case Ok(end) =>
        match (if i > 0 then Insert(points, conns, st, i, start, end) else Built([]))
        case Failed(e) => Failed(e)
        case Undefined => Undefined
        case Built(nodes) => StitchFrom(points, conns, st, i + 1, end, route + nodes + [PointNode(points[i], end)])
  }

  /** The whole point loop, over the pass's result. */
  function Stitch(points: seq<Point>, conns: seq<Option<string>>, st: Scan): Outcome
    requires |conns| == |points| - 1
  {
    StitchFrom(points, conns, Finish(st), 0, Unresolved, [])
  }

  // ---------------------------------------------------------------------------
  // The loops

  /** `for (it = lo; it < hi; it++) route.push_back(*it)`. */
  method EmitForward(route: Route, ats: seq<Pos>, lo: nat, hi: nat) returns (r: Route)
    requires lo <= hi <= |ats|
    ensures r == route + Plain(ats[lo..hi])
  {
    r := route;
    var k := lo;
    while k < hi
      invariant lo <= k <= hi
      invariant r == route + Plain(ats[lo..k])
    {
      assert Plain(ats[lo..k + 1]) == Plain(ats[lo..k]) + [PlainNode(ats[k])];
      r := r + [PlainNode(ats[k])];
      k := k + 1;
    }
  }

  /** `for (it = from - 1; it > to; it--) route.push_back(*it)`. */
  method EmitBackward(route: Route, ats: seq<Pos>, from: nat, to: nat) returns (r: Route)
    requires to < from <= |ats|
    ensures from > to + 1 ==> r == route + Plain(Reversed(ats[to + 1..from]))
    ensures from == to + 1 ==> r == route
  {
    r := route;
    var k := from - 1;
    while k > to
      invariant to <= k < from
      invariant r == route + Plain(Reversed(ats[k + 1..from]))
    {
      assert Plain(Reversed(ats[k..from])) == Plain(Reversed(ats[k + 1..from])) + [PlainNode(ats[k])];
      r := r + [PlainNode(ats[k])];
      k := k - 1;
    }
    assert ats[to + 1..from] == ats[k + 1..from];
  }

  /** The connector step of plot.cpp:787-836 for point `i`. */
  method InsertNodes(points: seq<Point>, conns: seq<Option<string>>, st: Scan, i: nat, start: Pos, end: Pos, route: Route)
    returns (res: Outcome)
    requires 0 < i < |points| && |conns| == |points| - 1
    ensures res == match Insert(points, conns, st, i, start, end)
      case Built(nodes) => Built(route + nodes)
      case Failed(e) => Failed(e)
      case Undefined => Undefined
  {
    if conns[i - 1].None? {
      return Built(route);
    }
    var c := conns[i - 1].value;
    var found := GeometryFor(points, st, i, c);
    if found.Err? {
      return Failed(found.error);
    }
    var (g, ats) := found.value;
    var from, to := 0, |ats|;
    if g != SidGeometry {
      var f := IndexOf(ats, start);
      if f.None? {
        return Failed("discontinuity (" + points[i - 1].name + " to " + c + ")");
      }
      from := f.value;
    }
    if g != StarGeometry {
      var t := IndexOf(ats, end);
      if t.None? {
        return Failed("discontinuity (" + c + " to " + points[i].name + ")");
      }
      to := t.value;
    }
    if from < to {
      var r := EmitForward(route, ats, if g == AirwayGeometry then from + 1 else from, to);
      return Built(r);
    }
    if from == 0 {
      return Undefined;
    }
    if from == to {
      assert route + [] == route;
      return Built(route);
    }
    var r := EmitBackward(route, ats, from, to);
    assert route + [] == route;
    return Built(r);
  }

  /** The point loop of plot.cpp:773-861, proved to compute `Stitch`. */
  method StitchRoute(points: seq<Point>, conns: seq<Option<string>>, scanned: Scan) returns (res: Outcome)
    requires |conns| == |points| - 1
    ensures res == Stitch(points, conns, scanned)
  {
    var st := scanned;
    if st.star != [] {
      st := st.(star := st.star + [st.ades]);
    }
    assert st == Finish(scanned);
    var route: Route := [];
    var start := Unresolved;
    for i := 0 to |points|
      invariant StitchFrom(points, conns, st, i, start, route) == Stitch(points, conns, scanned)
    {
      var end := SegmentEnd(points, st, i);
      if end.Err? {
        return Failed(end.error);
      }
      var before := route;
      if i > 0 {
        var ins := InsertNodes(points, conns, st, i, start, end.value, route);
        if !ins.Built? {
          return ins;
        }
        route := ins.route;
        assert route == before + Insert(points, conns, st, i, start, end.value).route;
      } else {
        assert route == before + [];
      }
      route := route + [PointNode(points[i], end.value)];
      start := end.value;
    }
    return Built(route);
  }

  // ---------------------------------------------------------------------------
  // What the point loop guarantees

  /** The node a point contributes sits at its segment end, carries the point's hold
      exactly when its length is not 0, and is labelled with the name exactly when the
      name does not start with a digit. */
  lemma PointNodeShape(p: Point, at: Pos)
    ensures var n := PointNode(p, at);
      n.lat == at.lat && n.lon == at.lon && !n.highlight &&
      (n.hold.Some? <==> p.hold.Some? && p.hold.value.length != 0) && (n.hold.Some? ==> n.hold == p.hold) &&
      (n.text == [] || (n.text == p.name && !IsDigit(p.name[0]))) &&
      (|p.name| > 0 && !IsDigit(p.name[0]) ==> n.text == p.name)
  {
  }

  /** `DCT` inserts nothing; any other connector fails only with "could not find airway"
      or one of the two discontinuity messages, naming that connector. */
  lemma InsertErrors(points: seq<Point>, conns: seq<Option<string>>, st: Scan, i: nat, start: Pos, end: Pos)
    requires 0 < i < |points| && |conns| == |points| - 1
    ensures var r := Insert(points, conns, st, i, start, end);
      (conns[i - 1].None? ==> r == Built([])) &&
      (r.Failed? ==> conns[i - 1].Some?) &&
      (r.Failed? ==>
         r.error in {"could not find airway '" + conns[i - 1].value + "'",
                     "discontinuity (" + points[i - 1].name + " to " + conns[i - 1].value + ")",
                     "discontinuity (" + conns[i - 1].value + " to " + points[i].name + ")"})
  {
  }

  /** `f` is the first index of `ats` holding a position equal to `p`. */
  predicate FirstIndex(ats: seq<Pos>, p: Pos, f: nat)
  {
    f < |ats| && Same(ats[f], p) && forall k :: 0 <= k < f ==> !Same(ats[k], p)
  }

  lemma IndexOfFirst(ats: seq<Pos>, p: Pos, f: nat)
    requires FirstIndex(ats, p, f)
    ensures IndexOf(ats, p) == Some(f)
  {
  }

  /** Between the first occurrences `f` of the start and `t` of the end, an airway
      inserts the positions strictly between them, ascending when the start comes
      first and descending when it comes second; it is undefined only when both are
      the first position. */
  lemma AirwaySlice(ats: seq<Pos>, f: nat, t: nat)
    requires f < |ats| && t < |ats|
    ensures var r := Between(ats, AirwayGeometry, f, t);
      (f < t ==> r.Built? && |r.route| == t - f - 1 &&
                 forall k :: 0 <= k < t - f - 1 ==> r.route[k] == PlainNode(ats[f + 1 + k])) &&
      (t < f ==> r.Built? && |r.route| == f - t - 1 &&
                 forall k :: 0 <= k < f - t - 1 ==> r.route[k] == PlainNode(ats[f - 1 - k])) &&
      (f == t ==> r == if f == 0 then Undefined else Built([]))
  {
    if t + 1 < f {
      var r := Reversed(ats[t + 1..f]);
      assert forall k :: 0 <= k < f - t - 1 ==> r[k] == ats[f - 1 - k];
    }
  }

  /** A named airway (neither the SID nor the STAR) between points `i - 1` and `i`: an
      endpoint missing from its geometry is a discontinuity, reported for the start
      first; otherwise the airway's slice between the endpoints' first occurrences. */
  lemma AirwaySegment(points: seq<Point>, conns: seq<Option<string>>, st: Scan, i: nat,
                      start: Pos, end: Pos, f: nat, t: nat)
    requires 0 < i < |points| && |conns| == |points| - 1 && conns[i - 1].Some?
    requires !(i == 1 && st.sid != []) && !(i == |points| - 1 && st.star != [])
    requires conns[i - 1].value in st.airways
    ensures var c := conns[i - 1].value;
      var ats := st.airways[c];
      var r := Insert(points, conns, st, i, start, end);
      ((forall k :: 0 <= k < |ats| ==> !Same(ats[k], start)) ==>
         r == Failed("discontinuity (" + points[i - 1].name + " to " + c + ")")) &&
      (FirstIndex(ats, start, f) && (forall k :: 0 <= k < |ats| ==> !Same(ats[k], end)) ==>
         r == Failed("discontinuity (" + c + " to " + points[i].name + ")")) &&
      (FirstIndex(ats, start, f) && FirstIndex(ats, end, t) ==> r == Between(ats, AirwayGeometry, f, t))
  {
    var c := conns[i - 1].value;
    var ats := st.airways[c];
    assert GeometryFor(points, st, i, c) == Ok((AirwayGeometry, ats));
    if FirstIndex(ats, start, f) {
      IndexOfFirst(ats, start, f);
      if FirstIndex(ats, end, t) {
        IndexOfFirst(ats, end, t);
      }
    }
  }

  /** The SID into the second point inserts its positions from the first up to, not
      including, the first one equal to the point's position (undefined when that is the
      first); the STAR out of the second-to-last point inserts its positions from the first
      one equal to the previous segment end through its final (arrival) position.  A
      procedure that misses the point (SID) or the previous segment end (STAR) is a
      discontinuity. */
  lemma ProcedureSegments(points: seq<Point>, conns: seq<Option<string>>, st: Scan, i: nat,
                          start: Pos, end: Pos, f: nat, t: nat)
    requires 0 < i < |points| && |conns| == |points| - 1 && conns[i - 1].Some?
    ensures var r := Insert(points, conns, st, i, start, end);
      (i == 1 && st.sid != [] && FirstIndex(st.sid, end, t) ==>
         r == if t == 0 then Undefined else Built(Plain(st.sid[..t]))) &&
      (i == 1 && st.sid != [] && (forall k :: 0 <= k < |st.sid| ==> !Same(st.sid[k], end)) ==>
         r == Failed("discontinuity (" + conns[i - 1].value + " to " + points[i].name + ")")) &&
      (!(i == 1 && st.sid != []) && i == |points| - 1 && st.star != [] && FirstIndex(st.star, start, f) ==>
         r == Built(Plain(st.star[f..]))) &&
      (!(i == 1 && st.sid != []) && i == |points| - 1 && st.star != [] &&
       (forall k :: 0 <= k < |st.star| ==> !Same(st.star[k], start)) ==>
         r == Failed("discontinuity (" + points[i - 1].name + " to " + conns[i - 1].value + ")"))
  {
    var c := conns[i - 1].value;
    if i == 1 && st.sid != [] {
      assert GeometryFor(points, st, i, c) == Ok((SidGeometry, st.sid));
      if FirstIndex(st.sid, end, t) {
        IndexOfFirst(st.sid, end, t);
      }
    } else if i == |points| - 1 && st.star != [] {
      assert GeometryFor(points, st, i, c) == Ok((StarGeometry, st.star));
      if FirstIndex(st.star, start, f) {
        IndexOfFirst(st.star, start, f);
      }
    }
  }

  /** Every connector that is not `DCT` has an airway entry: then the "could not find
      airway" error cannot occur. */
  lemma AirwayAlwaysFound(points: seq<Point>, conns: seq<Option<string>>, st: Scan, i: nat, start: Pos, end: Pos)
    requires 0 < i < |points| && |conns| == |points| - 1
    requires forall k :: 0 <= k < |conns| && conns[k].Some? ==> conns[k].value in st.airways
    ensures conns[i - 1].Some? ==>
      Insert(points, conns, st, i, start, end) != Failed("could not find airway '" + conns[i - 1].value + "'")
  {
    if conns[i - 1].Some? {
      var c := conns[i - 1].value;
      var msg := "could not find airway '" + c + "'";
      assert GeometryFor(points, st, i, c).Ok?;
      var r := Insert(points, conns, st, i, start, end);
      if r.Failed? {
        // With a geometry found, only the two discontinuities remain.
        assert r.error == "discontinuity (" + points[i - 1].name + " to " + c + ")" ||
               r.error == "discontinuity (" + c + " to " + points[i].name + ")";
        assert r.error[..13] == "discontinuity" != "could not fin" == msg[..13];
      }
    }
  }

  /** The nodes of a route whose points all resolve, one per point from `i`. */
  function PointNodes(points: seq<Point>, st: Scan, i: nat): (r: Route)
    requires i <= |points| && forall k :: i <= k < |points| ==> SegmentEnd(points, st, k).Ok?
    ensures |r| == |points| - i
    ensures forall k :: 0 <= k < |r| ==> r[k] == PointNode(points[i + k], SegmentEnd(points, st, i + k).value)
    decreases |points| - i
  {
    if i == |points| then []
    else [PointNode(points[i], SegmentEnd(points, st, i).value)] + PointNodes(points, st, i + 1)
  }

  /** A route whose connectors are all `DCT` gets exactly one node per point, at that
      point's segment end, once every point resolves. */
  lemma {:induction false} DirectRoute(points: seq<Point>, conns: seq<Option<string>>, st: Scan, i: nat,
                                       start: Pos, route: Route)
    requires i <= |points| && |conns| == |points| - 1
    requires forall k :: 0 <= k < |conns| ==> conns[k].None?
    requires forall k :: i <= k < |points| ==> SegmentEnd(points, st, k).Ok?
    ensures StitchFrom(points, conns, st, i, start, route) == Built(route + PointNodes(points, st, i))
    decreases |points| - i
  {
    if i < |points| {
      var end := SegmentEnd(points, st, i).value;
      var route' := route + [PointNode(points[i], end)];
      if i > 0 {
        assert Insert(points, conns, st, i, start, end) == Built([]);
      }
      assert route + [] + [PointNode(points[i], end)] == route';
      DirectRoute(points, conns, st, i + 1, end, route');
      assert route' + PointNodes(points, st, i + 1) == route + PointNodes(points, st, i);
    } else {
      assert route + [] == route;
    }
  }

  /** Whether the point loop from point `i`, `start` being the previous segment end,
      gets past point `j - 1`: every point before `j` resolves and every airway, SID
      or STAR before it is stitched. */
  predicate Builds(points: seq<Point>, conns: seq<Option<string>>, st: Scan, i: nat, start: Pos, j: nat)
    requires i <= j <= |points| && |conns| == |points| - 1
    decreases j - i
  {
    i == j ||
    (SegmentEnd(points, st, i).Ok? &&
     (i > 0 ==> Insert(points, conns, st, i, start, SegmentEnd(points, st, i).value).Built?) &&
     Builds(points, conns, st, i + 1, SegmentEnd(points, st, i).value, j))
  }

  /** What points `i` to `j - 1` add, each its connector's nodes and then its own node,
      and the segment end they reach. */
  function Pieces(points: seq<Point>, conns: seq<Option<string>>, st: Scan, i: nat, start: Pos, j: nat): (r: (Route, Pos))
    requires i <= j <= |points| && |conns| == |points| - 1 && Builds(points, conns, st, i, start, j)
    ensures |r.0| >= j - i
    ensures j == i ==> r == ([], start)
    ensures j > i ==> SegmentEnd(points, st, j - 1).Ok? && r.1 == SegmentEnd(points, st, j - 1).value
    ensures j > i ==> r.0[|r.0| - 1] == PointNode(points[j - 1], r.1)
    decreases j - i
  {
    if i == j then ([], start)
    else
      var end := SegmentEnd(points, st, i).value;
      var nodes := if i > 0 then Insert(points, conns, st, i, start, end).route else [];
      var rest := Pieces(points, conns, st, i + 1, end, j);
      (nodes + [PointNode(points[i], end)] + rest.0, rest.1)
  }

  /** One turn of the loop at a point that resolves and whose connector is stitched. */
  lemma StitchStep(points: seq<Point>, conns: seq<Option<string>>, st: Scan, i: nat, start: Pos, route: Route)
    requires i < |points| && |conns| == |points| - 1 && SegmentEnd(points, st, i).Ok?
    requires i > 0 ==> Insert(points, conns, st, i, start, SegmentEnd(points, st, i).value).Built?
    ensures var end := SegmentEnd(points, st, i).value;
      var nodes := if i > 0 then Insert(points, conns, st, i, start, end).route else [];
      StitchFrom(points, conns, st, i, start, route) ==
        StitchFrom(points, conns, st, i + 1, end, route + nodes + [PointNode(points[i], end)])
  {
  }

  /** A route is built exactly when the loop gets past every point. */
  lemma {:induction false} StitchBuilt(points: seq<Point>, conns: seq<Option<string>>, st: Scan, i: nat,
                                       start: Pos, route: Route)
    requires i <= |points| && |conns| == |points| - 1
    ensures StitchFrom(points, conns, st, i, start, route).Built? <==> Builds(points, conns, st, i, start, |points|)
    decreases |points| - i
  {
    if i < |points| && SegmentEnd(points, st, i).Ok? {
      var end := SegmentEnd(points, st, i).value;
      if i == 0 || Insert(points, conns, st, i, start, end).Built? {
        var nodes := if i > 0 then Insert(points, conns, st, i, start, end).route else [];
        StitchStep(points, conns, st, i, start, route);
        StitchBuilt(points, conns, st, i + 1, end, route + nodes + [PointNode(points[i], end)]);
      }
    }
  }

  /** A built route is the route so far followed by every remaining point's pieces: its
      connector's nodes, then its own node. */
  lemma {:induction false} StitchPieces(points: seq<Point>, conns: seq<Option<string>>, st: Scan, i: nat,
                                        start: Pos, route: Route)
    requires i <= |points| && |conns| == |points| - 1 && Builds(points, conns, st, i, start, |points|)
    ensures StitchFrom(points, conns, st, i, start, route) == Built(route + Pieces(points, conns, st, i, start, |points|).0)
    decreases |points| - i
  {
    if i == |points| {
      assert route + [] == route;
    } else {
      var end := SegmentEnd(points, st, i).value;
      var nodes := if i > 0 then Insert(points, conns, st, i, start, end).route else [];
      var route' := route + nodes + [PointNode(points[i], end)];
      StitchStep(points, conns, st, i, start, route);
      StitchPieces(points, conns, st, i + 1, end, route');
      PiecesStep(points, conns, st, i, start, |points|);
      var rest := Pieces(points, conns, st, i + 1, end, |points|);
      Regroup(route, nodes, [PointNode(points[i], end)], rest.0);
    }
  }

  lemma Regroup(a: Route, b: Route, c: Route, d: Route)
    ensures a + b + c + d == a + (b + c + d)
  {
  }

  /** The pieces of points `i` to `j - 1` are point `i`'s followed by the others'. */
  lemma PiecesStep(points: seq<Point>, conns: seq<Option<string>>, st: Scan, i: nat, start: Pos, j: nat)
    requires i < j <= |points| && |conns| == |points| - 1 && Builds(points, conns, st, i, start, j)
    ensures var end := SegmentEnd(points, st, i).value;
      var nodes := if i > 0 then Insert(points, conns, st, i, start, end).route else [];
      Pieces(points, conns, st, i, start, j).0 == nodes + [PointNode(points[i], end)] + Pieces(points, conns, st, i + 1, end, j).0
  {
  }

  /** A route fails at the first point whose position does not resolve, whatever the
      points and connectors before it, once the loop gets that far. */
  lemma {:induction false} PointFails(points: seq<Point>, conns: seq<Option<string>>, st: Scan, i: nat,
                   start: Pos, route: Route, j: nat)
    requires i <= j < |points| && |conns| == |points| - 1
    requires Builds(points, conns, st, i, start, j) && SegmentEnd(points, st, j).Err?
    ensures StitchFrom(points, conns, st, i, start, route) == Failed(SegmentEnd(points, st, j).error)
    decreases j - i
  {
    if i < j {
      var end := SegmentEnd(points, st, i).value;
      var nodes := if i > 0 then Insert(points, conns, st, i, start, end).route else [];
      StitchStep(points, conns, st, i, start, route);
      PointFails(points, conns, st, i + 1, end, route + nodes + [PointNode(points[i], end)], j);
    }
  }

  /** A route that gets as far as point `j`, which resolves, ends with what stitching its
      connector gives when that is not a built piece. */
  lemma {:induction false} ConnectorFails(points: seq<Point>, conns: seq<Option<string>>, st: Scan, i: nat,
                       start: Pos, route: Route, j: nat)
    requires i <= j < |points| && 0 < j && |conns| == |points| - 1
    requires Builds(points, conns, st, i, start, j) && SegmentEnd(points, st, j).Ok?
    requires !Insert(points, conns, st, j, Pieces(points, conns, st, i, start, j).1, SegmentEnd(points, st, j).value).Built?
    ensures StitchFrom(points, conns, st, i, start, route) ==
      Insert(points, conns, st, j, Pieces(points, conns, st, i, start, j).1, SegmentEnd(points, st, j).value)
    decreases j - i
  {
    if i < j {
      var end := SegmentEnd(points, st, i).value;
      var nodes := if i > 0 then Insert(points, conns, st, i, start, end).route else [];
      StitchStep(points, conns, st, i, start, route);
      ConnectorFails(points, conns, st, i + 1, end, route + nodes + [PointNode(points[i], end)], j);
    }
  }

  /** On success every point has left its node: the route ends with the last point's
      node. */
  lemma {:induction false} StitchedEnds(points: seq<Point>, conns: seq<Option<string>>, st: Scan, i: nat,
                                        start: Pos, route: Route)
    requires i < |points| && |conns| == |points| - 1
    requires StitchFrom(points, conns, st, i, start, route).Built?
    ensures var r := StitchFrom(points, conns, st, i, start, route).route;
      SegmentEnd(points, st, |points| - 1).Ok? &&
      r[|r| - 1] == PointNode(points[|points| - 1], SegmentEnd(points, st, |points| - 1).value)
    decreases |points| - i
  {
    var end := SegmentEnd(points, st, i).value;
    var nodes := if i > 0 then Insert(points, conns, st, i, start, end).route else [];
    var route' := route + nodes + [PointNode(points[i], end)];
    if i + 1 < |points| {
      StitchedEnds(points, conns, st, i + 1, end, route');
    }
  }
}
