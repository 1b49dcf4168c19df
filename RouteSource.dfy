/** `RouteSource::Parse` (plot.cpp:572-864): a flight-plan route, resolved against
    the navigation database, in three stages: the token loop, the database pass and
    the point loop. */
module RouteSource {
  import opened Common
  import opened Grammar
  import opened Resolver
  import opened Stitcher

  /** An even number of arguments makes the first one the route's name. */
  function RouteName(args: seq<string>, name: string): string
    requires |args| > 0
  {
    if |args| % 2 == 0 then args[0] else name
  }

  /** The route tokens: the arguments after the name, if there is one. */
  function RouteTokens(args: seq<string>): (toks: seq<string>)
    requires |args| > 0
    ensures |toks| % 2 == 1
  {
    if |args| % 2 == 0 then args[1..] else args
  }

  /** What the whole parse yields for `args` against the database `db`. */
  function ParseSpec(args: seq<string>, db: seq<Element>): Outcome
    requires |args| > 0
  {
    var toks := RouteTokens(args);
    match TokenizeFrom(toks, 0, NoTokens)
    case Err(e) => Failed(e)
    case Ok(t) =>
      TokenizeShape(toks);
      var st := ScanDb(EndsOf(t.points, t.conns), Initial(t), db);
      Stitch(t.points, t.conns, st)
  }

  /** What `RouteSource::Parse` demands: at least one argument (the name is read from the
      first), what the token loop demands of the points it reaches, and no backwards walk
      from the start of a geometry (`--from` at `begin`). */
  predicate Defined(args: seq<string>, db: seq<Element>)
  {
    |args| > 0 && TokensDefined(RouteTokens(args)) && !ParseSpec(args, db).Undefined?
  }

  /** `RouteSource::Parse`, composed of its three loops and proved to compute `ParseSpec`. */
  method Parse(args: seq<string>, name: string, db: seq<Element>) returns (res: Result<Parsed>)
    requires Defined(args, db)
    ensures ParseSpec(args, db).Failed? ==> res == Err(ParseSpec(args, db).error)
    ensures ParseSpec(args, db).Built? ==> res == Ok(Parsed(RouteName(args, name), ParseSpec(args, db).route))
  {
    var named := RouteName(args, name);
    var toks := RouteTokens(args);
    var tokens := Tokenize(toks);
    if tokens.Err? {
      return Err(tokens.error);
    }
    var t := tokens.value;
    TokenizeShape(toks);
    var st := Resolve(t.points, t.conns, t, db);
    var out := StitchRoute(t.points, t.conns, st);
    match out {
      case Built(route) => return Ok(Parsed(named, route));
      case Failed(e) => return Err(e);
      case Undefined => assert false;
    }
  }

  /** With every position taken from the token loop's literal map and every connector
      `DCT`, the point loop yields one node per point at its literal position. */
  lemma LiteralStitch(points: seq<Point>, conns: seq<Option<string>>, t: Tokens)
    requires |conns| == |points| - 1 && Named(points, t.positions) && Literal(t.positions)
    requires forall k :: 0 <= k < |conns| ==> conns[k].None?
    requires forall k :: 0 <= k < |points| ==> LiteralPosition(points[k].name).lat.Deg?
    ensures var r := Stitch(points, conns, Initial(t));
      r.Built? && |r.route| == |points| &&
      forall k :: 0 <= k < |points| ==> r.route[k] == PointNode(points[k], LiteralPosition(points[k].name))
  {
    var st := Initial(t);
    assert Finish(st) == st;
    forall k | 0 <= k < |points|
      ensures SegmentEnd(points, st, k) == Ok(LiteralPosition(points[k].name))
    {
      assert points[k].name in t.positions;
    }
    DirectRoute(points, conns, st, 0, Unresolved, []);
    assert [] + PointNodes(points, st, 0) == PointNodes(points, st, 0);
  }

  /** A route of coordinate literals joined only by `DCT` needs no database: with an
      empty one, it has exactly one node per point, at the point's literal position,
      carrying the point's hold. */
  lemma LiteralRoute(args: seq<string>)
    requires |args| > 0 && TokenizeFrom(RouteTokens(args), 0, NoTokens).Ok?
    requires forall j :: 0 <= j < |RouteTokens(args)| && j % 2 == 1 ==> RouteTokens(args)[j] == "DCT"
    requires var t := TokenizeFrom(RouteTokens(args), 0, NoTokens).value;
      forall k :: 0 <= k < |t.points| ==> LiteralPosition(t.points[k].name).lat.Deg?
    ensures var t := TokenizeFrom(RouteTokens(args), 0, NoTokens).value;
      var r := ParseSpec(args, []);
      r.Built? && |r.route| == |t.points| &&
      forall k :: 0 <= k < |t.points| ==> r.route[k] == PointNode(t.points[k], LiteralPosition(t.points[k].name))
  {
    var toks := RouteTokens(args);
    var t := TokenizeFrom(toks, 0, NoTokens).value;
    TokenizeShape(toks);
    DirectConnectors(toks, t.conns);
    LiteralStitch(t.points, t.conns, t);
  }

  /** Connectors read from `DCT` tokens are all direct. */
  lemma DirectConnectors(toks: seq<string>, conns: seq<Option<string>>)
    requires ConnsFrom(toks, conns)
    requires forall j :: 0 <= j < |toks| && j % 2 == 1 ==> toks[j] == "DCT"
    ensures forall k :: 0 <= k < |conns| ==> conns[k].None?
  {
    forall k | 0 <= k < |conns|
      ensures conns[k].None?
    {
      assert conns[k] == ConnectorToken(toks, k);
    }
  }
}
