/** The navigation database pass of the flight-plan route source (plot.cpp:686-769):
    one walk over the sector file elements fills in point positions, airway
    geometries, the aerodrome positions and the first matching SID and STAR. */
module Resolver {
  import opened Common
  import opened Grammar

  /** The element types the pass distinguishes; `Other` stands for every type it skips. */
  datatype Kind = Airport | Vor | Ndb | Fix | Runway | SidStar | LowAirway | HighAirway | Other

  /** A sector file element: its type, name, airport name, the names of its two runway
      ends and the positions `GetPosition` yields for indices 0, 1, ... */
  datatype Element = Element(kind: Kind, name: string, airport: string,
                             runway0: string, runway1: string, positions: seq<Pos>)

  /** An uninitialised `Position`, read as unresolved. */
  const Unresolved := Pos(NaN, NaN)

  /** What the pass builds: `point_positions`, `ats_route_positions`, `adep`, `ades`,
      `sid` and `star`. */
  datatype Scan = Scan(positions: map<string, Pos>, airways: map<string, seq<Pos>>,
                       adep: Pos, ades: Pos, sid: seq<Pos>, star: seq<Pos>)

  /** The route's endpoints and connectors as the pass sees them. */
  datatype Ends = Ends(front: Point, back: Point, first: Option<string>, last: Option<string>, direct: bool)

  /** `points.front()`/`points.back()` and `ats_routes.front()`/`back()`; `direct` when
      there is no connector at all. */
  function EndsOf(points: seq<Point>, conns: seq<Option<string>>): Ends
    requires |points| > 0
  {
    if conns == [] then Ends(points[0], points[|points| - 1], None, None, true)
    else Ends(points[0], points[|points| - 1], conns[0], conns[|conns| - 1], false)
  }

  /** A `string_view` comparison against a connector: `DCT` is the empty view. */
  function ConnectorText(c: Option<string>): string
  {
    if c.None? then [] else c.value
  }

  /** `point.runway.empty()`: no runway designator, or an empty one. */
  predicate NoRunway(p: Point)
  {
    p.runway.None? || p.runway.value == []
  }

  /** `point.name.compare(0, 4, airport, 4) == 0`: the first four characters agree. */
  predicate SameAirport(name: string, airport: string)
  {
    |name| >= 4 && name[..4] == [At(airport, 0), At(airport, 1), At(airport, 2), At(airport, 3)]
  }

  // ---------------------------------------------------------------------------
  // One element

  /** An airport element named like a runway-less endpoint sets that endpoint's aerodrome. */
  function AirportEnd(p: Point, el: Element, adp: Pos): (r: Pos)
    ensures el.kind == Airport ==> r == Otherwise(AerodromeOf(p, el), adp)
  {
    if NoRunway(p) && p.name == el.name && |el.positions| > 0 then el.positions[0] else adp
  }

  /** A fix (or airport) element overwrites the position of a point of the same name. */
  function FixStep(positions: map<string, Pos>, el: Element): (r: map<string, Pos>)
    ensures r.Keys == positions.Keys
  {
    if el.name in positions && |el.positions| > 0 then positions[el.name := el.positions[0]] else positions
  }

  /** A runway element of the endpoint's airport sets the aerodrome to the threshold of
      the named runway end (end 1 wins over end 0). */
  function RunwayEnd(p: Point, el: Element, adp: Pos): (r: Pos)
    ensures el.kind == Runway ==> r == Otherwise(AerodromeOf(p, el), adp)
  {
    if p.runway.Some? && SameAirport(p.name, el.airport) then
      var a0 := if p.runway.value == el.runway0 && |el.positions| > 0 then el.positions[0] else adp;
      if p.runway.value == el.runway1 && |el.positions| > 1 then el.positions[1] else a0
    else adp
  }

  /** The procedure an endpoint and its connector select, unless one was already taken. */
  predicate Selects(p: Point, c: Option<string>, el: Element)
  {
    p.name == el.airport && (NoRunway(p) || p.runway.value == el.runway0) && ConnectorText(c) == el.name
  }

  function Procedure(p: Point, c: Option<string>, el: Element, out: seq<Pos>): (r: seq<Pos>)
    ensures out != [] ==> r == out
    ensures r != out ==> Selects(p, c, el) && r == el.positions
  {
    if out == [] && Selects(p, c, el) then el.positions else out
  }

  /** Appends `ps` to `vec`, skipping a position equal (IEEE) to the last one kept. */
  function AppendDistinct(vec: seq<Pos>, ps: seq<Pos>): seq<Pos>
    decreases |ps|
  {
    if ps == [] then vec
    else AppendDistinct(if vec == [] || !Same(ps[0], vec[|vec| - 1]) then vec + [ps[0]] else vec, ps[1..])
  }

  /** The inner loop of plot.cpp:757-761, proved to compute `AppendDistinct`. */
  method Extend(vec: seq<Pos>, ps: seq<Pos>) returns (r: seq<Pos>)
    ensures r == AppendDistinct(vec, ps)
  {
    r := vec;
    var i := 0;
    while i < |ps|
      invariant i <= |ps|
      invariant AppendDistinct(r, ps[i..]) == AppendDistinct(vec, ps)
    {
      assert ps[i..][1..] == ps[i + 1..];
      if r == [] || !Same(ps[i], r[|r| - 1]) {
        r := r + [ps[i]];
      }
      i := i + 1;
    }
    assert ps[i..] == [];
  }

  function AirwayStep(airways: map<string, seq<Pos>>, el: Element): (r: map<string, seq<Pos>>)
    ensures r.Keys == airways.Keys
  {
    if el.name in airways then airways[el.name := AppendDistinct(airways[el.name], el.positions)] else airways
  }

  /** The effect of one element on the pass (the `switch` of plot.cpp:696-766); an airport
      also falls through into the fix case. */
  function Step(e: Ends, st: Scan, el: Element): (r: Scan)
    ensures r.adep == Otherwise(AerodromeOf(e.front, el), st.adep)
    ensures r.ades == Otherwise(AerodromeOf(e.back, el), st.ades)
    ensures r.positions.Keys == st.positions.Keys && r.airways.Keys == st.airways.Keys
    ensures e.direct || st.sid != [] ==> r.sid == st.sid
    ensures e.direct || st.star != [] ==> r.star == st.star
  {
    match el.kind
    case Airport =>
      st.(ades := AirportEnd(e.back, el, st.ades), adep := AirportEnd(e.front, el, st.adep),
          positions := FixStep(st.positions, el))
    case Vor => st.(positions := FixStep(st.positions, el))
    case Ndb => st.(positions := FixStep(st.positions, el))
    case Fix => st.(positions := FixStep(st.positions, el))
    case Runway => st.(ades := RunwayEnd(e.back, el, st.ades), adep := RunwayEnd(e.front, el, st.adep))
    case SidStar =>
      if e.direct then st
      else st.(star := Procedure(e.back, e.last, el, st.star), sid := Procedure(e.front, e.first, el, st.sid))
    case LowAirway => st.(airways := AirwayStep(st.airways, el))
    case HighAirway => st.(airways := AirwayStep(st.airways, el))
    case Other => st
  }

  /** The pass over the elements `db`, starting from `init`. */
  function ScanDb(e: Ends, init: Scan, db: seq<Element>): Scan
  {
    if db == [] then init else Step(e, ScanDb(e, init, db[..|db| - 1]), db[|db| - 1])
  }

  /** The state before the pass: the token loop's maps, unresolved aerodromes, no procedures. */
  function Initial(t: Tokens): Scan
  {
    Scan(t.positions, t.airways, Unresolved, Unresolved, [], [])
  }

  /** The element loop of plot.cpp:691-767, proved to compute `ScanDb`. */
  method Resolve(points: seq<Point>, conns: seq<Option<string>>, t: Tokens, db: seq<Element>)
    returns (st: Scan)
    requires |points| > 0
    ensures st == ScanDb(EndsOf(points, conns), Initial(t), db)
  {
    var e := EndsOf(points, conns);
    var positions := t.positions;
    var airways := t.airways;
    var adep, ades := Unresolved, Unresolved;
    var sid: seq<Pos>, star: seq<Pos> := [], [];
    for k := 0 to |db|
      invariant Scan(positions, airways, adep, ades, sid, star) == ScanDb(e, Initial(t), db[..k])
    {
      var el := db[k];
      assert db[..k + 1][..k] == db[..k];
      match el.kind {
        case Airport =>
          ades := AirportEnd(e.back, el, ades);
          adep := AirportEnd(e.front, el, adep);
          positions := FixStep(positions, el);
        case Vor =>
          positions := FixStep(positions, el);
        case Ndb =>
          positions := FixStep(positions, el);
        case Fix =>
          positions := FixStep(positions, el);
        case Runway =>
          ades := RunwayEnd(e.back, el, ades);
          adep := RunwayEnd(e.front, el, adep);
        case SidStar =>
          if conns != [] {
            star := Procedure(e.back, e.last, el, star);
            sid := Procedure(e.front, e.first, el, sid);
          }
        case LowAirway =>
          if el.name in airways {
            var vec := Extend(airways[el.name], el.positions);
            airways := airways[el.name := vec];
          }
        case HighAirway =>
          if el.name in airways {
            var vec := Extend(airways[el.name], el.positions);
            airways := airways[el.name := vec];
          }
        case Other =>
      }
    }
    assert db[..|db|] == db;
    st := Scan(positions, airways, adep, ades, sid, star);
  }

  // ---------------------------------------------------------------------------
  // What the pass guarantees

  predicate IsFixLike(el: Element)
  {
    el.kind == Airport || el.kind == Vor || el.kind == Ndb || el.kind == Fix
  }

  /** The position of the last fix-like element named `n` that has a position. */
  function LastFix(db: seq<Element>, n: string): Option<Pos>
  {
    if db == [] then None
    else
      var el := db[|db| - 1];
      if IsFixLike(el) && el.name == n && |el.positions| > 0 then Some(el.positions[0])
      else LastFix(db[..|db| - 1], n)
  }

  /** The database never adds point names, and the last matching fix-like element wins;
      a point no element names keeps the position its token gave it. */
  lemma {:induction false} FixLastMatchWins(e: Ends, init: Scan, db: seq<Element>, n: string)
    requires n in init.positions
    ensures var st := ScanDb(e, init, db);
      st.positions.Keys == init.positions.Keys &&
      st.positions[n] == match LastFix(db, n) case Some(p) => p case None => init.positions[n]
  {
    if db != [] {
      FixLastMatchWins(e, init, db[..|db| - 1], n);
    }
  }

  /** The aerodrome element `el` gives endpoint `p`, if any: an airport named like a
      runway-less endpoint gives its position; a runway of the endpoint's airport gives
      the threshold of the end the endpoint names, end 1 before end 0. */
  function AerodromeOf(p: Point, el: Element): Option<Pos>
  {
    match el.kind
    case Airport =>
      if NoRunway(p) && p.name == el.name && |el.positions| > 0 then Some(el.positions[0]) else None
    case Runway =>
      if p.runway.None? || !SameAirport(p.name, el.airport) then None
      else if p.runway.value == el.runway1 && |el.positions| > 1 then Some(el.positions[1])
      else if p.runway.value == el.runway0 && |el.positions| > 0 then Some(el.positions[0])
      else None
    case _ => None
  }

  function Otherwise(o: Option<Pos>, d: Pos): Pos
  {
    if o.Some? then o.value else d
  }

  /** The aerodrome the last element of `db` giving one for `p` gives. */
  function LastAerodrome(db: seq<Element>, p: Point): Option<Pos>
  {
    if db == [] then None
    else if AerodromeOf(p, db[|db| - 1]).Some? then AerodromeOf(p, db[|db| - 1])
    else LastAerodrome(db[..|db| - 1], p)
  }

  /** The departure and arrival aerodromes are given by the last element that gives
      the first and the last point one; they keep their initial value otherwise. */
  lemma {:induction false} AerodromesLastMatch(e: Ends, init: Scan, db: seq<Element>)
    ensures ScanDb(e, init, db).adep == Otherwise(LastAerodrome(db, e.front), init.adep)
    ensures ScanDb(e, init, db).ades == Otherwise(LastAerodrome(db, e.back), init.ades)
  {
    if db != [] {
      AerodromesLastMatch(e, init, db[..|db| - 1]);
    }
  }

  lemma {:induction false} LastAerodromeAt(db: seq<Element>, p: Point, k: nat)
    requires k < |db| && AerodromeOf(p, db[k]).Some?
    requires forall m :: k < m < |db| ==> AerodromeOf(p, db[m]).None?
    ensures LastAerodrome(db, p) == AerodromeOf(p, db[k])
  {
    if k < |db| - 1 {
      var db' := db[..|db| - 1];
      assert db'[k] == db[k];
      assert forall m :: k < m < |db'| ==> db'[m] == db[m];
      LastAerodromeAt(db', p, k);
    }
  }

  /** A first point `ICAO/RWY` and a runway element of that airport naming `RWY` as its
      end 0 (and not as its end 1) set the departure aerodrome to that end's threshold,
      unless a later element gives another. */
  lemma DepartureRunway(e: Ends, init: Scan, db: seq<Element>, k: nat)
    requires k < |db| && db[k].kind == Runway && e.front.runway.Some?
    requires SameAirport(e.front.name, db[k].airport)
    requires e.front.runway.value == db[k].runway0 != db[k].runway1 && |db[k].positions| > 0
    requires forall m :: k < m < |db| ==> AerodromeOf(e.front, db[m]).None?
    ensures ScanDb(e, init, db).adep == db[k].positions[0]
  {
    AerodromesLastMatch(e, init, db);
    LastAerodromeAt(db, e.front, k);
  }

  /** A last point `ICAO` without a runway and an airport element of that name set the
      arrival aerodrome to the airport's position, unless a later element gives another. */
  lemma ArrivalAirport(e: Ends, init: Scan, db: seq<Element>, k: nat)
    requires k < |db| && db[k].kind == Airport && NoRunway(e.back)
    requires e.back.name == db[k].name && |db[k].positions| > 0
    requires forall m :: k < m < |db| ==> AerodromeOf(e.back, db[m]).None?
    ensures ScanDb(e, init, db).ades == db[k].positions[0]
  {
    AerodromesLastMatch(e, init, db);
    LastAerodromeAt(db, e.back, k);
  }

  /** The positions of the first element, in database order, that `p` and `c` select
      and that has at least one position; empty when there is none. */
  function FirstProcedure(db: seq<Element>, p: Point, c: Option<string>): seq<Pos>
  {
    if db == [] then []
    else
      var earlier := FirstProcedure(db[..|db| - 1], p, c);
      var el := db[|db| - 1];
      if earlier == [] && el.kind == SidStar && Selects(p, c, el) then el.positions else earlier
  }

  /** The SID comes from the first procedure the first point and connector select, the
      STAR from the first one the last point and connector select; without connectors
      neither is looked up. */
  lemma {:induction false} ProceduresFirstMatch(e: Ends, init: Scan, db: seq<Element>)
    requires init.sid == [] && init.star == []
    ensures var st := ScanDb(e, init, db);
      st.sid == (if e.direct then [] else FirstProcedure(db, e.front, e.first)) &&
      st.star == (if e.direct then [] else FirstProcedure(db, e.back, e.last))
  {
    if db != [] {
      ProceduresFirstMatch(e, init, db[..|db| - 1]);
    }
  }

  /** All positions of the airway elements named `a`, in database order. */
  function AirwayTrace(db: seq<Element>, a: string): seq<Pos>
  {
    if db == [] then []
    else
      var el := db[|db| - 1];
      AirwayTrace(db[..|db| - 1], a) + if (el.kind == LowAirway || el.kind == HighAirway) && el.name == a then el.positions else []
  }

  lemma {:induction false} AppendDistinctConcat(vec: seq<Pos>, xs: seq<Pos>, ys: seq<Pos>)
    ensures AppendDistinct(vec, xs + ys) == AppendDistinct(AppendDistinct(vec, xs), ys)
    decreases |xs|
  {
    if xs == [] {
      assert xs + ys == ys;
    } else {
      assert (xs + ys)[1..] == xs[1..] + ys;
      var v := if vec == [] || !Same(xs[0], vec[|vec| - 1]) then vec + [xs[0]] else vec;
      AppendDistinctConcat(v, xs[1..], ys);
    }
  }

  /** An airway's geometry is the concatenation of all its elements' positions with
      adjacent duplicates dropped; the database never adds airway names. */
  lemma {:induction false} AirwayConcatenation(e: Ends, init: Scan, db: seq<Element>, a: string)
    requires a in init.airways
    ensures var st := ScanDb(e, init, db);
      st.airways.Keys == init.airways.Keys &&
      st.airways[a] == AppendDistinct(init.airways[a], AirwayTrace(db, a))
  {
    if db != [] {
      var db' := db[..|db| - 1];
      var el := db[|db| - 1];
      AirwayConcatenation(e, init, db', a);
      if (el.kind == LowAirway || el.kind == HighAirway) && el.name == a {
        AppendDistinctConcat(init.airways[a], AirwayTrace(db', a), el.positions);
      } else {
        assert AirwayTrace(db, a) == AirwayTrace(db', a) + [];
        assert AirwayTrace(db', a) + [] == AirwayTrace(db', a);
      }
    }
  }

  /** No two adjacent positions of a deduplicated geometry are equal. */
  predicate NoRepeats(vec: seq<Pos>)
  {
    forall k :: 0 < k < |vec| ==> !Same(vec[k - 1], vec[k])
  }

  lemma {:induction false} AppendDistinctNoRepeats(vec: seq<Pos>, ps: seq<Pos>)
    requires NoRepeats(vec)
    ensures NoRepeats(AppendDistinct(vec, ps))
    ensures |AppendDistinct(vec, ps)| <= |vec| + |ps|
    ensures forall q :: q in AppendDistinct(vec, ps) ==> q in vec || q in ps
    decreases |ps|
  {
    if ps != [] {
      var v := if vec == [] || !Same(ps[0], vec[|vec| - 1]) then vec + [ps[0]] else vec;
      assert NoRepeats(v) by {
        if v != vec {
          forall k | 0 < k < |v|
            ensures !Same(v[k - 1], v[k])
          {
            if k == |v| - 1 {
              assert v[k] == ps[0];
              if vec != [] {
                assert v[k - 1] == vec[|vec| - 1];
              }
            } else {
              assert v[k - 1] == vec[k - 1] && v[k] == vec[k];
            }
          }
        }
      }
      AppendDistinctNoRepeats(v, ps[1..]);
      forall q | q in AppendDistinct(vec, ps)
        ensures q in vec || q in ps
      {
        assert q in v || q in ps[1..];
        if q in ps[1..] {
          assert q in ps;
        }
      }
    }
  }
}
