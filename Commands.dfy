/** The `.plot` command of the plugin (`Plugin::OnCompileCommand`, plot.cpp:356-434):
    the command line is split into words, the first word must be `.plot`, and the
    second picks help, `clear` or a route source; a parsed route is stored under its
    name in the plugin's route table. */
module Commands {
  import opened Common
  import Grammar
  import Resolver
  import Legacy
  import RouteSource

  const Prefix := ".plot"
  /** `INT_MAX`: `name_counter` is an `int`. */
  const IntMax := 0x7FFF_FFFF

  // ---------------------------------------------------------------------------
  // Words (`std::istream_iterator<std::string>` over the command line)

  /** A word as `operator>>` reads it: non-empty, no white space. */
  predicate Word(w: string)
  {
    |w| > 0 && forall k :: 0 <= k < |w| ==> !Grammar.IsSpace(w[k])
  }

  function WordEndFrom(s: string, i: nat): (j: nat)
    requires i <= |s|
    ensures i <= j <= |s| && (j < |s| ==> Grammar.IsSpace(s[j]))
    ensures forall k :: i <= k < j ==> !Grammar.IsSpace(s[k])
    decreases |s| - i
  {
    if i < |s| && !Grammar.IsSpace(s[i]) then WordEndFrom(s, i + 1) else i
  }

  /** The white-space separated words of `s`, in order. */
  function Words(s: string): (r: seq<string>)
    ensures forall k :: 0 <= k < |r| ==> Word(r[k])
    decreases |s|
  {
    if s == [] then []
    else if Grammar.IsSpace(s[0]) then Words(s[1..])
    else
      var j := WordEndFrom(s, 1);
      [s[..j]] + Words(s[j..])
  }

  /** The words joined by single spaces. */
  function Join(ws: seq<string>): string
  {
    if |ws| == 0 then [] else if |ws| == 1 then ws[0] else ws[0] + " " + Join(ws[1..])
  }

  /** A word followed by a space is read as that word, then the rest. */
  lemma WordsCons(w: string, rest: string)
    requires Word(w)
    ensures Words(w + " " + rest) == [w] + Words(rest)
  {
    var s := w + " " + rest;
    var j := WordEndFrom(s, 1);
    assert forall k :: 0 <= k < |w| ==> s[k] == w[k];
    assert s[|w|] == ' ';
    assert j == |w|;
    assert s[..j] == w;
    assert s[j..] == " " + rest && (" " + rest)[1..] == rest;
  }

  lemma WordsSingle(w: string)
    requires Word(w)
    ensures Words(w) == [w]
  {
    var j := WordEndFrom(w, 1);
    assert j == |w|;
    assert w[..j] == w && w[j..] == [];
  }

  /** Splitting undoes joining: the words of a joined line are the words joined. */
  lemma {:induction false} WordsOfJoin(ws: seq<string>)
    requires forall k :: 0 <= k < |ws| ==> Word(ws[k])
    ensures Words(Join(ws)) == ws
    decreases |ws|
  {
    if |ws| == 1 {
      WordsSingle(ws[0]);
    } else if |ws| > 1 {
      WordsOfJoin(ws[1..]);
      WordsCons(ws[0], Join(ws[1..]));
    }
  }

  // ---------------------------------------------------------------------------
  // The text handed to a source (`command + ofs`)

  /** `find_first_of(' ', pos)`; `None` is `npos`. */
  function FindSpace(s: string, pos: nat): (r: Option<nat>)
    ensures r.Some? ==> pos <= r.value < |s| && s[r.value] == ' ' &&
                        forall k :: pos <= k < r.value ==> s[k] != ' '
    ensures r.None? ==> forall k :: pos <= k < |s| ==> s[k] != ' '
    decreases |s| - pos
  {
    if pos >= |s| then None else if s[pos] == ' ' then Some(pos) else FindSpace(s, pos + 1)
  }

  /** `find_first_not_of(' ', pos)`. */
  function FindNonSpace(s: string, pos: nat): (r: Option<nat>)
    ensures r.Some? ==> pos <= r.value < |s| && s[r.value] != ' ' &&
                        forall k :: pos <= k < r.value ==> s[k] == ' '
    ensures r.None? ==> forall k :: pos <= k < |s| ==> s[k] == ' '
    decreases |s| - pos
  {
    if pos >= |s| then None else if s[pos] != ' ' then Some(pos) else FindNonSpace(s, pos + 1)
  }

  /** One round of `ofs = find_first_not_of(' ', find_first_of(' ', ofs))`. */
  function Advance(s: string, ofs: Option<nat>): (r: Option<nat>)
    ensures r.Some? ==> r.value < |s|
  {
    if ofs.None? then None
    else match FindSpace(s, ofs.value)
      case None => None
      case Some(p) => FindNonSpace(s, p)
  }

  /** `ofs` after `n` rounds. */
  function SkipWords(s: string, n: nat): (r: Option<nat>)
    ensures r.Some? ==> r.value <= |s|
  {
    if n == 0 then Some(0) else Advance(s, SkipWords(s, n - 1))
  }

  /** The text from `ofs` on; at `npos` (the command had no more words) it is empty. */
  function Tail(s: string, ofs: Option<nat>): string
    requires ofs.Some? ==> ofs.value <= |s|
  {
    if ofs.Some? then s[ofs.value..] else []
  }

  /** A round steps over one word and the single space after it. */
  lemma AdvanceWord(s: string, i: nat, w: string, rest: string)
    requires i <= |s| && s[i..] == w + " " + rest && Word(w) && |rest| > 0 && rest[0] != ' '
    ensures Advance(s, Some(i)) == Some(i + |w| + 1)
  {
    assert s[i + |w|] == ' ';
    assert forall k :: i <= k < i + |w| ==> s[k] == w[k - i];
    assert FindSpace(s, i) == Some(i + |w|);
    assert s[i + |w| + 1] == rest[0];
  }

  /** Past the last word there is no further space: `npos`. */
  lemma AdvanceLast(s: string, i: nat, w: string)
    requires i <= |s| && s[i..] == w && Word(w)
    ensures Advance(s, Some(i)) == None
  {
    assert forall k :: i <= k < |s| ==> s[k] == w[k - i];
  }

  lemma JoinStart(ws: seq<string>)
    requires |ws| > 0 && Word(ws[0])
    ensures |Join(ws)| > 0 && Join(ws)[0] == ws[0][0]
  {
  }

  /** On a line of words joined by single spaces, `n` rounds land on word `n`: the text
      handed to the source is the join of the words it is handed. */
  lemma {:induction false} SkipJoined(ws: seq<string>, n: nat)
    requires n <= |ws| && forall k :: 0 <= k < |ws| ==> Word(ws[k])
    ensures var s := Join(ws);
      var r := SkipWords(s, n);
      (n < |ws| ==> r.Some?) && (0 < n == |ws| ==> r.None?) &&
      Tail(s, r) == Join(ws[n..])
  {
    var s := Join(ws);
    if n == 0 {
      assert ws[0..] == ws;
    } else {
      SkipJoined(ws, n - 1);
      var i := SkipWords(s, n - 1).value;
      var w := ws[n - 1];
      assert s[i..] == Join(ws[n - 1..]);
      if n < |ws| {
        assert ws[n - 1..][1..] == ws[n..];
        JoinStart(ws[n..]);
        AdvanceWord(s, i, w, Join(ws[n..]));
        assert s[i + |w| + 1..] == s[i..][|w| + 1..];
      } else {
        AdvanceLast(s, i, w);
      }
    }
  }

  // ---------------------------------------------------------------------------
  // Default names (`std::to_string(++name_counter)`)

  function Digit(d: nat): char
    requires d < 10
  {
    ('0' as int + d) as char
  }

  /** The decimal numeral of `n`. */
  function Decimal(n: nat): string
  {
    if n < 10 then [Digit(n)] else Decimal(n / 10) + [Digit(n % 10)]
  }

  lemma {:induction false} ValueSnoc(d: string, acc: nat, c: char)
    ensures Grammar.ValueFrom(d + [c], acc) == Grammar.ValueFrom(d, acc) * 10 + Grammar.DigitValue(c)
    decreases |d|
  {
    if d == [] {
      assert ([] + [c])[1..] == [];
    } else {
      assert (d + [c])[1..] == d[1..] + [c];
      ValueSnoc(d[1..], acc * 10 + Grammar.DigitValue(d[0]), c);
    }
  }

  /** The numeral is all digits and reads back as `n`. */
  lemma {:induction false} DecimalValue(n: nat)
    ensures |Decimal(n)| > 0 && Grammar.AllDigits(Decimal(n)) && Grammar.Value(Decimal(n)) == n
    decreases n
  {
    var c := Digit(n % 10);
    assert Common.IsDigit(c) && Grammar.DigitValue(c) == n % 10;
    if n >= 10 {
      DecimalValue(n / 10);
      ValueSnoc(Decimal(n / 10), 0, c);
    } else {
      assert Grammar.Value([c]) == Grammar.ValueFrom([], Grammar.DigitValue(c));
    }
  }

  /** Distinct counter values give distinct default names. */
  lemma DecimalInjective(m: nat, n: nat)
    requires m != n
    ensures Decimal(m) != Decimal(n)
  {
    DecimalValue(m);
    DecimalValue(n);
  }

  // ---------------------------------------------------------------------------
  // What a command does

  /** What the words of a command ask for; `Plot` names the source and how many words
      (the prefix, and the source's own name if it was given) precede its arguments. */
  datatype Request = Foreign | Help | ClearAll | ClearNamed(names: seq<string>) | Plot(coords: bool, offset: nat)

  function RequestOf(parts: seq<string>): (r: Request)
    ensures r.Plot? ==> 1 <= r.offset <= 2 && r.offset <= |parts|
    ensures r.Plot? <==> |parts| >= 2 && parts[0] == Prefix && parts[1] != "help" && parts[1] != "clear"
    ensures r.Plot? ==> (r.offset == 2 <==> parts[1] == "coords" || parts[1] == "route")
    ensures r.Plot? ==> (r.coords <==> parts[1] == "coords")
  {
    if |parts| == 0 || parts[0] != Prefix then Foreign
    else if |parts| == 1 || parts[1] == "help" then Help
    else if parts[1] == "clear" then (if |parts| > 2 then ClearNamed(parts[2..]) else ClearAll)
    else if parts[1] == "coords" then Plot(true, 2)
    else if parts[1] == "route" then Plot(false, 2)
    else Plot(false, 1)
  }

  /** The table without the named routes (`routes.erase` for each). */
  function Erase(routes: map<string, Route>, names: seq<string>): (r: map<string, Route>)
    ensures forall k :: k in r <==> k in routes && k !in names
    ensures forall k :: k in r ==> r[k] == routes[k]
  {
    map k | k in routes && k !in names :: routes[k]
  }

  /** What the chosen source demands of its arguments. */
  predicate SourceDefined(coords: bool, args: seq<string>, text: string, db: seq<Resolver.Element>)
  {
    if coords then Legacy.Defined(args, text) else RouteSource.Defined(args, db)
  }

  /** What the chosen source's `Parse` yields, `name` being the proposed name. */
  function SourceResult(coords: bool, args: seq<string>, text: string, name: string,
                        db: seq<Resolver.Element>): Result<Parsed>
    requires SourceDefined(coords, args, text, db)
  {
    if coords then
      match Legacy.ParseSpec(args, text)
      case Decoded(route) => Ok(Parsed(if Legacy.HasName(args) then args[0] else name, route))
      case Failed(e) => Err(e)
    else
      match RouteSource.ParseSpec(args, db)
      case Built(route) => Ok(Parsed(RouteSource.RouteName(args, name), route))
      case Failed(e) => Err(e)
  }

  /** The arguments and the text a `Plot` request hands its source. */
  function Arguments(command: string, offset: nat): seq<string>
  {
    var parts := Words(command);
    if offset <= |parts| then parts[offset..] else []
  }

  function Text(command: string, offset: nat): string
  {
    Tail(command, SkipWords(command, offset))
  }

  /** What the command demands: a C string, a counter that `++` does not overflow, a
      text the coordinate source reads that is not at `command + npos` (the offset loop
      runs out only on a command whose words are not all separated by spaces), and what
      the chosen source demands. */
  predicate CommandDefined(command: string, counter: nat, db: seq<Resolver.Element>)
  {
    '\0' !in command &&
    match RequestOf(Words(command))
    case Plot(coords, offset) =>
      counter < IntMax &&
      (coords && |Arguments(command, offset)| > 0 ==> SkipWords(command, offset).Some?) &&
      SourceDefined(coords, Arguments(command, offset), Text(command, offset), db)
    case _ => true
  }

  /** The command's effect: whether it was handled, the error shown, the new table and
      the new counter. */
  datatype Effect = Effect(handled: bool, shown: Option<string>, routes: map<string, Route>, counter: nat)

  function Compile(command: string, routes: map<string, Route>, counter: nat,
                   db: seq<Resolver.Element>): (e: Effect)
    requires CommandDefined(command, counter, db)
    ensures e.counter == if RequestOf(Words(command)).Plot? then counter + 1 else counter
    ensures e.shown.Some? ==> RequestOf(Words(command)).Plot? && !e.handled
    ensures !RequestOf(Words(command)).Plot? ==> (e.handled <==> !RequestOf(Words(command)).Foreign?)
    ensures RequestOf(Words(command)).Foreign? || RequestOf(Words(command)).Help? ==> e.routes == routes
  {
    match RequestOf(Words(command))
    case Foreign => Effect(false, None, routes, counter)
    case Help => Effect(true, None, routes, counter)
    case ClearAll => Effect(true, None, map[], counter)
    case ClearNamed(names) => Effect(true, None, Erase(routes, names), counter)
    case Plot(coords, offset) =>
      Stored(SourceResult(coords, Arguments(command, offset), Text(command, offset), Decimal(counter + 1), db),
             routes, counter)
  }

  /** The effect of a plot whose source yielded `res`. */
  function Stored(res: Result<Parsed>, routes: map<string, Route>, counter: nat): (e: Effect)
    ensures e.counter == counter + 1 && (e.handled <==> res.Ok?) && (e.shown.Some? <==> res.Err?)
    ensures res.Err? ==> e.routes == routes && e.shown == Some(res.error)
    ensures res.Ok? && |res.value.route| > 0 ==> res.value.name in e.routes && e.routes[res.value.name] == res.value.route
    ensures res.Ok? && |res.value.route| == 0 ==> e.routes == routes
    ensures forall n :: n in e.routes <==> n in routes || (res.Ok? && |res.value.route| > 0 && n == res.value.name)
    ensures forall n :: n in routes && !(res.Ok? && n == res.value.name) ==> e.routes[n] == routes[n]
  {
    match res
    case Ok(p) => Effect(true, None, if |p.route| > 0 then routes[p.name := p.route] else routes, counter + 1)
    case Err(e) => Effect(false, Some(e), routes, counter + 1)
  }

  /** `source->second->Parse(...)` for the chosen source. */
  method RunSource(coords: bool, args: seq<string>, text: string, name: string, db: seq<Resolver.Element>)
    returns (res: Result<Parsed>)
    requires SourceDefined(coords, args, text, db)
    ensures res == SourceResult(coords, args, text, name, db)
  {
    if coords {
      res := Legacy.Parse(args, text, name);
    } else {
      res := RouteSource.Parse(args, name, db);
    }
  }

  // ---------------------------------------------------------------------------
  // The plugin

  class Plugin {
    /** The stored routes by name. */
    var routes: map<string, Route>
    /** The number of plot commands so far; the next default name is its successor. */
    var nameCounter: nat

    constructor()
      ensures routes == map[] && nameCounter == 0
    {
      routes := map[];
      nameCounter := 0;
    }

    /** `Plugin::OnCompileCommand`: returns whether the command was handled and the
        error message displayed, if any. */
    method OnCompileCommand(command: string, db: seq<Resolver.Element>) returns (handled: bool, shown: Option<string>)
      requires CommandDefined(command, nameCounter, db)
      modifies this
      ensures Effect(handled, shown, routes, nameCounter) == Compile(command, old(routes), old(nameCounter), db)
    {
      var parts := Words(command);
      shown := None;
      if |parts| == 0 || parts[0] != Prefix {
        return false, None;
      }
      if |parts| == 1 || parts[1] == "help" {
        return true, None;
      }
      if parts[1] == "clear" {
        if |parts| > 2 {
          Remove(parts[2..]);
        } else {
          routes := map[];
        }
        return true, None;
      }
      var coords := parts[1] == "coords";
      var offset := if coords || parts[1] == "route" then 2 else 1;
      assert RequestOf(parts) == Plot(coords, offset);
      handled, shown := ParseAndStore(command, coords, offset, db);
    }

    /** The `clear` loop: `routes.erase` for each name. */
    method Remove(names: seq<string>)
      modifies this
      ensures routes == Erase(old(routes), names) && nameCounter == old(nameCounter)
    {
      for k := 0 to |names|
        invariant routes == Erase(old(routes), names[..k]) && nameCounter == old(nameCounter)
      {
        assert names[..k + 1] == names[..k] + [names[k]];
        routes := routes - {names[k]};
      }
      assert names[..|names|] == names;
    }

    /** A plot with the chosen source: the next default name, the text after `offset`
        words, the source's parse, and the store. */
    method ParseAndStore(command: string, coords: bool, offset: nat, db: seq<Resolver.Element>)
      returns (handled: bool, shown: Option<string>)
      requires nameCounter < IntMax && offset <= |Words(command)|
      requires SourceDefined(coords, Arguments(command, offset), Text(command, offset), db)
      modifies this
      ensures Effect(handled, shown, routes, nameCounter) ==
        Stored(SourceResult(coords, Arguments(command, offset), Text(command, offset), Decimal(old(nameCounter) + 1), db),
               old(routes), old(nameCounter))
    {
      nameCounter := nameCounter + 1;
      var name := Decimal(nameCounter);
      var ofs: Option<nat> := Some(0);
      for i := 0 to offset
        invariant ofs == SkipWords(command, i)
      {
        ofs := Advance(command, ofs);
      }
      var args := Words(command)[offset..];
      var text := Tail(command, ofs);
      var res := RunSource(coords, args, text, name, db);
      match res {
        case Ok(p) =>
          if |p.route| > 0 {
            routes := routes[p.name := p.route];
          }
          return true, None;
        case Err(e) =>
          return false, Some(e);
      }
    }
  }

  // ---------------------------------------------------------------------------
  // Properties of a command

  /** A command not starting with the prefix word is not the plugin's: nothing changes. */
  lemma ForeignCommand(command: string, routes: map<string, Route>, counter: nat, db: seq<Resolver.Element>)
    requires '\0' !in command
    requires var parts := Words(command); |parts| == 0 || parts[0] != Prefix
    ensures Compile(command, routes, counter, db) == Effect(false, None, routes, counter)
  {
  }

  /** `.plot clear` with names removes exactly those routes and keeps every other one. */
  lemma ClearRemovesNamed(command: string, names: seq<string>, routes: map<string, Route>, counter: nat,
                          db: seq<Resolver.Element>)
    requires '\0' !in command && |names| > 0 && Words(command) == [Prefix, "clear"] + names
    ensures var e := Compile(command, routes, counter, db);
      e.handled && e.counter == counter && e.shown == None &&
      (forall n :: n in e.routes <==> n in routes && n !in names) &&
      (forall n :: n in e.routes ==> e.routes[n] == routes[n])
  {
    assert ([Prefix, "clear"] + names)[2..] == names;
  }

  /** `.plot clear` alone empties the table. */
  lemma ClearEmpties(command: string, routes: map<string, Route>, counter: nat, db: seq<Resolver.Element>)
    requires '\0' !in command && Words(command) == [Prefix, "clear"]
    ensures Compile(command, routes, counter, db) == Effect(true, None, map[], counter)
  {
  }

  /** A plot command advances the counter exactly once, is handled exactly when its
      source succeeds, and stores the parsed route under its name only when the route
      has nodes; no other route changes. */
  lemma PlotStores(command: string, routes: map<string, Route>, counter: nat, db: seq<Resolver.Element>)
    requires CommandDefined(command, counter, db) && RequestOf(Words(command)).Plot?
    ensures var rq := RequestOf(Words(command));
      var res := SourceResult(rq.coords, Arguments(command, rq.offset), Text(command, rq.offset), Decimal(counter + 1), db);
      var e := Compile(command, routes, counter, db);
      e.counter == counter + 1 && (e.handled <==> res.Ok?) && (e.shown.Some? <==> res.Err?) &&
      (res.Ok? && |res.value.route| > 0 ==> res.value.name in e.routes && e.routes[res.value.name] == res.value.route) &&
      (forall n :: n in e.routes <==> n in routes || (res.Ok? && |res.value.route| > 0 && n == res.value.name)) &&
      (forall n :: n in routes && !(res.Ok? && n == res.value.name) ==> e.routes[n] == routes[n])
  {
  }

  /** The route source ignores the command text. */
  lemma RouteIgnoresText(args: seq<string>, t1: string, t2: string, name: string, db: seq<Resolver.Element>)
    requires RouteSource.Defined(args, db)
    ensures SourceDefined(false, args, t1, db) && SourceDefined(false, args, t2, db)
    ensures SourceResult(false, args, t1, name, db) == SourceResult(false, args, t2, name, db)
  {
  }

  /** `.plot X ...`, with `X` none of the command words, is a shortcut for
      `.plot route X ...`. */
  lemma RouteShortcut(short: string, long: string, ws: seq<string>, routes: map<string, Route>, counter: nat,
                      db: seq<Resolver.Element>)
    requires Words(short) == [Prefix] + ws && Words(long) == [Prefix, "route"] + ws && '\0' !in long
    requires |ws| > 0 && ws[0] != "help" && ws[0] != "clear" && ws[0] != "coords" && ws[0] != "route"
    requires CommandDefined(short, counter, db)
    ensures CommandDefined(long, counter, db)
    ensures Compile(short, routes, counter, db) == Compile(long, routes, counter, db)
  {
    assert ([Prefix] + ws)[1..] == ws;
    assert ([Prefix, "route"] + ws)[2..] == ws;
    assert RequestOf(Words(short)) == Plot(false, 1) && RequestOf(Words(long)) == Plot(false, 2);
    assert Arguments(short, 1) == ws && Arguments(long, 2) == ws;
    RouteIgnoresText(ws, Text(short, 1), Text(long, 2), Decimal(counter + 1), db);
  }
}
