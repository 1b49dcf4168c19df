/** The legacy coordinate source (`CoordsSource::Parse`, plot.cpp:466-568): a string
    over a 62-symbol alphabet, scanned left to right, where `-` breaks the route,
    seven symbols (plus an optional extension) make one point and `(...)` labels
    the last node.

    `Scan` is the scanning loop written as a function; `Parse` is the loop itself,
    proved equal to it.  `Interp` is an independent, item-level meaning of the
    format and `ScanEncoded` proves that scanning an encoded item list yields it. */
module Legacy {
  import opened Common

  // ---------------------------------------------------------------------------
  // The alphabet (decode, plot.cpp:459-464)

  predicate IsSymbol(c: char)
  {
    'A' <= c <= 'Z' || 'a' <= c <= 'z' || '0' <= c <= '9'
  }

  /** The symbol of value `k`: the inverse of `Decode`. */
  function Symbol(k: int): char
    requires 0 <= k < 62
  {
    if k < 26 then ('A' as int + k) as char
    else if k < 52 then ('a' as int + (k - 26)) as char
    else ('0' as int + (k - 52)) as char
  }

  /** The value of a symbol, or -1 for every other character (the NUL terminator included). */
  function Decode(c: char): (r: int)
    ensures -1 <= r < 62
    ensures r == -1 <==> !IsSymbol(c)
    ensures r >= 0 ==> Symbol(r) == c
  {
    if 'A' <= c <= 'Z' then c as int - 'A' as int
    else if 'a' <= c <= 'z' then 26 + (c as int - 'a' as int)
    else if '0' <= c <= '9' then 52 + (c as int - '0' as int)
    else -1
  }

  lemma DecodeSymbol(k: int)
    requires 0 <= k < 62
    ensures Decode(Symbol(k)) == k
  {
  }

  lemma SymbolInside(s: string, j: int)
    requires Decode(At(s, j)) >= 0
    ensures 0 <= j < |s|
  {
  }

  /** Bit `k` of a non-negative symbol value. */
  function Bit(w: int, k: nat): int
    requires w >= 0
  {
    if k == 0 then w % 2 else Bit(w / 2, k - 1)
  }

  // ---------------------------------------------------------------------------
  // One seven-symbol group (plot.cpp:519-557)

  /** `w1 + (w2 + w3/60)/60`, plus 60 with bit 2 of `w0`, negated with bit 1. */
  function GroupLat(w: seq<int>): real
    requires |w| == 7 && forall k :: 0 <= k < 7 ==> 0 <= w[k]
  {
    var m := w[1] as real + (w[2] as real + w[3] as real / 60.0) / 60.0 + 60.0 * Bit(w[0], 2) as real;
    if Bit(w[0], 1) == 1 then -m else m
  }

  /** `w4 + (w5 + w6/60)/60`, plus 60 times bits 4-5 of `w0`, negated with bit 3. */
  function GroupLon(w: seq<int>): real
    requires |w| == 7 && forall k :: 0 <= k < 7 ==> 0 <= w[k]
  {
    var m := w[4] as real + (w[5] as real + w[6] as real / 60.0) / 60.0
             + 60.0 * (w[0] / 16 % 4) as real;
    if Bit(w[0], 3) == 1 then -m else m
  }

  /** The hold of an extension whose first symbol is below 60. */
  function ExtensionHold(extra1: int, extra2: int): Hold
    requires 0 <= extra1 < 60 && 0 <= extra2 < 62
  {
    Hold(extra2 % 16, 6 * extra1 + (if extra2 / 32 != 0 then 3 else 0), Bit(extra2, 4) == 1)
  }

  datatype GroupRead = BadChar | Read(node: Node, next: nat)

  /** Reads the group whose first symbol is at `i`, with its extension when bit 0
      of that symbol is set; `next` is the position after the last symbol read. */
  function Group(s: string, i: nat): (g: GroupRead)
    requires i < |s| && Decode(s[i]) >= 0
    ensures g.Read? ==> i < g.next <= |s|
    ensures g.Read? ==> g.node.lat.Deg? && g.node.lon.Deg? && g.node.text == []
  {
    var w := seq(7, k => Decode(At(s, i + k)));
    if exists k :: 1 <= k < 7 && w[k] < 0 then BadChar
    else
      assert At(s, i + 0) == s[i];
      assert !(w[6] < 0);
      SymbolInside(s, i + 6);
      var n := Node(Deg(GroupLat(w)), Deg(GroupLon(w)), false, [], None);
      if Bit(w[0], 0) == 0 then Read(n, i + 7)
      else
        var extra1 := Decode(At(s, i + 7));
        if extra1 < 0 then BadChar
        else if extra1 >= 60 then Read(n.(highlight := true), i + 8)
        else
          var extra2 := Decode(At(s, i + 8));
          if extra2 < 0 then BadChar
          else Read(n.(hold := Some(ExtensionHold(extra1, extra2))), i + 9)
  }

  // ---------------------------------------------------------------------------
  // Labels (plot.cpp:489-511)

  predicate IsBracket(c: char)
  {
    c == '(' || c == ')'
  }

  /** `strpbrk(s + p, "()")`. */
  function NextBracket(s: string, p: nat): (q: Option<nat>)
    requires p <= |s|
    ensures q.Some? ==> p <= q.value < |s| && IsBracket(s[q.value])
    ensures q.Some? ==> forall k :: p <= k < q.value ==> !IsBracket(s[k])
    ensures q.None? ==> forall k :: p <= k < |s| ==> !IsBracket(s[k])
    decreases |s| - p
  {
    if p == |s| then None
    else if IsBracket(s[p]) then Some(p)
    else NextBracket(s, p + 1)
  }

  /** How the bracket-depth loop ends: at the matching `)`, with no bracket left
      ("missing closing bracket"), or by running onto the terminator with brackets
      still open, after which the scanner reads past the end of the string. */
  datatype LabelScan = Closed(end: nat) | Unclosed | Runaway

  /** The bracket-depth loop entered at `p` with `count` brackets open. */
  function LabelEnd(s: string, p: nat, count: nat): (r: LabelScan)
    requires p <= |s| && count >= 1
    ensures r.Closed? ==> p <= r.end < |s| && s[r.end] == ')'
    decreases |s| - p
  {
    if p == |s| then Runaway
    else match NextBracket(s, p)
      case None => Unclosed
      case Some(q) =>
        var c := if s[q] == '(' then count + 1 else count - 1;
        if c == 0 then Closed(q) else LabelEnd(s, q + 1, c)
  }

  /** `route.back().label = label`. */
  function Relabel(route: Route, caption: string): (r: Route)
    requires |route| > 0
    ensures |r| == |route| && r[..|r| - 1] == route[..|route| - 1]
    ensures r[|r| - 1] == route[|route| - 1].(text := caption)
  {
    route[..|route| - 1] + [route[|route| - 1].(text := caption)]
  }

  // ---------------------------------------------------------------------------
  // The scanning loop (plot.cpp:485-565)

  datatype Outcome = Decoded(route: Route) | Failed(error: string) | Undefined

  /** `-` resets latitude and highlight only: longitude and hold carry over. */
  function Break(item: Node): (r: Node)
    ensures r.IsDiscontinuity() && !r.highlight && r.text == []
    ensures r.lon == item.lon && r.hold == item.hold
  {
    item.(lat := NaN, highlight := false, text := [])
  }

  /** The scan from position `i` with the reused `item` and the route built so far. */
  function Scan(s: string, i: nat, item: Node, route: Route): (r: Outcome)
    requires i <= |s|
    ensures r.Failed? ==> r.error in {"missing closing bracket", "invalid character", "invalid structural character"}
    ensures r.Decoded? ==> |r.route| >= |route|
    decreases |s| - i, 1
  {
    if i == |s| then Decoded(route) else ScanAt(s, i, item, route)
  }

  /** One iteration of the loop, at a position before the terminator. */
  function ScanAt(s: string, i: nat, item: Node, route: Route): (r: Outcome)
    requires i < |s|
    ensures r.Failed? ==> r.error in {"missing closing bracket", "invalid character", "invalid structural character"}
    ensures r.Decoded? ==> |r.route| >= |route|
    decreases |s| - i, 0
  {
    if s[i] == '(' && |route| > 0 then
      match LabelEnd(s, i + 1, 1)
      case Unclosed => Failed("missing closing bracket")
      case Runaway => Undefined
      case Closed(e) => Scan(s, e + 1, item, Relabel(route, s[i + 1..e] + ['\0']))
    else if s[i] == '-' then
      Scan(s, i + 1, Break(item), route + [Break(item)])
    else if Decode(s[i]) >= 0 then
      match Group(s, i)
      case BadChar => Failed("invalid character")
      case Read(n, j) => Scan(s, j, n, route + [n])
    else Failed("invalid structural character")
  }

  /** `Node item;`: its coordinates are uninitialised, modelled as NaN. */
  const InitialItem := Node(NaN, NaN, false, [], None)

  /** Whether the first argument is taken as the route's name. */
  predicate HasName(args: seq<string>)
  {
    |args| > 1 && '(' !in args[0]
  }

  /** The number of leading spaces (`strspn(s, " ")`). */
  function Spaces(s: string, i: nat): (j: nat)
    requires i <= |s|
    ensures i <= j <= |s| && (j < |s| ==> s[j] != ' ')
    ensures forall k :: i <= k < j ==> s[k] == ' '
    decreases |s| - i
  {
    if i < |s| && s[i] == ' ' then Spaces(s, i + 1) else i
  }

  /** The string body: the command text after the name and its spaces. */
  function Body(args: seq<string>, command: string): string
    requires HasName(args) ==> |args[0]| <= |command|
  {
    if HasName(args) then command[Spaces(command, |args[0]|)..] else command
  }

  /** The first position scanned: past a leading `@`, if there is one. */
  function Start(b: string): nat
  {
    if |b| > 0 && b[0] == '@' then 1 else 0
  }

  /** What `CoordsSource::Parse` computes; `name` is the name the caller proposed. */
  function ParseSpec(args: seq<string>, command: string): Outcome
    requires HasName(args) ==> |args[0]| <= |command|
  {
    if |args| == 0 || |command| == 0 then Failed("missing string")
    else
      var b := Body(args, command);
      Scan(b, Start(b), InitialItem, [])
  }

  /** The preconditions of `CoordsSource::Parse`: a C string (no NUL inside), a name
      that does not run past the text, and no bracket scan that runs off the end. */
  predicate Defined(args: seq<string>, command: string)
  {
    '\0' !in command &&
    (HasName(args) ==> |args[0]| <= |command|) &&
    !ParseSpec(args, command).Undefined?
  }

  /** The bracket-depth loop of plot.cpp:490-501 for the `(` at `i`: where it stops. */
  method FindClose(b: string, i: nat) returns (r: LabelScan)
    requires i < |b|
    ensures r == LabelEnd(b, i + 1, 1)
  {
    // `p` is where `command` points after the loop condition's increment
    var count := 1;
    var p := i + 1;
    while p < |b|
      invariant i < p <= |b| && count >= 1
      invariant LabelEnd(b, p, count) == LabelEnd(b, i + 1, 1)
      decreases |b| - p
    {
      var q := NextBracket(b, p);
      if q.None? {
        return Unclosed;
      }
      var end := q.value;
      var c := if b[end] == '(' then count + 1 else count - 1;
      if c == 0 {
        return Closed(end);
      }
      count := c;
      p := end + 1;
    }
    return Runaway;
  }

  /** The group of plot.cpp:519-557 whose first symbol is at `i`. */
  method ReadGroup(b: string, i: nat) returns (g: GroupRead)
    requires i < |b| && Decode(b[i]) >= 0
    ensures g == Group(b, i)
  {
    var word := [Decode(b[i])];
    for k := 1 to 7
      invariant |word| == k
      invariant forall j :: 0 <= j < k ==> word[j] == Decode(At(b, i + j)) && word[j] >= 0
    {
      var d := Decode(At(b, i + k));
      if d < 0 {
        assert seq(7, j => Decode(At(b, i + j)))[k] < 0;
        return BadChar;
      }
      word := word + [d];
    }
    assert word == seq(7, j => Decode(At(b, i + j)));
    var item := Node(Deg(GroupLat(word)), Deg(GroupLon(word)), false, [], None);
    if Bit(word[0], 0) == 1 {
      var extra1 := Decode(At(b, i + 7));
      if extra1 < 0 {
        return BadChar;
      }
      if extra1 >= 60 {
        return Read(item.(highlight := true), i + 8);
      }
      var extra2 := Decode(At(b, i + 8));
      if extra2 < 0 {
        return BadChar;
      }
      return Read(item.(hold := Some(ExtensionHold(extra1, extra2))), i + 9);
    }
    return Read(item, i + 7);
  }

  /** `CoordsSource::Parse`: the scanning loop with the reused `item`, proved to
      compute `ParseSpec`. */
  method Parse(args: seq<string>, command: string, name: string) returns (res: Result<Parsed>)
    requires Defined(args, command)
    ensures ParseSpec(args, command).Failed? ==> res == Err(ParseSpec(args, command).error)
    ensures ParseSpec(args, command).Decoded? ==>
      res == Ok(Parsed(if HasName(args) then args[0] else name, ParseSpec(args, command).route))
  {
    if |args| == 0 || |command| == 0 {
      return Err("missing string");
    }
    var named := if HasName(args) then args[0] else name;
    var b := Body(args, command);
    ghost var spec := Scan(b, Start(b), InitialItem, []);
    assert spec == ParseSpec(args, command);
    var i := Start(b);
    var item := InitialItem;
    var route: Route := [];
    while i < |b|
      invariant i <= |b|
      invariant Scan(b, i, item, route) == spec
      decreases |b| - i
    {
      if b[i] == '(' && |route| > 0 {
        var r := FindClose(b, i);
        match r
        case Unclosed =>
          return Err("missing closing bracket");
        case Runaway =>
          // the scanner would go on reading past the terminator
          assert false;
        case Closed(end) =>
          route := Relabel(route, b[i + 1..end] + ['\0']);
          i := end + 1;
      } else if b[i] == '-' {
        item := Break(item);
        route := route + [item];
        i := i + 1;
      } else if Decode(b[i]) >= 0 {
        var g := ReadGroup(b, i);
        match g
        case BadChar =>
          return Err("invalid character");
        case Read(n, next) =>
          item := n;
          route := route + [item];
          i := next;
      } else {
        return Err("invalid structural character");
      }
    }
    return Ok(Parsed(named, route));
  }

  // ---------------------------------------------------------------------------
  // Properties of the scan

  /** `-` appends one discontinuity that keeps the previous longitude and hold. */
  lemma DashStep(s: string, i: nat, item: Node, route: Route)
    requires i < |s| && s[i] == '-'
    ensures var n := Break(item);
      && Scan(s, i, item, route) == Scan(s, i + 1, n, route + [n])
      && n.IsDiscontinuity() && !n.highlight && n.text == []
      && n.lon == item.lon && n.hold == item.hold
  {
  }

  /** A symbol that starts a group followed by a non-symbol fails the whole scan. */
  lemma InvalidCharacter(s: string, i: nat, k: nat, item: Node, route: Route)
    requires i < |s| && IsSymbol(s[i]) && 1 <= k < 7
    requires !IsSymbol(At(s, i + k))
    ensures Scan(s, i, item, route) == Failed("invalid character")
  {
    var w := seq(7, j => Decode(At(s, i + j)));
    assert w[k] == Decode(At(s, i + k)) == -1;
    assert exists j :: 1 <= j < 7 && w[j] < 0;
  }

  /** A group whose first symbol has bit 0 set reads an extension: a non-symbol (the
      terminator included) in its place, or after a first extension symbol below 60,
      fails the whole scan. */
  lemma InvalidExtension(s: string, i: nat, item: Node, route: Route)
    requires i < |s| && IsSymbol(s[i]) && Bit(Decode(s[i]), 0) == 1
    requires forall k :: i < k < i + 7 ==> IsSymbol(At(s, k))
    requires !IsSymbol(At(s, i + 7)) || (Decode(At(s, i + 7)) < 60 && !IsSymbol(At(s, i + 8)))
    ensures Scan(s, i, item, route) == Failed("invalid character")
  {
    var w := seq(7, j => Decode(At(s, i + j)));
    assert w[0] == Decode(At(s, i + 0)) == Decode(s[i]);
    assert forall j :: 1 <= j < 7 ==> w[j] == Decode(At(s, i + j)) && IsSymbol(At(s, i + j));
    assert Group(s, i) == BadChar;
  }

  /** Any character other than a symbol, `-` or a `(` after a node fails the scan. */
  lemma InvalidStructure(s: string, i: nat, item: Node, route: Route)
    requires i < |s| && !IsSymbol(s[i]) && s[i] != '-'
    requires s[i] == '(' ==> route == []
    ensures Scan(s, i, item, route) == Failed("invalid structural character")
  {
  }

  function Delta(c: char): int
  {
    if c == '(' then 1 else if c == ')' then -1 else 0
  }

  /** Brackets opened minus brackets closed. */
  function Depth(t: string): int
  {
    if t == [] then 0 else Delta(t[0]) + Depth(t[1..])
  }

  /** Every prefix closes no more brackets than it opened, and the whole closes all. */
  predicate Balanced(t: string)
  {
    Depth(t) == 0 && forall k :: 0 <= k <= |t| ==> Depth(t[..k]) >= 0
  }

  lemma {:induction false} DepthAppend(x: string, y: string)
    ensures Depth(x + y) == Depth(x) + Depth(y)
    decreases |x|
  {
    if x == [] {
      assert x + y == y;
    } else {
      assert (x + y)[1..] == x[1..] + y;
      DepthAppend(x[1..], y);
    }
  }

  lemma {:induction false} DepthFree(t: string)
    requires forall k :: 0 <= k < |t| ==> !IsBracket(t[k])
    ensures Depth(t) == 0
    decreases |t|
  {
    if t != [] {
      DepthFree(t[1..]);
    }
  }

  /** The depth of a prefix splits at any earlier point. */
  lemma DepthSplit(u: string, j: nat, k: nat)
    requires j + k <= |u|
    ensures Depth(u[..j + k]) == Depth(u[..j]) + Depth(u[j..][..k])
  {
    assert u[..j + k] == u[..j] + u[j..][..k];
    DepthAppend(u[..j], u[j..][..k]);
  }

  /** Up to and including its first bracket, a string has the depth of that bracket. */
  lemma DepthToFirst(u: string, j: nat)
    requires j < |u| && forall k :: 0 <= k < j ==> !IsBracket(u[k])
    ensures Depth(u[..j + 1]) == Delta(u[j])
  {
    DepthFree(u[..j]);
    assert u[..j + 1] == u[..j] + [u[j]];
    DepthAppend(u[..j], [u[j]]);
  }

  /** The bracket-depth loop entered with `count` open brackets, over a stretch `u`
      that never closes them all, stops exactly at the `)` that does. */
  lemma {:induction false} LabelCloses(s: string, p: nat, count: nat, u: string)
    requires count >= 1 && p + |u| < |s|
    requires s[p..p + |u|] == u && s[p + |u|] == ')'
    requires forall k :: 0 <= k <= |u| ==> count + Depth(u[..k]) >= 1
    requires count + Depth(u) == 1
    ensures LabelEnd(s, p, count) == Closed(p + |u|)
    decreases |u|, 1
  {
    var first := NextBracket(u, 0);
    if first.Some? {
      var j0 := first.value;
      LabelClosesStep(s, p, count, u, j0);
      LabelClosesFrom(s, p, count, p + j0 + 1, count + Delta(u[j0]), u[j0 + 1..], p + |u|);
    } else {
      LabelClosesFree(s, p, count, u);
    }
  }

  /** The loop from `p` that reaches `p'` with what is left of the label closes where
      the loop from `p'` does. */
  lemma {:induction false} LabelClosesFrom(s: string, p: nat, count: nat, p': nat, c: nat, u': string, e: nat)
    requires p <= |s| && count >= 1 && c >= 1 && p' + |u'| < |s| && e == p' + |u'|
    requires s[p'..p' + |u'|] == u' && s[p' + |u'|] == ')'
    requires forall k :: 0 <= k <= |u'| ==> c + Depth(u'[..k]) >= 1
    requires c + Depth(u') == 1
    requires LabelEnd(s, p, count) == LabelEnd(s, p', c)
    ensures LabelEnd(s, p, count) == Closed(e)
    decreases |u'| + 1, 0
  {
    LabelCloses(s, p', c, u');
  }

  /** At the first bracket of `u` the loop steps on with what is left of `u` meeting
      the same conditions. */
  lemma LabelClosesStep(s: string, p: nat, count: nat, u: string, j0: nat)
    requires count >= 1 && p + |u| < |s|
    requires s[p..p + |u|] == u && s[p + |u|] == ')'
    requires forall k :: 0 <= k <= |u| ==> count + Depth(u[..k]) >= 1
    requires count + Depth(u) == 1
    requires j0 < |u| && IsBracket(u[j0]) && forall k :: 0 <= k < j0 ==> !IsBracket(u[k])
    ensures var c := count + Delta(u[j0]); var u' := u[j0 + 1..]; var p' := p + j0 + 1;
      c >= 1 && p' + |u'| == p + |u| && s[p'..p' + |u'|] == u' && s[p' + |u'|] == ')' &&
      (forall k :: 0 <= k <= |u'| ==> c + Depth(u'[..k]) >= 1) && c + Depth(u') == 1 &&
      LabelEnd(s, p, count) == LabelEnd(s, p', c)
  {
    RemainderOpen(u, j0, count);
    LabelOpens(s, p, count, u, j0);
    LabelRest(s, p, u, j0);
  }

  /** At the first bracket `j0` of `u` the loop steps to `p + j0 + 1` with the brackets
      still open. */
  lemma LabelOpens(s: string, p: nat, count: nat, u: string, j0: nat)
    requires count >= 1 && p + |u| < |s| && s[p..p + |u|] == u
    requires j0 < |u| && IsBracket(u[j0]) && forall k :: 0 <= k < j0 ==> !IsBracket(u[k])
    requires count + Delta(u[j0]) >= 1
    ensures LabelEnd(s, p, count) == LabelEnd(s, p + j0 + 1, count + Delta(u[j0]))
  {
    SliceAgrees(s, p, u);
    NextBracketAt(s, p, p + j0);
    LabelEndStep(s, p, count, p + j0);
    assert s[p + j0] == u[j0];
  }

  /** The rest of `u` past its first bracket lies in `s` just before the `)`. */
  lemma LabelRest(s: string, p: nat, u: string, j0: nat)
    requires p + |u| < |s| && s[p..p + |u|] == u && s[p + |u|] == ')' && j0 < |u|
    ensures var u' := u[j0 + 1..];
      p + j0 + 1 + |u'| == p + |u| && s[p + j0 + 1..p + j0 + 1 + |u'|] == u' && s[p + j0 + 1 + |u'|] == ')'
  {
    SliceRest(s, p, u, j0);
  }

  lemma SliceRest(s: string, p: nat, u: string, j0: nat)
    requires p + |u| <= |s| && s[p..p + |u|] == u && j0 < |u|
    ensures var u' := u[j0 + 1..];
      p + j0 + 1 + |u'| == p + |u| && s[p + j0 + 1..p + j0 + 1 + |u'|] == u'
  {
    var u' := u[j0 + 1..];
    assert s[p + j0 + 1..p + j0 + 1 + |u'|] == s[p..p + |u|][j0 + 1..];
  }

  lemma SliceAgrees(s: string, p: nat, u: string)
    requires p + |u| <= |s| && s[p..p + |u|] == u
    ensures forall k :: p <= k < p + |u| ==> s[k] == u[k - p]
  {
    forall k | p <= k < p + |u|
      ensures s[k] == u[k - p]
    {
      assert s[p..p + |u|][k - p] == s[k];
    }
  }

  /** Past the first bracket of `u`, the brackets stay open until the end of `u`. */
  lemma RemainderOpen(u: string, j0: nat, count: nat)
    requires j0 < |u| && IsBracket(u[j0]) && forall k :: 0 <= k < j0 ==> !IsBracket(u[k])
    requires forall k :: 0 <= k <= |u| ==> count + Depth(u[..k]) >= 1
    requires count + Depth(u) == 1
    ensures var c := count + Delta(u[j0]); var u' := u[j0 + 1..];
      c >= 1 && c + Depth(u') == 1 && forall k :: 0 <= k <= |u'| ==> c + Depth(u'[..k]) >= 1
  {
    OpenPastFirst(u, j0, count);
    DepthToFirst(u, j0);
    var u' := u[j0 + 1..];
    DepthSplit(u, j0 + 1, |u'|);
    assert u[..j0 + 1 + |u'|] == u;
    assert u'[..|u'|] == u';
  }

  /** Past the first bracket of `u`, the brackets that stay open through `u` stay open. */
  lemma OpenPastFirst(u: string, j0: nat, count: nat)
    requires j0 < |u| && IsBracket(u[j0]) && forall k :: 0 <= k < j0 ==> !IsBracket(u[k])
    requires forall k :: 0 <= k <= |u| ==> count + Depth(u[..k]) >= 1
    ensures var c := count + Delta(u[j0]); var u' := u[j0 + 1..];
      c >= 1 && forall k :: 0 <= k <= |u'| ==> c + Depth(u'[..k]) >= 1
  {
    DepthToFirst(u, j0);
    var c := count + Delta(u[j0]);
    var u' := u[j0 + 1..];
    assert count + Depth(u[..j0 + 1]) >= 1;
    forall k | 0 <= k <= |u'|
      ensures c + Depth(u'[..k]) >= 1
    {
      DepthSplit(u, j0 + 1, k);
      assert count + Depth(u[..j0 + 1 + k]) >= 1;
    }
  }

  lemma LabelClosesFree(s: string, p: nat, count: nat, u: string)
    requires count >= 1 && p + |u| < |s|
    requires s[p..p + |u|] == u && s[p + |u|] == ')'
    requires forall k :: 0 <= k < |u| ==> !IsBracket(u[k])
    requires count + Depth(u) == 1
    ensures LabelEnd(s, p, count) == Closed(p + |u|)
  {
    SliceAgrees(s, p, u);
    DepthFree(u);
    NextBracketAt(s, p, p + |u|);
    LabelEndStep(s, p, count, p + |u|);
  }

  lemma LabelEndStep(s: string, p: nat, count: nat, q: nat)
    requires p < |s| && count >= 1 && NextBracket(s, p) == Some(q)
    ensures var c := if s[q] == '(' then count + 1 else count - 1;
      LabelEnd(s, p, count) == if c == 0 then Closed(q) else LabelEnd(s, q + 1, c)
  {
  }

  /** The least bracket position of `u`, given one at `j`. */
  function FirstBracket(u: string, j: nat): (j0: nat)
    requires j < |u| && IsBracket(u[j])
    ensures j0 <= j && IsBracket(u[j0]) && forall k :: 0 <= k < j0 ==> !IsBracket(u[k])
  {
    if exists k :: 0 <= k < j && IsBracket(u[k]) then
      var k :| 0 <= k < j && IsBracket(u[k]);
      FirstBracket(u, k)
    else j
  }

  lemma {:induction false} NextBracketAt(s: string, p: nat, q: nat)
    requires p <= q < |s| && IsBracket(s[q])
    requires forall k :: p <= k < q ==> !IsBracket(s[k])
    ensures NextBracket(s, p) == Some(q)
    decreases q - p
  {
    if p < q {
      NextBracketAt(s, p + 1, q);
    }
  }

  /** `(t)` after a node, with `t` balanced, appends nothing and only relabels the
      last node with `t` (and the terminating NUL the code copies along). */
  lemma LabelStep(s: string, i: nat, t: string, item: Node, route: Route)
    requires |route| > 0 && Balanced(t)
    requires i + |t| + 1 < |s| && s[i] == '(' && s[i + 1..i + 1 + |t|] == t && s[i + 1 + |t|] == ')'
    ensures Scan(s, i, item, route) == Scan(s, i + |t| + 2, item, Relabel(route, t + ['\0']))
  {
    forall k | 0 <= k <= |t| ensures 1 + Depth(t[..k]) >= 1 {
    }
    LabelCloses(s, i + 1, 1, t);
  }

  /** The bracket-depth loop entered with `count` open brackets, over a stretch `v`
      that ends at a bracket (or is empty) and never closes them all, meets no bracket
      in the non-empty rest of `s`: `strpbrk` finds none. */
  lemma {:induction false} LabelUnclosed(s: string, p: nat, count: nat, v: string)
    requires count >= 1 && p + |v| < |s| && s[p..p + |v|] == v
    requires |v| == 0 || IsBracket(v[|v| - 1])
    requires forall k :: 0 <= k <= |v| ==> count + Depth(v[..k]) >= 1
    requires forall k :: p + |v| <= k < |s| ==> !IsBracket(s[k])
    ensures LabelEnd(s, p, count) == Unclosed
    decreases |v|
  {
    if |v| > 0 {
      var j0 := FirstBracket(v, |v| - 1);
      var c := count + Delta(v[j0]);
      OpenPastFirst(v, j0, count);
      LabelOpens(s, p, count, v, j0);
      var v' := v[j0 + 1..];
      SliceRest(s, p, v, j0);
      if |v'| > 0 {
        assert v'[|v'| - 1] == v[|v| - 1];
      }
      LabelUnclosed(s, p + j0 + 1, c, v');
    } else {
      UnclosedFree(s, p, count);
    }
  }

  /** With brackets open, a non-empty rest without brackets leaves them unclosed. */
  lemma UnclosedFree(s: string, p: nat, count: nat)
    requires count >= 1 && p < |s| && forall k :: p <= k < |s| ==> !IsBracket(s[k])
    ensures LabelEnd(s, p, count) == Unclosed
  {
    assert NextBracket(s, p).None?;
  }

  /** A `(` after a node whose label `v` (possibly empty, possibly with nested
      brackets, none left closing the label) is followed by text without brackets
      fails with "missing closing bracket". */
  lemma MissingClosingBracket(s: string, i: nat, v: string, item: Node, route: Route)
    requires |route| > 0 && i + 1 + |v| < |s| && s[i] == '(' && s[i + 1..i + 1 + |v|] == v
    requires |v| == 0 || IsBracket(v[|v| - 1])
    requires forall k :: 0 <= k <= |v| ==> Depth(v[..k]) >= 0
    requires forall k :: i + 1 + |v| <= k < |s| ==> !IsBracket(s[k])
    ensures Scan(s, i, item, route) == Failed("missing closing bracket")
  {
    LabelUnclosed(s, i + 1, 1, v);
  }

  // ---------------------------------------------------------------------------
  // An independent meaning of the format: encoding items and decoding them back

  /** A point in degrees, minutes and seconds with its hemispheres. */
  datatype Fix = Fix(south: bool, latDeg: nat, latMin: nat, latSec: nat,
                     west: bool, lonDeg: nat, lonMin: nat, lonSec: nat)

  /** What follows a point's seven symbols. */
  datatype Mark = Unmarked | Highlight(alt: bool) | Holding(length: nat, sixths: nat, half: bool, left: bool)

  datatype Item = Dash | Point(fix: Fix, mark: Mark) | Label(text: string)

  function B(b: bool): nat
  {
    if b then 1 else 0
  }

  /** The seven symbol values of a point: hemisphere and tens-of-degrees bits in the first. */
  function Words(f: Fix, m: Mark): seq<int>
  {
    [B(!m.Unmarked?) + 2 * B(f.south) + 4 * (f.latDeg / 60) + 8 * B(f.west) + 16 * (f.lonDeg / 60),
     f.latDeg % 60, f.latMin, f.latSec, f.lonDeg % 60, f.lonMin, f.lonSec]
  }

  /** The extension symbol values of a mark. */
  function MarkWords(m: Mark): seq<int>
  {
    match m
    case Unmarked => []
    case Highlight(alt) => [60 + B(alt)]
    case Holding(length, sixths, half, left) => [sixths, length + 16 * B(left) + 32 * B(half)]
  }

  predicate ValidPoint(f: Fix, m: Mark)
  {
    f.latDeg < 120 && f.latMin < 62 && f.latSec < 62 &&
    f.lonDeg < 240 && f.lonMin < 62 && f.lonSec < 62 &&
    Words(f, m)[0] < 62 &&
    (m.Holding? ==> m.length < 16 && m.sixths < 60 && MarkWords(m)[1] < 62)
  }

  /** Labels contain no NUL and no unbalanced bracket, and each one follows a node. */
  predicate ValidItem(it: Item, afterNode: bool)
  {
    match it
    case Dash => true
    case Point(f, m) => ValidPoint(f, m)
    case Label(t) => afterNode && '\0' !in t && Balanced(t)
  }

  predicate ValidItems(items: seq<Item>, afterNode: bool)
    decreases |items|
  {
    items == [] || (ValidItem(items[0], afterNode) && ValidItems(items[1..], true))
  }

  function Symbols(w: seq<int>): (s: string)
    requires forall k :: 0 <= k < |w| ==> 0 <= w[k] < 62
    ensures |s| == |w| && forall k :: 0 <= k < |w| ==> Decode(s[k]) == w[k]
  {
    seq(|w|, k requires 0 <= k < |w| => Symbol(w[k]))
  }

  /** The symbols of one item; a point out of range has none. */
  function EncodeItem(it: Item): string
  {
    match it
    case Dash => "-"
    case Point(f, m) => if ValidPoint(f, m) then Symbols(Words(f, m) + MarkWords(m)) else []
    case Label(t) => "(" + t + ")"
  }

  function Encode(items: seq<Item>): string
    decreases |items|
  {
    if items == [] then []
    else EncodeItem(items[0]) + Encode(items[1..])
  }

  /** Degrees, minutes and seconds as degrees. */
  function Sexagesimal(d: nat, m: nat, s: nat): real
  {
    d as real + m as real / 60.0 + s as real / 3600.0
  }

  /** The node a point item denotes: signed sexagesimal degrees, and its mark. */
  function FixNode(f: Fix, m: Mark): Node
  {
    var lat := Sexagesimal(f.latDeg, f.latMin, f.latSec);
    var lon := Sexagesimal(f.lonDeg, f.lonMin, f.lonSec);
    Node(Deg(if f.south then -lat else lat), Deg(if f.west then -lon else lon),
         m.Highlight?, [],
         if m.Holding? then Some(Hold(m.length, 6 * m.sixths + 3 * B(m.half), m.left)) else None)
  }

  /** The route an item list denotes, starting from a reused item and a route. */
  function Interp(items: seq<Item>, item: Node, route: Route): Route
    requires ValidItems(items, |route| > 0)
    decreases |items|
  {
    if items == [] then route
    else
      var (n, r) := StepItem(items[0], item, route);
      Interp(items[1..], n, r)
  }

  /** One item's effect on the reused item and the route: a node appended or a relabelling. */
  function StepItem(it: Item, item: Node, route: Route): (nr: (Node, Route))
    requires ValidItem(it, |route| > 0)
    ensures |nr.1| == |route| + (if it.Label? then 0 else 1)
  {
    match it
    case Dash => (Break(item), route + [Break(item)])
    case Point(f, m) => (FixNode(f, m), route + [FixNode(f, m)])
    case Label(t) => (item, Relabel(route, t + ['\0']))
  }

  /** The number of nodes an item list appends: one per dash and per point. */
  function NodeCount(items: seq<Item>): nat
  {
    if items == [] then 0
    else (if items[0].Label? then 0 else 1) + NodeCount(items[1..])
  }

  lemma {:induction false} InterpLength(items: seq<Item>, item: Node, route: Route)
    requires ValidItems(items, |route| > 0)
    ensures |Interp(items, item, route)| == |route| + NodeCount(items)
    decreases |items|
  {
    if items != [] {
      var (n, r) := StepItem(items[0], item, route);
      InterpLength(items[1..], n, r);
    }
  }

  lemma BitsOfFirstWord(e: nat, s: nat, a: nat, w: nat, o: nat)
    requires e < 2 && s < 2 && a < 2 && w < 2 && o < 4
    ensures var x := e + 2 * s + 4 * a + 8 * w + 16 * o;
      Bit(x, 0) == e && Bit(x, 1) == s && Bit(x, 2) == a && Bit(x, 3) == w && x / 16 % 4 == o
  {
    var x := e + 2 * s + 4 * a + 8 * w + 16 * o;
    assert x / 2 == s + 2 * a + 4 * w + 8 * o;
    assert x / 2 / 2 == a + 2 * w + 4 * o;
    assert x / 2 / 2 / 2 == w + 2 * o;
    assert x / 16 == o;
    assert Bit(x, 1) == Bit(x / 2, 0);
    assert Bit(x, 2) == Bit(x / 2, 1) == Bit(x / 2 / 2, 0);
    assert Bit(x, 3) == Bit(x / 2, 2) == Bit(x / 2 / 2, 1) == Bit(x / 2 / 2 / 2, 0);
  }

  lemma BitsOfHoldWord(l: nat, t: nat, h: nat)
    requires l < 16 && t < 2 && h < 2
    ensures var x := l + 16 * t + 32 * h;
      x % 16 == l && Bit(x, 4) == t && (x / 32 != 0) == (h == 1)
  {
    var x := l + 16 * t + 32 * h;
    assert x / 2 / 2 / 2 / 2 == t + 2 * h;
    assert Bit(x, 4) == Bit(x / 2, 3) == Bit(x / 2 / 2, 2) == Bit(x / 2 / 2 / 2, 1)
        == Bit(x / 2 / 2 / 2 / 2, 0);
  }

  /** The coordinates a point's seven symbols decode to are its signed sexagesimal degrees. */
  lemma FixCoordinates(f: Fix, m: Mark)
    requires ValidPoint(f, m)
    ensures GroupLat(Words(f, m)) == FixNode(f, m).lat.deg
    ensures GroupLon(Words(f, m)) == FixNode(f, m).lon.deg
  {
    var w := Words(f, m);
    BitsOfFirstWord(B(!m.Unmarked?), B(f.south), f.latDeg / 60, B(f.west), f.lonDeg / 60);
    assert (f.latDeg % 60) as real + 60.0 * (f.latDeg / 60) as real == f.latDeg as real;
    assert (f.lonDeg % 60) as real + 60.0 * (f.lonDeg / 60) as real == f.lonDeg as real;
  }

  /** The extension symbols decode to the mark. */
  lemma MarkDecodes(m: Mark)
    requires m.Holding? ==> m.length < 16 && m.sixths < 60 && MarkWords(m)[1] < 62
    ensures m.Holding? ==> ExtensionHold(m.sixths, MarkWords(m)[1])
                           == Hold(m.length, 6 * m.sixths + 3 * B(m.half), m.left)
  {
    if m.Holding? {
      BitsOfHoldWord(m.length, B(m.left), B(m.half));
    }
  }

  /** Symbols laid out from `i` decode back to their values. */
  lemma SymbolsAt(s: string, i: nat, x: seq<int>)
    requires forall k :: 0 <= k < |x| ==> 0 <= x[k] < 62
    requires i + |x| <= |s| && s[i..i + |x|] == Symbols(x)
    ensures forall k :: 0 <= k < |x| ==> Decode(At(s, i + k)) == x[k]
  {
    var sym := Symbols(x);
    forall k | 0 <= k < |x|
      ensures Decode(At(s, i + k)) == x[k]
    {
      assert s[i + k] == s[i..i + |x|][k] == sym[k];
    }
  }

  /** A group whose seven symbols decode to the valid values `w`. */
  lemma GroupOfWords(s: string, i: nat, w: seq<int>)
    requires |w| == 7 && i + 7 <= |s| && forall k :: 0 <= k < 7 ==> 0 <= w[k] < 62
    requires forall k :: 0 <= k < 7 ==> Decode(At(s, i + k)) == w[k]
    ensures Decode(s[i]) >= 0
    ensures var n := Node(Deg(GroupLat(w)), Deg(GroupLon(w)), false, [], None);
      Group(s, i) ==
        if Bit(w[0], 0) == 0 then Read(n, i + 7)
        else if Decode(At(s, i + 7)) < 0 then BadChar
        else if Decode(At(s, i + 7)) >= 60 then Read(n.(highlight := true), i + 8)
        else if Decode(At(s, i + 8)) < 0 then BadChar
        else Read(n.(hold := Some(ExtensionHold(Decode(At(s, i + 7)), Decode(At(s, i + 8))))), i + 9)
  {
    assert At(s, i + 0) == s[i] && Decode(At(s, i + 0)) == w[0];
    assert seq(7, k => Decode(At(s, i + k))) == w;
  }

  /** The symbols of a point decode to its seven words and then its mark's words. */
  lemma PointWords(s: string, i: nat, f: Fix, m: Mark)
    requires ValidPoint(f, m)
    requires i + |Words(f, m) + MarkWords(m)| <= |s|
    requires s[i..i + |Words(f, m) + MarkWords(m)|] == Symbols(Words(f, m) + MarkWords(m))
    ensures i + 7 <= |s| && forall k :: 0 <= k < 7 ==> 0 <= Words(f, m)[k] < 62
    ensures forall k :: 0 <= k < 7 ==> Decode(At(s, i + k)) == Words(f, m)[k]
    ensures Bit(Words(f, m)[0], 0) == B(!m.Unmarked?)
    ensures m.Highlight? ==> Decode(At(s, i + 7)) == 60 + B(m.alt)
    ensures m.Holding? ==> Decode(At(s, i + 7)) == m.sixths && Decode(At(s, i + 8)) == MarkWords(m)[1]
  {
    var x := Words(f, m) + MarkWords(m);
    SymbolsAt(s, i, x);
    forall k | 0 <= k < 7
      ensures Decode(At(s, i + k)) == Words(f, m)[k]
    {
      assert x[k] == Words(f, m)[k];
    }
    if !m.Unmarked? {
      assert Decode(At(s, i + 7)) == x[7];
    }
    if m.Holding? {
      assert Decode(At(s, i + 8)) == x[8];
    }
    BitsOfFirstWord(B(!m.Unmarked?), B(f.south), f.latDeg / 60, B(f.west), f.lonDeg / 60);
  }

  /** A point's symbols decode to the node it denotes. */
  lemma PointStep(s: string, i: nat, f: Fix, m: Mark)
    requires ValidPoint(f, m)
    requires i + |Words(f, m) + MarkWords(m)| <= |s|
    requires s[i..i + |Words(f, m) + MarkWords(m)|] == Symbols(Words(f, m) + MarkWords(m))
    ensures Decode(s[i]) >= 0 && Group(s, i) == Read(FixNode(f, m), i + |Words(f, m) + MarkWords(m)|)
  {
    var w := Words(f, m);
    PointWords(s, i, f, m);
    GroupOfWords(s, i, w);
    FixCoordinates(f, m);
    MarkDecodes(m);
  }

  lemma EncodedSplit(s: string, i: nat, items: seq<Item>)
    requires items != [] && i <= |s| && s[i..] == Encode(items)
    ensures var e := EncodeItem(items[0]);
      i + |e| <= |s| && s[i..i + |e|] == e && s[i + |e|..] == Encode(items[1..])
  {
    var e := EncodeItem(items[0]);
    var t := s[i..];
    assert t == e + Encode(items[1..]);
    assert t[..|e|] == e && t[|e|..] == Encode(items[1..]);
    SuffixSlices(s, i, |e|);
  }

  lemma SuffixSlices(s: string, i: nat, n: nat)
    requires i + n <= |s|
    ensures s[i..][..n] == s[i..i + n] && s[i..][n..] == s[i + n..]
  {
  }

  lemma ScanPoint(s: string, i: nat, f: Fix, m: Mark, item: Node, route: Route, j: nat, n: Node, r: Route)
    requires ValidPoint(f, m)
    requires j == i + |Words(f, m) + MarkWords(m)| && n == FixNode(f, m) && r == route + [n]
    requires j <= |s| && s[i..j] == Symbols(Words(f, m) + MarkWords(m))
    ensures Scan(s, i, item, route) == Scan(s, j, n, r)
  {
    PointStep(s, i, f, m);
    assert IsSymbol(s[i]);
  }

  lemma ScanLabel(s: string, i: nat, t: string, item: Node, route: Route, j: nat, r: Route)
    requires |route| > 0 && '\0' !in t && Balanced(t)
    requires j == i + |t| + 2 && r == Relabel(route, t + ['\0'])
    requires j <= |s| && s[i..j] == "(" + t + ")"
    ensures Scan(s, i, item, route) == Scan(s, j, item, r)
  {
    var e := s[i..i + |t| + 2];
    assert s[i] == e[0];
    assert e[1..|t| + 1] == t;
    forall k | 0 <= k < |t|
      ensures s[i + 1..i + 1 + |t|][k] == t[k]
    {
      assert s[i + 1 + k] == e[1 + k];
    }
    assert s[i + 1..i + 1 + |t|] == t;
    assert s[i + 1 + |t|] == e[|t| + 1];
    LabelStep(s, i, t, item, route);
  }

  lemma ScanDash(s: string, i: nat, item: Node, route: Route, j: nat, n: Node, r: Route)
    requires j == i + 1 && n == Break(item) && r == route + [n]
    requires j <= |s| && s[i..j] == "-"
    ensures Scan(s, i, item, route) == Scan(s, j, n, r)
  {
    assert s[i] == s[i..i + 1][0];
  }

  /** Scanning the encoding of one item performs that item's step: the scan continues
      at `j`, just after the item, with the reused item `n` and the route `r`. */
  lemma ScanItem(s: string, i: nat, it: Item, item: Node, route: Route, j: nat, n: Node, r: Route)
    requires ValidItem(it, |route| > 0)
    requires j == i + |EncodeItem(it)| && (n, r) == StepItem(it, item, route)
    requires j <= |s| && s[i..j] == EncodeItem(it)
    ensures Scan(s, i, item, route) == Scan(s, j, n, r)
  {
    match it
    case Dash =>
      ScanDash(s, i, item, route, j, n, r);
    case Point(f, m) =>
      ScanPoint(s, i, f, m, item, route, j, n, r);
    case Label(t) =>
      assert |"(" + t + ")"| == |t| + 2;
      ScanLabel(s, i, t, item, route, j, r);
  }

  lemma InterpStep(items: seq<Item>, item: Node, route: Route, n: Node, r: Route)
    requires items != [] && ValidItems(items, |route| > 0)
    requires (n, r) == StepItem(items[0], item, route)
    ensures ValidItems(items[1..], |r| > 0)
    ensures Interp(items, item, route) == Interp(items[1..], n, r)
  {
  }

  /** The first item of an encoded list: where the scan goes on, and with what. */
  lemma ScanNext(s: string, i: nat, items: seq<Item>, item: Node, route: Route) returns (j: nat, n: Node, r: Route)
    requires items != [] && ValidItems(items, |route| > 0)
    requires i <= |s| && s[i..] == Encode(items)
    ensures j <= |s| && s[j..] == Encode(items[1..]) && ValidItems(items[1..], |r| > 0)
    ensures Scan(s, i, item, route) == Scan(s, j, n, r)
    ensures Interp(items, item, route) == Interp(items[1..], n, r)
  {
    j := i + |EncodeItem(items[0])|;
    n, r := StepItem(items[0], item, route).0, StepItem(items[0], item, route).1;
    EncodedSplit(s, i, items);
    ScanItem(s, i, items[0], item, route, j, n, r);
    InterpStep(items, item, route, n, r);
  }

  /** Decoding an encoded item list yields exactly the route it denotes. */
  lemma {:induction false} ScanEncoded(s: string, i: nat, items: seq<Item>, item: Node, route: Route)
    requires ValidItems(items, |route| > 0)
    requires i <= |s| && s[i..] == Encode(items)
    ensures Scan(s, i, item, route) == Decoded(Interp(items, item, route))
    decreases |items|
  {
    if items == [] {
      assert |s[i..]| == 0;
    } else {
      var j, n, r := ScanNext(s, i, items, item, route);
      ScanEncoded(s, j, items[1..], n, r);
    }
  }

  /** The whole string: a leading `@` is skipped, and the result has one node per dash and point. */
  lemma ParseEncoded(args: seq<string>, command: string, items: seq<Item>)
    requires |args| == 1 && ValidItems(items, false)
    requires command == "@" + Encode(items)
    ensures ParseSpec(args, command) == Decoded(Interp(items, InitialItem, []))
    ensures |Interp(items, InitialItem, [])| == NodeCount(items)
  {
    ScanEncoded(command, 1, items, InitialItem, []);
    InterpLength(items, InitialItem, []);
  }
}
