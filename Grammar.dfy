/** The first stage of the flight-plan route source (`RouteSource::Parse`,
    plot.cpp:594-685): the tokens alternate point, connector, point; each point
    token is split into a name and an optional runway or hold suffix, and a
    digit-leading name is read as a `DDMMSSN DDDMMSSW` coordinate literal. */
module Grammar {
  import opened Common

  // ---------------------------------------------------------------------------
  // The C library conversions the parser relies on

  predicate IsSpace(c: char)
  {
    c == ' ' || c == '\t' || c == '\n' || c == '\U{B}' || c == '\U{C}' || c == '\r'
  }

  predicate AllDigits(d: string)
  {
    forall k :: 0 <= k < |d| ==> IsDigit(d[k])
  }

  /** The decimal value of a digit string. */
  function Value(d: string): nat
  {
    ValueFrom(d, 0)
  }

  function DigitValue(c: char): nat
  {
    if IsDigit(c) then c as int - '0' as int else 0
  }

  /** Horner's rule over the digits, most significant first, after `acc`. */
  function ValueFrom(d: string, acc: nat): nat
  {
    if d == [] then acc else ValueFrom(d[1..], acc * 10 + DigitValue(d[0]))
  }

  function Pow10(n: nat): nat
  {
    if n == 0 then 1 else 10 * Pow10(n - 1)
  }

  lemma {:induction false} ValueFromBound(d: string, acc: nat)
    ensures ValueFrom(d, acc) < (acc + 1) * Pow10(|d|)
    decreases |d|
  {
    if d != [] {
      var acc' := acc * 10 + DigitValue(d[0]);
      ValueFromBound(d[1..], acc');
      var p := Pow10(|d| - 1);
      assert Pow10(|d|) == 10 * p;
      assert acc' + 1 <= 10 * (acc + 1);
      MulMono(acc' + 1, 10 * (acc + 1), p);
      assert (acc + 1) * Pow10(|d|) == 10 * (acc + 1) * p;
    }
  }

  lemma MulMono(a: nat, b: nat, c: nat)
    requires a <= b
    ensures a * c <= b * c
  {
  }

  lemma ValueBound(d: string)
    ensures Value(d) < Pow10(|d|)
  {
    ValueFromBound(d, 0);
  }

  /** The first position at or after `i` that is not white space. */
  function SkipSpace(s: string, i: nat): (j: nat)
    requires i <= |s|
    ensures i <= j <= |s| && (j < |s| ==> !IsSpace(s[j]))
    decreases |s| - i
  {
    if i < |s| && IsSpace(s[i]) then SkipSpace(s, i + 1) else i
  }

  /** The end of the run of digits that starts at `i`. */
  function DigitEnd(s: string, i: nat): (e: nat)
    requires i <= |s|
    ensures i <= e <= |s| && (e < |s| ==> !IsDigit(s[e]))
    decreases |s| - i
  {
    if i < |s| && IsDigit(s[i]) then DigitEnd(s, i + 1) else i
  }

  /** `std::stoi`: white space, an optional sign, then at least one digit, else
      `invalid_argument` (None).  Characters after the digits are ignored. */
  function Stoi(s: string): (r: Option<int>)
    ensures r.Some? ==> exists k :: 0 <= k < |s| && IsDigit(s[k])
    ensures r.Some? ==> -(Pow10(|s|) as int) < r.value < Pow10(|s|)
    ensures |s| > 0 && !IsSpace(s[0]) && !IsDigit(s[0]) && s[0] != '+' && s[0] != '-' ==> r.None?
  {
    var j := SkipSpace(s, 0);
    var k := if j < |s| && (s[j] == '+' || s[j] == '-') then j + 1 else j;
    var e := DigitEnd(s, k);
    if e == k then None
    else
      assert IsDigit(s[k]);
      ValueBound(s[k..e]);
      Pow10Mono(e - k, |s|);
      var v: int := Value(s[k..e]);
      Some(if j < k && s[j] == '-' then -v else v)
  }

  /** `stoi` does not throw `out_of_range`: the value fits a 32-bit `int`. */
  predicate StoiFits(s: string)
  {
    Stoi(s).None? || -0x8000_0000 <= Stoi(s).value < 0x8000_0000
  }

  const ULongMax: nat := 0xFFFF_FFFF

  /** `std::strtoul(s + i, &end, 10)` with a 32-bit `unsigned long`: the value and `end`.
      Without digits the value is 0 and `end` is `i` itself; a value past the range
      saturates; a minus sign negates modulo 2^32. */
  function Strtoul(s: string, i: nat): (r: (nat, nat))
    requires i <= |s|
    ensures r.1 == i || (i < r.1 <= |s| && !IsDigit(At(s, r.1)))
    ensures r.1 == i <==> !IsDigit(At(s, SignEnd(s, i)))
    ensures r.1 == i ==> r.0 == 0
    ensures r.0 <= ULongMax
  {
    var j := SkipSpace(s, i);
    var k := SignEnd(s, i);
    var e := DigitEnd(s, k);
    if e == k then (0, i)
    else
      var v := Value(s[k..e]);
      (if v > ULongMax then ULongMax else if j < k && s[j] == '-' then Negate(v) else v, e)
  }

  /** Where `strtoul` expects its first digit: past white space and one optional sign. */
  function SignEnd(s: string, i: nat): (k: nat)
    requires i <= |s|
    ensures i <= k <= |s|
  {
    var j := SkipSpace(s, i);
    if j < |s| && (s[j] == '+' || s[j] == '-') then j + 1 else j
  }

  /** Unsigned negation modulo 2^32 of a value in range. */
  function Negate(v: nat): nat
    requires v <= ULongMax
  {
    if v == 0 then 0 else ULongMax + 1 - v
  }

  // ---------------------------------------------------------------------------
  // Coordinate literals (plot.cpp:643-674)

  /** The folding loop: each of `k` rounds adds the lowest two decimal digits and
      divides by 60; what is left of `v` is then added as whole degrees. */
  function FoldPairs(v: nat, k: nat, acc: real): real
  {
    if k == 0 then acc + v as real
    else FoldPairs(v / 100, k - 1, (acc + (v % 100) as real) / 60.0)
  }

  /** Rounds of the folding loop for a field of `n` characters: `for (i = n/2; i > 1; i--)`. */
  function Rounds(n: nat): nat
  {
    if n / 2 > 1 then n / 2 - 1 else 0
  }

  /** The folding loop of plot.cpp:659-669, proved to compute `FoldPairs`. */
  method Fold(v: nat, n: nat) returns (r: real)
    ensures r == FoldPairs(v, Rounds(n), 0.0)
  {
    r := 0.0;
    var w := v;
    var i := n / 2;
    while i > 1
      invariant FoldPairs(w, if i > 1 then i - 1 else 0, r) == FoldPairs(v, Rounds(n), 0.0)
      decreases i
    {
      r := r + (w % 100) as real;
      r := r / 60.0;
      w := w / 100;
      i := i - 1;
    }
    r := r + w as real;
  }

  /** `DD`, `DDMM` and `DDMMSS` read as degrees, minutes and seconds. */
  lemma FoldMeaning(d: nat, m: nat, s: nat)
    requires m < 100 && s < 100
    ensures FoldPairs(d, 0, 0.0) == d as real
    ensures FoldPairs(d * 100 + m, 1, 0.0) == d as real + m as real / 60.0
    ensures FoldPairs(d * 10000 + m * 100 + s, 2, 0.0)
         == d as real + (m as real + s as real / 60.0) / 60.0
  {
    var v := d * 10000 + m * 100 + s;
    assert (d * 100 + m) / 100 == d && (d * 100 + m) % 100 == m;
    assert v / 100 == d * 100 + m && v % 100 == s;
    calc {
      FoldPairs(v, 2, 0.0);
      FoldPairs(d * 100 + m, 1, s as real / 60.0);
      FoldPairs(d, 0, (s as real / 60.0 + m as real) / 60.0);
    }
  }

  /** The position a point name starts with: a coordinate literal when it starts
      with a digit ((0, 0) when a hemisphere letter is missing), NaN latitude otherwise. */
  function LiteralPosition(name: string): Pos
  {
    if IsDigit(At(name, 0)) then LatitudeField(name, Strtoul(name, 0))
    else Pos(NaN, Deg(0.0))
  }

  /** After the latitude digits `lat.0` ending at `lat.1`: a latitude letter must follow. */
  function LatitudeField(name: string, lat: (nat, nat)): Pos
    requires lat.1 <= |name|
  {
    if At(name, lat.1) != 'N' && At(name, lat.1) != 'S' then Pos(Deg(0.0), Deg(0.0))
    else LongitudeField(name, lat, Strtoul(name, lat.1 + 1))
  }

  /** After the longitude digits `lon.0` ending at `lon.1`: a longitude letter must follow;
      then each field is folded and signed by its letter. */
  function LongitudeField(name: string, lat: (nat, nat), lon: (nat, nat)): Pos
    requires lat.1 < lon.1 <= |name|
  {
    if At(name, lon.1) != 'E' && At(name, lon.1) != 'W' then Pos(Deg(0.0), Deg(0.0))
    else
      var la := FoldPairs(lat.0, Rounds(lat.1), 0.0);
      var lo := FoldPairs(lon.0, Rounds(lon.1 - lat.1 - 1), 0.0);
      Pos(Deg(if name[lat.1] == 'S' then -la else la), Deg(if name[lon.1] == 'W' then -lo else lo))
  }

  /** plot.cpp:643-674 as a method: the two `strtoul` calls and the folding loops. */
  method PointPosition(name: string) returns (p: Pos)
    ensures p == LiteralPosition(name)
  {
    if !IsDigit(At(name, 0)) {
      return Pos(NaN, Deg(0.0));
    }
    var la := Strtoul(name, 0);
    if At(name, la.1) != 'N' && At(name, la.1) != 'S' {
      return Pos(Deg(0.0), Deg(0.0));
    }
    var lo := Strtoul(name, la.1 + 1);
    assert LiteralPosition(name) == LongitudeField(name, la, lo);
    if At(name, lo.1) != 'E' && At(name, lo.1) != 'W' {
      return Pos(Deg(0.0), Deg(0.0));
    }
    p := FoldFields(name, la, lo);
  }

  /** The two folding loops and the hemisphere signs of plot.cpp:659-673. */
  method FoldFields(name: string, la: (nat, nat), lo: (nat, nat)) returns (p: Pos)
    requires la.1 < lo.1 < |name| && (name[lo.1] == 'E' || name[lo.1] == 'W')
    ensures p == LongitudeField(name, la, lo)
  {
    var lat := Fold(la.0, la.1);
    var lon := Fold(lo.0, lo.1 - la.1 - 1);
    if name[la.1] == 'S' {
      lat := -lat;
    }
    if name[lo.1] == 'W' {
      lon := -lon;
    }
    assert At(name, lo.1) == name[lo.1];
    return Pos(Deg(lat), Deg(lon));
  }

  /** `s` holds the run of one to nine digits `d` at `i`, followed by a non-digit. */
  predicate DigitsAt(s: string, i: nat, d: string)
  {
    i + |d| <= |s| && s[i..i + |d|] == d && 0 < |d| <= 9 && AllDigits(d) && !IsDigit(At(s, i + |d|))
  }

  lemma StrtoulDigits(s: string, i: nat, d: string)
    requires DigitsAt(s, i, d)
    ensures Strtoul(s, i) == (Value(d), i + |d|)
  {
    assert IsDigit(d[0]) && s[i] == d[0];
    DigitRun(s, i, d);
    ValueBound(d);
    assert Pow10(9) == 1_000_000_000;
    assert Pow10(|d|) <= Pow10(9) by {
      Pow10Mono(|d|, 9);
    }
  }

  /** The digit run at `i` is exactly `d` when `d` is followed by a non-digit. */
  lemma {:induction false} DigitRun(s: string, i: nat, d: string)
    requires i + |d| <= |s| && s[i..i + |d|] == d && AllDigits(d) && !IsDigit(At(s, i + |d|))
    ensures DigitEnd(s, i) == i + |d|
    decreases |d|
  {
    if d == [] {
      assert !IsDigit(At(s, i));
    } else {
      assert s[i] == d[0] && IsDigit(d[0]);
      assert s[i + 1..i + 1 + |d[1..]|] == d[1..];
      DigitRun(s, i + 1, d[1..]);
    }
  }

  lemma {:induction false} Pow10Mono(a: nat, b: nat)
    requires a <= b
    ensures Pow10(a) <= Pow10(b)
    decreases b - a
  {
    if a < b {
      Pow10Mono(a + 1, b);
    }
  }

  /** A literal `<lat digits><N|S><lon digits><E|W>...` folds each field and signs it by
      its hemisphere letter; whatever follows the second letter is ignored. */
  lemma LiteralFields(name: string, d1: string, h1: char, d2: string, h2: char, rest: string)
    requires AllDigits(d1) && AllDigits(d2) && 0 < |d1| <= 9 && 0 < |d2| <= 9
    requires (h1 == 'N' || h1 == 'S') && (h2 == 'E' || h2 == 'W')
    requires name == d1 + [h1] + d2 + [h2] + rest
    ensures var lat := FoldPairs(Value(d1), Rounds(|d1|), 0.0);
      var lon := FoldPairs(Value(d2), Rounds(|d2|), 0.0);
      LiteralPosition(name) == Pos(Deg(if h1 == 'S' then -lat else lat), Deg(if h2 == 'W' then -lon else lon))
  {
    LiteralParts(name, d1, h1, d2, h2, rest);
    LiteralDigits(name, d1, h1, d2, h2);
  }

  lemma LiteralDigits(name: string, d1: string, h1: char, d2: string, h2: char)
    requires DigitsAt(name, 0, d1) && DigitsAt(name, |d1| + 1, d2) && |d1| + 1 + |d2| < |name|
    requires name[|d1|] == h1 && name[|d1| + 1 + |d2|] == h2 && IsDigit(name[0])
    requires (h1 == 'N' || h1 == 'S') && (h2 == 'E' || h2 == 'W')
    ensures var lat := FoldPairs(Value(d1), Rounds(|d1|), 0.0);
      var lon := FoldPairs(Value(d2), Rounds(|d2|), 0.0);
      LiteralPosition(name) == Pos(Deg(if h1 == 'S' then -lat else lat), Deg(if h2 == 'W' then -lon else lon))
  {
    StrtoulDigits(name, 0, d1);
    StrtoulDigits(name, |d1| + 1, d2);
    LiteralOfFields(name, Value(d1), |d1|, Value(d2), |d1| + 1 + |d2|, |d2|, h1, h2);
  }

  lemma LiteralParts(name: string, d1: string, h1: char, d2: string, h2: char, rest: string)
    requires AllDigits(d1) && AllDigits(d2) && 0 < |d1| && 0 < |d2|
    requires name == d1 + [h1] + d2 + [h2] + rest
    requires |d1| <= 9 && |d2| <= 9 && !IsDigit(h1) && !IsDigit(h2)
    ensures DigitsAt(name, 0, d1) && DigitsAt(name, |d1| + 1, d2) && |d1| + 1 + |d2| < |name|
    ensures name[|d1|] == h1 && name[|d1| + 1 + |d2|] == h2 && IsDigit(name[0])
  {
    assert name[0..|d1|] == d1;
    assert name[|d1| + 1..|d1| + 1 + |d2|] == d2;
  }

  /** The literal position once both `strtoul` calls are known. */
  lemma LiteralOfFields(name: string, a: nat, la: nat, b: nat, lo: nat, n: nat, h1: char, h2: char)
    requires la < lo < |name| && IsDigit(name[0]) && n == lo - la - 1
    requires Strtoul(name, 0) == (a, la) && Strtoul(name, la + 1) == (b, lo)
    requires name[la] == h1 && name[lo] == h2 && (h1 == 'N' || h1 == 'S') && (h2 == 'E' || h2 == 'W')
    ensures var x := FoldPairs(a, Rounds(la), 0.0);
      var y := FoldPairs(b, Rounds(n), 0.0);
      LiteralPosition(name) == Pos(Deg(if h1 == 'S' then -x else x), Deg(if h2 == 'W' then -y else y))
  {
    assert At(name, 0) == name[0] && At(name, la) == name[la] && At(name, lo) == name[lo];
    assert LiteralPosition(name) == LatitudeField(name, (a, la));
    assert LatitudeField(name, (a, la)) == LongitudeField(name, (a, la), (b, lo));
    LongitudeSigns(name, a, la, b, lo, n, h1, h2);
  }

  lemma LongitudeSigns(name: string, a: nat, la: nat, b: nat, lo: nat, n: nat, h1: char, h2: char)
    requires la < lo < |name| && n == lo - la - 1
    requires name[la] == h1 && name[lo] == h2 && (h2 == 'E' || h2 == 'W')
    ensures var x := FoldPairs(a, Rounds(la), 0.0);
      var y := FoldPairs(b, Rounds(n), 0.0);
      LongitudeField(name, (a, la), (b, lo)) == Pos(Deg(if h1 == 'S' then -x else x), Deg(if h2 == 'W' then -y else y))
  {
    assert At(name, lo) == h2;
  }

  /** A digit-leading name keeps (0, 0) when its latitude digits are not followed by N or
      S, or when the longitude `strtoul` reads after that letter is not followed by E or W. */
  lemma LiteralWithoutHemisphere(name: string)
    requires |name| > 0 && IsDigit(name[0])
    requires var e := DigitEnd(name, 0);
      e == |name| || name[e] !in "NS" || At(name, Strtoul(name, e + 1).1) !in "EW"
    ensures LiteralPosition(name) == Pos(Deg(0.0), Deg(0.0))
  {
    assert SkipSpace(name, 0) == 0;
  }

  /** A name has an unresolved (NaN) latitude exactly when it does not start with a
      digit; its longitude is always a number. */
  lemma NamedPointUnresolved(name: string)
    ensures LiteralPosition(name).lat.NaN? <==> !IsDigit(At(name, 0))
    ensures LiteralPosition(name).lon.Deg?
  {
  }

  // ---------------------------------------------------------------------------
  // Point tokens (plot.cpp:603-641)

  /** A route point: its name, the runway designator after `/` (present, possibly
      empty, only on a terminal point) and a parsed hold. */
  datatype Point = Point(name: string, runway: Option<string>, hold: Option<Hold>)

  /** `std::string::find('/')`. */
  function Find(t: string, c: char): (r: Option<nat>)
    ensures r.Some? ==> r.value < |t| && t[r.value] == c && c !in t[..r.value]
    ensures r.None? ==> c !in t
  {
    if c !in t then None
    else
      var k :| 0 <= k < |t| && t[k] == c;
      Some(FirstAt(t, c, k))
  }

  function FirstAt(t: string, c: char, k: nat): (j: nat)
    requires k < |t| && t[k] == c
    ensures j <= k && t[j] == c && c !in t[..j]
  {
    if c in t[..k] then
      var k' :| 0 <= k' < k && t[k'] == c;
      FirstAt(t, c, k')
    else k
  }

  /** `std::toupper` in the C locale. */
  function Upper(c: char): char
  {
    if 'a' <= c <= 'z' then (c as int - 32) as char else c
  }

  /** A suffix longer than three characters is a hold: course from its first three,
      direction from the fourth, length from the rest (4 when there is none). */
  function HoldSuffix(r: string): (h: Result<Hold>)
    requires |r| > 3
    ensures h.Err? ==> h.error == "invalid integer" || h.error == "invalid hold direction"
    ensures h == Err("invalid hold direction") <==> Stoi(r[..3]).Some? && Upper(r[3]) != 'L' && Upper(r[3]) != 'R'
    ensures h.Ok? ==> (Upper(r[3]) == 'L' || Upper(r[3]) == 'R') && (h.value.leftTurns <==> Upper(r[3]) == 'L')
    ensures h.Ok? ==> -1000 < h.value.course < 1000 && (|r| == 4 ==> h.value.length == 4)
  {
    match Stoi(r[..3])
    case None => Err("invalid integer")
    case Some(crs) =>
      var dir := Upper(r[3]);
      if dir != 'R' && dir != 'L' then Err("invalid hold direction")
      else if |r| > 4 then
        match Stoi(r[4..])
        case None => Err("invalid integer")
        case Some(len) => Ok(Hold(len, crs, dir == 'L'))
      else Ok(Hold(4, crs, dir == 'L'))
  }

  /** One point token; `terminal` when it is the first or the last token. */
  function Classify(t: string, terminal: bool): (r: Result<Point>)
  {
    match Find(t, '/')
    case None => Ok(Point(t, None, None))
    case Some(sep) =>
      var suffix := t[sep + 1..];
      if |suffix| > 3 then
        match HoldSuffix(suffix)
        case Err(e) => Err(e)
        case Ok(h) => Ok(Point(t[..sep], None, Some(h)))
      else if terminal then Ok(Point(t[..sep], Some(suffix), None))
      else Err("runway in nonterminal location")
  }

  /** A token without `/` is a plain point; otherwise the name is what precedes the
      first `/`, a runway (only on a terminal point) is the rest of the token, and a
      failure is one of the three suffix errors. */
  lemma ClassifyCases(t: string, terminal: bool)
    ensures var r := Classify(t, terminal);
      ('/' !in t ==> r == Ok(Point(t, None, None))) &&
      (r.Ok? ==> '/' !in r.value.name && r.value.name <= t) &&
      (r.Ok? && r.value.runway.Some? ==>
         terminal && r.value.hold.None? && t == r.value.name + "/" + r.value.runway.value) &&
      (r.Err? ==> '/' in t) &&
      (r.Err? ==> r.error in {"invalid integer", "invalid hold direction", "runway in nonterminal location"})
  {
    match Find(t, '/')
    case None =>
    case Some(sep) =>
      assert t == t[..sep] + "/" + t[sep + 1..];
  }

  /** A hold suffix `CCCdL...`: course, case-insensitive direction, digits or the default 4. */
  lemma HoldSuffixDigits(name: string, crs: string, dir: char, len: string, terminal: bool)
    requires '/' !in name && |crs| == 3 && AllDigits(crs) && AllDigits(len)
    requires Upper(dir) == 'L' || Upper(dir) == 'R'
    ensures Classify(name + "/" + crs + [dir] + len, terminal)
         == Ok(Point(name, None, Some(Hold(if len == [] then 4 else Value(len), Value(crs), Upper(dir) == 'L'))))
  {
    var t := name + "/" + crs + [dir] + len;
    assert t[|name|] == '/' && t[..|name|] == name;
    assert Find(t, '/') == Some(|name|);
    var r := t[|name| + 1..];
    assert r == crs + [dir] + len;
    assert r[..3] == crs && r[3] == dir;
    StoiDigits(crs);
    if len != [] {
      assert r[4..] == len;
      StoiDigits(len);
    }
  }

  lemma StoiDigits(d: string)
    requires AllDigits(d) && |d| > 0
    ensures Stoi(d) == Some(Value(d))
  {
    assert SkipSpace(d, 0) == 0 && IsDigit(d[0]);
    DigitRun(d, 0, d);
    assert d[0..|d|] == d;
  }

  /** A suffix of three characters or fewer is a runway on a terminal point and an
      error anywhere else; a direction other than L or R is an error. */
  lemma SuffixErrors(name: string, suffix: string, terminal: bool)
    requires '/' !in name
    ensures |suffix| <= 3 ==>
      Classify(name + "/" + suffix, terminal)
        == (if terminal then Ok(Point(name, Some(suffix), None)) else Err("runway in nonterminal location"))
    ensures |suffix| > 3 && Stoi(suffix[..3]).Some? && Upper(suffix[3]) != 'L' && Upper(suffix[3]) != 'R' ==>
      Classify(name + "/" + suffix, terminal) == Err("invalid hold direction")
  {
    var t := name + "/" + suffix;
    assert t[|name|] == '/' && t[..|name|] == name;
    assert Find(t, '/') == Some(|name|);
    assert t[|name| + 1..] == suffix;
  }

  // ---------------------------------------------------------------------------
  // The token loop (plot.cpp:594-685)

  /** What the token loop builds: `points`, `ats_routes` (None for `DCT`),
      `point_positions` and `ats_route_positions`. */
  datatype Tokens = Tokens(points: seq<Point>, conns: seq<Option<string>>,
                           positions: map<string, Pos>, airways: map<string, seq<Pos>>)

  /** `unordered_map::emplace`: an existing entry is kept. */
  function Emplace<V>(m: map<string, V>, k: string, v: V): (r: map<string, V>)
    ensures k in r && (k in m ==> r == m) && (k !in m ==> r == m[k := v])
  {
    if k in m then m else m[k := v]
  }

  /** What the token loop demands: every point token it reaches (every point token before
      it classified) has a hold length `stoi` can hold and, once its suffix is read, a
      name with a first character to test. */
  predicate TokensDefined(toks: seq<string>)
  {
    forall j :: 0 <= j < |toks| && j % 2 == 0 && Reached(toks, j) ==>
      PointDefined(toks[j], j == 0 || j == |toks| - 1)
  }

  /** The token loop gets to point token `j`: no point token before it fails. */
  predicate Reached(toks: seq<string>, j: nat)
    requires j <= |toks|
  {
    forall k :: 0 <= k < j && k % 2 == 0 ==> Classify(toks[k], k == 0 || k == |toks| - 1).Ok?
  }

  /** `stoi` throws `out_of_range`, which nothing in the plugin catches, only on a length
      it reads, that is, once the course and the direction parsed; `point.name[0]` is read
      only once the suffix parsed. */
  predicate PointDefined(t: string, terminal: bool)
  {
    HoldLengthFits(t) && (Classify(t, terminal).Ok? ==> |Classify(t, terminal).value.name| > 0)
  }

  predicate HoldLengthFits(t: string)
  {
    match Find(t, '/')
    case None => true
    case Some(sep) =>
      var r := t[sep + 1..];
      |r| > 4 && Stoi(r[..3]).Some? && (Upper(r[3]) == 'L' || Upper(r[3]) == 'R') ==> StoiFits(r[4..])
  }

  const NoTokens := Tokens([], [], map[], map[])

  /** The token loop from token `j`, `acc` being what it has built so far. */
  function TokenizeFrom(toks: seq<string>, j: nat, acc: Tokens): Result<Tokens>
    requires j <= |toks|
    decreases |toks| - j
  {
    if j == |toks| then Ok(acc)
    else if j % 2 == 0 then
      match Classify(toks[j], j == 0 || j == |toks| - 1)
      case Err(e) => Err(e)
      case Ok(p) =>
        TokenizeFrom(toks, j + 1, acc.(points := acc.points + [p],
                                       positions := Emplace(acc.positions, p.name, LiteralPosition(p.name))))
    else if toks[j] == "DCT" then
      TokenizeFrom(toks, j + 1, acc.(conns := acc.conns + [None]))
    else
      TokenizeFrom(toks, j + 1, acc.(conns := acc.conns + [Some(toks[j])],
                                     airways := Emplace(acc.airways, toks[j], [])))
  }

  /** The token loop of plot.cpp:603-685, proved to compute `TokenizeFrom`. */
  method Tokenize(toks: seq<string>) returns (res: Result<Tokens>)
    ensures res == TokenizeFrom(toks, 0, NoTokens)
  {
    var points: seq<Point> := [];
    var conns: seq<Option<string>> := [];
    var positions: map<string, Pos> := map[];
    var airways: map<string, seq<Pos>> := map[];
    var p := true;
    for j := 0 to |toks|
      invariant p == (j % 2 == 0)
      invariant TokenizeFrom(toks, j, Tokens(points, conns, positions, airways))
             == TokenizeFrom(toks, 0, NoTokens)
    {
      if p {
        var point := Classify(toks[j], j == 0 || |toks| - j == 1);
        if point.Err? {
          return Err(point.error);
        }
        var position := PointPosition(point.value.name);
        positions := Emplace(positions, point.value.name, position);
        points := points + [point.value];
      } else if toks[j] == "DCT" {
        conns := conns + [None];
      } else {
        airways := Emplace(airways, toks[j], []);
        conns := conns + [Some(toks[j])];
      }
      p := !p;
    }
    return Ok(Tokens(points, conns, positions, airways));
  }

  // ---------------------------------------------------------------------------
  // What the token loop guarantees

  /** The i-th point as the grammar classifies token 2i. */
  function PointToken(toks: seq<string>, i: nat): Result<Point>
    requires 2 * i < |toks|
  {
    Classify(toks[2 * i], i == 0 || 2 * i == |toks| - 1)
  }

  /** The i-th connector as token 2i+1 names it: None for `DCT`. */
  function ConnectorToken(toks: seq<string>, i: nat): Option<string>
    requires 2 * i + 1 < |toks|
  {
    if toks[2 * i + 1] == "DCT" then None else Some(toks[2 * i + 1])
  }

  ghost predicate PointsFrom(toks: seq<string>, points: seq<Point>)
  {
    2 * |points| <= |toks| + 1 &&
    forall k :: 0 <= k < |points| ==> PointToken(toks, k) == Ok(points[k])
  }

  ghost predicate ConnsFrom(toks: seq<string>, conns: seq<Option<string>>)
  {
    2 * |conns| <= |toks| &&
    forall k :: 0 <= k < |conns| ==> conns[k] == ConnectorToken(toks, k)
  }

  /** Every position entry is the literal position of its (non-empty) name. */
  ghost predicate Literal(positions: map<string, Pos>)
  {
    forall n :: n in positions ==> positions[n] == LiteralPosition(n)
  }

  ghost predicate Named(points: seq<Point>, positions: map<string, Pos>)
  {
    forall k :: 0 <= k < |points| ==> points[k].name in positions
  }

  /** Every airway connector has an entry, and every entry is still empty. */
  ghost predicate Airways(conns: seq<Option<string>>, airways: map<string, seq<Pos>>)
  {
    (forall k :: 0 <= k < |conns| && conns[k].Some? ==> conns[k].value in airways) &&
    (forall a :: a in airways ==> airways[a] == [])
  }

  /** The invariant of the token loop after `j` tokens. */
  ghost predicate Shaped(toks: seq<string>, j: nat, t: Tokens)
  {
    |t.points| == (j + 1) / 2 && |t.conns| == j / 2 && j <= |toks| &&
    PointsFrom(toks, t.points) && ConnsFrom(toks, t.conns) &&
    Named(t.points, t.positions) && Literal(t.positions) && Airways(t.conns, t.airways)
  }

  /** A point token keeps the invariant. */
  lemma ShapedPoint(toks: seq<string>, j: nat, acc: Tokens, p: Point)
    requires j < |toks| && j % 2 == 0 && Shaped(toks, j, acc)
    requires Classify(toks[j], j == 0 || j == |toks| - 1) == Ok(p)
    ensures Shaped(toks, j + 1, acc.(points := acc.points + [p],
                                     positions := Emplace(acc.positions, p.name, LiteralPosition(p.name))))
  {
    var points := acc.points + [p];
    var positions := Emplace(acc.positions, p.name, LiteralPosition(p.name));
    assert |acc.points| * 2 == j;
    assert PointToken(toks, |acc.points|) == Ok(p);
    assert PointsFrom(toks, points) by {
      forall k | 0 <= k < |points|
        ensures PointToken(toks, k) == Ok(points[k])
      {
        if k < |acc.points| {
          assert points[k] == acc.points[k];
        }
      }
    }
    assert Named(points, positions) by {
      forall k | 0 <= k < |points|
        ensures points[k].name in positions
      {
        if k < |acc.points| {
          assert points[k] == acc.points[k];
        }
      }
    }
    assert Literal(positions);
  }

  /** A connector token keeps the invariant. */
  lemma ShapedConnector(toks: seq<string>, j: nat, acc: Tokens)
    requires j < |toks| && j % 2 == 1 && Shaped(toks, j, acc)
    ensures toks[j] == "DCT" ==> Shaped(toks, j + 1, acc.(conns := acc.conns + [None]))
    ensures toks[j] != "DCT" ==>
      Shaped(toks, j + 1, acc.(conns := acc.conns + [Some(toks[j])],
                               airways := Emplace(acc.airways, toks[j], [])))
  {
    assert |acc.conns| * 2 + 1 == j;
    var c := ConnectorToken(toks, |acc.conns|);
    var conns := acc.conns + [c];
    assert forall k :: 0 <= k < |conns| ==> conns[k] == if k < |acc.conns| then acc.conns[k] else c;
    assert ConnsFrom(toks, conns);
  }

  lemma {:induction false} TokenizeShapedFrom(toks: seq<string>, j: nat, acc: Tokens)
    requires j <= |toks| && Shaped(toks, j, acc)
    requires TokenizeFrom(toks, j, acc).Ok?
    ensures Shaped(toks, |toks|, TokenizeFrom(toks, j, acc).value)
    decreases |toks| - j
  {
    if j < |toks| {
      var acc' := NextTokens(toks, j, acc);
      assert TokenizeFrom(toks, j, acc) == TokenizeFrom(toks, j + 1, acc');
      TokenizeShapedFrom(toks, j + 1, acc');
    }
  }

  /** What the token loop holds after token `j`, when that token is accepted. */
  function NextTokens(toks: seq<string>, j: nat, acc: Tokens): (r: Tokens)
    requires j < |toks| && Shaped(toks, j, acc)
    requires TokenizeFrom(toks, j, acc).Ok?
    ensures Shaped(toks, j + 1, r) && TokenizeFrom(toks, j, acc) == TokenizeFrom(toks, j + 1, r)
  {
    if j % 2 == 0 then
      var p := Classify(toks[j], j == 0 || j == |toks| - 1).value;
      ShapedPoint(toks, j, acc, p);
      acc.(points := acc.points + [p], positions := Emplace(acc.positions, p.name, LiteralPosition(p.name)))
    else if toks[j] == "DCT" then
      ShapedConnector(toks, j, acc);
      acc.(conns := acc.conns + [None])
    else
      ShapedConnector(toks, j, acc);
      acc.(conns := acc.conns + [Some(toks[j])], airways := Emplace(acc.airways, toks[j], []))
  }

  /** After the token loop: the i-th point comes from token 2i and the i-th connector
      from token 2i+1; with an odd token count there is one connector fewer than points;
      `DCT` is a null connector and every other connector has an (empty) airway entry;
      every point name has the position its literal gives. */
  lemma TokenizeShape(toks: seq<string>)
    requires TokenizeFrom(toks, 0, NoTokens).Ok?
    ensures var t := TokenizeFrom(toks, 0, NoTokens).value;
      Shaped(toks, |toks|, t) &&
      (forall k :: 0 <= k < |t.points| ==> PointToken(toks, k) == Ok(t.points[k])) &&
      (forall k :: 0 <= k < |t.conns| ==> t.conns[k] == ConnectorToken(toks, k)) &&
      (forall n :: n in t.positions ==> t.positions[n] == LiteralPosition(n)) &&
      (|toks| % 2 == 1 ==> |t.conns| == |t.points| - 1)
  {
    TokenizeShapedFrom(toks, 0, NoTokens);
  }
}
