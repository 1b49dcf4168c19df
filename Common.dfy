/** Values shared by both route sources and the plugin: the `Hold` and `Node`
    structures of plot.cpp, a `Route`, and the error wrappers. */
module Common {

  datatype Option<T> = None | Some(value: T)

  /** A parse either yields a value or the message the plugin shows to the operator. */
  datatype Result<T> = Ok(value: T) | Err(error: string)

  /** A double that is either a finite number of degrees or NaN. */
  datatype Coord = NaN | Deg(deg: real)

  /** A latitude/longitude pair as the parsers handle it (EuroScope's CPosition). */
  datatype Pos = Pos(lat: Coord, lon: Coord)

  /** The IEEE `==` used by `Position::operator==`: NaN equals nothing, itself included. */
  predicate Same(a: Pos, b: Pos)
  {
    a.lat.Deg? && a.lon.Deg? && a == b
  }

  /** Racetrack holding pattern: leg length (nmi), inbound course (degrees), turn direction. */
  datatype Hold = Hold(length: int, course: int, leftTurns: bool)

  /** One point of a plotted route; it is a discontinuity when either coordinate is NaN. */
  datatype Node = Node(lat: Coord, lon: Coord, highlight: bool, text: string, hold: Option<Hold>)
  {
    predicate IsDiscontinuity()
    {
      lat.NaN? || lon.NaN?
    }
  }

  type Route = seq<Node>

  /** What a successful `Source::Parse` hands back: the route's name and the route. */
  datatype Parsed = Parsed(name: string, route: Route)

  /** `Node(lat, lon)`: a plain node, no highlight, no label, no hold. */
  function PlainNode(p: Pos): Node
  {
    Node(p.lat, p.lon, false, [], None)
  }

  /** Reading a C string: every position at or past the end holds the NUL terminator. */
  function At(s: string, i: int): char
  {
    if 0 <= i < |s| then s[i] else '\0'
  }

  predicate IsDigit(c: char)
  {
    '0' <= c <= '9'
  }
}
