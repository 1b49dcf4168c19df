# route-plotter: a verified model of the route sources and the `.plot` command

route-plotter is a EuroScope plugin. It draws operator-defined routes on the radar
display, and a route enters it as the text of a `.plot` command. This project models
the part of `plot.cpp` that turns that text into a `Route` (a sequence of `Node`s) and
the plugin state that stores the routes. It proves what that code promises.

The model has three parts, as the code does.

- **The legacy coordinate source** (`CoordsSource::Parse` and `decode`), in `Legacy.dfy`.
  - It reads a string over a 62-symbol alphabet.
  - A `-` appends a discontinuity.
  - Seven symbols, plus an optional extension symbol, make one point.
  - `(...)` labels the previous node.
  - The scanning loop is a method, `Legacy.Parse`, proved equal to the function `Legacy.Scan`.
  - Separately, an item-level meaning of the format (`Encode`, `Interp`) is proved to be what the scanner decodes (`Legacy.ScanEncoded`).
- **The flight-plan route source** (`RouteSource::Parse`), in four files, one per stage of the code.
  - `Grammar.dfy`: the token loop, point suffixes (hold or runway), and coordinate literals (with `std::strtoul` and `std::stoi` written out).
  - `Resolver.dfy`: the single pass over the navigation database.
  - `Stitcher.dfy`: the point loop that inserts airway, SID and STAR slices.
  - `RouteSource.dfy`: the three stages composed.
  - Each loop is a method proved to compute a function that states its result. The properties the code promises are lemmas about those functions.
- **The `.plot` command** (`Plugin::OnCompileCommand`), in `Commands.dfy`.
  - The plugin is a class holding the route table and `name_counter`.
  - `OnCompileCommand` is proved to have the effect the function `Compile` gives.
  - Lemmas state:
    - `clear` with and without names;
    - the storing rule;
    - the `.plot X ...` shortcut.

`Common.dfy` holds the shared values:
- `Hold` and `Node`;
- a coordinate that is a number of degrees or NaN;
- `Route`;
- the `Result` wrapper.

Coordinates are real numbers. NaN is an explicit constructor. The IEEE `==` of `Position` is `Same`, under which NaN equals nothing.

A point name that starts with a digit raises no error even when it is not a complete coordinate literal (plot.cpp:643-672). Its position stays (0, 0) when no `N` or `S` follows the latitude digits, or when no `E` or `W` follows the number `strtoul` reads after that letter. `Grammar.LiteralWithoutHemisphere` states this. An empty longitude field still parses: `50NE` gives (50, 0).

## Model

| member | source | states |
|---|---|---|
| Legacy.Decode | plot.cpp:459-464 | total: the result is in -1..61; it is -1 exactly for characters outside A-Z, a-z, 0-9 (NUL included); and a symbol's value maps back to that symbol |
| Legacy.DecodeSymbol | plot.cpp:459-464 | decoding the symbol of every value 0..61 gives back that value |
| Legacy.Group | plot.cpp:516-557 | a group that is read ends past its first symbol and within the string, and its node has finite coordinates and no label |
| Legacy.Break | plot.cpp:513-515 | a dash makes a discontinuity node without highlight or label that keeps the longitude and the hold |
| Legacy.Scan | plot.cpp:491-565 | the scan fails only with "missing closing bracket", "invalid character" or "invalid structural character", and a decoded route is never shorter than the route it started from |
| Legacy.ScanAt | plot.cpp:492-564 | one iteration of the loop keeps the same error set and never shortens the route |
| Legacy.NextBracket | plot.cpp:497 | `strpbrk`: the first `(` or `)` at or after the position, with none before it; none at all when no bracket remains |
| Legacy.LabelEnd | plot.cpp:494-505 | a bracket-depth scan that closes stops on a `)` inside the string |
| Legacy.Relabel | plot.cpp:506-510 | the route keeps its length and every node but the last; the last node changes only its label |
| Legacy.Spaces | plot.cpp:482 | `strspn(s, " ")`: the position after the run of spaces |
| Legacy.FindClose | plot.cpp:494-505 | the bracket-depth loop stops where `LabelEnd` says: at the matching `)`, on "missing closing bracket", or by running off the end |
| Legacy.ReadGroup | plot.cpp:516-557 | the seven-symbol loop and the extension read compute `Group`: the lat/lon formula, the highlight, the hold, or "invalid character" |
| Legacy.Parse | plot.cpp:466-568 | "missing string" without arguments or text; otherwise the scanner's error, or success with the route `Scan` decodes, named by the first argument when there are several and it has no `(` |
| Legacy.DashStep | plot.cpp:512-515 | `-` appends exactly one discontinuity node that keeps the previous longitude and hold, with no highlight and no label |
| Legacy.InvalidCharacter | plot.cpp:516-521 | a group start followed, within its first seven symbols, by a non-symbol fails the whole scan with "invalid character" |
| Legacy.InvalidExtension | plot.cpp:535-549 | a group whose first symbol has bit 0 set fails with "invalid character" when its first extension symbol is missing or not a symbol, or when that symbol is below 60 and the second one is missing or not a symbol |
| Legacy.InvalidStructure | plot.cpp:558-561 | any other character, `(` on an empty route included, fails with "invalid structural character" |
| Legacy.LabelCloses | plot.cpp:494-505 | the bracket-depth loop, over a stretch that never closes the open brackets, stops exactly at the `)` that does |
| Legacy.LabelUnclosed | plot.cpp:495-499 | the bracket loop with brackets still open, past its last bracket, finds none in the non-empty rest and stops with the unclosed error |
| Legacy.MissingClosingBracket | plot.cpp:491-500 | a `(` after a node whose brackets are never all closed, followed by text without brackets, fails with "missing closing bracket" |
| Legacy.LabelStep | plot.cpp:492-511 | `(t)` after a node, with `t` balanced, appends nothing and relabels only the last node, with `t` and the NUL the code copies |
| Legacy.FixCoordinates | plot.cpp:523-530 | the lat/lon formula (minutes and seconds, +60 from bit 2, +60·bits 4-5, sign from bits 1 and 3) gives a point's signed sexagesimal degrees |
| Legacy.MarkDecodes | plot.cpp:549-555 | the second extension symbol gives the hold length (low four bits), course 6·extra1 (+3 when bit 5 is set) and left turns (bit 4) |
| Legacy.PointStep | plot.cpp:516-557 | the symbols of a point decode to the node it denotes and end just after it |
| Legacy.ScanItem | plot.cpp:491-565 | scanning one encoded item performs that item's step and continues right after it |
| Legacy.ScanEncoded | plot.cpp:491-565 | the scanner decodes the encoding of a valid item list to exactly the route the items denote (decode after encode) |
| Legacy.ParseEncoded | plot.cpp:466-568 | a `@`-prefixed encoded string yields that route, with one node per dash and per point |
| Legacy.InterpLength | plot.cpp:512-564 | an item list appends one node per dash and per point, and none per label |
| Grammar.Strtoul | plot.cpp:649-652 | the end pointer stays put exactly when no digit follows the white space and the optional sign, and the value is then 0; otherwise it stops after the digit run; the value never exceeds the 32-bit `ULONG_MAX` |
| Grammar.StrtoulDigits | plot.cpp:649-652 | on one to nine digits, `strtoul` gives their value and the position after them |
| Grammar.StoiDigits | plot.cpp:617-626 | `stoi` of a digit string is its value |
| Grammar.Stoi | plot.cpp:617-626 | `stoi` succeeds only on a string holding a digit, with a value of fewer digits than the string; a string starting with anything but white space, a sign or a digit is `invalid_argument` |
| Grammar.Fold | plot.cpp:659-669 | the folding loop computes `FoldPairs` over `Rounds(n)` rounds, which is n/2 − 1 and at least 0 |
| Grammar.FoldMeaning | plot.cpp:659-670 | `DD`, `DDMM` and `DDMMSS` fold to degrees, degrees + MM/60, and degrees + (MM + SS/60)/60 |
| Grammar.FoldFields | plot.cpp:659-673 | the two folding loops and the hemisphere signs compute the literal's position |
| Grammar.PointPosition | plot.cpp:643-676 | the literal parse as code computes `LiteralPosition` |
| Grammar.LiteralFields | plot.cpp:643-673 | `<digits>N/S<digits>E/W...` gives the folded fields, negated for S and W; the text after the second letter is ignored |
| Grammar.LiteralWithoutHemisphere | plot.cpp:645-672 | a digit-leading name keeps (0, 0) when its latitude digits are not followed by N or S, or when the longitude `strtoul` reads after that letter is not followed by E or W |
| Grammar.NamedPointUnresolved | plot.cpp:643-676 | the latitude is NaN exactly when the name does not start with a digit; the longitude is always a number |
| Grammar.Find | plot.cpp:608 | `find('/')`: the first occurrence, or none when the character is absent |
| Grammar.HoldSuffix | plot.cpp:615-632 | errors are "invalid integer" or "invalid hold direction", the latter exactly when the course parses and the direction is neither L nor R; a hold turns left iff the direction is L or l, has a course of at most three digits, and a length of 4 when none is given |
| Grammar.ClassifyCases | plot.cpp:605-641 | a token without `/` is a plain point; otherwise the name is what precedes the first `/`, a runway appears only on a terminal point and is the rest of the token, and a failure is one of the three suffix errors |
| Grammar.HoldSuffixDigits | plot.cpp:612-632 | `NAME/CCCdLL` (with direction `d` and length digits `LL`) is a hold with course CCC, left turns iff `d` is `L` or `l`, and the length from `LL`, or 4 when there are none |
| Grammar.SuffixErrors | plot.cpp:612-640 | a suffix of at most three characters is a runway on the first or last token and "runway in nonterminal location" elsewhere; a direction other than L/R is "invalid hold direction" |
| Grammar.Emplace | plot.cpp:677-682 | `emplace` adds a missing key and keeps an existing entry |
| Grammar.Tokenize | plot.cpp:603-685 | the token loop computes `TokenizeFrom` |
| Grammar.TokenizeShapedFrom | plot.cpp:603-685 | the token loop keeps its invariant to the end |
| Grammar.TokenizeShape | plot.cpp:594-685 | point i comes from token 2i and connector i from token 2i+1; `DCT` is a null connector; every other connector has an empty airway entry; positions are the literals; an odd token count leaves points − 1 connectors |
| Resolver.FixStep | plot.cpp:708-717 | a fix-like element never adds a point name |
| Resolver.AirwayStep | plot.cpp:754-764 | an airway element never adds an airway name |
| Resolver.ArrivalAirport | plot.cpp:698-705 | a last point `ICAO` without a runway with an airport element of that name sets the arrival aerodrome to the airport's position, unless a later element gives another |
| Resolver.RunwayEnd | plot.cpp:717-729 | on a runway element, the aerodrome becomes the threshold `AerodromeOf` gives the endpoint, else stays |
| Resolver.Procedure | plot.cpp:731-752 | a procedure once taken is kept; a new one is taken only from an element the endpoint and its connector select |
| Resolver.Step | plot.cpp:696-766 | one element sets each aerodrome as `AerodromeOf` says, adds no point or airway name, and leaves a procedure alone once taken or when there are no connectors |
| Resolver.Extend | plot.cpp:757-761 | the position loop computes `AppendDistinct` |
| Resolver.Resolve | plot.cpp:691-767 | the element loop computes `ScanDb` |
| Resolver.FixLastMatchWins | plot.cpp:698-717 | a point's position is that of the last fix-like element (airports included, by the fall-through) of its name that has one, else the token's; no names are added |
| Resolver.AerodromesLastMatch | plot.cpp:696-729 | the departure and arrival aerodromes come from the last element giving the first and the last point one, else keep their initial value |
| Resolver.LastAerodromeAt | plot.cpp:696-729 | an element giving an aerodrome with none after it is the last one |
| Resolver.DepartureRunway | plot.cpp:717-729 | a first point `ICAO/RWY` with a runway element of that airport naming `RWY` sets the departure aerodrome to that end's threshold, unless a later element gives another |
| Resolver.ProceduresFirstMatch | plot.cpp:734-752 | the SID and the STAR are the first procedures the endpoint and its connector select; with no connector, none are looked up |
| Resolver.AppendDistinctConcat | plot.cpp:757-761 | deduplicated appending of two lists is appending one, then the other |
| Resolver.AirwayConcatenation | plot.cpp:754-764 | an airway's geometry is all its elements' positions in database order, with adjacent duplicates dropped |
| Resolver.AppendDistinctNoRepeats | plot.cpp:757-761 | the deduplicated geometry has no two equal neighbours, is no longer than its inputs, and holds only their positions |
| Stitcher.IndexOf | plot.cpp:806-818 | `std::find`: the first index holding an (IEEE) equal position, or none when there is none |
| Stitcher.Finish | plot.cpp:769 | a non-empty STAR gets the arrival aerodrome appended; nothing else changes |
| Stitcher.SegmentEnds | plot.cpp:774-786 | a SID's first point ends at `adep` and a STAR's last point at `ades`, set or not; any other point ends at its resolved position, or fails "could not find point" |
| Stitcher.Between | plot.cpp:831-837 | the slice never fails, is undefined exactly when both iterators are at the start, and holds only the geometry's positions |
| Stitcher.InsertErrors | plot.cpp:788-829 | `DCT` inserts nothing; a failure is "could not find airway" or one of the two discontinuity messages for that connector |
| Stitcher.PointNodeShape | plot.cpp:839-858 | the node sits at the segment end, carries the hold iff its length is not 0, and is labelled with the name iff it does not start with a digit |
| Stitcher.StitchFrom | plot.cpp:773-861 | a built route is at least as long as the route so far plus one node per remaining point |
| Stitcher.Pieces | plot.cpp:787-858 | each point adds its connector's nodes and then its own node, so at least one node per point; the last one is the last point's node at that point's segment end |
| Stitcher.StitchBuilt | plot.cpp:773-861 | the route is built exactly when every point resolves and every connector is stitched |
| Stitcher.StitchPieces | plot.cpp:773-861 | a built route, with any connectors, is the route so far followed by each point's connector nodes and then its own node |
| Stitcher.StitchedEnds | plot.cpp:839-860 | a built route ends with the last point's node |
| Stitcher.GeometryFor | plot.cpp:789-803 | a SID or STAR geometry that is chosen is non-empty |
| Stitcher.EmitForward | plot.cpp:831-833 | the forward loop appends the slice's nodes in order |
| Stitcher.EmitBackward | plot.cpp:834-837 | the backward loop appends the nodes strictly between `to` and `from`, descending |
| Stitcher.InsertNodes | plot.cpp:787-837 | the connector step computes `Insert` |
| Stitcher.StitchRoute | plot.cpp:769-861 | the point loop computes `Stitch` |
| Stitcher.AirwaySlice | plot.cpp:831-837 | an airway inserts the positions strictly between the endpoints, ascending or descending; when they coincide it inserts nothing, except at index 0, where the code is undefined |
| Stitcher.AirwaySegment | plot.cpp:787-837 | a named airway fails "discontinuity (P to A)" or "(A to P)" when an endpoint is absent, else inserts the slice between the first occurrences |
| Stitcher.ProcedureSegments | plot.cpp:769-837 | a SID inserts its positions up to the first one equal to the point's; a STAR, ending in `ades`, inserts from the start position to its end |
| Stitcher.AirwayAlwaysFound | plot.cpp:679-682 | with every connector pre-emplaced, "could not find airway" cannot happen |
| Stitcher.PointNodes | plot.cpp:839-858 | one node per point, at its segment end |
| Stitcher.DirectRoute | plot.cpp:773-861 | with only `DCT` connectors, the route is one node per point at its segment end, with its hold unless the length is 0, labelled with its name unless it starts with a digit |
| Stitcher.PointFails | plot.cpp:773-786 | with any connectors, the route fails with that point's error at the first point whose position does not resolve, once every earlier point resolved and every earlier connector was stitched |
| Stitcher.ConnectorFails | plot.cpp:787-838 | the route ends with the outcome of the first connector that is not stitched (an unknown airway, a discontinuity, or undefined behaviour), once every earlier point and connector succeeded and its point resolved |
| RouteSource.RouteTokens | plot.cpp:594 | after the optional name, the token count is odd |
| RouteSource.Parse | plot.cpp:572-864 | the composed stages: the token error, or the stitched route or its error, named by the first argument when the count is even |
| RouteSource.LiteralStitch | plot.cpp:773-861 | literal positions joined by `DCT` stitch to one node per point at its literal position |
| RouteSource.LiteralRoute | plot.cpp:572-864 | a route of coordinate literals joined by `DCT` needs no database: one node per point, at its literal position |
| RouteSource.DirectConnectors | plot.cpp:679-680 | `DCT` tokens give null connectors |
| Commands.Words | plot.cpp:357-358 | the split yields non-empty words without white space |
| Commands.WordsCons | plot.cpp:357-358 | a word followed by a space splits into that word and the rest |
| Commands.WordsOfJoin | plot.cpp:357-358 | splitting words joined by single spaces gives back the words |
| Commands.FindSpace | plot.cpp:415 | `find_first_of(' ')`: the first space, or `npos` |
| Commands.FindNonSpace | plot.cpp:415 | `find_first_not_of(' ')`: the first non-space, or `npos` |
| Commands.SkipJoined | plot.cpp:412-416 | on a line of single-spaced words, `n` rounds of the offset loop land on word `n`, so the source's text is the line from that word |
| Commands.DecimalValue | plot.cpp:410 | `to_string(n)` is digits that read back as `n` |
| Commands.DecimalInjective | plot.cpp:410 | distinct counter values give distinct default names |
| Commands.RequestOf | plot.cpp:360-408 | a command is a plot request exactly when it is `.plot` followed by a word other than `help` or `clear`; the request skips the source's name exactly when that word is `coords` or `route`, and uses the coordinate source exactly for `coords` |
| Commands.Erase | plot.cpp:387-389 | the route table without exactly the named keys, other entries unchanged |
| Commands.RunSource | plot.cpp:418-422 | dispatches to the chosen source's parse |
| Commands.Compile | plot.cpp:356-434 | only a plot advances the counter and only a plot shows an error, when it is not handled; other requests are handled unless foreign; foreign and help requests keep the table |
| Commands.Stored | plot.cpp:410-433 | the counter advances; handled iff the source succeeded, else the error is shown and the table kept; a non-empty route is stored under its name, an empty one stores nothing; no other route changes |
| Commands.Plugin.constructor | plot.cpp:104-107 | no routes and a zero counter |
| Commands.Plugin.OnCompileCommand | plot.cpp:356-434 | the return value, the error shown, the new table and the new counter are those `Compile` gives |
| Commands.Plugin.Remove | plot.cpp:387-389 | the erase loop leaves the table without exactly the named routes, and the counter unchanged |
| Commands.Plugin.ParseAndStore | plot.cpp:410-433 | the counter advances, and a non-empty parsed route is stored under its name |
| Commands.ForeignCommand | plot.cpp:360 | a command not starting with `.plot` is not handled and changes nothing |
| Commands.ClearRemovesNamed | plot.cpp:386-399 | `.plot clear N...` removes exactly those names and keeps every other route and the counter |
| Commands.ClearEmpties | plot.cpp:386-399 | `.plot clear` alone empties the table |
| Commands.PlotStores | plot.cpp:410-433 | a plot advances the counter once and is handled iff its source succeeds; only a non-empty route is stored, under its name, and no other route changes |
| Commands.RouteIgnoresText | plot.cpp:572-578 | the route source ignores the command text |
| Commands.RouteShortcut | plot.cpp:402-408 | `.plot X ...`, for X none of the command words, does what `.plot route X ...` does |

## Left out

- Rendering is not modelled: `Screen::OnRefresh`, colours, label placement and the GDI+ drawing. The model stops at the `Route`.
- The help text, `display_message`/`display_command` and `RefreshMapContent` are host I/O. The help branch is modelled only as "handled, nothing changes".
- The EuroScope sector-file iterator is replaced by a sequence of elements. Each element has:
  - a type;
  - a name and an airport name;
  - two runway names;
  - the positions `GetPosition` returns.
- IEEE double arithmetic is replaced by exact reals. NaN is a separate constructor.
- Undefined behaviour is excluded by preconditions (`Legacy.Defined`, `RouteSource.Defined`, `Commands.CommandDefined`) and is not modelled. The excluded cases are:
  - an empty token list;
  - an empty point name, on a point the token loop reaches and whose suffix parses;
  - a hold length `stoi` cannot hold (`out_of_range`), on a point the token loop reaches and whose course and direction parse;
  - a slice whose two iterators are both at a geometry's first position (`--from` at `begin`): for an airway, both segment ends match its first position; for a SID, the second point's segment end equals its first position;
  - a label scan that runs past the terminator;
  - a command with a NUL inside;
  - `++name_counter` past `INT_MAX`;
  - a coordinate plot with arguments whose text the offset loop puts at `command + npos`.
- Uninitialised values are modelled as NaN coordinates. These are `Position adep, ades, seg_start` in the route source (`Resolver.Unresolved`) and the coordinates of the legacy `Node item` (`Legacy.InitialItem`). `seg_start` is always set before it is read. `adep` or `ades` is read unset when a SID or STAR matched but no airport or runway element gave the aerodrome; the model then places that node at NaN, a discontinuity, where the code reads an indeterminate value. A legacy string that starts with `-` copies the unset longitude, which the model also makes NaN.
- Commands.Text: when the offset loop reaches `npos`, the code forms the pointer `command + npos`. The model hands the source an empty text instead. The route source never reads its text. The coordinate source without arguments fails with "missing string" before reading it. The one case that reads it, a coordinate plot with arguments, is excluded by `CommandDefined`. The loop reaches `npos` only on a command whose words are not all separated by spaces, such as one with a tab.
- Commands.Words splits on C white space. The offset loop skips only `' '` and assumes the command starts with a word. The model keeps both, so a command containing tabs or starting with a space can misalign them, as in the code: `" .plot coords X"` hands `"coords X"` to the coordinate source (plot.cpp:413-415).
- Legacy.Relabel: labels keep the trailing NUL that plot.cpp:508 copies. Labels are `string`, not `wstring`.
- Legacy.ScanEncoded: the round trip excludes points whose fields do not fit a symbol. Those points have no encoding.
- Grammar.Stoi: whitespace, a sign and a digit prefix are modelled. `out_of_range` is not. `TokensDefined` excludes it on the hold lengths the token loop reads.
- Hold lengths and courses are integers. The code stores them as `double`, and every value it stores is an integer.
