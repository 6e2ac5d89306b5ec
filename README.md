# map_tile_navigator in Dafny

A model of the core of `map_tile_navigator`, a viewer that walks through the
tiles of a WMTS (Web Map Tile Service) server. It covers three parts of
`src/main.rs`, each with proofs about it:

- **Capabilities parsing (`parse_wmts_xml`).** The module is
  `WmtsCapabilities`, in `capabilities.dfy`. It finds `Contents`, the first
  `ResourceURL` below it, and the `TileMatrixSet` child, in a document that is
  already parsed. Each `TileMatrix` child is read into a map keyed by its
  identifier.
- **Reading one tile matrix (`TileMatrix::from_node`).** The module is
  `TileMatrices`, in `tile_matrix.dfy`. The children of a `TileMatrix`
  element are read in order:
  - an element without text is skipped;
  - an unknown tag name is ignored;
  - a later child for the same field overwrites it; a `TopLeftCorner`
    overwrites only the coordinates it has numbers for.

  A number that does not parse, or a `TopLeftCorner` with more than two
  numbers, makes the program panic. The model returns a `MatrixError` in that
  case.
- **Tile address (`ResourceURL::get_tile_url`).** The module is `TileUrl`, in
  `tile_url.dfy`. It makes three replace-all passes over the URL template,
  for `{TileMatrix}`, `{TileCol}` and `{TileRow}`.
- **Cursor (`TileManager`).** The module is `Navigation`, in
  `navigation.dfy`. It is a class holding the mutable cursor fields (matrix
  identifier, row, column). These methods are proved to move the cursor
  exactly as pure `Cursor` functions describe:
  - `zoom_in` (into one of the four quadrants);
  - `zoom_out`;
  - `travel` (one tile up, down, left or right);
  - `next_matrix` and `prev_matrix`.

Supporting modules model the library behaviour the core relies on:

- `Decimal` models `u32` `to_string` and `parse::<u32>`.
- `Strings` models `str::replace` and `split(' ')`.
- `Floats` models which texts `parse::<f64>` accepts.
- `Xml` models the part of the `roxmltree` node interface that is used:
  `children`, `descendants`, `text`, `tag_name`, `attribute` and `find`.
- `Wrappers` holds the `Option` and `Result` types.

Floating-point values are kept as the text they were parsed from. While
the capabilities document is read, a panic of the program (an `unwrap` on
`None` or `Err`, an index out of bounds) becomes a `Failure` value. On the
cursor, the `unwrap` of the matrix number in `next_matrix` and `prev_matrix`
and every `u32` overflow or underflow become preconditions of the move that
would cause them. The unwraps in `update_texture` belong to the fetch and
decode steps, which are left out.

Two properties of the code are worth stating plainly:

- The code does not skip an unreadable tile matrix: the first `TileMatrix`
  that cannot be read aborts the whole parse (`MatricesOf`,
  `FailureFromMatrix`).
- The code does not check the cursor against the matrix width and height;
  a move is limited only by the `u32` range, and a move beyond it is
  excluded by a precondition rather than reported as an error.

## Model

| member | source | states |
|---|---|---|
| Decimal.Format | src/main.rs:150 | `to_string` of a number spells it in canonical decimal, and that text denotes the number |
| Decimal.ParseOfFormat | src/main.rs:150 | parsing what `to_string` wrote gives the same `u32` back |
| Decimal.FormatOfParse | src/main.rs:150 | for a canonical numeral that `parse::<u32>` accepts, `to_string` of the value is the numeral again |
| Decimal.ParseU32 | src/main.rs:46-49 | definition of `parse::<u32>`: an optional `+`, then at least one digit, with a value below 2^32; a result implies non-empty text |
| Decimal.FormatOfValue | src/main.rs:150 | a canonical numeral is the `to_string` of the value it denotes |
| Decimal.ParseExamples | src/main.rs:46-49 | `parse::<u32>` accepts "0", "+17" and "007", and rejects "", "+" and "-1" |
| Strings.ReplaceAll | src/main.rs:83-85 | definition of `str::replace`: leftmost, non-overlapping replacement of every occurrence, scanning left to right |
| Strings.ReplaceAbsent | src/main.rs:83-85 | `replace` of a pattern that does not occur leaves the text unchanged |
| Strings.ReplaceRemovesPattern | src/main.rs:83-85 | after `replace` by a text sharing no character with the pattern, the pattern no longer occurs |
| Strings.ReplaceKeepsAbsent | src/main.rs:83-85 | `replace` does not create another pattern that was absent, if that pattern shares no character with the replacement |
| Strings.ReplaceSkipsPrefix | src/main.rs:83-85 | a prefix where no match starts is copied as it is |
| Strings.ReplaceAtMatch | src/main.rs:83-85 | a match at the front is replaced, and the scan resumes after it |
| Strings.Split | src/main.rs:51 | `split(' ')` yields at least one piece, and no piece contains a space |
| Strings.JoinSplit | src/main.rs:51 | the pieces of `split`, joined by the separator, are the original text |
| Strings.SplitWithoutSeparator | src/main.rs:51 | a text without the separator splits into itself alone |
| Floats.IsF64Literal | src/main.rs:45 | definition of which texts `parse::<f64>` accepts: an optional sign, then a decimal number with optional exponent, or `inf`, `infinity` or `nan` in any case |
| Floats.DigitsAreF64Literal | src/main.rs:45 | every decimal numeral is an `f64` literal |
| Floats.AcceptsSignedFraction | src/main.rs:45 | `parse::<f64>` accepts "-20.5" |
| Floats.AcceptsExponent | src/main.rs:45 | `parse::<f64>` accepts "1e5" |
| Floats.AcceptsLeadingPoint | src/main.rs:45 | `parse::<f64>` accepts ".5" |
| Floats.AcceptsNaNInAnyCase | src/main.rs:45 | `parse::<f64>` accepts "+NaN", ignoring case |
| Floats.RejectedExamples | src/main.rs:45 | `parse::<f64>` rejects "", ".", "1e" and "1 2" |
| Xml.Attribute | src/main.rs:217 | definition of `attribute(key)`: the value of the attribute on an element, and nothing on any other node |
| Xml.FindNamed | src/main.rs:207-224 | `find` fails exactly when no node carries the name; otherwise it gives the first node that does |
| Xml.Descendants | src/main.rs:212-215 | `descendants` starts with the node itself |
| Xml.ChildrenAreDescendants | src/main.rs:212-215 | every child of a node is among its descendants after the node itself |
| TileUrl.ResourceUrl.GetTileUrl | src/main.rs:82-88 | definition of `get_tile_url`: replace `{TileMatrix}` by the identifier, then `{TileCol}` by the column, then `{TileRow}` by the row, both in decimal |
| TileUrl.NoPlaceholderLeft | src/main.rs:82-88 | for a non-empty matrix identifier sharing no character with `{TileMatrix}`, the tile URL contains none of the three placeholders, whatever the template |
| TileUrl.DigitsAvoidPlaceholder | src/main.rs:84-85 | decimal text shares no character with any placeholder |
| TileUrl.TemplateWithoutPlaceholders | src/main.rs:82-88 | a template without placeholders is the URL of every tile |
| TileUrl.ReplaceFills | src/main.rs:83-85 | one replace pass over a template fills exactly the placeholders of that kind |
| TileUrl.ResolveIsSubstitution | src/main.rs:82-88 | if literal parts and identifier contain no `{`, the URL is the template with each placeholder replaced by its value: identifier, column in decimal, row in decimal |
| TileUrl.TypicalTemplate | src/main.rs:82-88 | for `host{TileMatrix}sep{TileCol}sep{TileRow}ext`, the URL is host, identifier, separator, column, separator, row, extension |
| TileUrl.FirstTileExample | src/main.rs:82-88 | template `https://host/{TileMatrix}/{TileCol}/{TileRow}.png`, tile ("0", 0, 0) gives `https://host/0/0/0.png` |
| TileMatrices.ParseFloats | src/main.rs:51-55 | a parsed corner has one value per piece, in order |
| TileMatrices.ParseFloatsAccepts | src/main.rs:52-55 | the corner text parses exactly when every piece is an `f64` literal |
| TileMatrices.ParseFloatsRejects | src/main.rs:52-55 | a corner that does not parse gives `InvalidNumber` for `TopLeftCorner`, naming a piece of it that is not an `f64` literal |
| TileMatrices.ChildError | src/main.rs:39-59 | definition of the abort one child causes: an element with text whose number (or one of whose corner numbers) does not parse, or a corner with more than two numbers |
| TileMatrices.ReadChild | src/main.rs:43-59 | definition of what one abort-free child does to the fields: it sets the field its name selects, the corner positionally, and leaves everything else |
| TileMatrices.MatrixOf | src/main.rs:36-63 | definition of the loop as a fold: the result of the children before, then the abort of the last child or its `ReadChild` step |
| TileMatrices.FirstError | src/main.rs:36-63 | no child aborts the read exactly when every child reads cleanly; otherwise the error is that of a child all of whose predecessors read cleanly |
| TileMatrices.StoreCorner | src/main.rs:56-58 | the positional copy of the parsed numbers into the two corner coordinates; more than two numbers is the index-out-of-bounds abort, and only then |
| TileMatrices.FromNode | src/main.rs:25-74 | the loop over the children computes exactly the fold `MatrixOf` of the children |
| TileMatrices.AbortStep | src/main.rs:45-55 | a child that aborts after a clean prefix makes that abort the result |
| TileMatrices.ReadStep | src/main.rs:36-63 | a clean child after a clean prefix updates the fields read so far, as `ReadChild` says |
| TileMatrices.AbortedPrefix | src/main.rs:45-55 | once a prefix of the children aborts, the later children change nothing |
| TileMatrices.NoChildrenGiveDefaults | src/main.rs:28-34 | with no child carrying text, the result is the defaults: empty identifier, all numbers 0 |
| TileMatrices.MatrixOfIsLastWins | src/main.rs:36-63 | the source's reading order equals a declarative reading: first abort if any, else every field from the last child that supplies it, or the default |
| TileMatrices.LastWinsSnoc | src/main.rs:36-63 | one more clean child changes the declarative reading exactly as reading that child does |
| TileMatrices.LastFieldsSnoc | src/main.rs:43-49 | for a non-corner child: the last-supplier fields after it are one `ReadChild` step |
| TileMatrices.LastFieldsSnocCorner | src/main.rs:50-59 | for a `TopLeftCorner` child: the last-supplier fields after it are one `ReadChild` step |
| TileMatrices.ReadCorner | src/main.rs:50-59 | a clean `TopLeftCorner` sets coordinate 0 from its first number, and coordinate 1 from its second if present |
| TileMatrices.LastSupplierSnoc | src/main.rs:36-63 | a child that supplies a field position becomes its last supplier; otherwise the last supplier stays |
| TileMatrices.LastSupplierConcat | src/main.rs:36-63 | the last supplier in `a + b` is the one in `b`, or the one in `a` if `b` supplies nothing |
| TileMatrices.FirstErrorConcat | src/main.rs:36-63 | the first abort in `a + b` is the one in `a`, or the one in `b` if `a` has none |
| TileMatrices.IgnoredChild | src/main.rs:37-60 | a non-element, a textless element or an element with an unknown name can be removed anywhere without changing the result |
| TileMatrices.OverriddenChild | src/main.rs:43-59 | a clean child whose fields are all supplied again later can be removed without changing the result (last wins) |
| TileMatrices.LaterIdentifierWins | src/main.rs:44 | a later `Identifier` with text makes every earlier `Identifier` irrelevant |
| TileMatrices.SwapDistinctChildren | src/main.rs:36-63 | two adjacent clean children with different names can be swapped without changing the result (order independence) |
| TileMatrices.SwapKeepsFirstError | src/main.rs:36-63 | swapping two clean children keeps the first abort |
| TileMatrices.SwapKeepsSupplier | src/main.rs:43-59 | swapping two children with different names keeps the last supplier of every known field |
| TileMatrices.KnownFieldsHaveOneName | src/main.rs:43-59 | two children with different tag names never supply the same known field |
| TileMatrices.SameSuppliersSameMatrix | src/main.rs:36-63 | child lists that agree on the first abort and on the last supplier of every field read give the same result |
| TileMatrices.SameSuppliersSameReading | src/main.rs:36-63 | the same, for the declarative reading |
| WmtsCapabilities.Locate | src/main.rs:206-224 | a document without nodes gives an empty template and no matrices; any failure is a missing `Contents`, `ResourceURL` or `TileMatrixSet` |
| WmtsCapabilities.MatricesOf | src/main.rs:225-231 | definition of the insertion loop as a fold: each `TileMatrix` item read and inserted under its identifier, the first failure instead |
| WmtsCapabilities.CapabilitiesOf | src/main.rs:197-234 | definition of the whole result: the located template and the map `MatricesOf` builds, or the first failure |
| WmtsCapabilities.ParseWmtsXml | src/main.rs:197-234 | the method computes exactly `CapabilitiesOf`: the located template and the map built from the `TileMatrixSet` children |
| WmtsCapabilities.InsertMatrices | src/main.rs:225-231 | the insertion loop computes exactly the fold `MatricesOf` over the items |
| WmtsCapabilities.BadPrefix | src/main.rs:225-231 | once a prefix of the items fails, the whole list fails the same way |
| WmtsCapabilities.AllMatricesRead | src/main.rs:225-231 | the map is built exactly when every `TileMatrix` item reads cleanly |
| WmtsCapabilities.FailureFromMatrix | src/main.rs:225-231 | a failure is the abort of the first `TileMatrix` item that cannot be read: every `TileMatrix` item before it reads cleanly |
| WmtsCapabilities.KeysAreIdentifiers | src/main.rs:225-231 | an identifier is a map key exactly when some `TileMatrix` item reads with it |
| WmtsCapabilities.KeyIsIdentifier | src/main.rs:229 | every entry is stored under its own identifier |
| WmtsCapabilities.LastMatrixWins | src/main.rs:229 | the entry under an identifier is the last `TileMatrix` item read with it |
| WmtsCapabilities.OtherItemIgnored | src/main.rs:226 | an item that is not a `TileMatrix` element can be removed anywhere without changing the result |
| WmtsCapabilities.Snoc | src/main.rs:225-231 | one more item extends the map as one loop iteration does |
| Navigation.NextMatrixId | src/main.rs:149-151 | `next_matrix` writes a canonical identifier whose value is one more |
| Navigation.PrevMatrixId | src/main.rs:153-155 | `prev_matrix` writes a canonical identifier whose value is one less |
| Navigation.NextThenPrev | src/main.rs:149-155 | `prev_matrix` after `next_matrix` restores a canonical identifier |
| Navigation.PrevThenNext | src/main.rs:149-155 | `next_matrix` after `prev_matrix` restores a canonical identifier |
| Navigation.ZoomedIn | src/main.rs:103-127 | zooming in moves to the next matrix, onto a tile inside the current one: row in [2r, 2r+1], column in [2c, 2c+1] |
| Navigation.ZoomedInQuadrant | src/main.rs:107-124 | the tile zoomed into lies in the chosen quadrant: row offset 1 for III and VI, column offset 1 for I and VI |
| Navigation.QuadrantsAreDistinct | src/main.rs:107-124 | the four quadrants lead to four different tiles |
| Navigation.QuadrantOf | src/main.rs:107-124 | the quadrant of its parent a tile lies in has the row and column parities as offsets |
| Navigation.ZoomedOut | src/main.rs:140-147 | zooming out moves to the previous matrix, onto the tile that contains the current one (floor halving) |
| Navigation.ZoomOutUndoesZoomIn | src/main.rs:103-147 | zooming out after zooming in returns to the same cursor |
| Navigation.ZoomInUndoesZoomOut | src/main.rs:103-147 | zooming back into the right quadrant after zooming out returns to the same cursor |
| Navigation.Moved | src/main.rs:129-138 | a move keeps the matrix and changes exactly one coordinate by one, in the direction named |
| Navigation.MoveThenBack | src/main.rs:129-138 | a move followed by the opposite move returns to the same cursor |
| Navigation.TileUrlOf | src/main.rs:158-162 | definition of the URL `update_texture` fetches: `get_tile_url` with the identifier, the column, then the row |
| Navigation.TileUrlIsComplete | src/main.rs:157-162 | the URL of any cursor with a canonical identifier has every placeholder filled in |
| Navigation.TileManager.constructor | src/main.rs:270-278 | the manager starts at matrix "0", row 0, column 0, with no texture |
| Navigation.TileManager.UpdateTexture | src/main.rs:157-179 | the texture becomes the one at the current cursor's tile URL; the cursor, and so whether its identifier is canonical, does not change |
| Navigation.TileManager.NextMatrix | src/main.rs:149-151 | the identifier becomes `NextMatrixId` of the old one; row and column are unchanged |
| Navigation.TileManager.PrevMatrix | src/main.rs:153-155 | the identifier becomes `PrevMatrixId` of the old one; row and column are unchanged |
| Navigation.TileManager.ZoomIn | src/main.rs:103-127 | the cursor becomes `ZoomedIn` of the old cursor, and the texture is loaded for the new cursor |
| Navigation.TileManager.Travel | src/main.rs:129-138 | the cursor becomes `Moved` of the old cursor, keeping the identifier (canonical exactly when it was), and the texture is loaded for the new cursor |
| Navigation.TileManager.ZoomOut | src/main.rs:140-147 | the cursor becomes `ZoomedOut` of the old cursor, and the texture is loaded for the new cursor |

## Left out

- **The window and the event loop.** This covers `main`'s piston window,
  `draw_focus_rect` and the rendering. These are I/O. The key-to-operation
  mapping is left out with them.
- **`fetch_tile` and texture building.** This covers the HTTP request,
  image decoding and texture creation in `update_texture`. These are I/O and
  foreign code. The model records only the URL whose tile becomes the
  texture (`textureUrl`).
- **`roxmltree::Document::parse`.** The model starts from the parsed tree.
  Its syntax errors, which panic in the program, are left out.
- **`f64` values.** A parsed `f64` is kept as its literal text (`Parsed`),
  not as a binary value. Rounding and the value itself are left out.
- **Command-line handling.** `structopt` argument parsing is left out.
- **`main`'s lookup of matrix "0".** `main` looks up matrix "0" in the map
  and unwraps the result. This is left out.
- **The "Unexpected node name!" line.** `from_node` prints this line for an
  unknown child. The print is left out; the child is ignored, as in the
  program.
- Navigation.TileManager.NextMatrix: the model requires the identifier to
  parse as a `u32` below `u32::MAX`. The program panics on a non-numeric
  identifier. The `+ 1` panics in a debug build and wraps in a release
  build. Neither behaviour is modelled.
- Navigation.TileManager.PrevMatrix: the model requires the identifier to
  parse as a positive `u32`. At "0" the program panics or wraps, and this is
  not modelled.
- Navigation.TileManager.ZoomIn: the model requires the doubled row and
  column, plus the quadrant's offset, to stay within `u32`. The program's
  overflow is not modelled.
- Navigation.TileManager.Travel: the model requires the moved coordinate to
  stay within `u32`. Moving up or left from 0 underflows in the program, and
  this is not modelled.
- Navigation.TileManager.ZoomOut: the model requires the identifier to
  parse as a positive `u32`, as for `PrevMatrix`.
