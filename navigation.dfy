/**
 * The tile cursor and its moves: `TileManager`'s position in the tile
 * pyramid (matrix identifier, row, column), zooming into a quadrant,
 * zooming out, moving one tile, and the URL of the tile under it.
 *
 * The pure `Cursor` functions say what each move does; the `TileManager`
 * class keeps the program's mutable fields and its methods are proved to
 * move the cursor exactly as those functions say.
 *
 * The program's row, column and matrix number are `u32`: a move that
 * would leave that range panics (debug build) or wraps (release build).
 * Each move therefore requires that it stays in range.
 */
module Navigation {
  import opened Wrappers
  import opened Decimal
  import opened Strings
  import opened TileUrl

  /** The quarter of the current tile to zoom into; the program names the fourth one `VI`. */
  datatype Quadrant = I | II | III | VI

  datatype Movement = Up | Down | Left | Right

  /** A position in the pyramid; `matrixId` is the matrix number as decimal text. */
  datatype Cursor = Cursor(matrixId: string, row: U32, column: U32)

  /** Quadrants III and VI are the lower half of the tile. */
  function RowOffset(q: Quadrant): nat {
    if q == III || q == VI then 1 else 0
  }

  /** Quadrants I and VI are the right half of the tile. */
  function ColumnOffset(q: Quadrant): nat {
    if q == I || q == VI then 1 else 0
  }

  /** An identifier as `next_matrix` and `prev_matrix` write it: canonical decimal of a `u32`. */
  predicate ValidId(id: string) {
    IsCanonical(id) && ParseU32(id).Some?
  }

  /** `next_matrix`: the identifier read as a `u32`, plus one, written back in decimal. */
  function NextMatrixId(id: string): (r: string)
    requires ParseU32(id).Some? && ParseU32(id).value < U32_MAX
    ensures ValidId(r) && ParseU32(r) == Some(ParseU32(id).value + 1)
  {
    var n := ParseU32(id).value + 1;
    ParseOfFormat(n);
    Format(n)
  }

  /** `prev_matrix`: the identifier read as a `u32`, minus one, written back in decimal. */
  function PrevMatrixId(id: string): (r: string)
    requires ParseU32(id).Some? && ParseU32(id).value > 0
    ensures ValidId(r) && ParseU32(r) == Some(ParseU32(id).value - 1)
  {
    var n := ParseU32(id).value - 1;
    ParseOfFormat(n);
    Format(n)
  }

  /**
   * `parent` is the tile one matrix up whose area holds `child`: each
   * tile splits into a two-by-two block in the next matrix.
   */
  predicate Encloses(parent: Cursor, child: Cursor) {
    ParseU32(parent.matrixId).Some? && ParseU32(child.matrixId).Some? &&
    ParseU32(child.matrixId).value == ParseU32(parent.matrixId).value + 1 &&
    2 * parent.row <= child.row <= 2 * parent.row + 1 &&
    2 * parent.column <= child.column <= 2 * parent.column + 1
  }

  /** Zooming into quadrant `q` stays within `u32`. */
  predicate CanZoomIn(c: Cursor, q: Quadrant) {
    ParseU32(c.matrixId).Some? && ParseU32(c.matrixId).value < U32_MAX &&
    2 * c.row + RowOffset(q) <= U32_MAX && 2 * c.column + ColumnOffset(q) <= U32_MAX
  }

  /**
   * `zoom_in`: one matrix deeper, onto the child tile in quadrant `q` of
   * the current tile.
   */
  function ZoomedIn(c: Cursor, q: Quadrant): (r: Cursor)
    requires CanZoomIn(c, q)
    ensures Encloses(c, r) && ValidId(r.matrixId)
  {
    Cursor(NextMatrixId(c.matrixId), 2 * c.row + RowOffset(q), 2 * c.column + ColumnOffset(q))
  }

  predicate CanZoomOut(c: Cursor) {
    ParseU32(c.matrixId).Some? && ParseU32(c.matrixId).value > 0
  }

  /** `zoom_out`: one matrix up, onto the tile that contains the current one. */
  function ZoomedOut(c: Cursor): (r: Cursor)
    requires CanZoomOut(c)
    ensures Encloses(r, c) && ValidId(r.matrixId)
  {
    Cursor(PrevMatrixId(c.matrixId), c.row / 2, c.column / 2)
  }

  /** Moving one tile stays within `u32`. */
  predicate CanMove(c: Cursor, m: Movement) {
    match m
    case Up => c.row > 0
    case Down => c.row < U32_MAX
    case Left => c.column > 0
    case Right => c.column < U32_MAX
  }

  /** `travel`: one tile up, down, left or right in the same matrix. */
  function Moved(c: Cursor, m: Movement): (r: Cursor)
    requires CanMove(c, m)
    ensures r.matrixId == c.matrixId
    ensures (m == Up || m == Down) ==> r.column == c.column && r.row == (if m == Up then c.row - 1 else c.row + 1)
    ensures (m == Left || m == Right) ==> r.row == c.row && r.column == (if m == Left then c.column - 1 else c.column + 1)
  {
    match m
    case Up => c.(row := c.row - 1)
    case Down => c.(row := c.row + 1)
    case Left => c.(column := c.column - 1)
    case Right => c.(column := c.column + 1)
  }

  /** The URL `update_texture` fetches for a cursor; note the column comes before the row. */
  function TileUrlOf(url: ResourceUrl, c: Cursor): string {
    url.GetTileUrl(c.matrixId, c.column, c.row)
  }

  // ---------------------------------------------------------------------
  // How the moves relate.

  lemma NextThenPrev(id: string)
    requires ValidId(id) && ParseU32(id).value < U32_MAX
    ensures PrevMatrixId(NextMatrixId(id)) == id
  {
    FormatOfParse(id);
  }

  lemma PrevThenNext(id: string)
    requires ValidId(id) && ParseU32(id).value > 0
    ensures NextMatrixId(PrevMatrixId(id)) == id
  {
    FormatOfParse(id);
  }

  /** Zooming out after zooming in returns to the same tile. */
  lemma ZoomOutUndoesZoomIn(c: Cursor, q: Quadrant)
    requires ValidId(c.matrixId) && CanZoomIn(c, q)
    ensures CanZoomOut(ZoomedIn(c, q)) && ZoomedOut(ZoomedIn(c, q)) == c
  {
    NextThenPrev(c.matrixId);
  }

  /** The quadrant of its parent tile that a tile lies in. */
  function QuadrantOf(c: Cursor): (q: Quadrant)
    ensures RowOffset(q) == c.row % 2 && ColumnOffset(q) == c.column % 2
  {
    if c.row % 2 == 0 then (if c.column % 2 == 0 then II else I)
    else (if c.column % 2 == 0 then III else VI)
  }

  /** The tile zoomed into lies in quadrant `q` of the tile it came from. */
  lemma ZoomedInQuadrant(c: Cursor, q: Quadrant)
    requires CanZoomIn(c, q)
    ensures QuadrantOf(ZoomedIn(c, q)) == q
  {
  }

  /** Zooming back into the right quadrant after zooming out returns to the same tile. */
  lemma ZoomInUndoesZoomOut(c: Cursor)
    requires ValidId(c.matrixId) && CanZoomOut(c)
    ensures CanZoomIn(ZoomedOut(c), QuadrantOf(c)) && ZoomedIn(ZoomedOut(c), QuadrantOf(c)) == c
  {
    PrevThenNext(c.matrixId);
  }

  /** The four quadrants lead to four different tiles. */
  lemma QuadrantsAreDistinct(c: Cursor, p: Quadrant, q: Quadrant)
    requires CanZoomIn(c, p) && CanZoomIn(c, q) && p != q
    ensures ZoomedIn(c, p) != ZoomedIn(c, q)
  {
  }

  function Opposite(m: Movement): Movement {
    match m
    case Up => Down
    case Down => Up
    case Left => Right
    case Right => Left
  }

  /** A move followed by the opposite move returns to the same tile. */
  lemma MoveThenBack(c: Cursor, m: Movement)
    requires CanMove(c, m)
    ensures CanMove(Moved(c, m), Opposite(m)) && Moved(Moved(c, m), Opposite(m)) == c
  {
  }

  /** A cursor's URL has every placeholder filled in. */
  lemma TileUrlIsComplete(url: ResourceUrl, c: Cursor)
    requires ValidId(c.matrixId)
    ensures !Contains(TileUrlOf(url, c), MATRIX_PLACEHOLDER)
    ensures !Contains(TileUrlOf(url, c), COLUMN_PLACEHOLDER)
    ensures !Contains(TileUrlOf(url, c), ROW_PLACEHOLDER)
  {
    DigitsAvoidPlaceholder(c.matrixId, MATRIX_PLACEHOLDER);
    NoPlaceholderLeft(url, c.matrixId, c.column, c.row);
  }

  // ---------------------------------------------------------------------
  // The program's state.

  /**
   * `TileManager`: the cursor fields and the resource URL. The texture is
   * modelled by the URL of the tile it was last loaded from.
   */
  class TileManager {
    var currentRow: U32
    var currentColumn: U32
    var currentMatrixId: string
    const resourceUrl: ResourceUrl
    var textureUrl: Option<string>

    function CurrentCursor(): Cursor
      reads this
    {
      Cursor(currentMatrixId, currentRow, currentColumn)
    }

    predicate Valid()
      reads this
    {
      ValidId(currentMatrixId)
    }

    /** The manager `main` builds: matrix "0", row 0, column 0, no texture yet. */
    constructor (resourceUrl: ResourceUrl)
      ensures Valid()
      ensures CurrentCursor() == Cursor("0", 0, 0)
      ensures this.resourceUrl == resourceUrl && textureUrl == None
    {
      currentRow := 0;
      currentColumn := 0;
      currentMatrixId := "0";
      this.resourceUrl := resourceUrl;
      textureUrl := None;
      assert ParseU32("0") == Some(0);
    }

    /** `update_texture`: load the tile under the cursor. */
    method UpdateTexture()
      modifies this`textureUrl
      ensures Valid() <==> old(Valid())
      ensures textureUrl == Some(TileUrlOf(resourceUrl, CurrentCursor()))
    {
      var tileUrl := resourceUrl.GetTileUrl(currentMatrixId, currentColumn, currentRow);
      textureUrl := Some(tileUrl);
    }

    method NextMatrix()
      requires ParseU32(currentMatrixId).Some? && ParseU32(currentMatrixId).value < U32_MAX
      modifies this`currentMatrixId
      ensures Valid() && currentMatrixId == NextMatrixId(old(currentMatrixId))
    {
      var n := ParseU32(currentMatrixId).value;
      ParseOfFormat(n + 1);
      currentMatrixId := Format(n + 1);
    }

    method PrevMatrix()
      requires ParseU32(currentMatrixId).Some? && ParseU32(currentMatrixId).value > 0
      modifies this`currentMatrixId
      ensures Valid() && currentMatrixId == PrevMatrixId(old(currentMatrixId))
    {
      var n := ParseU32(currentMatrixId).value;
      ParseOfFormat(n - 1);
      currentMatrixId := Format(n - 1);
    }

    method ZoomIn(q: Quadrant)
      requires CanZoomIn(CurrentCursor(), q)
      modifies this
      ensures Valid() && CurrentCursor() == ZoomedIn(old(CurrentCursor()), q)
      ensures textureUrl == Some(TileUrlOf(resourceUrl, CurrentCursor()))
    {
      ghost var before := CurrentCursor();
      NextMatrix();
      match q {
        case I =>
          currentRow := 2 * currentRow;
          currentColumn := 2 * currentColumn + 1;
        case II =>
          currentRow := 2 * currentRow;
          currentColumn := 2 * currentColumn;
        case III =>
          currentRow := 2 * currentRow + 1;
          currentColumn := 2 * currentColumn;
        case VI =>
          currentRow := 2 * currentRow + 1;
          currentColumn := 2 * currentColumn + 1;
      }
      assert CurrentCursor() == ZoomedIn(before, q);
      UpdateTexture();
    }

    method Travel(m: Movement)
      requires CanMove(CurrentCursor(), m)
      modifies this
      ensures currentMatrixId == old(currentMatrixId) && (Valid() <==> old(Valid()))
      ensures CurrentCursor() == Moved(old(CurrentCursor()), m)
      ensures textureUrl == Some(TileUrlOf(resourceUrl, CurrentCursor()))
    {
      match m {
        case Up => currentRow := currentRow - 1;
        case Down => currentRow := currentRow + 1;
        case Left => currentColumn := currentColumn - 1;
        case Right => currentColumn := currentColumn + 1;
      }
      UpdateTexture();
    }

    method ZoomOut()
      requires CanZoomOut(CurrentCursor())
      modifies this
      ensures Valid() && CurrentCursor() == ZoomedOut(old(CurrentCursor()))
      ensures textureUrl == Some(TileUrlOf(resourceUrl, CurrentCursor()))
    {
      PrevMatrix();
      currentColumn := currentColumn / 2;
      currentRow := currentRow / 2;
      UpdateTexture();
    }
  }
}
