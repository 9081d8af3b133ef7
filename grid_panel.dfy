/**
  The tile-grid canvas of the level editor (the `GridPanel` inside
  `TileMapEditor`): a rectangle selection driven by mouse events, the
  "Paint Selection" fill that writes a paint value into every tile the
  selection covers, the clipped range of tiles a repaint draws, and the
  preferred size of the canvas.

  The level's tilemap is a list of rows of tile codes that may differ in
  length. The level object is shared: the editor frame and the canvas hold
  the same `Level`, and the canvas changes its tilemap in place.
*/
module TileMapEditor {
  import opened JavaLang

  const TileWidth: int := 30
  const TileHeight: int := 30

  /** java.awt.Point, java.awt.Rectangle and java.awt.Dimension, as values. */
  datatype Point = Point(x: int, y: int)
  datatype Rect = Rect(x: int, y: int, width: int, height: int)
  datatype Dimension = Dimension(width: int, height: int)

  /** A tilemap: rows of tile codes, possibly of different lengths. */
  type Grid = seq<seq<int>>

  /** Whether (row, col) names a cell of g. */
  predicate InGrid(g: Grid, row: int, col: int) {
    0 <= row < |g| && 0 <= col < |g[row]|
  }

  /** Same number of rows and the same length for every row. */
  predicate SameShape(a: Grid, b: Grid) {
    |a| == |b| && forall i :: 0 <= i < |a| ==> |a[i]| == |b[i]|
  }

  /** The tile row or column a pixel coordinate falls in, as the source divides. */
  function TileRow(py: int): int { Div(py, TileHeight) }
  function TileCol(px: int): int { Div(px, TileWidth) }

  // ---------------------------------------------------------------------
  // Selection
  // ---------------------------------------------------------------------

  function Min(a: int, b: int): int { if a <= b then a else b }
  function Abs(a: int): int { if a < 0 then -a else a }

  /**
    The selection while dragging from `anchor` to `p`: the bounding box of
    the two points, with its corners at the two points' coordinates.
  */
  function DragRect(anchor: Point, p: Point): (r: Rect)
    ensures r.width >= 0 && r.height >= 0
    ensures r.x <= anchor.x <= r.x + r.width && r.x <= p.x <= r.x + r.width
    ensures r.y <= anchor.y <= r.y + r.height && r.y <= p.y <= r.y + r.height
    ensures (r.x == anchor.x && r.x + r.width == p.x) || (r.x == p.x && r.x + r.width == anchor.x)
    ensures (r.y == anchor.y && r.y + r.height == p.y) || (r.y == p.y && r.y + r.height == anchor.y)
  {
    Rect(Min(anchor.x, p.x), Min(anchor.y, p.y), Abs(anchor.x - p.x), Abs(anchor.y - p.y))
  }

  // ---------------------------------------------------------------------
  // Fill of the selection
  // ---------------------------------------------------------------------

  /**
    A range of tile indices. `FillRange` fills it with inclusive ends;
    `VisibleRange` fills it with exclusive ends, as the two source methods
    compute them.
  */
  datatype TileRange = TileRange(startRow: int, endRow: int, startCol: int, endCol: int)

  /** The tiles `paintSelection` visits for selection `sel`, both ends included. */
  function FillRange(sel: Rect): TileRange {
    TileRange(TileRow(sel.y), TileRow(sel.y + sel.height), TileCol(sel.x), TileCol(sel.x + sel.width))
  }

  predicate InFill(b: TileRange, row: int, col: int) {
    b.startRow <= row <= b.endRow && b.startCol <= col <= b.endCol
  }

  /** g with every cell inside the inclusive range b set to v, and nothing else changed. */
  function Fill(g: Grid, b: TileRange, v: int): Grid {
    seq(|g|, i requires 0 <= i < |g| =>
      seq(|g[i]|, j requires 0 <= j < |g[i]| => if InFill(b, i, j) then v else g[i][j]))
  }

  /**
    Whether the fill loop reaches `ArrayList.get` or `set` with a negative
    index: the bounds test guards only the upper ends, so the first cell
    visited already throws when the start row is negative (`get`), or when
    the start column is negative and the start row exists (`set`).
  */
  predicate FillFaults(g: Grid, b: TileRange) {
    b.startRow <= b.endRow && b.startCol <= b.endCol &&
    (b.startRow < 0 || (b.startCol < 0 && b.startRow < |g|))
  }

  /** How a press of the "Paint Selection" button ends. */
  datatype PaintOutcome =
    | NoSelection        // no press has happened yet: nothing to do
    | InvalidPaintValue  // NumberFormatException: the error dialog is shown
    | IndexOutOfBounds   // uncaught exception out of the fill loop
    | Painted

  /**
    The tilemap after "Paint Selection" and how the action ends, for the
    text in the paint-value field.
  */
  function PaintEffect(g: Grid, sel: Option<Rect>, paintText: string): (Grid, PaintOutcome) {
    match sel
    case None => (g, NoSelection)
    case Some(r) =>
      match ParseInt(paintText)
      case None => (g, InvalidPaintValue)
      case Some(v) =>
        if FillFaults(g, FillRange(r)) then (g, IndexOutOfBounds)
        else (Fill(g, FillRange(r), v), Painted)
  }

  /**
    "Paint Selection" as the guard `row < size && col < size` evidently
    intends: cells outside the grid on any side are skipped, so no selection
    throws.
  */
  function GuardedPaintEffect(g: Grid, sel: Option<Rect>, paintText: string): (Grid, PaintOutcome) {
    match sel
    case None => (g, NoSelection)
    case Some(r) =>
      match ParseInt(paintText)
      case None => (g, InvalidPaintValue)
      case Some(v) => (Fill(g, FillRange(r), v), Painted)
  }

  /** The cells the fill loop has written once it stands at (row, col). */
  predicate Visited(b: TileRange, row: int, col: int, i: int, j: int) {
    b.startCol <= j <= b.endCol && b.startRow <= i && (i < row || (i == row && j < col))
  }

  /** The loop's state: g0 with exactly the visited cells set to v. */
  ghost predicate PaintedUpTo(g: Grid, g0: Grid, b: TileRange, v: int, row: int, col: int) {
    SameShape(g, g0) &&
    forall i, j :: InGrid(g0, i, j) ==> g[i][j] == if Visited(b, row, col, i, j) then v else g0[i][j]
  }

  lemma GridExtensionality(a: Grid, b: Grid)
    requires SameShape(a, b)
    requires forall i, j :: InGrid(a, i, j) ==> a[i][j] == b[i][j]
    ensures a == b
  {
    forall i | 0 <= i < |a| ensures a[i] == b[i] {
      assert forall j :: 0 <= j < |a[i]| ==> InGrid(a, i, j);
    }
  }

  // ---------------------------------------------------------------------
  // Drawing
  // ---------------------------------------------------------------------

  /** A tile as the canvas draws it: its position and the text of its code. */
  datatype Tile = Tile(row: int, col: int, text: string)

  datatype DrawOutcome =
    | Drawn(tiles: seq<Tile>)  // the tiles drawn, in drawing order
    | DrawFault                // ArrayList.get with a negative index

  /** The tiles `paintComponent` draws for clip, with exclusive ends. */
  function VisibleRange(clip: Rect): TileRange {
    TileRange(TileRow(clip.y), TileRow(clip.y + clip.height) + 1, TileCol(clip.x), TileCol(clip.x + clip.width) + 1)
  }

  predicate InView(b: TileRange, row: int, col: int) {
    b.startRow <= row < b.endRow && b.startCol <= col < b.endCol
  }

  /** The tiles of row `row` with columns in [lo, hi) that the row has, left to right. */
  function RowTiles(g: Grid, row: int, lo: int, hi: int): seq<Tile>
    decreases hi - lo
  {
    if hi <= lo then []
    else
      var last := if InGrid(g, row, hi - 1) then [Tile(row, hi - 1, FormatInt(g[row][hi - 1]))] else [];
      RowTiles(g, row, lo, hi - 1) + last
  }

  /** A row the grid does not have contributes no tiles. */
  lemma {:induction false} RowTilesOfMissingRow(g: Grid, row: int, lo: int, hi: int)
    requires !(0 <= row < |g|)
    ensures RowTiles(g, row, lo, hi) == []
    decreases hi - lo
  {
    if lo < hi {
      RowTilesOfMissingRow(g, row, lo, hi - 1);
    }
  }

  /** The tiles of rows [startRow, row) that the grid has, row by row. */
  function RangeTiles(g: Grid, b: TileRange, row: int): seq<Tile>
    decreases row - b.startRow
  {
    if row <= b.startRow then []
    else RangeTiles(g, b, row - 1) + RowTiles(g, row - 1, b.startCol, b.endCol)
  }

  /**
    Whether the drawing loop reaches `ArrayList.get` with a negative index:
    at its first tile when the start row is negative, or when the start
    column is negative and the start row exists.
  */
  predicate DrawFaults(g: Grid, b: TileRange) {
    b.startRow < b.endRow && b.startCol < b.endCol &&
    (b.startRow < 0 || (b.startCol < 0 && b.startRow < |g|))
  }

  /** What a repaint with clip bounds `clip` draws. */
  function Render(g: Grid, clip: Rect): DrawOutcome {
    var b := VisibleRange(clip);
    if DrawFaults(g, b) then DrawFault else Drawn(RangeTiles(g, b, b.endRow))
  }

  /** The content size the canvas asks its scroll pane for. */
  function PreferredSize(g: Grid): Dimension
    requires |g| > 0
  {
    Dimension(|g[0]| * TileWidth, |g| * TileHeight)
  }

  // ---------------------------------------------------------------------
  // The objects
  // ---------------------------------------------------------------------

  /** The level data; only the tilemap takes part in editing. */
  class Level {
    var tilemap: Grid

    constructor (tilemap: Grid)
      ensures this.tilemap == tilemap
    {
      this.tilemap := tilemap;
    }
  }

  class GridPanel {
    const level: Level
    var startPoint: Option<Point>
    var selectionRect: Option<Rect>

    /** The anchor and the selection are set together; a selection has no negative size. */
    ghost predicate Valid()
      reads this
    {
      startPoint.Some? == selectionRect.Some? &&
      (selectionRect.Some? ==> selectionRect.value.width >= 0 && selectionRect.value.height >= 0)
    }

    constructor (level: Level)
      ensures this.level == level && Valid()
      ensures startPoint == None && selectionRect == None
    {
      this.level := level;
      startPoint := None;
      selectionRect := None;
    }

    /** A press anchors a new selection: an empty rectangle at the origin, not at the press point. */
    method MousePressed(e: Point)
      modifies this
      ensures Valid()
      ensures startPoint == Some(e) && selectionRect == Some(Rect(0, 0, 0, 0))
      ensures level.tilemap == old(level.tilemap)
    {
      startPoint := Some(e);
      selectionRect := Some(Rect(0, 0, 0, 0));
    }

    /** A drag replaces the selection with the box spanned by the anchor and the pointer. */
    method MouseDragged(e: Point)
      requires Valid() && startPoint.Some?
      modifies this
      ensures Valid()
      ensures startPoint == old(startPoint)
      ensures selectionRect == Some(DragRect(startPoint.value, e))
      ensures level.tilemap == old(level.tilemap)
    {
      selectionRect := Some(DragRect(startPoint.value, e));
    }

    /** A release keeps the selection for the fill; nothing changes. */
    method MouseReleased(e: Point)
      ensures unchanged(this) && unchanged(level)
    {
    }

    /**
      "Paint Selection" with `paintText` in the paint-value field: parse the
      value first, then write it into every existing cell of the fill range.
    */
    method PaintSelection(paintText: string) returns (outcome: PaintOutcome)
      modifies level
      ensures startPoint == old(startPoint) && selectionRect == old(selectionRect)
      ensures (level.tilemap, outcome) == PaintEffect(old(level.tilemap), selectionRect, paintText)
    {
      if selectionRect.None? {
        return NoSelection;
      }
      var parsed := ParseInt(paintText);
      if parsed.None? {
        return InvalidPaintValue;
      }
      var paintValue := parsed.value;
      var b := FillRange(selectionRect.value);
      ghost var g0 := level.tilemap;

      var row := b.startRow;
      while row <= b.endRow
        invariant b.startRow <= row && (row <= b.endRow + 1 || row == b.startRow)
        invariant PaintedUpTo(level.tilemap, g0, b, paintValue, row, b.startCol)
        invariant row > b.startRow && b.startCol <= b.endCol ==>
          b.startRow >= 0 && (b.startCol < 0 ==> b.startRow >= |g0|)
        decreases b.endRow + 1 - row
      {
        var col := b.startCol;
        while col <= b.endCol
          invariant b.startCol <= col && (col <= b.endCol + 1 || col == b.startCol)
          invariant PaintedUpTo(level.tilemap, g0, b, paintValue, row, col)
          invariant col > b.startCol && row < |g0| ==> row >= 0 && b.startCol >= 0
          decreases b.endCol + 1 - col
        {
          if row < |level.tilemap| {
            if row < 0 {
              NothingVisited(level.tilemap, g0, b, paintValue, row, col);
              return IndexOutOfBounds;
            }
            if col < |level.tilemap[row]| {
              if col < 0 {
                NothingVisited(level.tilemap, g0, b, paintValue, row, col);
                return IndexOutOfBounds;
              }
              level.tilemap := level.tilemap[row := level.tilemap[row][col := paintValue]];
            }
          }
          col := col + 1;
        }
        row := row + 1;
      }
      AllVisited(level.tilemap, g0, b, paintValue, row);
      outcome := Painted;
    }

    /**
      A repaint with clip bounds `clip`: every existing tile of the visible
      range, row by row; the pixels, colours and font metrics are not modelled.
    */
    method PaintComponent(clip: Rect) returns (res: DrawOutcome)
      ensures res == Render(level.tilemap, clip)
    {
      var g := level.tilemap;
      var b := VisibleRange(clip);
      var tiles: seq<Tile> := [];
      var row := b.startRow;
      while row < b.endRow
        invariant b.startRow <= row && (row <= b.endRow || row == b.startRow)
        invariant tiles == RangeTiles(g, b, row)
        invariant row > b.startRow && b.startCol < b.endCol ==>
          b.startRow >= 0 && (b.startCol < 0 ==> b.startRow >= |g|)
        decreases b.endRow - row
      {
        if row < |g| {
          var col := b.startCol;
          while col < b.endCol
            invariant b.startCol <= col && (col <= b.endCol || col == b.startCol)
            invariant tiles == RangeTiles(g, b, row) + RowTiles(g, row, b.startCol, col)
            invariant col > b.startCol ==> row >= 0 && b.startCol >= 0
            decreases b.endCol - col
          {
            if row < 0 {
              return DrawFault;
            }
            if col < |g[row]| {
              if col < 0 {
                return DrawFault;
              }
              tiles := tiles + [Tile(row, col, FormatInt(g[row][col]))];
            }
            assert RowTiles(g, row, b.startCol, col + 1) ==
              RowTiles(g, row, b.startCol, col) + (if col < |g[row]| then [Tile(row, col, FormatInt(g[row][col]))] else []);
            col := col + 1;
          }
        } else {
          RowTilesOfMissingRow(g, row, b.startCol, b.endCol);
        }
        assert RangeTiles(g, b, row + 1) == RangeTiles(g, b, row) + RowTiles(g, row, b.startCol, b.endCol);
        row := row + 1;
      }
      res := Drawn(tiles);
    }
  }

  /** At a faulting cell the loop has written nothing yet. */
  lemma NothingVisited(g: Grid, g0: Grid, b: TileRange, v: int, row: int, col: int)
    requires PaintedUpTo(g, g0, b, v, row, col)
    requires row < 0 || (row == b.startRow && col == b.startCol)
    ensures g == g0
  {
    GridExtensionality(g, g0);
  }

  /** Once the loop is past the last row it has written exactly the fill range. */
  lemma AllVisited(g: Grid, g0: Grid, b: TileRange, v: int, row: int)
    requires PaintedUpTo(g, g0, b, v, row, b.startCol)
    requires row == b.endRow + 1 || (row == b.startRow && b.endRow < b.startRow)
    ensures g == Fill(g0, b, v)
  {
    GridExtensionality(g, Fill(g0, b, v));
  }
}
