/**
  Properties of the tile-grid canvas: what a selection covers, what
  "Paint Selection" changes and what it leaves alone, which tiles a repaint
  draws, and how the preferred size relates to the grid.
*/
module GridLemmas {
  import opened JavaLang
  import opened TileMapEditor

  // ---------------------------------------------------------------------
  // Pixels and tiles
  // ---------------------------------------------------------------------

  /**
    Java's division rounds toward zero, so the 29 pixels just left of (or
    above) the canvas still fall in tile 0; an index turns negative only
    from a full tile away.
  */
  lemma NegativeTileIndex(p: int)
    ensures TileCol(p) < 0 <==> p <= -TileWidth
    ensures TileRow(p) < 0 <==> p <= -TileHeight
    ensures -TileWidth < p < TileWidth ==> TileCol(p) == 0
    ensures -TileHeight < p < TileHeight ==> TileRow(p) == 0
  {
    if p <= -TileWidth {
      DivMonotone(p, -TileWidth, TileWidth);
      DivMultiple(-1, TileWidth);
    } else {
      DivMonotone(-TileWidth + 1, p, TileWidth);
    }
  }

  /** Whether some coordinate p with lo <= p <= hi lies in tile t for tiles of size d. */
  ghost predicate SpanHits(lo: int, hi: int, d: int, t: int)
    requires d > 0
  {
    exists p :: lo <= p <= hi && Div(p, d) == t
  }

  /** The tiles met by the closed span [lo, hi] are exactly Div(lo) .. Div(hi). */
  lemma SpanTiles(lo: int, hi: int, d: int, t: int)
    requires d > 0 && lo <= hi
    ensures Div(lo, d) <= t <= Div(hi, d) <==> SpanHits(lo, hi, d, t)
  {
    if Div(lo, d) <= t <= Div(hi, d) {
      DivMultiple(t, d);
      var p := if t * d < lo then lo else if t * d > hi then hi else t * d;
      if t * d < lo {
        DivMonotone(t * d, lo, d);
      } else if t * d > hi {
        DivMonotone(hi, t * d, d);
      }
      assert lo <= p <= hi && Div(p, d) == t;
    }
    if SpanHits(lo, hi, d, t) {
      var p :| lo <= p <= hi && Div(p, d) == t;
      DivMonotone(lo, p, d);
      DivMonotone(p, hi, d);
    }
  }

  /** Whether some pixel of the closed rectangle r lies in tile (row, col). */
  ghost predicate Touches(r: Rect, row: int, col: int) {
    SpanHits(r.x, r.x + r.width, TileWidth, col) && SpanHits(r.y, r.y + r.height, TileHeight, row)
  }

  /**
    The fill visits exactly the tiles that the selection, right and bottom
    edges included, has a pixel in; a repaint draws the same tiles for its
    clip rectangle.
  */
  lemma FillRangeIsTouchedTiles(r: Rect, row: int, col: int)
    requires r.width >= 0 && r.height >= 0
    ensures InFill(FillRange(r), row, col) <==> Touches(r, row, col)
    ensures InView(VisibleRange(r), row, col) <==> Touches(r, row, col)
  {
    SpanTiles(r.x, r.x + r.width, TileWidth, col);
    SpanTiles(r.y, r.y + r.height, TileHeight, row);
  }

  /** The tiles under the press point and under the pointer both lie in the fill range. */
  lemma DragCoversBothEnds(anchor: Point, p: Point)
    ensures InFill(FillRange(DragRect(anchor, p)), TileRow(anchor.y), TileCol(anchor.x))
    ensures InFill(FillRange(DragRect(anchor, p)), TileRow(p.y), TileCol(p.x))
  {
    var r := DragRect(anchor, p);
    DivMonotone(r.x, anchor.x, TileWidth);
    DivMonotone(anchor.x, r.x + r.width, TileWidth);
    DivMonotone(r.y, anchor.y, TileHeight);
    DivMonotone(anchor.y, r.y + r.height, TileHeight);
    DivMonotone(r.x, p.x, TileWidth);
    DivMonotone(p.x, r.x + r.width, TileWidth);
    DivMonotone(r.y, p.y, TileHeight);
    DivMonotone(p.y, r.y + r.height, TileHeight);
  }

  // ---------------------------------------------------------------------
  // Fill
  // ---------------------------------------------------------------------

  /** The fill keeps the row count and every row length, sets the range's cells and keeps the rest. */
  lemma FillCells(g: Grid, b: TileRange, v: int)
    ensures SameShape(Fill(g, b, v), g)
    ensures forall i, j :: InGrid(g, i, j) && InFill(b, i, j) ==> Fill(g, b, v)[i][j] == v
    ensures forall i, j :: InGrid(g, i, j) && !InFill(b, i, j) ==> Fill(g, b, v)[i][j] == g[i][j]
  {
  }

  /** Filling the same range with the same value twice is filling it once. */
  lemma FillIdempotent(g: Grid, b: TileRange, v: int)
    ensures Fill(Fill(g, b, v), b, v) == Fill(g, b, v)
  {
    var once := Fill(g, b, v);
    FillCells(g, b, v);
    FillCells(once, b, v);
    GridExtensionality(Fill(once, b, v), once);
  }

  /** Whether every tile code fits in a Java int. */
  ghost predicate IntCells(g: Grid) {
    forall i, j :: InGrid(g, i, j) ==> IsInt(g[i][j])
  }

  // ---------------------------------------------------------------------
  // Paint Selection
  // ---------------------------------------------------------------------

  /** Which way "Paint Selection" ends, in terms of its inputs. */
  lemma PaintOutcomes(g: Grid, sel: Option<Rect>, paintText: string)
    ensures PaintEffect(g, sel, paintText).1 == NoSelection <==> sel.None?
    ensures PaintEffect(g, sel, paintText).1 == InvalidPaintValue <==>
      sel.Some? && ParseInt(paintText).None?
    ensures PaintEffect(g, sel, paintText).1 == IndexOutOfBounds <==>
      sel.Some? && ParseInt(paintText).Some? && FillFaults(g, FillRange(sel.value))
  {
  }

  /**
    What "Paint Selection" changes: never the shape; nothing at all unless it
    ends Painted; when it does, exactly the existing cells of the fill range,
    which all hold the parsed value.
  */
  lemma PaintFrame(g: Grid, sel: Option<Rect>, paintText: string)
    ensures SameShape(PaintEffect(g, sel, paintText).0, g)
    ensures PaintEffect(g, sel, paintText).1 != Painted ==> PaintEffect(g, sel, paintText).0 == g
    ensures PaintEffect(g, sel, paintText).1 == Painted ==>
      sel.Some? && ParseInt(paintText).Some? &&
      var g', b, v := PaintEffect(g, sel, paintText).0, FillRange(sel.value), ParseInt(paintText).value;
      (forall i, j :: InGrid(g, i, j) && InFill(b, i, j) ==> g'[i][j] == v) &&
      (forall i, j :: InGrid(g, i, j) && !InFill(b, i, j) ==> g'[i][j] == g[i][j])
  {
    if sel.Some? && ParseInt(paintText).Some? {
      FillCells(g, FillRange(sel.value), ParseInt(paintText).value);
    }
  }

  /** Pressing "Paint Selection" twice with the same selection and text does what pressing it once does. */
  lemma PaintIdempotent(g: Grid, sel: Option<Rect>, paintText: string)
    ensures PaintEffect(PaintEffect(g, sel, paintText).0, sel, paintText) == PaintEffect(g, sel, paintText)
  {
    if sel.Some? && ParseInt(paintText).Some? && !FillFaults(g, FillRange(sel.value)) {
      var b, v := FillRange(sel.value), ParseInt(paintText).value;
      FillIdempotent(g, b, v);
      FillCells(g, b, v);
    }
  }

  /** Painted codes come from Integer.parseInt, so tile codes stay within int. */
  lemma PaintKeepsIntCells(g: Grid, sel: Option<Rect>, paintText: string)
    requires IntCells(g)
    ensures IntCells(PaintEffect(g, sel, paintText).0)
  {
    PaintFrame(g, sel, paintText);
  }

  /**
    A selection whose corner lies in the canvas, or less than a tile outside
    it, never throws; one a full tile or more above the canvas always does.
  */
  lemma PaintFaultsOnlyFarOutside(g: Grid, sel: Rect, paintText: string)
    requires sel.width >= 0 && sel.height >= 0
    requires ParseInt(paintText).Some?
    ensures sel.x > -TileWidth && sel.y > -TileHeight ==> PaintEffect(g, Some(sel), paintText).1 == Painted
    ensures sel.y <= -TileHeight ==> PaintEffect(g, Some(sel), paintText).1 == IndexOutOfBounds
  {
    NegativeTileIndex(sel.x);
    NegativeTileIndex(sel.y);
    DivMonotone(sel.x, sel.x + sel.width, TileWidth);
    DivMonotone(sel.y, sel.y + sel.height, TileHeight);
  }

  // ---------------------------------------------------------------------
  // Drawing
  // ---------------------------------------------------------------------

  lemma {:induction false} RowTilesMembers(g: Grid, row: int, lo: int, hi: int, t: Tile)
    ensures t in RowTiles(g, row, lo, hi) <==>
      t.row == row && lo <= t.col < hi && InGrid(g, row, t.col) && t.text == FormatInt(g[row][t.col])
    decreases hi - lo
  {
    if lo < hi {
      RowTilesMembers(g, row, lo, hi - 1, t);
    }
  }

  lemma {:induction false} RangeTilesMembers(g: Grid, b: TileRange, row: int, t: Tile)
    ensures t in RangeTiles(g, b, row) <==>
      b.startRow <= t.row < row && b.startCol <= t.col < b.endCol &&
      InGrid(g, t.row, t.col) && t.text == FormatInt(g[t.row][t.col])
    decreases row - b.startRow
  {
    if row > b.startRow {
      RangeTilesMembers(g, b, row - 1, t);
      RowTilesMembers(g, row - 1, b.startCol, b.endCol, t);
    }
  }

  /** Tile a comes before tile b in row-major order. */
  predicate Before(a: Tile, b: Tile) {
    a.row < b.row || (a.row == b.row && a.col < b.col)
  }

  predicate RowMajor(ts: seq<Tile>) {
    forall i, j :: 0 <= i < j < |ts| ==> Before(ts[i], ts[j])
  }

  lemma RowMajorConcat(a: seq<Tile>, b: seq<Tile>)
    requires RowMajor(a) && RowMajor(b)
    requires forall x, y :: x in a && y in b ==> Before(x, y)
    ensures RowMajor(a + b)
  {
    forall i, j | 0 <= i < j < |a + b| ensures Before((a + b)[i], (a + b)[j]) {
      if j < |a| {
        assert (a + b)[i] == a[i] && (a + b)[j] == a[j];
      } else if i >= |a| {
        assert (a + b)[i] == b[i - |a|] && (a + b)[j] == b[j - |a|];
      } else {
        assert (a + b)[i] in a && (a + b)[j] in b;
      }
    }
  }

  lemma {:induction false} RowTilesRowMajor(g: Grid, row: int, lo: int, hi: int)
    ensures RowMajor(RowTiles(g, row, lo, hi))
    decreases hi - lo
  {
    if lo < hi {
      RowTilesRowMajor(g, row, lo, hi - 1);
      var init := RowTiles(g, row, lo, hi - 1);
      forall x | x in init ensures x.row == row && x.col < hi - 1 {
        RowTilesMembers(g, row, lo, hi - 1, x);
      }
      var last := if InGrid(g, row, hi - 1) then [Tile(row, hi - 1, FormatInt(g[row][hi - 1]))] else [];
      RowMajorConcat(init, last);
    }
  }

  lemma {:induction false} RangeTilesRowMajor(g: Grid, b: TileRange, row: int)
    ensures RowMajor(RangeTiles(g, b, row))
    decreases row - b.startRow
  {
    if row > b.startRow {
      RangeTilesRowMajor(g, b, row - 1);
      RowTilesRowMajor(g, row - 1, b.startCol, b.endCol);
      var init, last := RangeTiles(g, b, row - 1), RowTiles(g, row - 1, b.startCol, b.endCol);
      forall x, y | x in init && y in last ensures Before(x, y) {
        RangeTilesMembers(g, b, row - 1, x);
        RowTilesMembers(g, row - 1, b.startCol, b.endCol, y);
      }
      RowMajorConcat(init, last);
    }
  }

  /**
    A repaint draws each existing tile of the visible range exactly once, in
    row-major order, with the text of its code, and nothing outside the grid;
    it throws exactly when the loop meets a negative index.
  */
  lemma RenderDrawsVisibleTiles(g: Grid, clip: Rect)
    ensures Render(g, clip) == DrawFault <==> DrawFaults(g, VisibleRange(clip))
    ensures Render(g, clip).Drawn? ==>
      var ts, b := Render(g, clip).tiles, VisibleRange(clip);
      RowMajor(ts) &&
      forall t :: t in ts <==>
        InView(b, t.row, t.col) && InGrid(g, t.row, t.col) && t.text == FormatInt(g[t.row][t.col])
  {
    var b := VisibleRange(clip);
    if !DrawFaults(g, b) {
      RangeTilesRowMajor(g, b, b.endRow);
      forall t ensures t in RangeTiles(g, b, b.endRow) <==>
        InView(b, t.row, t.col) && InGrid(g, t.row, t.col) && t.text == FormatInt(g[t.row][t.col])
      {
        RangeTilesMembers(g, b, b.endRow, t);
      }
    }
  }

  /** A clip rectangle whose corner lies in the canvas, or less than a tile outside it, draws without fault. */
  lemma RenderInsideCanvas(g: Grid, clip: Rect)
    requires clip.x > -TileWidth && clip.y > -TileHeight
    ensures Render(g, clip).Drawn?
  {
    NegativeTileIndex(clip.x);
    NegativeTileIndex(clip.y);
  }

  /** The text drawn on a tile reads back, through Integer.parseInt, as the tile's code. */
  lemma TileTextReadsBack(g: Grid, clip: Rect, t: Tile)
    requires IntCells(g) && Render(g, clip).Drawn? && t in Render(g, clip).tiles
    ensures InGrid(g, t.row, t.col) && ParseInt(t.text) == Some(g[t.row][t.col])
  {
    RangeTilesMembers(g, VisibleRange(clip), VisibleRange(clip).endRow, t);
    ParseFormat(g[t.row][t.col]);
  }

  // ---------------------------------------------------------------------
  // Preferred size
  // ---------------------------------------------------------------------

  lemma TilesBelow(p: int, n: int, d: int)
    requires p >= 0 && n >= 0 && d > 0
    ensures Div(p, d) < n <==> p < n * d
  {
    var q := Div(p, d);
    assert q * d <= p < q * d + d;
    if q < n {
      MulMonotone(q + 1, n, d);
      assert (q + 1) * d == q * d + d;
    } else {
      MulMonotone(n, q, d);
    }
  }

  /**
    A pixel inside the canvas lies in the preferred area exactly when its
    tile is within the grid's row count and the length of row 0.
  */
  lemma PreferredSizeCoversGrid(g: Grid, px: int, py: int)
    requires |g| > 0 && px >= 0 && py >= 0
    ensures px < PreferredSize(g).width && py < PreferredSize(g).height <==>
      TileRow(py) < |g| && TileCol(px) < |g[0]|
  {
    TilesBelow(px, |g[0]|, TileWidth);
    TilesBelow(py, |g|, TileHeight);
  }

  // ---------------------------------------------------------------------
  // Negative indices
  // ---------------------------------------------------------------------

  /**
    As written: a drag from (5, 5) to 40 pixels left of the canvas gives
    start column -1, and "Paint Selection" throws instead of painting column 0.
  */
  lemma NegativeDragThrows()
    ensures var sel := DragRect(Point(5, 5), Point(-40, 5));
      sel == Rect(-40, 5, 45, 0) && FillRange(sel).startCol == -1 &&
      PaintEffect([[1, 1], [1, 1]], Some(sel), "9") == ([[1, 1], [1, 1]], IndexOutOfBounds)
  {
    assert Div(-40, TileWidth) == -1;
    assert ParseInt("9") == Some(9);
  }

  /**
    With the lower bounds guarded too, every selection and parsable value
    paints exactly the existing cells of the fill range; the result agrees
    with the source wherever the source does not throw, and on the drag above
    it paints column 0 of row 0.
  */
  lemma GuardedPaintSkipsMissingCells(g: Grid, sel: Option<Rect>, paintText: string)
    ensures sel.Some? && ParseInt(paintText).Some? ==>
      var g', b, v := GuardedPaintEffect(g, sel, paintText).0, FillRange(sel.value), ParseInt(paintText).value;
      GuardedPaintEffect(g, sel, paintText).1 == Painted && SameShape(g', g) &&
      (forall i, j :: InGrid(g, i, j) && InFill(b, i, j) ==> g'[i][j] == v) &&
      (forall i, j :: InGrid(g, i, j) && !InFill(b, i, j) ==> g'[i][j] == g[i][j])
    ensures PaintEffect(g, sel, paintText).1 != IndexOutOfBounds ==>
      GuardedPaintEffect(g, sel, paintText) == PaintEffect(g, sel, paintText)
    ensures GuardedPaintEffect([[1, 1], [1, 1]], Some(DragRect(Point(5, 5), Point(-40, 5))), "9") ==
      ([[9, 1], [1, 1]], Painted)
  {
    if sel.Some? && ParseInt(paintText).Some? {
      FillCells(g, FillRange(sel.value), ParseInt(paintText).value);
    }
    NegativeDragThrows();
    var b := FillRange(DragRect(Point(5, 5), Point(-40, 5)));
    var g0: Grid := [[1, 1], [1, 1]];
    FillCells(g0, b, 9);
    GridExtensionality(Fill(g0, b, 9), [[9, 1], [1, 1]]);
  }
}
