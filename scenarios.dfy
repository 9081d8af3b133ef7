/**
  Sequences of mouse events and button presses on a canvas, as a user
  performs them, with what the tilemap holds afterwards.
*/
module EditorScenarios {
  import opened JavaLang
  import opened TileMapEditor

  /**
    Press at (5, 5), drag through (100, 0) to (35, 35), release and paint "9" on a 2x2 grid of
    ones: the right and bottom edges at pixel 35 lie in tile 1, so all four
    cells are painted, and the selection stays for a second paint.
  */
  method PressDragPaint() returns (first: Grid, second: Grid, sel: Option<Rect>)
    ensures first == [[9, 9], [9, 9]] && second == [[4, 4], [4, 4]]
    ensures sel == Some(Rect(5, 5, 30, 30))
  {
    var level := new Level([[1, 1], [1, 1]]);
    var panel := new GridPanel(level);
    panel.MousePressed(Point(5, 5));
    panel.MouseDragged(Point(100, 0));
    panel.MouseDragged(Point(35, 35));
    panel.MouseReleased(Point(35, 35));
    var g0: Grid := [[1, 1], [1, 1]];
    var b := TileRange(0, 1, 0, 1);
    assert FillRange(Rect(5, 5, 30, 30)) == b by {
      assert Div(5, TileWidth) == 0 && Div(35, TileWidth) == 1;
    }
    assert ParseInt("9") == Some(9);
    var outcome := panel.PaintSelection("9");
    first := level.tilemap;
    FilledExample(g0, b, 9);
    assert ParseInt("4") == Some(4);
    outcome := panel.PaintSelection("4");
    second := level.tilemap;
    FilledExample(first, b, 4);
    sel := panel.selectionRect;
  }

  /** Every cell of a 2x2 grid lies in the range (0..1, 0..1). */
  lemma FilledExample(g: Grid, b: TileRange, v: int)
    requires |g| == 2 && |g[0]| == 2 && |g[1]| == 2 && b == TileRange(0, 1, 0, 1)
    ensures Fill(g, b, v) == [[v, v], [v, v]]
  {
    GridExtensionality(Fill(g, b, v), [[v, v], [v, v]]);
  }

  /** Before any press there is no selection and painting does nothing. */
  method PaintBeforePress(g: Grid) returns (outcome: PaintOutcome, after: Grid)
    ensures outcome == NoSelection && after == g
  {
    var level := new Level(g);
    var panel := new GridPanel(level);
    outcome := panel.PaintSelection("9");
    after := level.tilemap;
  }

  /** A paint value that is not an int shows the error and leaves the tilemap alone. */
  method PaintInvalidValue(g: Grid, p: Point) returns (outcomes: seq<PaintOutcome>, after: Grid)
    ensures outcomes == [InvalidPaintValue, InvalidPaintValue] && after == g
  {
    var level := new Level(g);
    var panel := new GridPanel(level);
    panel.MousePressed(Point(0, 0));
    panel.MouseDragged(p);
    assert ParseInt("abc") == None && ParseInt("") == None;
    var o1 := panel.PaintSelection("abc");
    var o2 := panel.PaintSelection("");
    outcomes := [o1, o2];
    after := level.tilemap;
  }

  /** A drag that ends 40 pixels left of the canvas makes "Paint Selection" throw and change nothing. */
  method DragLeftOfCanvas() returns (outcome: PaintOutcome, after: Grid)
    ensures outcome == IndexOutOfBounds && after == [[1, 1], [1, 1]]
  {
    var level := new Level([[1, 1], [1, 1]]);
    var panel := new GridPanel(level);
    panel.MousePressed(Point(5, 5));
    panel.MouseDragged(Point(-40, 5));
    assert Div(-40, TileWidth) == -1;
    assert ParseInt("9") == Some(9);
    outcome := panel.PaintSelection("9");
    after := level.tilemap;
  }

  /**
    A click with no drag leaves the selection (0, 0, 0, 0) that the press
    set, so painting fills tile (0, 0), wherever the click was.
  */
  method ClickWithoutDrag() returns (outcome: PaintOutcome, after: Grid, sel: Option<Rect>)
    ensures outcome == Painted && after == [[9, 1], [1, 1]]
    ensures sel == Some(Rect(0, 0, 0, 0))
  {
    var level := new Level([[1, 1], [1, 1]]);
    var panel := new GridPanel(level);
    panel.MousePressed(Point(200, 200));
    panel.MouseReleased(Point(200, 200));
    var g0: Grid := [[1, 1], [1, 1]];
    var b := TileRange(0, 0, 0, 0);
    assert FillRange(Rect(0, 0, 0, 0)) == b by {
      assert Div(0, TileWidth) == 0;
    }
    assert ParseInt("9") == Some(9);
    outcome := panel.PaintSelection("9");
    after := level.tilemap;
    GridExtensionality(Fill(g0, b, 9), [[9, 1], [1, 1]]);
    sel := panel.selectionRect;
  }
}
