# Tile-map editor canvas, modelled in Dafny

This project models the editing core of a Swing level editor for 2D tile
games: the `GridPanel` canvas inside `TileMapEditor`. The canvas shares one
`Level` with the editor frame. The level's `tilemap` is a list of rows of
integer tile codes, and the rows may differ in length. The canvas keeps a
rectangle selection and updates it from mouse events:

- a press stores the anchor point and an empty rectangle;
- a drag replaces the rectangle with the box spanned by the anchor and the pointer;
- a release keeps the rectangle.

The "Paint Selection" button parses the paint-value text with
`Integer.parseInt`. It then writes that value, in place, into every
existing cell of the tile range the selection covers. Tiles are 30×30
pixels, and both the right and bottom edges are included. A repaint
draws only the tiles of the clip rectangle that exist. The preferred size
is the length of row 0 times the tile width, by the row count times the
tile height.

Files and modules:

- `java_lang.dfy`, module `JavaLang`: Java `int` range, Java's `/` (it
  rounds toward zero), `Integer.parseInt`, and the decimal text
  `String.valueOf(Object)` gives for a non-null `Integer` tile code.
- `grid_panel.dfy`, module `TileMapEditor`: the `Level` and `GridPanel`
  classes with their mouse handlers, `PaintSelection` and `PaintComponent`
  as loops over the shared tilemap, and the functions that specify them
  (`DragRect`, `FillRange`, `Fill`, `PaintEffect`, `VisibleRange`, `Render`,
  `PreferredSize`).
- `grid_lemmas.dfy`, module `GridLemmas`: properties of those functions.
- `scenarios.dfy`, module `EditorScenarios`: event sequences on a fresh
  canvas and what the tilemap holds afterwards.

Coordinates are unbounded integers. Java's truncating division is written
out (`JavaLang.Div`) because a drag can leave the canvas and give negative
pixel coordinates. The bounds test in the fill loop guards only the upper
ends, so a negative index reaches `ArrayList.get` or `set` and throws. The
model has an explicit `IndexOutOfBounds` outcome for that exception. The
exception always comes at the first cell the loop visits, so no cell is
written before it.

Some facts about the code that the model keeps:

- A successful fill keeps the selection. The paint handler
  (src/TileMapEditor.java:105-126) never clears it.
- A press resets the selection to the rectangle (0, 0, 0, 0), built by
  `new Rectangle()` at src/TileMapEditor.java:80. It is not an empty
  rectangle at the press point. So a click with no drag, followed by a
  paint, paints tile (0, 0) wherever the click was
  (`EditorScenarios.ClickWithoutDrag`).
- The canvas offers only rectangle selection. There is no other tool.
- A press at (5, 5), a drag to (35, 35) and a paint of 9 on
  `[[1,1],[1,1]]` paint all four cells, because (5 + 30) / 30 = 1 puts the
  right and bottom edges in tile 1 (`EditorScenarios.PressDragPaint`).

## Model

| member | source | states |
|---|---|---|
| `JavaLang.Div` | src/TileMapEditor.java:110-113 | the quotient of Java's `/` rounds toward zero: q·d ≤ n < q·d + d for n ≥ 0, q·d − d < n ≤ q·d for n < 0 |
| `JavaLang.DivMonotone` | src/TileMapEditor.java:110-113 | pixel-to-tile division is monotone: a larger coordinate never lands in an earlier tile |
| `JavaLang.ParseInt` | src/TileMapEditor.java:109 | a parsed value fits in an `int`; it is parsed only from a non-empty string of an optional sign followed by digits; anything else is a NumberFormatException |
| `JavaLang.ParseSigned` | src/TileMapEditor.java:109 | a sign "", "+" or "-" followed by at least one digit parses to its value (negated for "-") when that value fits in an `int`, and is a NumberFormatException when it does not (for example "2147483648"); with the ensures of `ParseInt`, which rule out every other text, this makes "parses" equivalent to "well-formed and in range" |
| `JavaLang.LeadingZero` | src/TileMapEditor.java:109 | a leading '0' does not change the value of a digit string |
| `JavaLang.ParseExamples` | src/TileMapEditor.java:109 | "+5", "007" and "-0" are legal paint values: they parse to 5, 7 and 0 |
| `JavaLang.ParseFormat` | src/TileMapEditor.java:157 | `FormatInt` (the text `String.valueOf(Object)` gives for a non-null `Integer`): that text parses back to the same int, for every int |
| `TileMapEditor.DragRect` | src/TileMapEditor.java:86-90 | the drag selection has non-negative width and height, contains both the anchor and the pointer, and its corners lie at their coordinates (the bounding box) |
| `TileMapEditor.Level.constructor` | src/Level.java:3-10 | a level holds the given tilemap |
| `TileMapEditor.GridPanel.constructor` | src/TileMapEditor.java:69-74 | a new canvas shares the given level (no copy) and has no anchor and no selection |
| `TileMapEditor.GridPanel.MousePressed` | src/TileMapEditor.java:78-82 | the anchor becomes the press point, the selection becomes (0, 0, 0, 0), the tilemap is unchanged, and the invariant (anchor and selection set together, selection size ≥ 0) holds |
| `TileMapEditor.GridPanel.MouseDragged` | src/TileMapEditor.java:85-92 | after a press, the selection becomes the box of the anchor and the pointer; it depends on nothing else, so earlier drags do not matter; anchor and tilemap are unchanged |
| `TileMapEditor.GridPanel.MouseReleased` | src/TileMapEditor.java:95-98 | a release changes nothing |
| `TileMapEditor.GridPanel.PaintSelection` | src/TileMapEditor.java:105-126 | the nested loop leaves the tilemap and outcome that `PaintEffect` gives: no selection means a no-op; unparsable text means the error and no change; a negative index reached means IndexOutOfBounds and no change; otherwise `Fill` of the inclusive range; the selection is kept |
| `TileMapEditor.GridPanel.PaintComponent` | src/TileMapEditor.java:136-175 | the drawing loop draws what `Render` gives: the existing tiles of the visible range row by row, with the text of their codes, or a fault when it reaches a negative index |
| `GridLemmas.NegativeTileIndex` | src/TileMapEditor.java:110-113 | a tile index is negative exactly when the pixel is a full tile or more left of (above) the canvas; every pixel from −29 to 29 falls in tile 0, on both axes |
| `GridLemmas.FillRangeIsTouchedTiles` | src/TileMapEditor.java:110-113 | `FillRange` (the start and end tiles of the paint loop) and `VisibleRange` (those of the drawing loop): for a selection of non-negative size, the inclusive fill range is exactly the set of tiles that have a pixel of the closed rectangle; the visible range of paintComponent is the same set |
| `GridLemmas.DragCoversBothEnds` | src/TileMapEditor.java:110-113 | the tile under the press point and the tile under the pointer are both in the fill range of the drag selection |
| `GridLemmas.FillCells` | src/TileMapEditor.java:115-121 | `Fill` of the `FillRange` tiles: the fill keeps the row count and every row length, sets every existing cell of the range to the value, and keeps every other cell |
| `GridLemmas.FillIdempotent` | src/TileMapEditor.java:115-121 | filling the same range with the same value twice gives the same grid as filling once |
| `GridLemmas.PaintOutcomes` | src/TileMapEditor.java:105-126 | each outcome happens exactly when: NoSelection iff no press yet; InvalidPaintValue iff the text does not parse; IndexOutOfBounds iff the text parses and the range reaches a negative index |
| `GridLemmas.PaintFrame` | src/TileMapEditor.java:105-126 | the shape never changes; the tilemap changes only when the outcome is Painted; then the existing cells of the range hold the parsed value and all others are unchanged |
| `GridLemmas.PaintIdempotent` | src/TileMapEditor.java:105-126 | pressing "Paint Selection" twice with the same selection and text gives the same tilemap and outcome as once |
| `GridLemmas.PaintKeepsIntCells` | src/TileMapEditor.java:109-118 | if every tile code fits in an int before painting, it still does after |
| `GridLemmas.PaintFaultsOnlyFarOutside` | src/TileMapEditor.java:110-118 | with a parsable value, a selection whose corner is less than a tile outside the canvas always paints; one a tile or more above it always throws |
| `GridLemmas.RenderDrawsVisibleTiles` | src/TileMapEditor.java:144-157 | `Render` over the `VisibleRange` of the clip: a repaint faults exactly when the drawing loop meets a negative index; otherwise it draws each tile once, in row-major order, and a tile is drawn iff it is in the visible range, exists in the grid, and carries the text of its code |
| `GridLemmas.RenderInsideCanvas` | src/TileMapEditor.java:144-153 | a clip rectangle whose corner is less than a tile outside the canvas never faults |
| `GridLemmas.TileTextReadsBack` | src/TileMapEditor.java:157 | `FormatInt` as the tile text: the text drawn on a tile parses back, through `Integer.parseInt`, to the tile's code, and the tile exists in the grid |
| `GridLemmas.PreferredSizeCoversGrid` | src/TileMapEditor.java:129-133 | `PreferredSize` (the size `getPreferredSize` returns): a pixel with non-negative coordinates lies inside the preferred size iff its tile row is below the row count and its tile column below the length of row 0 |
| `GridLemmas.NegativeDragThrows` | src/TileMapEditor.java:110-118 | as written: dragging from (5, 5) to (−40, 5) makes start column −1, and painting "9" on `[[1,1],[1,1]]` throws and changes nothing |
| `GridLemmas.GuardedPaintSkipsMissingCells` | src/TileMapEditor.java:115-119 | with lower-bound guards added, every selection and parsable value paints exactly the existing cells of the range; the result agrees with the source wherever the source does not throw; the drag to (−40, 5) gives `[[9,1],[1,1]]` |
| `EditorScenarios.PressDragPaint` | src/TileMapEditor.java:78-121 | press (5, 5), drag through (100, 0) to (35, 35), release, paint "9" on `[[1,1],[1,1]]` gives `[[9,9],[9,9]]`; the selection (5, 5, 30, 30) is kept, so painting "4" afterwards gives `[[4,4],[4,4]]` |
| `EditorScenarios.PaintBeforePress` | src/TileMapEditor.java:105-106 | before any press, painting is a no-op on any tilemap |
| `EditorScenarios.PaintInvalidValue` | src/TileMapEditor.java:108-125 | after a press at (0, 0) and a drag to any point, the texts "abc" and "" are rejected and the tilemap is unchanged |
| `EditorScenarios.ClickWithoutDrag` | src/TileMapEditor.java:78-121 | through the canvas object: press (200, 200), release with no drag, paint "9" on `[[1,1],[1,1]]` gives `[[9,1],[1,1]]`, and the selection stays (0, 0, 0, 0) |
| `EditorScenarios.DragLeftOfCanvas` | src/TileMapEditor.java:86-118 | through the canvas object: a drag to (−40, 5) and a paint end in IndexOutOfBounds with the tilemap unchanged |

## Left out

- Window, menu, button and scroll-pane construction, dialogs and `repaint()` calls (src/TileMapEditor.java:14-54): UI plumbing with no logic. The text of the paint-value field is a parameter of `PaintSelection`. The field's initial text "1" is not modelled.
- Pixels, colours, borders, font metrics and the selection overlay in `paintComponent` (src/TileMapEditor.java:155-156, 159-183): rendering through the toolkit. Only the tiles drawn and their text are modelled.
- `saveMap`, loading and saving through JSON (src/AssetHandler.java) and start-up (src/Main.java): file I/O through a foreign library.
- Null tile codes: the JSON loader can put a null into a row, for example `[1, null]`. `String.valueOf(Object)` draws such a cell as the text "null" (src/TileMapEditor.java:157), and painting overwrites it. The model's cells are ints, so it has no null cell.
- The `Level` fields other than `tilemap`: their types are not part of this model, and editing does not touch them.
- A row list that appears twice in the tilemap, a null row, or a null `tilemap` (a JSON file without a "tilemap" key, on which `getPreferredSize` and `paintComponent` throw NullPointerException, and so does `paintSelection` once a selection exists and the text parses): the model's tilemap is always a list of rows, and its rows are values, so writing to one row cannot change another. The JSON loader never builds shared rows.
- `TileMapEditor.GridPanel.MouseDragged`: a drag before any press throws NullPointerException in the source; the model requires a prior press.
- `TileMapEditor.PreferredSize`: `getPreferredSize` on an empty tilemap throws; the model requires at least one row.
- `JavaLang.ParseInt`: accepts only the ASCII digits '0'–'9'. Java's `Integer.parseInt` also accepts other Unicode decimal digits, for example U+0660–U+0669.
- `TileMapEditor.DragRect`: pixel coordinates are unbounded integers. The `int` overflow of `Math.abs(Integer.MIN_VALUE)` and of subtraction near the `int` limits is not modelled; mouse coordinates are far from those limits.
- `GridLemmas.PreferredSizeCoversGrid`: the `int` overflow of `size() * 30`, which needs over 71 million rows or columns, is not modelled.
- Exceptions thrown out of `paintComponent` are modelled only as "nothing of the grid is drawn". What Swing does with them afterwards is not modelled.
- Threading: all of the code runs on the Swing event thread, one event at a time, and the model is sequential.

## Findings

| source | as written | input that shows it | evidently intended | confidence | as-written member | corrected member |
|---|---|---|---|---|---|---|
| src/TileMapEditor.java:117-118 | the guard `row < size && col < size()` has no lower bound. Java's truncating `/` gives a negative start index to a selection that starts a full tile or more left of or above the canvas (−1 from −30 to −59, −2 from −60 to −89, and so on). When the start row is negative, or the start column is negative and the top row is in the grid, `ArrayList.get` or `set` with that index throws IndexOutOfBoundsException out of the button handler, and nothing is painted. A selection left of the canvas whose top row is below the grid skips every row and does not throw | press (5, 5), drag to (−40, 5), "Paint Selection" with "9" on `[[1,1],[1,1]]` | skip cells outside the grid on every side, as the guard does for the upper ends, giving `[[9,1],[1,1]]` | not executed; medium-high | `GridLemmas.NegativeDragThrows` | `GridLemmas.GuardedPaintSkipsMissingCells` |

`TileMapEditor.GridPanel.PaintSelection` models the code as written, so it keeps the exception. `TileMapEditor.GuardedPaintEffect` is the corrected fill. `GuardedPaintSkipsMissingCells` proves that it paints exactly the existing cells of the range and agrees with the as-written fill whenever that fill does not throw.
