# ConsoleEngine display grid, in Dafny

This project models the character-cell display of ConsoleEngine (`engine.py`).
The display is a fixed grid of cells. Each cell has fixed coordinates, a symbol
and an active flag. Single cells are activated and deactivated with bounds
checks. An *engine object* is a form: a list of `(dx, dy, symbol-or-None)`
entries. Drawing an object activates the on-grid targets of its form and
records those cells. Deleting it deactivates the recorded cells. Moving it is a
delete followed by a draw. Rendering builds the frame text: the cursor-home
sequence (CUP, ECMA-48 section 8.3.21), then every row's symbols followed by a
line break.

Files:

- `grid.dfy`, module `Grid`: the value a grid holds (`Screen`, rows of
  `CellState`), and the effect of each operation on such a value. `Activated`
  and `Deactivated` act on one cell. `Placement` gives the cells an object
  records, `Paint` gives the grid after a draw, and `Erase` gives the grid after
  a delete. The lemmas about them are here too.
- `frame.dfy`, module `Frame`: the frame text (`RowText`, `Text`) and its layout.
- `engine.dfy`, module `Engine`: the source's classes `Cell`, `EngineObject`
  and `Display`. Their methods update fields in place. `Display.View()` is the
  grid's current `Screen`. Every `Display` method is proved against the `Grid`
  and `Frame` functions.

Modelling choices:

- A cell's `x` and `y` are `const`, so no operation can change them. The grid
  is `const grid: seq<seq<Cell>>`, because the source builds its list of lists
  once and never reassigns it. Because cell coordinates are constant, two grid
  positions can never share one cell object.
- `object_coordinates` is `Option<seq<Cell>>`: `None` when the object is not
  drawn, otherwise the recorded cell references. As in the source, deleting
  deactivates by each recorded cell's `x` and `y`.
- Sizes are integers. A negative size gives an empty dimension (Python's
  `range` of a negative number is empty), and then no point is in bounds.
- The code does not keep `is_active == (symbol != " ")`.
  `activate(" ")` gives an active cell showing a blank. The model does the
  same.
- The frame text ends every row with a line break, including the last row.
- Drawing an already drawn object replaces its recorded cells and leaves the
  old cells active. Deleting one of two overlapping objects clears the cells
  they share. When two form entries hit the same cell, the later entry's
  symbol wins and the cell is recorded twice. The model keeps all of these
  behaviours (`Paint`, `Erase`, `PaintLastWins`, `EraseCell`).

## Model

| member | source | states |
|---|---|---|
| `Engine.Cell.constructor` | engine.py:9-20 | a new cell has the given coordinates and symbol and is inactive |
| `Engine.Cell.Activate` | engine.py:22-32 | the cell becomes active, showing the given symbol, or `"#"` when none is given |
| `Engine.Cell.Deactivate` | engine.py:34-39 | the cell becomes inactive, showing `" "` |
| `Engine.EngineObject.constructor` | engine.py:43-51 | a new object has the given form and is not drawn (coordinates `None`) |
| `Engine.EngineObject.InitCoordinates` | engine.py:53-59 | the object's coordinates become exactly the given cells |
| `Engine.EngineObject.DelCoordinates` | engine.py:61-65 | the object's coordinates become `None` |
| `Engine.Display.constructor` | engine.py:69-78 | the display is valid, has the given sizes (defaults 120 by 30), every cell is blank, and every cell is a newly created object |
| `Engine.Display.InitGrid` | engine.py:80-86 | builds `Dim(size_y)` rows of `Dim(size_x)` blank cells (no cells for a negative size, as `range` gives); the cell at `[row][col]` has `x == col` and `y == row`, and every cell is a newly created object |
| `Engine.Display.CheckCoordinates` | engine.py:88-96 | holds exactly when `[y][x]` indexes the grid, and the cell found there then sits at `(x, y)` |
| `Engine.Display.ActivateCell` | engine.py:98-110 | the grid becomes `Activated(old grid, x, y, symbol)`: off-grid nothing changes, otherwise only that cell changes |
| `Engine.Display.DeactivateCell` | engine.py:112-120 | the grid becomes `Deactivated(old grid, x, y)`: off-grid nothing changes, otherwise only that cell becomes blank |
| `Engine.Display.CheckCellCondition` | engine.py:122-132 | false off the grid, otherwise exactly that cell's active flag; reads only, changes nothing |
| `Engine.Display.DrawObject` | engine.py:134-150 | the grid becomes `Paint(old grid, form, x, y)`; the recorded cells are grid cells whose positions are exactly `Placement(old grid, form, x, y)`, in form order |
| `Engine.Display.DelObject` | engine.py:152-160 | requires a drawn object; the grid becomes `Erase(old grid, positions of the recorded cells)`, and the coordinates become `None` |
| `Engine.Display.MoveObject` | engine.py:162-171 | same grid and same recorded cells as a delete followed by a draw at the new origin |
| `Engine.Display.Render` | engine.py:178-181 | returns the cursor-home sequence followed by `Text(grid)` |
| `Engine.Display.GridCellAt` | engine.py:146-159 | a cell of the grid passes the bounds check at its own `(x, y)`, and indexing the grid there gives back that same cell, so deleting by the recorded cells' coordinates clears exactly the recorded cells |
| `Engine.Coords` | engine.py:158-159 | (definition, no contract) the positions `(cell.x, cell.y)` of a list of cells, in list order; `DelObject` deactivates exactly these |
| `Grid.OrDefault` | engine.py:28-29 | (definition, no contract) the symbol an activation shows: the given one, or `"#"` when none is given |
| `Grid.Dim` | engine.py:86 | (definition, no contract) the length of `range(n)`: `n` when `n` is not negative, otherwise 0 |
| `Grid.Within` | engine.py:96 | (definition, no contract) the bounds check: row `y` exists and column `x` lies in it; on the rectangular grid the display builds this is `0 <= x < size_x and 0 <= y < size_y` (see `Engine.Display.CheckCoordinates`) |
| `Grid.ActiveAt` | engine.py:130-132 | (definition, no contract) the activity query on a grid value: false off the grid, otherwise the cell's active flag |
| `Grid.BlankScreen` | engine.py:86 | (definition, no contract) `height` rows of `width` cells, every one blank; the display constructor's grid equals it |
| `Grid.Target` | engine.py:144-145 | (definition, no contract) the cell a form entry designates: the drawing origin plus the entry's offset |
| `Grid.Activated` | engine.py:22-32 | off the grid the value is unchanged; otherwise that cell is active with the given or default symbol, and every other cell is unchanged |
| `Grid.Deactivated` | engine.py:34-39 | off the grid the value is unchanged; otherwise that cell is blank, and every other cell is unchanged |
| `Grid.ActivateThenCheck` | engine.py:98-132 | after activating `(x, y)` the activity query holds there exactly when `(x, y)` is on the grid |
| `Grid.DeactivateThenCheck` | engine.py:112-132 | after deactivating `(x, y)` the activity query is false there |
| `Grid.DeactivateIdempotent` | engine.py:112-120 | deactivating a cell twice gives the same grid as deactivating it once |
| `Grid.ActivateThenDeactivate` | engine.py:98-120 | deactivating after activating the same cell gives the same grid as deactivating alone |
| `Grid.Placement` | engine.py:142-148 | the recorded positions are all on the grid and there are at most as many as form entries |
| `Grid.PlacementMembers` | engine.py:142-148 | a position is recorded iff it is on the grid and some form entry targets it |
| `Grid.PlacementAppend` | engine.py:142-148 | the placement of a concatenated form is the concatenation of the placements, so form order is kept |
| `Grid.PlacementAllWithin` | engine.py:142-148 | when every entry lands on the grid, the placement is every entry's target, in form order |
| `Grid.PlacementShape` | engine.py:146 | the placement depends only on the grid's dimensions, not on what the cells show |
| `Grid.Paint` | engine.py:143-147 | drawing keeps the grid's dimensions |
| `Grid.PaintUntouched` | engine.py:143-147 | a cell that is not recorded keeps its state after drawing |
| `Grid.PaintActive` | engine.py:143-147 | every recorded cell is active after drawing |
| `Grid.PaintLastWins` | engine.py:143-147 | a cell hit by several entries shows the symbol of the last such entry (or `"#"`) |
| `Grid.Erase` | engine.py:158-159 | deleting keeps the grid's dimensions |
| `Grid.EraseCell` | engine.py:158-159 | after deleting, an on-grid cell is blank if it was recorded and otherwise unchanged |
| `Grid.EraseIdempotent` | engine.py:158-159 | erasing the same cells twice is erasing them once |
| `Grid.DrawThenDelete` | engine.py:134-160 | drawing then deleting an object gives the same grid as only blanking the cells it was placed on |
| `Grid.DrawThenDeleteRestores` | engine.py:134-160 | when those cells were blank before, drawing then deleting restores the grid exactly |
| `Grid.MoveCell` | engine.py:162-171 | after a move, the new placement is active, old cells outside it are blank, and every other cell is unchanged |
| `Frame.CursorHome` | engine.py:178 | (definition, no contract) the escape sequence `ESC [ H` that starts every frame |
| `Frame.RowText` | engine.py:181 | a row's text is at least one character per cell when no cell has an empty symbol |
| `Frame.Text` | engine.py:179-181 | the frame text has at least one character (its line break) per row, and a non-empty grid's text ends with a line break |
| `Frame.RowTextLayout` | engine.py:181 | with one character per cell, a row's text has one character per column, and that character is the cell's symbol |
| `Frame.TextLayout` | engine.py:179-181 | with one character per cell, line `y` of the frame text holds row `y`'s symbols in column order and ends with a line break; the text is `rows * (width + 1)` long |

## Left out

- The `Engine` class is not modelled: its constructor, the abstract `update`
  hook, `run`, `_run_with_fps_limit` and `_run_without_fps_limit`
  (engine.py:185-239). `update` belongs to subclasses that are not part of
  this model. The run loops never terminate and depend on `time.time()`,
  `time.sleep()` and floating-point frame intervals.
- The two `print` calls in `render` are terminal output and are left out,
  including the newline that `print` adds after the frame. `Render` returns
  the text those calls would write.
- The Python type annotations are not checked at run time, so a call with
  non-integer coordinates or a non-string symbol is possible there. The model
  types every argument.
- `object_form` is a Python list that the source never mutates; the model
  keeps it as a constant.
- `Engine.Display.DelObject`: an object that is not drawn makes the source
  crash when it iterates `None` (engine.py:158). The model excludes that call
  with a precondition instead of modelling the crash.
- `Engine.Display.MoveObject`: it deletes before drawing (engine.py:170), so
  moving an object that is not drawn crashes in the source the same way. The
  model's move carries the same precondition as its delete.
