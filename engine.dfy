/** The character-cell display: cells that are switched on and off in place,
    objects drawn as groups of cells, and the frame text of the whole grid. */
module Engine {
  import opened Grid
  import Frame

  /** One position of the grid. Its coordinates are fixed at creation; its
      symbol and active flag are overwritten by activation and deactivation. */
  class Cell {
    const x: int
    const y: int
    var symbol: Symbol
    var isActive: bool

    constructor (x: int, y: int, symbol: Symbol := EmptyCellSymbol)
      ensures this.x == x && this.y == y
      ensures this.symbol == symbol && !isActive
    {
      this.x := x;
      this.y := y;
      this.symbol := symbol;
      isActive := false;
    }

    /** What the cell shows. */
    function State(): CellState
      reads this
    {
      CellState(symbol, isActive)
    }

    method Activate(symbol: Option<Symbol> := None)
      modifies this
      ensures State() == CellState(OrDefault(symbol), true)
    {
      this.symbol := OrDefault(symbol);
      isActive := true;
    }

    method Deactivate()
      modifies this
      ensures State() == Blank
    {
      symbol := EmptyCellSymbol;
      isActive := false;
    }
  }

  /** A shape (its form) and, while it is drawn, the cells it occupies. */
  class EngineObject {
    const form: seq<Part>
    var coordinates: Option<seq<Cell>>

    constructor (form: seq<Part>)
      ensures this.form == form && coordinates == None
    {
      this.form := form;
      coordinates := None;
    }

    method InitCoordinates(cells: seq<Cell>)
      modifies this
      ensures coordinates == Some(cells)
    {
      coordinates := Some(cells);
    }

    method DelCoordinates()
      modifies this
      ensures coordinates == None
    {
      coordinates := None;
    }
  }

  /** The positions of a list of cells, in list order. */
  function Coords(cells: seq<Cell>): seq<(int, int)> {
    seq(|cells|, k requires 0 <= k < |cells| => (cells[k].x, cells[k].y))
  }

  /** The grid of cells, sizeY rows of sizeX cells, indexed [row][col]. */
  class Display {
    const sizeX: int
    const sizeY: int
    const grid: seq<seq<Cell>>

    /** The grid has the declared size and the cell at [row][col] sits at
        x == col, y == row. Every field involved is constant, so a display
        that is valid once stays valid. */
    ghost predicate Valid() {
      && |grid| == Dim(sizeY)
      && (forall row :: 0 <= row < |grid| ==> |grid[row]| == Dim(sizeX))
      && (forall row, col :: 0 <= row < |grid| && 0 <= col < |grid[row]| ==>
            grid[row][col].x == col && grid[row][col].y == row)
    }

    /** The cell objects of the grid. */
    ghost function Cells(): set<Cell> {
      set row, col | 0 <= row < |grid| && 0 <= col < |grid[row]| :: grid[row][col]
    }

    /** What the grid shows, cell by cell. */
    ghost function View(): Screen
      reads Cells()
    {
      seq(|grid|, row requires 0 <= row < |grid| reads Cells() =>
        seq(|grid[row]|, col requires 0 <= col < |grid[row]| reads Cells() =>
          grid[row][col].State()))
    }

    constructor (sizeX: int := 120, sizeY: int := 30)
      ensures this.sizeX == sizeX && this.sizeY == sizeY
      ensures Valid()
      ensures View() == BlankScreen(Dim(sizeX), Dim(sizeY))
      ensures fresh(Cells())
    {
      this.sizeX := sizeX;
      this.sizeY := sizeY;
      var g := InitGrid(sizeX, sizeY);
      grid := g;
      new;
      CellwiseEqual(View(), BlankScreen(Dim(sizeX), Dim(sizeY)));
    }

    /** Builds sizeY rows of sizeX new, empty cells; the cell at [row][col]
        has x == col and y == row. */
    static method InitGrid(sizeX: int, sizeY: int) returns (g: seq<seq<Cell>>)
      ensures |g| == Dim(sizeY)
      ensures forall row :: 0 <= row < |g| ==> |g[row]| == Dim(sizeX)
      ensures forall row, col :: 0 <= row < |g| && 0 <= col < |g[row]| ==>
                g[row][col].x == col && g[row][col].y == row && g[row][col].State() == Blank
      ensures forall row, col :: 0 <= row < |g| && 0 <= col < |g[row]| ==> fresh(g[row][col])
    {
      g := [];
      var row := 0;
      while row < sizeY
        invariant |g| == Dim(row) && row <= Dim(sizeY)
        invariant forall r :: 0 <= r < |g| ==> |g[r]| == Dim(sizeX)
        invariant forall r, c :: 0 <= r < |g| && 0 <= c < |g[r]| ==>
                    g[r][c].x == c && g[r][c].y == r && g[r][c].State() == Blank
        invariant forall r, c :: 0 <= r < |g| && 0 <= c < |g[r]| ==> fresh(g[r][c])
      {
        var cells: seq<Cell> := [];
        var col := 0;
        while col < sizeX
          invariant |cells| == col && col <= Dim(sizeX)
          invariant forall c :: 0 <= c < |cells| ==>
                      cells[c].x == c && cells[c].y == row && cells[c].State() == Blank
          invariant forall r, c :: 0 <= r < |g| && 0 <= c < |g[r]| ==>
                      g[r][c].x == c && g[r][c].y == r && g[r][c].State() == Blank
          invariant forall c :: 0 <= c < |cells| ==> fresh(cells[c])
          invariant forall r, c :: 0 <= r < |g| && 0 <= c < |g[r]| ==> fresh(g[r][c])
        {
          var cell := new Cell(col, row);
          cells := cells + [cell];
          col := col + 1;
        }
        g := g + [cells];
        row := row + 1;
      }
    }

    /** The bounds check: true exactly when [y][x] indexes the grid, and then
        the cell found there sits at (x, y). */
    predicate CheckCoordinates(x: int, y: int)
      ensures Valid() ==> (CheckCoordinates(x, y) <==> 0 <= y < |grid| && 0 <= x < |grid[y]|)
      ensures Valid() && CheckCoordinates(x, y) ==> grid[y][x].x == x && grid[y][x].y == y
    {
      0 <= x < sizeX && 0 <= y < sizeY
    }

    method ActivateCell(x: int, y: int, symbol: Option<Symbol> := None)
      requires Valid()
      modifies Cells()
      ensures View() == Activated(old(View()), x, y, symbol)
    {
      var s := if symbol.None? then Some(CellDefaultSymbol) else symbol;
      if CheckCoordinates(x, y) {
        grid[y][x].Activate(s);
      }
      CellwiseEqual(View(), Activated(old(View()), x, y, symbol));
    }

    method DeactivateCell(x: int, y: int)
      requires Valid()
      modifies Cells()
      ensures View() == Deactivated(old(View()), x, y)
    {
      if CheckCoordinates(x, y) {
        grid[y][x].Deactivate();
      }
      CellwiseEqual(View(), Deactivated(old(View()), x, y));
    }

    /** Whether the cell at (x, y) is active; false off the grid. */
    function CheckCellCondition(x: int, y: int): (active: bool)
      requires Valid()
      reads Cells()
      ensures active == ActiveAt(View(), x, y)
    {
      if CheckCoordinates(x, y) then grid[y][x].isActive else false
    }

    /** Activates the on-grid targets of the object's form from (startX,
        startY) and records exactly those cells, in form order. */
    method DrawObject(o: EngineObject, startX: int, startY: int)
      requires Valid()
      modifies Cells(), o
      ensures View() == Paint(old(View()), o.form, startX, startY)
      ensures o.coordinates.Some?
      ensures Coords(o.coordinates.value) == Placement(old(View()), o.form, startX, startY)
      ensures forall k :: 0 <= k < |o.coordinates.value| ==> o.coordinates.value[k] in Cells()
    {
      ghost var before := View();
      var form := o.form;
      var recorded: seq<Cell> := [];
      for i := 0 to |form|
        invariant View() == Paint(before, form[..i], startX, startY)
        invariant Coords(recorded) == Placement(before, form[..i], startX, startY)
        invariant forall k :: 0 <= k < |recorded| ==> recorded[k] in Cells()
      {
        var part := form[i];
        var newX, newY := startX + part.dx, startY + part.dy;
        DrawStep(before, form, i, startX, startY);
        if CheckCoordinates(newX, newY) {
          ActivateCell(newX, newY, part.symbol);
          RecordCell(recorded, newX, newY);
          recorded := recorded + [grid[newY][newX]];
        } else {
          assert !Within(before, newX, newY);
        }
      }
      assert form[..|form|] == form;
      o.InitCoordinates(recorded);
    }

    /** A grid cell is found again by its own coordinates: indexing the grid
        with [c.y][c.x] gives back c. This is why deleting by the recorded
        cells' x and y clears exactly the cells that drawing recorded. */
    lemma GridCellAt(c: Cell)
      requires Valid() && c in Cells()
      ensures CheckCoordinates(c.x, c.y) && grid[c.y][c.x] == c
    {
      var row, col :| 0 <= row < |grid| && 0 <= col < |grid[row]| && grid[row][col] == c;
    }

    /** Appending the grid's cell at (x, y) to a list of grid cells. */
    lemma RecordCell(recorded: seq<Cell>, x: int, y: int)
      requires 0 <= y < |grid| && 0 <= x < |grid[y]| && grid[y][x].x == x && grid[y][x].y == y
      requires forall k :: 0 <= k < |recorded| ==> recorded[k] in Cells()
      ensures forall k :: 0 <= k < |recorded| + 1 ==> (recorded + [grid[y][x]])[k] in Cells()
      ensures Coords(recorded + [grid[y][x]]) == Coords(recorded) + [(x, y)]
    {
    }

    /** Deactivates every recorded cell and marks the object as not drawn.
        The object must be drawn: its coordinates are iterated. */
    method DelObject(o: EngineObject)
      requires Valid()
      requires o.coordinates.Some?
      modifies Cells(), o
      ensures View() == Erase(old(View()), Coords(old(o.coordinates.value)))
      ensures o.coordinates == None
    {
      var cells := o.coordinates.value;
      for i := 0 to |cells|
        invariant View() == Erase(old(View()), Coords(cells[..i]))
      {
        assert Coords(cells[..i + 1])[..i] == Coords(cells[..i]);
        DeactivateCell(cells[i].x, cells[i].y);
      }
      assert cells[..|cells|] == cells;
      o.DelCoordinates();
    }

    /** Deletes the object and draws it again from (x, y). */
    method MoveObject(o: EngineObject, x: int, y: int)
      requires Valid()
      requires o.coordinates.Some?
      modifies Cells(), o
      ensures View() == Paint(Erase(old(View()), Coords(old(o.coordinates.value))), o.form, x, y)
      ensures o.coordinates.Some?
      ensures Coords(o.coordinates.value) == Placement(old(View()), o.form, x, y)
      ensures forall k :: 0 <= k < |o.coordinates.value| ==> o.coordinates.value[k] in Cells()
    {
      DelObject(o);
      PlacementShape(View(), old(View()), o.form, x, y);
      DrawObject(o, x, y);
    }

    /** The frame text: cursor home, then each row's symbols left to right,
        each row followed by a line break. */
    method Render() returns (frame: string)
      requires Valid()
      ensures frame == Frame.CursorHome() + Frame.Text(View())
    {
      var display := "";
      ghost var v := View();
      for row := 0 to |grid|
        invariant display == Frame.Text(v[..row])
      {
        var line := "";
        for col := 0 to |grid[row]|
          invariant line == Frame.RowText(v[row][..col])
        {
          assert v[row][..col + 1][..col] == v[row][..col];
          line := line + grid[row][col].symbol;
        }
        assert v[row][..|grid[row]|] == v[row];
        assert v[..row + 1][..row] == v[..row];
        display := display + line + "\n";
      }
      assert v[..|grid|] == v;
      frame := Frame.CursorHome() + display;
    }
  }
}
