/** The value a display's grid holds: rows of cell states, indexed [row][col],
    together with the effect of every grid operation on such a value. The
    classes in module Engine are proved against these functions. */
module Grid {

  datatype Option<T> = None | Some(value: T)

  /** A cell's symbol is any text (normally one character). */
  type Symbol = string

  /** The symbol of an empty cell. */
  const EmptyCellSymbol: Symbol := " "
  /** The symbol an activation uses when it is given none. */
  const CellDefaultSymbol: Symbol := "#"

  /** One entry of an object's form: an offset from the drawing origin and
      the symbol to draw there (None stands for the default symbol). */
  datatype Part = Part(dx: int, dy: int, symbol: Option<Symbol>)

  /** What a cell shows: its symbol and its active flag. */
  datatype CellState = CellState(symbol: Symbol, active: bool)

  /** The state of a freshly created or deactivated cell. */
  const Blank := CellState(EmptyCellSymbol, false)

  type Screen = seq<seq<CellState>>

  function OrDefault(symbol: Option<Symbol>): Symbol {
    if symbol.Some? then symbol.value else CellDefaultSymbol
  }

  /** The number of elements of range(n): negative sizes give empty grids. */
  function Dim(n: int): nat {
    if n < 0 then 0 else n
  }

  /** The grid a display starts with: `height` rows of `width` blank cells. */
  function BlankScreen(width: nat, height: nat): Screen {
    seq(height, _ => seq(width, _ => Blank))
  }

  predicate SameShape(a: Screen, b: Screen) {
    |a| == |b| && forall y :: 0 <= y < |a| ==> |a[y]| == |b[y]|
  }

  /** The point (x, y) names a cell of s: column x of row y. */
  predicate Within(s: Screen, x: int, y: int) {
    0 <= y < |s| && 0 <= x < |s[y]|
  }

  /** The answer to "is the cell at (x, y) active": false off the grid. */
  predicate ActiveAt(s: Screen, x: int, y: int) {
    Within(s, x, y) && s[y][x].active
  }

  /** The cell that the form entry p designates when drawn from (sx, sy). */
  function Target(p: Part, sx: int, sy: int): (int, int) {
    (sx + p.dx, sy + p.dy)
  }

  /** s with the cell at (x, y) replaced by v. */
  function Put(s: Screen, x: int, y: int, v: CellState): (r: Screen)
    requires Within(s, x, y)
    ensures SameShape(r, s)
    ensures r[y][x] == v
    ensures forall i, j :: Within(s, j, i) && (i != y || j != x) ==> r[i][j] == s[i][j]
  {
    s[y := s[y][x := v]]
  }

  /** Effect of activating the cell at (x, y): off the grid nothing changes. */
  function Activated(s: Screen, x: int, y: int, symbol: Option<Symbol>): (r: Screen)
    ensures SameShape(r, s)
    ensures !Within(s, x, y) ==> r == s
    ensures Within(s, x, y) ==> r[y][x] == CellState(OrDefault(symbol), true)
    ensures forall i, j :: Within(s, j, i) && (i != y || j != x) ==> r[i][j] == s[i][j]
  {
    if Within(s, x, y) then Put(s, x, y, CellState(OrDefault(symbol), true)) else s
  }

  /** Effect of deactivating the cell at (x, y): off the grid nothing changes. */
  function Deactivated(s: Screen, x: int, y: int): (r: Screen)
    ensures SameShape(r, s)
    ensures !Within(s, x, y) ==> r == s
    ensures Within(s, x, y) ==> r[y][x] == Blank
    ensures forall i, j :: Within(s, j, i) && (i != y || j != x) ==> r[i][j] == s[i][j]
  {
    if Within(s, x, y) then Put(s, x, y, Blank) else s
  }

  /** The cells an object with form `form` occupies once drawn at (sx, sy):
      the targets of its entries that lie on the grid, in form order. */
  function Placement(s: Screen, form: seq<Part>, sx: int, sy: int): (p: seq<(int, int)>)
    ensures |p| <= |form|
    ensures forall k :: 0 <= k < |p| ==> Within(s, p[k].0, p[k].1)
    decreases |form|
  {
    if form == [] then []
    else
      var rest := Placement(s, form[..|form| - 1], sx, sy);
      var t := Target(form[|form| - 1], sx, sy);
      if Within(s, t.0, t.1) then rest + [t] else rest
  }

  /** The grid after drawing every entry of `form` from (sx, sy), in order. */
  function Paint(s: Screen, form: seq<Part>, sx: int, sy: int): (r: Screen)
    ensures SameShape(r, s)
    decreases |form|
  {
    if form == [] then s
    else
      var last := form[|form| - 1];
      var t := Target(last, sx, sy);
      Activated(Paint(s, form[..|form| - 1], sx, sy), t.0, t.1, last.symbol)
  }

  /** The grid after deactivating every recorded cell, in order. */
  function Erase(s: Screen, coords: seq<(int, int)>): (r: Screen)
    ensures SameShape(r, s)
    decreases |coords|
  {
    if coords == [] then s
    else
      var c := coords[|coords| - 1];
      Deactivated(Erase(s, coords[..|coords| - 1]), c.0, c.1)
  }

  /** Proof helper (no counterpart in the engine): two grids of one shape
      that agree on every cell are equal. */
  lemma CellwiseEqual(a: Screen, b: Screen)
    requires SameShape(a, b)
    requires forall y, x :: Within(a, x, y) ==> a[y][x] == b[y][x]
    ensures a == b
  {
    forall y | 0 <= y < |a| ensures a[y] == b[y] {
      assert forall x :: 0 <= x < |a[y]| ==> a[y][x] == b[y][x];
    }
  }

  // ---------------------------------------------------------------------
  // Single cells

  /** Activating a cell on the grid makes the activity query true there;
      off the grid the query stays false. */
  lemma ActivateThenCheck(s: Screen, x: int, y: int, symbol: Option<Symbol>)
    ensures ActiveAt(Activated(s, x, y, symbol), x, y) <==> Within(s, x, y)
  {
  }

  /** After a deactivation the activity query is false. */
  lemma DeactivateThenCheck(s: Screen, x: int, y: int)
    ensures !ActiveAt(Deactivated(s, x, y), x, y)
  {
  }

  /** Deactivating twice is the same as deactivating once. */
  lemma DeactivateIdempotent(s: Screen, x: int, y: int)
    ensures Deactivated(Deactivated(s, x, y), x, y) == Deactivated(s, x, y)
  {
    var once := Deactivated(s, x, y);
    CellwiseEqual(Deactivated(once, x, y), once);
  }

  /** Deactivation undoes any activation of the same cell: the grid is as if
      only the deactivation had happened. */
  lemma ActivateThenDeactivate(s: Screen, x: int, y: int, symbol: Option<Symbol>)
    ensures Deactivated(Activated(s, x, y, symbol), x, y) == Deactivated(s, x, y)
  {
    CellwiseEqual(Deactivated(Activated(s, x, y, symbol), x, y), Deactivated(s, x, y));
  }

  // ---------------------------------------------------------------------
  // Placement

  /** Placement depends on the grid only through its shape. */
  lemma {:induction false} PlacementShape(s: Screen, t: Screen, form: seq<Part>, sx: int, sy: int)
    requires SameShape(s, t)
    ensures Placement(s, form, sx, sy) == Placement(t, form, sx, sy)
    decreases |form|
  {
    if form != [] {
      PlacementShape(s, t, form[..|form| - 1], sx, sy);
    }
  }

  /** A point is recorded iff it lies on the grid and some entry of the form
      targets it. */
  lemma {:induction false} PlacementMembers(s: Screen, form: seq<Part>, sx: int, sy: int, x: int, y: int)
    ensures (x, y) in Placement(s, form, sx, sy)
        <==> Within(s, x, y) && exists i :: 0 <= i < |form| && Target(form[i], sx, sy) == (x, y)
    decreases |form|
  {
    if form != [] {
      var init := form[..|form| - 1];
      PlacementMembers(s, init, sx, sy, x, y);
      if exists i :: 0 <= i < |init| && Target(init[i], sx, sy) == (x, y) {
        var i :| 0 <= i < |init| && Target(init[i], sx, sy) == (x, y);
        assert Target(form[i], sx, sy) == (x, y);
      }
      if exists i :: 0 <= i < |form| && Target(form[i], sx, sy) == (x, y) {
        var i :| 0 <= i < |form| && Target(form[i], sx, sy) == (x, y);
        if i < |init| {
          assert Target(init[i], sx, sy) == (x, y);
        }
      }
    }
  }

  /** Placement keeps form order: the placement of a concatenated form is the
      concatenation of the placements. */
  lemma {:induction false} PlacementAppend(s: Screen, f: seq<Part>, g: seq<Part>, sx: int, sy: int)
    ensures Placement(s, f + g, sx, sy) == Placement(s, f, sx, sy) + Placement(s, g, sx, sy)
    decreases |g|
  {
    if g == [] {
      assert f + g == f;
    } else {
      var g' := g[..|g| - 1];
      assert (f + g)[..|f + g| - 1] == f + g';
      PlacementAppend(s, f, g', sx, sy);
    }
  }

  /** When every entry lands on the grid, every entry is recorded, in order. */
  lemma {:induction false} PlacementAllWithin(s: Screen, form: seq<Part>, sx: int, sy: int)
    requires forall i :: 0 <= i < |form| ==> Within(s, Target(form[i], sx, sy).0, Target(form[i], sx, sy).1)
    ensures |Placement(s, form, sx, sy)| == |form|
    ensures forall i :: 0 <= i < |form| ==> Placement(s, form, sx, sy)[i] == Target(form[i], sx, sy)
    decreases |form|
  {
    if form != [] {
      PlacementAllWithin(s, form[..|form| - 1], sx, sy);
    }
  }

  // ---------------------------------------------------------------------
  // Drawing

  /** Drawing one more entry of the form: it activates its target, and the
      target is recorded when it lies on the grid. */
  lemma DrawStep(s: Screen, form: seq<Part>, i: nat, sx: int, sy: int)
    requires i < |form|
    ensures var t := Target(form[i], sx, sy);
            && Paint(s, form[..i + 1], sx, sy) == Activated(Paint(s, form[..i], sx, sy), t.0, t.1, form[i].symbol)
            && Placement(s, form[..i + 1], sx, sy)
               == Placement(s, form[..i], sx, sy) + (if Within(s, t.0, t.1) then [t] else [])
  {
    assert form[..i + 1][..i] == form[..i];
  }

  /** A cell that the placement does not record keeps its state. */
  lemma {:induction false} PaintUntouched(s: Screen, form: seq<Part>, sx: int, sy: int, x: int, y: int)
    requires Within(s, x, y)
    requires (x, y) !in Placement(s, form, sx, sy)
    ensures Paint(s, form, sx, sy)[y][x] == s[y][x]
    decreases |form|
  {
    if form != [] {
      var init := form[..|form| - 1];
      assert (x, y) !in Placement(s, init, sx, sy);
      PaintUntouched(s, init, sx, sy, x, y);
    }
  }

  /** Every recorded cell is active after drawing. */
  lemma {:induction false} PaintActive(s: Screen, form: seq<Part>, sx: int, sy: int, x: int, y: int)
    requires (x, y) in Placement(s, form, sx, sy)
    ensures ActiveAt(Paint(s, form, sx, sy), x, y)
    decreases |form|
  {
    var init := form[..|form| - 1];
    var t := Target(form[|form| - 1], sx, sy);
    if t != (x, y) {
      PaintActive(s, init, sx, sy, x, y);
    }
  }

  /** Where several entries target one cell, the last one wins: the cell shows
      that entry's symbol (the default symbol when it has none). */
  lemma {:induction false} PaintLastWins(s: Screen, form: seq<Part>, sx: int, sy: int, i: nat)
    requires i < |form|
    requires Within(s, Target(form[i], sx, sy).0, Target(form[i], sx, sy).1)
    requires forall j :: i < j < |form| ==> Target(form[j], sx, sy) != Target(form[i], sx, sy)
    ensures Paint(s, form, sx, sy)[Target(form[i], sx, sy).1][Target(form[i], sx, sy).0]
         == CellState(OrDefault(form[i].symbol), true)
    decreases |form|
  {
    if i < |form| - 1 {
      var init := form[..|form| - 1];
      assert init[i] == form[i];
      PaintLastWins(s, init, sx, sy, i);
    }
  }

  // ---------------------------------------------------------------------
  // Deleting

  /** Erasing blanks exactly the listed cells that lie on the grid. */
  lemma {:induction false} EraseCell(s: Screen, coords: seq<(int, int)>, x: int, y: int)
    requires Within(s, x, y)
    ensures Erase(s, coords)[y][x] == if (x, y) in coords then Blank else s[y][x]
    decreases |coords|
  {
    if coords != [] {
      var init := coords[..|coords| - 1];
      EraseCell(s, init, x, y);
      assert coords == init + [coords[|coords| - 1]];
    }
  }

  /** Erasing the same cells twice is erasing them once. */
  lemma EraseIdempotent(s: Screen, coords: seq<(int, int)>)
    ensures Erase(Erase(s, coords), coords) == Erase(s, coords)
  {
    var e := Erase(s, coords);
    var ee := Erase(e, coords);
    forall y | 0 <= y < |s| ensures ee[y] == e[y] {
      forall x | 0 <= x < |s[y]| ensures ee[y][x] == e[y][x] {
        EraseCell(s, coords, x, y);
        EraseCell(e, coords, x, y);
      }
    }
  }

  /** Drawing then deleting an object is the same as only blanking the cells
      it was placed on: every other cell is back to its earlier state. */
  lemma DrawThenDelete(s: Screen, form: seq<Part>, sx: int, sy: int)
    ensures Erase(Paint(s, form, sx, sy), Placement(s, form, sx, sy))
         == Erase(s, Placement(s, form, sx, sy))
  {
    var p := Placement(s, form, sx, sy);
    var drawn := Paint(s, form, sx, sy);
    var l := Erase(drawn, p);
    var r := Erase(s, p);
    forall y | 0 <= y < |s| ensures l[y] == r[y] {
      forall x | 0 <= x < |s[y]| ensures l[y][x] == r[y][x] {
        EraseCell(drawn, p, x, y);
        EraseCell(s, p, x, y);
        if (x, y) !in p {
          PaintUntouched(s, form, sx, sy, x, y);
        }
      }
    }
  }

  /** When the cells an object lands on were empty, drawing then deleting it
      restores the grid exactly. */
  lemma DrawThenDeleteRestores(s: Screen, form: seq<Part>, sx: int, sy: int)
    requires forall x, y :: Within(s, x, y) && (x, y) in Placement(s, form, sx, sy) ==> s[y][x] == Blank
    ensures Erase(Paint(s, form, sx, sy), Placement(s, form, sx, sy)) == s
  {
    var p := Placement(s, form, sx, sy);
    DrawThenDelete(s, form, sx, sy);
    var r := Erase(s, p);
    forall y | 0 <= y < |s| ensures r[y] == s[y] {
      forall x | 0 <= x < |s[y]| ensures r[y][x] == s[y][x] {
        EraseCell(s, p, x, y);
      }
    }
  }

  /** Moving (delete the old placement, draw at the new origin): the new
      placement is active, old cells it does not cover are blank, and cells
      in neither are unchanged. */
  lemma {:induction false} MoveCell(s: Screen, placed: seq<(int, int)>, form: seq<Part>, nx: int, ny: int, x: int, y: int)
    requires Within(s, x, y)
    ensures var moved := Paint(Erase(s, placed), form, nx, ny);
            var p := Placement(s, form, nx, ny);
            && ((x, y) in p ==> ActiveAt(moved, x, y))
            && ((x, y) in placed && (x, y) !in p ==> moved[y][x] == Blank)
            && ((x, y) !in placed && (x, y) !in p ==> moved[y][x] == s[y][x])
  {
    var e := Erase(s, placed);
    PlacementShape(s, e, form, nx, ny);
    EraseCell(s, placed, x, y);
    if (x, y) in Placement(e, form, nx, ny) {
      PaintActive(e, form, nx, ny, x, y);
    } else {
      PaintUntouched(e, form, nx, ny, x, y);
    }
  }
}
