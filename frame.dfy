/** The text a display paints for one frame. */
module Frame {
  import opened Grid

  /** CUP with no parameters (ECMA-48 section 8.3.21): moves the cursor to
      the top-left corner so that each frame overwrites the previous one. */
  function CursorHome(): string {
    "\U{1B}[H"
  }

  /** One grid row: its cells' symbols, left to right. */
  function RowText(row: seq<CellState>): (r: string)
    ensures (forall x :: 0 <= x < |row| ==> row[x].symbol != "") ==> |r| >= |row|
    decreases |row|
  {
    if row == [] then "" else RowText(row[..|row| - 1]) + row[|row| - 1].symbol
  }

  /** The whole grid: every row's text followed by a line break, top to bottom. */
  function Text(s: Screen): (r: string)
    ensures |r| >= |s|
    ensures s != [] ==> r[|r| - 1] == '\n'
    decreases |s|
  {
    if s == [] then "" else Text(s[..|s| - 1]) + RowText(s[|s| - 1]) + "\n"
  }

  /** Every cell shows exactly one character. */
  predicate SingleCharCells(s: Screen) {
    forall y, x :: 0 <= y < |s| && 0 <= x < |s[y]| ==> |s[y][x].symbol| == 1
  }

  /** Every row of s has `width` cells. */
  predicate Rectangular(s: Screen, width: nat) {
    forall y :: 0 <= y < |s| ==> |s[y]| == width
  }

  /** Position in the frame text of column x of line y, for lines of `width`
      characters each followed by a line break. */
  function Offset(width: nat, y: nat, x: nat): nat {
    y * (width + 1) + x
  }

  /** With one character per cell, a row's text is its symbols, one per column. */
  lemma {:induction false} RowTextLayout(row: seq<CellState>)
    requires forall x :: 0 <= x < |row| ==> |row[x].symbol| == 1
    ensures |RowText(row)| == |row|
    ensures forall x :: 0 <= x < |row| ==> RowText(row)[x] == row[x].symbol[0]
    decreases |row|
  {
    if row != [] {
      RowTextLayout(row[..|row| - 1]);
    }
  }

  /** Arithmetic step of TextLayout (it exists only to serve that proof):
      every position of a line before line n lies before line n starts. */
  lemma OffsetBounds(width: nat, n: nat, y: nat, x: nat)
    requires y < n && x <= width
    ensures Offset(width, y, x) < Offset(width, n, 0)
  {
    var k: nat := n - y - 1;
    var line: nat := width + 1;
    assert n * line == (y + 1) * line + k * line;
    assert (y + 1) * line == y * line + line;
    assert k * line >= 0;
  }

  /** Arithmetic step of TextLayout (it exists only to serve that proof):
      line n + 1 starts one line after line n. */
  lemma OffsetNextLine(width: nat, n: nat)
    ensures Offset(width, n + 1, 0) == Offset(width, n, 0) + width + 1
  {
  }

  /** With one character per cell, the frame text of a `width`-wide grid is a
      block of lines: line y holds row y's symbols, column by column, and ends
      with a line break. */
  lemma {:induction false} TextLayout(s: Screen, width: nat)
    requires Rectangular(s, width) && SingleCharCells(s)
    ensures |Text(s)| == Offset(width, |s|, 0)
    ensures forall y, x :: 0 <= y < |s| && 0 <= x < width ==>
              Offset(width, y, x) < |Text(s)| && Text(s)[Offset(width, y, x)] == s[y][x].symbol[0]
    ensures forall y :: 0 <= y < |s| ==>
              Offset(width, y, width) < |Text(s)| && Text(s)[Offset(width, y, width)] == '\n'
    decreases |s|
  {
    if s != [] {
      var n := |s| - 1;
      var init := s[..n];
      TextLayout(init, width);
      var row := s[n];
      RowTextLayout(row);
      var head := Text(init);
      assert Text(s) == head + RowText(row) + "\n";
      OffsetNextLine(width, n);
      forall y, x | 0 <= y < |s| && 0 <= x <= width
        ensures Offset(width, y, x) < |Text(s)|
        ensures Text(s)[Offset(width, y, x)] == if x < width then s[y][x].symbol[0] else '\n'
      {
        if y < n {
          OffsetBounds(width, n, y, x);
          assert init[y] == s[y];
        } else {
          assert Offset(width, y, x) == |head| + x;
        }
      }
    }
  }
}
