/** The editor's bit grid: 8 rows of 13 cells, kept row-major as one sequence in which
    cell (r, c) sits at index r * COLS + c. This module holds the pure view of the grid:
    its state string, and the whole-grid transformations the editor applies in place. */
module Grid {

  const ROWS: nat := 8
  const COLS: nat := 13
  const CELLS: nat := ROWS * COLS

  /** A grid state: exactly one boolean per cell. */
  predicate IsGrid(g: seq<bool>) {
    |g| == CELLS
  }

  /** The character a cell contributes to the state string: '1' when lit. */
  function BitChar(b: bool): char {
    if b then '1' else '0'
  }

  predicate IsBinary(s: string) {
    forall i :: 0 <= i < |s| ==> s[i] == '0' || s[i] == '1'
  }

  /** A storyboard frame: a state string of exactly one character per cell. */
  predicate IsFrame(s: string) {
    |s| == CELLS && IsBinary(s)
  }

  /** The cells read in row-major order as '0'/'1' characters. */
  function StateString(g: seq<bool>): (s: string)
    ensures |s| == |g| && IsBinary(s)
  {
    seq(|g|, i requires 0 <= i < |g| => BitChar(g[i]))
  }

  /** The cells a state string describes: a cell is lit exactly when its character is '1'. */
  function ParseState(s: string): (g: seq<bool>)
    ensures |g| == |s|
  {
    seq(|s|, i requires 0 <= i < |s| => s[i] == '1')
  }

  /** Loading the state string of a grid gives back that grid. */
  lemma StateThenParse(g: seq<bool>)
    ensures ParseState(StateString(g)) == g
  {
  }

  /** Reading back the grid loaded from a binary string gives that string. */
  lemma ParseThenState(s: string)
    requires IsBinary(s)
    ensures StateString(ParseState(s)) == s
  {
    var t := StateString(ParseState(s));
    forall i | 0 <= i < |s|
      ensures t[i] == s[i]
    {
    }
  }

  /** The grid with every cell off. */
  function AllOff(): (g: seq<bool>)
    ensures IsGrid(g) && forall i :: 0 <= i < |g| ==> !g[i]
  {
    seq(CELLS, _ => false)
  }

  /** The grid with cell i flipped. */
  function Toggled(g: seq<bool>, i: nat): (t: seq<bool>)
    requires i < |g|
    ensures |t| == |g|
  {
    g[i := !g[i]]
  }

  /** Flipping a cell twice restores the grid. */
  lemma ToggleTwice(g: seq<bool>, i: nat)
    requires i < |g|
    ensures Toggled(Toggled(g, i), i) == g
  {
  }

  /** Flipping one cell changes that cell and no other. */
  lemma ToggleOnlyThatCell(g: seq<bool>, i: nat, j: nat)
    requires i < |g| && j < |g|
    ensures Toggled(g, i)[j] == if j == i then !g[j] else g[j]
  {
  }

  /** Every cell flipped. */
  function Inverted(g: seq<bool>): (t: seq<bool>)
    ensures |t| == |g|
  {
    seq(|g|, i requires 0 <= i < |g| => !g[i])
  }

  /** Inverting twice restores the grid. */
  lemma InvertTwice(g: seq<bool>)
    ensures Inverted(Inverted(g)) == g
  {
  }

  /** Cell (r, c) of a grid. */
  function Cell(g: seq<bool>, r: nat, c: nat): bool
    requires IsGrid(g) && r < ROWS && c < COLS
  {
    g[r * COLS + c]
  }

  /** Row r of a grid, its 13 cells left to right. */
  function Row(g: seq<bool>, r: nat): (row: seq<bool>)
    requires IsGrid(g) && r < ROWS
    ensures |row| == COLS
  {
    g[r * COLS .. r * COLS + COLS]
  }

  /** One row moved one place left; the last place gets the old first cell when wrapping
      and an unlit cell otherwise. */
  function RowShiftedLeft(row: seq<bool>, wrap: bool): (t: seq<bool>)
    requires |row| == COLS
    ensures |t| == COLS
  {
    row[1..] + [if wrap then row[0] else false]
  }

  /** One row moved one place right; the first place gets the old last cell when wrapping
      and an unlit cell otherwise. */
  function RowShiftedRight(row: seq<bool>, wrap: bool): (t: seq<bool>)
    requires |row| == COLS
    ensures |t| == COLS
  {
    [if wrap then row[COLS - 1] else false] + row[..COLS - 1]
  }

  /** The first k rows of g, each shifted left on its own. */
  function RowsShiftedLeft(g: seq<bool>, wrap: bool, k: nat): (t: seq<bool>)
    requires IsGrid(g) && k <= ROWS
    ensures |t| == k * COLS
  {
    if k == 0 then [] else RowsShiftedLeft(g, wrap, k - 1) + RowShiftedLeft(Row(g, k - 1), wrap)
  }

  /** The first k rows of g, each shifted right on its own. */
  function RowsShiftedRight(g: seq<bool>, wrap: bool, k: nat): (t: seq<bool>)
    requires IsGrid(g) && k <= ROWS
    ensures |t| == k * COLS
  {
    if k == 0 then [] else RowsShiftedRight(g, wrap, k - 1) + RowShiftedRight(Row(g, k - 1), wrap)
  }

  /** The grid after a left shift: every row shifted left independently. */
  function ShiftedLeft(g: seq<bool>, wrap: bool): (t: seq<bool>)
    requires IsGrid(g)
    ensures IsGrid(t)
  {
    RowsShiftedLeft(g, wrap, ROWS)
  }

  /** The grid after a right shift: every row shifted right independently. */
  function ShiftedRight(g: seq<bool>, wrap: bool): (t: seq<bool>)
    requires IsGrid(g)
    ensures IsGrid(t)
  {
    RowsShiftedRight(g, wrap, ROWS)
  }

  lemma {:induction false} RowsShiftedLeftAt(g: seq<bool>, wrap: bool, k: nat, r: nat, c: nat)
    requires IsGrid(g) && r < k <= ROWS && c < COLS
    ensures RowsShiftedLeft(g, wrap, k)[r * COLS + c] ==
              if c < COLS - 1 then g[r * COLS + c + 1]
              else if wrap then g[r * COLS]
              else false
  {
    var prefix, suffix := RowsShiftedLeft(g, wrap, k - 1), RowShiftedLeft(Row(g, k - 1), wrap);
    assert RowsShiftedLeft(g, wrap, k) == prefix + suffix;
    assert |prefix| == (k - 1) * COLS;
    if r < k - 1 {
      RowsShiftedLeftAt(g, wrap, k - 1, r, c);
      assert r * COLS + c < |prefix|;
    } else {
      assert RowsShiftedLeft(g, wrap, k)[r * COLS + c] == suffix[c];
      if c < COLS - 1 {
        assert suffix[c] == Row(g, r)[c + 1];
      } else {
        assert suffix[c] == if wrap then Row(g, r)[0] else false;
      }
    }
  }

  lemma {:induction false} RowsShiftedRightAt(g: seq<bool>, wrap: bool, k: nat, r: nat, c: nat)
    requires IsGrid(g) && r < k <= ROWS && c < COLS
    ensures RowsShiftedRight(g, wrap, k)[r * COLS + c] ==
              if c > 0 then g[r * COLS + c - 1]
              else if wrap then g[r * COLS + COLS - 1]
              else false
  {
    var prefix, suffix := RowsShiftedRight(g, wrap, k - 1), RowShiftedRight(Row(g, k - 1), wrap);
    assert RowsShiftedRight(g, wrap, k) == prefix + suffix;
    assert |prefix| == (k - 1) * COLS;
    if r < k - 1 {
      RowsShiftedRightAt(g, wrap, k - 1, r, c);
      assert r * COLS + c < |prefix|;
    } else {
      assert RowsShiftedRight(g, wrap, k)[r * COLS + c] == suffix[c];
      if c > 0 {
        assert suffix[c] == Row(g, r)[c - 1];
      } else {
        assert suffix[c] == if wrap then Row(g, r)[COLS - 1] else false;
      }
    }
  }

  /** A left shift works on each row separately: cell (r, c) takes the old cell (r, c + 1), and
      the last cell of the row takes the old cell (r, 0) or goes dark; nothing crosses rows. */
  lemma ShiftedLeftAt(g: seq<bool>, wrap: bool, r: nat, c: nat)
    requires IsGrid(g) && r < ROWS && c < COLS
    ensures Cell(ShiftedLeft(g, wrap), r, c) ==
              if c < COLS - 1 then Cell(g, r, c + 1)
              else if wrap then Cell(g, r, 0)
              else false
  {
    RowsShiftedLeftAt(g, wrap, ROWS, r, c);
  }

  /** A right shift mirrors the left one: cell (r, c) takes the old cell (r, c - 1), and the
      first cell of the row takes the old cell (r, 12) or goes dark. */
  lemma ShiftedRightAt(g: seq<bool>, wrap: bool, r: nat, c: nat)
    requires IsGrid(g) && r < ROWS && c < COLS
    ensures Cell(ShiftedRight(g, wrap), r, c) ==
              if c > 0 then Cell(g, r, c - 1)
              else if wrap then Cell(g, r, COLS - 1)
              else false
  {
    RowsShiftedRightAt(g, wrap, ROWS, r, c);
  }

  /** Row r of a left-shifted grid, index by index. */
  lemma ShiftedLeftRow(g: seq<bool>, wrap: bool, r: nat)
    requires IsGrid(g) && r < ROWS
    ensures forall i :: r * COLS <= i < r * COLS + COLS ==>
              ShiftedLeft(g, wrap)[i] ==
                if i < r * COLS + COLS - 1 then g[i + 1] else if wrap then g[r * COLS] else false
  {
    forall i | r * COLS <= i < r * COLS + COLS
      ensures ShiftedLeft(g, wrap)[i] ==
                if i < r * COLS + COLS - 1 then g[i + 1] else if wrap then g[r * COLS] else false
    {
      ShiftedLeftAt(g, wrap, r, i - r * COLS);
    }
  }

  /** Row r of a right-shifted grid, index by index. */
  lemma ShiftedRightRow(g: seq<bool>, wrap: bool, r: nat)
    requires IsGrid(g) && r < ROWS
    ensures forall i :: r * COLS <= i < r * COLS + COLS ==>
              ShiftedRight(g, wrap)[i] ==
                if i > r * COLS then g[i - 1] else if wrap then g[r * COLS + COLS - 1] else false
  {
    forall i | r * COLS <= i < r * COLS + COLS
      ensures ShiftedRight(g, wrap)[i] ==
                if i > r * COLS then g[i - 1] else if wrap then g[r * COLS + COLS - 1] else false
    {
      ShiftedRightAt(g, wrap, r, i - r * COLS);
    }
  }

  /** Two grids that agree on every (row, column) position are equal. */
  lemma EqualByCells(a: seq<bool>, b: seq<bool>)
    requires IsGrid(a) && IsGrid(b)
    requires forall r, c :: 0 <= r < ROWS && 0 <= c < COLS ==> Cell(a, r, c) == Cell(b, r, c)
    ensures a == b
  {
    forall i | 0 <= i < CELLS
      ensures a[i] == b[i]
    {
      var r, c := i / COLS, i % COLS;
      assert i == r * COLS + c;
      assert Cell(a, r, c) == Cell(b, r, c);
    }
  }

  /** With wrap-around, a right shift undoes a left shift and a left shift undoes a right one. */
  lemma {:induction false} ShiftsAreInverse(g: seq<bool>)
    requires IsGrid(g)
    ensures ShiftedRight(ShiftedLeft(g, true), true) == g
    ensures ShiftedLeft(ShiftedRight(g, true), true) == g
  {
    var l, rl := ShiftedLeft(g, true), ShiftedRight(ShiftedLeft(g, true), true);
    forall r, c | 0 <= r < ROWS && 0 <= c < COLS
      ensures Cell(rl, r, c) == Cell(g, r, c)
    {
      ShiftedRightAt(l, true, r, c);
      if c > 0 {
        ShiftedLeftAt(g, true, r, c - 1);
      } else {
        ShiftedLeftAt(g, true, r, COLS - 1);
      }
    }
    EqualByCells(rl, g);
    var rt, lr := ShiftedRight(g, true), ShiftedLeft(ShiftedRight(g, true), true);
    forall r, c | 0 <= r < ROWS && 0 <= c < COLS
      ensures Cell(lr, r, c) == Cell(g, r, c)
    {
      ShiftedLeftAt(rt, true, r, c);
      if c < COLS - 1 {
        ShiftedRightAt(g, true, r, c + 1);
      } else {
        ShiftedRightAt(g, true, r, 0);
      }
    }
    EqualByCells(lr, g);
  }

  /** A left shift without wrap-around darkens the last column and loses the first one. */
  lemma ShiftLeftNoWrapDropsFirstColumn(g: seq<bool>, r: nat)
    requires IsGrid(g) && r < ROWS
    ensures !Cell(ShiftedLeft(g, false), r, COLS - 1)
    ensures Row(ShiftedLeft(g, false), r) == Row(g, r)[1..] + [false]
  {
    var t := ShiftedLeft(g, false);
    ShiftedLeftAt(g, false, r, COLS - 1);
    forall c | 0 <= c < COLS
      ensures Row(t, r)[c] == (Row(g, r)[1..] + [false])[c]
    {
      ShiftedLeftAt(g, false, r, c);
    }
  }

  /** The grid after k wrapping left shifts. */
  function LeftRotations(g: seq<bool>, k: nat): (t: seq<bool>)
    requires IsGrid(g)
    ensures IsGrid(t)
  {
    if k == 0 then g else ShiftedLeft(LeftRotations(g, k - 1), true)
  }

  /** After k wrapping left shifts, cell (r, c) holds the old cell (r, (c + k) mod 13). */
  lemma {:induction false} LeftRotationsAt(g: seq<bool>, k: nat, r: nat, c: nat)
    requires IsGrid(g) && r < ROWS && c < COLS
    ensures Cell(LeftRotations(g, k), r, c) == Cell(g, r, (c + k) % COLS)
  {
    if k > 0 {
      var prev := LeftRotations(g, k - 1);
      ShiftedLeftAt(prev, true, r, c);
      if c < COLS - 1 {
        LeftRotationsAt(g, k - 1, r, c + 1);
      } else {
        LeftRotationsAt(g, k - 1, r, 0);
      }
    }
  }

  /** Thirteen wrapping left shifts bring every row back to where it started. */
  lemma FullRotation(g: seq<bool>)
    requires IsGrid(g)
    ensures LeftRotations(g, COLS) == g
  {
    var t := LeftRotations(g, COLS);
    forall r, c | 0 <= r < ROWS && 0 <= c < COLS
      ensures Cell(t, r, c) == Cell(g, r, c)
    {
      LeftRotationsAt(g, COLS, r, c);
    }
    EqualByCells(t, g);
  }
}
