/**
 * The 20x20 board of the snake game: cells, the four unit directions in the
 * fixed order the game tries them (UP, DOWN, LEFT, RIGHT), adjacency and the
 * set of all in-bounds cells.
 */
module Grid {

  /** Width and height of the square board. */
  const GRID_SIZE: int := 20

  /** A board position; in bounds when both coordinates are in [0, GRID_SIZE). */
  datatype Cell = Cell(x: int, y: int)

  /** A movement vector; the game only ever moves by a unit vector. */
  datatype Vec = Vec(x: int, y: int)

  const UP: Vec := Vec(0, -1)
  const DOWN: Vec := Vec(0, 1)
  const LEFT: Vec := Vec(-1, 0)
  const RIGHT: Vec := Vec(1, 0)

  /** The order in which the pathfinder and the fallback move try directions. */
  const Dirs: seq<Vec> := [UP, DOWN, LEFT, RIGHT]

  predicate InBounds(c: Cell)
  {
    0 <= c.x < GRID_SIZE && 0 <= c.y < GRID_SIZE
  }

  /** A vector one unit long along one axis. */
  predicate IsUnit(v: Vec)
  {
    (v.x == 0 && (v.y == 1 || v.y == -1)) || (v.y == 0 && (v.x == 1 || v.x == -1))
  }

  /** Two cells one unit step apart along one axis. */
  predicate Adjacent(a: Cell, b: Cell)
  {
    (a.x == b.x && (a.y - b.y == 1 || b.y - a.y == 1)) || (a.y == b.y && (a.x - b.x == 1 || b.x - a.x == 1))
  }

  function Step(c: Cell, d: Vec): Cell
  {
    Cell(c.x + d.x, c.y + d.y)
  }

  /** The unit vectors are exactly the four named directions. */
  lemma UnitIsDirection(v: Vec)
    ensures IsUnit(v) <==> v in Dirs
  {
  }

  lemma StepIsAdjacent(c: Cell, d: Vec)
    requires IsUnit(d)
    ensures Adjacent(c, Step(c, d)) && Adjacent(Step(c, d), c)
  {
  }

  /** The four neighbours of a cell, in the order UP, DOWN, LEFT, RIGHT. */
  function Neighbours(c: Cell): (ns: seq<Cell>)
    ensures |ns| == 4
    ensures forall k :: 0 <= k < 4 ==> ns[k] == Step(c, Dirs[k])
    ensures forall n {:trigger n in ns} :: n in ns <==> Adjacent(c, n)
  {
    [Cell(c.x, c.y - 1), Cell(c.x, c.y + 1), Cell(c.x - 1, c.y), Cell(c.x + 1, c.y)]
  }

  /** A cell the snake can enter: on the board and not in `obstacles`. */
  predicate Free(c: Cell, obstacles: seq<Cell>)
  {
    InBounds(c) && c !in obstacles
  }

  /** Every cell of the board. */
  function Board(): (b: set<Cell>)
    ensures forall c {:trigger c in b} :: c in b <==> InBounds(c)
  {
    set x: int, y: int | 0 <= x < GRID_SIZE && 0 <= y < GRID_SIZE :: Cell(x, y)
  }

  /** The cells a sequence visits. */
  function Cells(s: seq<Cell>): (r: set<Cell>)
    ensures forall c {:trigger c in r} :: c in r <==> c in s
  {
    set c | c in s
  }

  predicate Distinct(s: seq<Cell>)
  {
    forall i, j :: 0 <= i < j < |s| ==> s[i] != s[j]
  }

  /** Cells of one row with x below `k`. */
  function RowPrefix(y: int, k: nat): set<Cell>
  {
    set x: int | 0 <= x < k :: Cell(x, y)
  }

  /** Cells of the rows with y below `k`. */
  function RowsPrefix(k: nat): set<Cell>
  {
    set x: int, y: int | 0 <= x < GRID_SIZE && 0 <= y < k :: Cell(x, y)
  }

  lemma {:induction false} RowPrefixSize(y: int, k: nat)
    ensures |RowPrefix(y, k)| == k
  {
    if k > 0 {
      RowPrefixSize(y, k - 1);
      assert RowPrefix(y, k) == RowPrefix(y, k - 1) + {Cell(k - 1, y)};
    }
  }

  lemma {:induction false} RowsPrefixSize(k: nat)
    ensures |RowsPrefix(k)| == k * GRID_SIZE
  {
    if k > 0 {
      RowsPrefixSize(k - 1);
      RowPrefixSize(k - 1, GRID_SIZE);
      assert RowsPrefix(k) == RowsPrefix(k - 1) + RowPrefix(k - 1, GRID_SIZE);
      assert RowsPrefix(k - 1) !! RowPrefix(k - 1, GRID_SIZE);
    }
  }

  /** The board has GRID_SIZE * GRID_SIZE = 400 cells. */
  lemma BoardSize()
    ensures |Board()| == GRID_SIZE * GRID_SIZE
  {
    RowsPrefixSize(GRID_SIZE);
    assert Board() == RowsPrefix(GRID_SIZE);
  }

  /** A sequence without repeated cells visits as many cells as it is long. */
  lemma {:induction false} DistinctCells(s: seq<Cell>)
    requires Distinct(s)
    ensures |Cells(s)| == |s|
  {
    if s != [] {
      DistinctCells(s[1..]);
      assert Cells(s) == {s[0]} + Cells(s[1..]);
      assert s[0] !in Cells(s[1..]);
    }
  }

  /**
   * A duplicate-free sequence of in-bounds cells shorter than the board
   * leaves some cell of the board unvisited.
   */
  lemma FreeCellExists(s: seq<Cell>)
    requires Distinct(s)
    requires forall i :: 0 <= i < |s| ==> InBounds(s[i])
    requires |s| < GRID_SIZE * GRID_SIZE
    ensures exists c :: c in Board() && c !in s
  {
    DistinctCells(s);
    BoardSize();
    LargerSetHasOther(Board(), Cells(s));
  }

  /** A set larger than another has an element outside it. */
  lemma LargerSetHasOther(a: set<Cell>, b: set<Cell>)
    requires |b| < |a|
    ensures exists c :: c in a && c !in b
  {
    assert |a - b| > 0 by {
      assert a <= b + (a - b);
      assert |a| <= |b + (a - b)| <= |b| + |a - b|;
    }
    var c :| c in a - b;
  }

  lemma SubsetSize(a: set<Cell>, b: set<Cell>)
    requires a <= b
    ensures |a| <= |b|
  {
    assert b == a + (b - a);
  }
}
