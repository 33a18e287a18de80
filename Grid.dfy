/**
 * Grid topology of the 9x9 Sudoku solver: cells, the 3x3 boxes and the
 * directed "must differ" arcs between peer cells.
 *
 * The solver keys its dictionaries by the text of a (row, col) tuple; the
 * model uses the pair itself, which is an injective stand-in for that key.
 */
module Grid {

  /** A grid coordinate; the solver's dictionaries are keyed by it. */
  datatype Cell = Cell(row: int, col: int)

  /** A directed binary not-equal constraint from `xi` to `xj`. */
  datatype Arc = Arc(xi: Cell, xj: Cell)

  predicate InGrid(c: Cell) {
    0 <= c.row < 9 && 0 <= c.col < 9
  }

  /** No element occurs twice. */
  predicate NoDup<T(==)>(s: seq<T>) {
    forall i, j :: 0 <= i < j < |s| ==> s[i] != s[j]
  }

  lemma NoDupConcat<T>(s: seq<T>, t: seq<T>)
    requires NoDup(s) && NoDup(t)
    requires forall x :: x in s ==> x !in t
    ensures NoDup(s + t)
  {
    forall i, j | 0 <= i < j < |s + t| ensures (s + t)[i] != (s + t)[j] {
      if j >= |s| && i < |s| {
        assert (s + t)[i] in s && (s + t)[j] == t[j - |s|];
      }
    }
  }

  /**
   * The 81 cells in row-major order: the order in which the domain
   * dictionary is filled, and so the order in which every loop over its
   * keys visits the cells.
   */
  function AllCells(): (cells: seq<Cell>)
    ensures |cells| == 81
    ensures forall i :: 0 <= i < 81 ==> cells[i] == Cell(i / 9, i % 9)
    ensures forall c :: c in cells ==> InGrid(c)
  {
    seq(81, i => Cell(i / 9, i % 9))
  }

  lemma AllCellsAt(c: Cell)
    requires InGrid(c)
    ensures AllCells()[9 * c.row + c.col] == c
  {
    var i := 9 * c.row + c.col;
    assert i / 9 == c.row && i % 9 == c.col;
  }

  /** A cell is listed in `AllCells()` exactly when it lies on the grid, and only once. */
  lemma AllCellsSpec()
    ensures forall c :: c in AllCells() <==> InGrid(c)
    ensures NoDup(AllCells())
  {
    forall c | InGrid(c) ensures c in AllCells() {
      AllCellsAt(c);
    }
  }

  /** Index of the box holding `c`: boxes are numbered row-major, 0..8. */
  function BoxOf(c: Cell): int {
    (c.row / 3) * 3 + c.col / 3
  }

  /** The nine cells of the 3x3 square whose top-left cell is (r0, c0), row by row. */
  function Square(r0: int, c0: int): (cells: seq<Cell>)
    ensures |cells| == 9
  {
    seq(9, k => Cell(r0 + k / 3, c0 + k % 3))
  }

  lemma SquareDistinct(r0: int, c0: int, i: int, j: int)
    requires 0 <= i < 9 && 0 <= j < 9 && i != j
    ensures Square(r0, c0)[i] != Square(r0, c0)[j]
  {
    assert i / 3 != j / 3 || i % 3 != j % 3;
  }

  lemma SquareSpec(r0: int, c0: int, p: Cell)
    ensures p in Square(r0, c0) <==> r0 <= p.row < r0 + 3 && c0 <= p.col < c0 + 3
    ensures NoDup(Square(r0, c0))
  {
    var cells := Square(r0, c0);
    if r0 <= p.row < r0 + 3 && c0 <= p.col < c0 + 3 {
      var k := (p.row - r0) * 3 + (p.col - c0);
      assert k / 3 == p.row - r0 && k % 3 == p.col - c0;
      assert cells[k] == p;
    }
    forall i, j | 0 <= i < j < 9 ensures cells[i] != cells[j] {
      SquareDistinct(r0, c0, i, j);
    }
  }

  /**
   * The nine cells of box `b` in the order generateSubGrid lists them:
   * rows (b/3)*3 .. +3, and within a row columns (b%3)*3 .. +3.
   */
  function BoxCells(b: int): (cells: seq<Cell>)
    ensures |cells| == 9
  {
    Square((b / 3) * 3, (b % 3) * 3)
  }

  /** generateSubGrid's nested loops meet the cells of box b in BoxCells order. */
  lemma BoxCellsNext(b: int, i: int, j: int)
    requires 0 <= i < 3 && 0 <= j < 3
    ensures BoxCells(b)[..3 * i + j + 1] == BoxCells(b)[..3 * i + j] + [Cell((b / 3) * 3 + i, (b % 3) * 3 + j)]
  {
    var k := 3 * i + j;
    assert k / 3 == i && k % 3 == j;
    assert BoxCells(b)[k] == Cell((b / 3) * 3 + i, (b % 3) * 3 + j);
  }

  /** The box table `subGrid`, built once: box number to its cells. */
  function BoxTable(): (t: map<int, seq<Cell>>)
    ensures forall b :: b in t <==> 0 <= b < 9
  {
    map b | 0 <= b < 9 :: BoxCells(b)
  }

  /**
   * The boxes partition the grid: an on-grid cell belongs to box `b` exactly
   * when `b` is its box number, and each box lists nine distinct cells.
   */
  lemma BoxPartition(b: int, c: Cell)
    requires 0 <= b < 9
    ensures c in BoxCells(b) <==> InGrid(c) && BoxOf(c) == b
    ensures NoDup(BoxCells(b))
  {
    SquareSpec((b / 3) * 3, (b % 3) * 3, c);
    if InGrid(c) {
      assert BoxOf(c) == b <==> c.row / 3 == b / 3 && c.col / 3 == b % 3;
    }
  }

  /** The box of an on-grid cell is the square whose corner rounds its coordinates down to a multiple of 3. */
  lemma HomeBox(c: Cell)
    requires InGrid(c)
    ensures 0 <= BoxOf(c) < 9
    ensures BoxCells(BoxOf(c)) == Square(c.row - c.row % 3, c.col - c.col % 3)
  {
    var b := BoxOf(c);
    assert b / 3 == c.row / 3 && b % 3 == c.col / 3;
  }

  /** Two different on-grid cells constrain each other when they share a row, a column or a box. */
  predicate IsPeer(a: Cell, b: Cell) {
    InGrid(a) && InGrid(b) && a != b && (a.row == b.row || a.col == b.col || BoxOf(a) == BoxOf(b))
  }

  predicate IsPeerArc(a: Arc) {
    IsPeer(a.xi, a.xj)
  }

  lemma PeerSymmetric(a: Cell, b: Cell)
    ensures IsPeer(a, b) <==> IsPeer(b, a)
  {
  }

  /** An arc between two different cells of row `r`: what addRowConstraints(r) adds. */
  predicate RowArc(r: int, a: Arc) {
    0 <= r < 9 && a.xi.row == r && a.xj.row == r
    && 0 <= a.xi.col < 9 && 0 <= a.xj.col < 9 && a.xi.col != a.xj.col
  }

  /** An arc between two different cells of column `c`: what addColumnConstraints(c) adds. */
  predicate ColumnArc(c: int, a: Arc) {
    0 <= c < 9 && a.xi.col == c && a.xj.col == c
    && 0 <= a.xi.row < 9 && 0 <= a.xj.row < 9 && a.xi.row != a.xj.row
  }

  /** An arc between two different cells of box `b`: what addSquareConstraints(b) adds. */
  predicate BoxArc(b: int, a: Arc) {
    InGrid(a.xi) && InGrid(a.xj) && a.xi != a.xj && BoxOf(a.xi) == b && BoxOf(a.xj) == b
  }

  /** The arc joins a row, a column or a box numbered below `n`: the arcs generateConstraints has added after `n` rounds. */
  predicate UnitArcBefore(n: int, a: Arc) {
    (RowArc(a.xi.row, a) && a.xi.row < n)
    || (ColumnArc(a.xi.col, a) && a.xi.col < n)
    || (BoxArc(BoxOf(a.xi), a) && BoxOf(a.xi) < n)
  }

  /** Round `n` adds exactly the arcs of row `n`, column `n` and box `n`. */
  lemma UnitArcNext(n: int, a: Arc)
    requires 0 <= n
    ensures UnitArcBefore(n + 1, a) <==> UnitArcBefore(n, a) || RowArc(n, a) || ColumnArc(n, a) || BoxArc(n, a)
  {
  }

  /** The nine rounds add exactly the peer arcs: two cells are peers when they share a row, a column or a box. */
  lemma PeerArcUnits(a: Arc)
    ensures IsPeerArc(a) <==> UnitArcBefore(9, a)
  {
    if InGrid(a.xi) {
      HomeBox(a.xi);
    }
  }
}
