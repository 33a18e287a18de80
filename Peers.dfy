/**
 * The peer table `relatedCells`: for each cell, the list getRelatedCell
 * collects from its row, its column and its box.
 *
 * getRelatedCell walks x = 0..8 appending (r, x) and then (x, c) when not
 * yet listed, then appends the cells of the box of (r, c) not yet listed,
 * and finally drops the FIRST collected cell. That cell is always (r, 0),
 * not the cell itself, so for c != 0 the list keeps (r, c) and misses the
 * true peer (r, 0). The contract of GetRelatedCell states exactly that.
 */
module Peers {
  import opened Grid

  /** The guarded append of getRelatedCell: `y` goes at the end unless it is listed already. */
  function Add(acc: seq<Cell>, y: Cell): seq<Cell> {
    if y in acc then acc else acc + [y]
  }

  /** A guarded append adds exactly the one element, and keeps a duplicate-free list so. */
  lemma AddSpec(acc: seq<Cell>, y: Cell)
    ensures forall p :: p in Add(acc, y) <==> p in acc || p == y
    ensures NoDup(acc) ==> NoDup(Add(acc, y))
  {
    if y !in acc && NoDup(acc) {
      NoDupConcat(acc, [y]);
    }
  }

  /** The row-and-column loop of getRelatedCell, from index `x` on. */
  function CollectLines(r: int, c: int, x: int, acc: seq<Cell>): seq<Cell>
    requires 0 <= x <= 9
    decreases 9 - x
  {
    if x == 9 then acc
    else CollectLines(r, c, x + 1, Add(Add(acc, Cell(r, x)), Cell(x, c)))
  }

  /**
   * The box search of the same loop: the last box number, from `x` on,
   * whose list holds `v`; `found` when there is none.
   */
  function FindBox(subGrid: map<int, seq<Cell>>, v: Cell, x: int, found: int): (b: int)
    requires subGrid == BoxTable() && InGrid(v) && 0 <= x <= 9
    ensures b == if x <= BoxOf(v) then BoxOf(v) else found
    decreases 9 - x
  {
    if x == 9 then found
    else
      BoxPartition(x, v);
      FindBox(subGrid, v, x + 1, if v in subGrid[x] then x else found)
  }

  /** The box loop of getRelatedCell: append each box cell not yet listed. */
  function CollectBox(box: seq<Cell>, acc: seq<Cell>): seq<Cell>
    decreases |box|
  {
    if box == [] then acc
    else CollectBox(box[1..], Add(acc, box[0]))
  }

  /**
   * The row-and-column loop from index `x` adds the cells of row r and of
   * column c from index `x` on, each cell once, and nothing else.
   */
  lemma {:induction false} CollectLinesMembers(r: int, c: int, x: int, acc: seq<Cell>)
    requires 0 <= x <= 9
    ensures forall p :: p in CollectLines(r, c, x, acc) <==>
      p in acc || (p.row == r && x <= p.col < 9) || (p.col == c && x <= p.row < 9)
    ensures NoDup(acc) ==> NoDup(CollectLines(r, c, x, acc))
    decreases 9 - x
  {
    if x < 9 {
      var withRow := Add(acc, Cell(r, x));
      var withCol := Add(withRow, Cell(x, c));
      AddSpec(acc, Cell(r, x));
      AddSpec(withRow, Cell(x, c));
      CollectLinesMembers(r, c, x + 1, withCol);
      forall p ensures p in CollectLines(r, c, x, acc) <==>
        p in acc || (p.row == r && x <= p.col < 9) || (p.col == c && x <= p.row < 9)
      {
        assert p in withCol <==> p in acc || p == Cell(r, x) || p == Cell(x, c);
      }
    }
  }

  /** The box loop adds exactly the box cells not listed yet, each once. */
  lemma {:induction false} CollectBoxMembers(box: seq<Cell>, acc: seq<Cell>)
    ensures forall p :: p in CollectBox(box, acc) <==> p in acc || p in box
    ensures NoDup(acc) ==> NoDup(CollectBox(box, acc))
    decreases |box|
  {
    if box != [] {
      AddSpec(acc, box[0]);
      CollectBoxMembers(box[1..], Add(acc, box[0]));
      assert box == [box[0]] + box[1..];
    }
  }

  /**
   * getRelatedCell(var): twenty distinct cells, all on the grid. Because the
   * dropped head is (r, 0), the list is exactly the twenty peers of `v`
   * when v.col == 0, and otherwise holds `v` itself instead of (r, 0).
   */
  function GetRelatedCell(subGrid: map<int, seq<Cell>>, v: Cell): (related: seq<Cell>)
    requires subGrid == BoxTable() && InGrid(v)
    ensures |related| == 20 && NoDup(related)
    ensures forall p :: p in related <==> (IsPeer(v, p) || p == v) && p != Cell(v.row, 0)
    ensures v.col == 0 ==> forall p :: p in related <==> IsPeer(v, p)
    ensures v.col != 0 ==> v in related && Cell(v.row, 0) !in related
  {
    var b := FindBox(subGrid, v, 0, -1);
    HomeTable(v);
    RelatedFacts(v);
    CollectBox(subGrid[b], CollectLines(v.row, v.col, 0, []))[1..]
  }

  /** The contract of GetRelatedCell, stated of the collected list with its head dropped. */
  lemma RelatedFacts(v: Cell)
    requires InGrid(v)
    ensures var collected := CollectBox(Home(v.row, v.col), CollectLines(v.row, v.col, 0, []));
      && |collected| == 21
      && var related := collected[1..];
      && |related| == 20 && NoDup(related)
      && (forall p :: p in related <==> (IsPeer(v, p) || p == v) && p != Cell(v.row, 0))
      && (v.col == 0 ==> forall p :: p in related <==> IsPeer(v, p))
      && (v.col != 0 ==> v in related && Cell(v.row, 0) !in related)
  {
    var collected := CollectBox(Home(v.row, v.col), CollectLines(v.row, v.col, 0, []));
    CollectedSpec(v);
    DropHead(collected);
    if v.col == 0 {
      assert v == Cell(v.row, 0) && !IsPeer(v, v);
    }
  }

  /** Dropping the head of a duplicate-free list removes exactly that element. */
  lemma DropHead<T>(s: seq<T>)
    requires NoDup(s) && |s| > 0
    ensures NoDup(s[1..]) && |s[1..]| == |s| - 1
    ensures forall p :: p in s[1..] <==> p in s && p != s[0]
  {
    forall p | p in s && p != s[0] ensures p in s[1..] {
      var i :| 0 <= i < |s| && s[i] == p;
      assert s[1..][i - 1] == p;
    }
  }

  /** The peer table as generateRelatedCellsDomain fills it. */
  function RelatedTable(): (t: map<Cell, seq<Cell>>)
    ensures forall c :: c in t <==> InGrid(c)
  {
    AllCellsSpec();
    map c | c in AllCells() :: GetRelatedCell(BoxTable(), c)
  }

  // ---------------------------------------------------------------------
  // A closed form of the collected list, used to prove the contract above.

  /** What iteration `x` of the row-and-column loop appends. */
  function RowColPiece(r: int, c: int, x: int): seq<Cell> {
    (if x == c && r < c then [] else [Cell(r, x)]) + (if x == r && c <= r then [] else [Cell(x, c)])
  }

  function RowColScan(r: int, c: int, n: nat): seq<Cell> {
    if n == 0 then [] else RowColScan(r, c, n - 1) + RowColPiece(r, c, n - 1)
  }

  lemma RowColScanSpec(r: int, c: int, n: nat)
    requires 0 <= r < 9 && 0 <= c < 9 && n <= 9
    ensures forall p :: p in RowColScan(r, c, n) <==>
      (p.row == r && 0 <= p.col < n) || (p.col == c && 0 <= p.row < n)
    ensures NoDup(RowColScan(r, c, n))
    ensures |RowColScan(r, c, n)| == 2 * n - (if r < c < n then 1 else 0) - (if c <= r < n then 1 else 0)
  {
    RowColScanMembers(r, c, n);
    RowColScanNoDup(r, c, n);
    RowColScanLength(r, c, n);
  }

  /** After n iterations the list holds row r's and column c's cells with index below n. */
  lemma {:induction false} RowColScanMembers(r: int, c: int, n: nat)
    requires 0 <= r < 9 && 0 <= c < 9 && n <= 9
    ensures forall p :: p in RowColScan(r, c, n) <==>
      (p.row == r && 0 <= p.col < n) || (p.col == c && 0 <= p.row < n)
  {
    if n > 0 {
      RowColScanMembers(r, c, n - 1);
      RowColPieceSpec(r, c, n - 1);
    }
  }

  lemma {:induction false} RowColScanNoDup(r: int, c: int, n: nat)
    requires 0 <= r < 9 && 0 <= c < 9 && n <= 9
    ensures NoDup(RowColScan(r, c, n))
  {
    if n > 0 {
      RowColScanNoDup(r, c, n - 1);
      RowColScanMembers(r, c, n - 1);
      RowColPieceSpec(r, c, n - 1);
      NoDupConcat(RowColScan(r, c, n - 1), RowColPiece(r, c, n - 1));
    }
  }

  lemma {:induction false} RowColScanLength(r: int, c: int, n: nat)
    requires 0 <= r < 9 && 0 <= c < 9 && n <= 9
    ensures |RowColScan(r, c, n)| == 2 * n - (if r < c < n then 1 else 0) - (if c <= r < n then 1 else 0)
  {
    if n > 0 {
      RowColScanLength(r, c, n - 1);
      RowColPieceSpec(r, c, n - 1);
    }
  }

  /** Iteration x appends (r, x) and (x, c), skipping (r, c) when an earlier iteration listed it. */
  lemma RowColPieceSpec(r: int, c: int, x: int)
    requires 0 <= r < 9 && 0 <= c < 9 && 0 <= x < 9
    ensures forall p :: p in RowColPiece(r, c, x) <==>
      (p == Cell(r, x) && !(x == c && r < c)) || (p == Cell(x, c) && !(x == r && c <= r))
    ensures NoDup(RowColPiece(r, c, x))
    ensures |RowColPiece(r, c, x)| == 2 - (if x == c && r < c then 1 else 0) - (if x == r && c <= r then 1 else 0)
  {
  }

  lemma {:induction false} CollectLinesSpec(r: int, c: int, x: int)
    requires 0 <= r < 9 && 0 <= c < 9 && 0 <= x <= 9
    ensures CollectLines(r, c, x, RowColScan(r, c, x)) == RowColScan(r, c, 9)
    decreases 9 - x
  {
    if x < 9 {
      CollectLinesStep(r, c, x);
      CollectLinesSpec(r, c, x + 1);
    }
  }

  /** One iteration of the loop appends exactly RowColPiece. */
  lemma CollectLinesStep(r: int, c: int, x: int)
    requires 0 <= r < 9 && 0 <= c < 9 && 0 <= x < 9
    ensures CollectLines(r, c, x, RowColScan(r, c, x)) == CollectLines(r, c, x + 1, RowColScan(r, c, x + 1))
  {
    var acc := RowColScan(r, c, x);
    RowColScanMembers(r, c, x);
    var rowPart := if x == c && r < c then [] else [Cell(r, x)];
    var colPart := if x == r && c <= r then [] else [Cell(x, c)];
    assert Cell(r, x) in acc <==> x == c && r < c;
    var withRow := Add(acc, Cell(r, x));
    assert withRow == acc + rowPart;
    assert Cell(x, c) in withRow <==> x == r && c <= r by {
      assert Cell(x, c) in acc <==> x == r && c < r;
    }
    var withCol := Add(withRow, Cell(x, c));
    assert withCol == withRow + colPart;
    assert withCol == RowColScan(r, c, x + 1) == acc + RowColPiece(r, c, x);
    CollectLinesUnfold(r, c, x, acc);
  }

  /** One turn of the row-and-column loop: the guarded appends of (r, x) and then (x, c). */
  lemma CollectLinesUnfold(r: int, c: int, x: int, acc: seq<Cell>)
    requires 0 <= x < 9
    ensures CollectLines(r, c, x, acc) == CollectLines(r, c, x + 1, Add(Add(acc, Cell(r, x)), Cell(x, c)))
  {
  }

  /** The box of (r, c), as the square around it. */
  function Home(r: int, c: int): seq<Cell> {
    Square(r - r % 3, c - c % 3)
  }

  /** The first `k` cells of the box of (r, c) outside row r and column c. */
  function BoxScan(r: int, c: int, k: nat): seq<Cell>
    requires k <= 9
  {
    if k == 0 then []
    else
      var q := Home(r, c)[k - 1];
      BoxScan(r, c, k - 1) + (if q.row == r || q.col == c then [] else [q])
  }

  /** How many of the first `k` positions of a box lie off box-row i and box-column j. */
  function CountOff(i: int, j: int, k: nat): nat {
    if k == 0 then 0 else CountOff(i, j, k - 1) + (if (k - 1) / 3 != i && (k - 1) % 3 != j then 1 else 0)
  }

  lemma {:induction false} BoxScanSpec(r: int, c: int, k: nat)
    requires k <= 9
    ensures forall p :: p in BoxScan(r, c, k) ==> p in Home(r, c)[..k] && p.row != r && p.col != c
    ensures NoDup(BoxScan(r, c, k))
  {
    if k > 0 {
      var box := Home(r, c);
      var q := box[k - 1];
      BoxScanSpec(r, c, k - 1);
      var piece := if q.row == r || q.col == c then [] else [q];
      assert box[..k] == box[..k - 1] + [q];
      assert q !in box[..k - 1] by {
        forall i | 0 <= i < k - 1 ensures box[i] != q {
          SquareDistinct(r - r % 3, c - c % 3, i, k - 1);
        }
      }
      NoDupConcat(BoxScan(r, c, k - 1), piece);
    }
  }

  lemma {:induction false} BoxScanCount(r: int, c: int, k: nat)
    requires k <= 9
    ensures |BoxScan(r, c, k)| == CountOff(r % 3, c % 3, k)
  {
    if k > 0 {
      BoxScanCount(r, c, k - 1);
      var q := Home(r, c)[k - 1];
      assert q.row == r <==> (k - 1) / 3 == r % 3;
      assert q.col == c <==> (k - 1) % 3 == c % 3;
    }
  }

  lemma BoxScanLength(r: int, c: int)
    ensures |BoxScan(r, c, 9)| == 4
  {
    BoxScanCount(r, c, 9);
    var i, j := r % 3, c % 3;
    if i == 0 {
      if j == 0 { assert CountOff(0, 0, 9) == 4; }
      else if j == 1 { assert CountOff(0, 1, 9) == 4; }
      else { assert CountOff(0, 2, 9) == 4; }
    } else if i == 1 {
      if j == 0 { assert CountOff(1, 0, 9) == 4; }
      else if j == 1 { assert CountOff(1, 1, 9) == 4; }
      else { assert CountOff(1, 2, 9) == 4; }
    } else {
      if j == 0 { assert CountOff(2, 0, 9) == 4; }
      else if j == 1 { assert CountOff(2, 1, 9) == 4; }
      else { assert CountOff(2, 2, 9) == 4; }
    }
  }

  lemma {:induction false} CollectBoxSpec(r: int, c: int, k: nat)
    requires 0 <= r < 9 && 0 <= c < 9 && k <= 9
    ensures CollectBox(Home(r, c)[k..], RowColScan(r, c, 9) + BoxScan(r, c, k))
         == RowColScan(r, c, 9) + BoxScan(r, c, 9)
    decreases 9 - k
  {
    if k < 9 {
      CollectBoxStep(r, c, k);
      CollectBoxSpec(r, c, k + 1);
    }
  }

  /** The k-th box cell is already collected exactly when it lies on row r or column c. */
  lemma BoxCellSeen(r: int, c: int, k: nat)
    requires 0 <= r < 9 && 0 <= c < 9 && k < 9
    ensures var q := Home(r, c)[k];
      q in RowColScan(r, c, 9) + BoxScan(r, c, k) <==> q.row == r || q.col == c
  {
    var box := Home(r, c);
    var q := box[k];
    assert InGrid(q);
    RowColScanSpec(r, c, 9);
    BoxScanSpec(r, c, k);
    assert q !in BoxScan(r, c, k) by {
      forall i | 0 <= i < k ensures box[i] != q {
        SquareDistinct(r - r % 3, c - c % 3, i, k);
      }
    }
  }

  /** One iteration of the box loop appends the box cell exactly when it is off row r and column c. */
  lemma CollectBoxStep(r: int, c: int, k: nat)
    requires 0 <= r < 9 && 0 <= c < 9 && k < 9
    ensures CollectBox(Home(r, c)[k..], RowColScan(r, c, 9) + BoxScan(r, c, k))
         == CollectBox(Home(r, c)[k + 1..], RowColScan(r, c, 9) + BoxScan(r, c, k + 1))
  {
    var box := Home(r, c);
    var lines := RowColScan(r, c, 9);
    var acc := lines + BoxScan(r, c, k);
    var q := box[k];
    BoxCellSeen(r, c, k);
    assert box[k..][1..] == box[k + 1..];
    assert box[k..][0] == q;
    assert Add(acc, q) == lines + BoxScan(r, c, k + 1);
  }

  /** The list before its head is dropped: 21 distinct cells, (r, 0) first. */
  lemma CollectedSpec(v: Cell)
    requires InGrid(v)
    ensures var collected := CollectBox(Home(v.row, v.col), CollectLines(v.row, v.col, 0, []));
      && |collected| == 21 && NoDup(collected) && collected[0] == Cell(v.row, 0)
      && forall p :: p in collected <==> IsPeer(v, p) || p == v
  {
    ClosedForm(v);
    ClosedFormFacts(v);
  }

  lemma ClosedForm(v: Cell)
    requires InGrid(v)
    ensures CollectBox(Home(v.row, v.col), CollectLines(v.row, v.col, 0, []))
         == RowColScan(v.row, v.col, 9) + BoxScan(v.row, v.col, 9)
  {
    var r, c := v.row, v.col;
    assert Home(r, c)[0..] == Home(r, c);
    LinesClosedForm(r, c);
    assert RowColScan(r, c, 9) + BoxScan(r, c, 0) == RowColScan(r, c, 9);
    CollectBoxSpec(r, c, 0);
  }

  /** The box getRelatedCell finds in the box table is the square around the cell. */
  lemma HomeTable(v: Cell)
    requires InGrid(v)
    ensures 0 <= BoxOf(v) < 9 && BoxTable()[BoxOf(v)] == Home(v.row, v.col)
  {
    HomeBox(v);
  }

  /** The row-and-column loop, run from the start, collects RowColScan(r, c, 9). */
  lemma LinesClosedForm(r: int, c: int)
    requires 0 <= r < 9 && 0 <= c < 9
    ensures CollectLines(r, c, 0, []) == RowColScan(r, c, 9)
  {
    assert RowColScan(r, c, 0) == [];
    CollectLinesSpec(r, c, 0);
  }

  lemma ClosedFormFacts(v: Cell)
    requires InGrid(v)
    ensures var s := RowColScan(v.row, v.col, 9) + BoxScan(v.row, v.col, 9);
      && |s| == 21 && NoDup(s) && s[0] == Cell(v.row, 0)
      && forall p :: p in s <==> IsPeer(v, p) || p == v
  {
    var r, c := v.row, v.col;
    var lines, rest := RowColScan(r, c, 9), BoxScan(r, c, 9);
    RowColScanSpec(r, c, 9);
    BoxScanSpec(r, c, 9);
    BoxScanLength(r, c);
    NoDupConcat(lines, rest);
    assert lines[0] == Cell(r, 0) by {
      RowColScanPrefix(r, c, 1, 9);
      assert RowColScan(r, c, 1) == RowColPiece(r, c, 0);
    }
    forall p ensures p in lines + rest <==> IsPeer(v, p) || p == v {
      ClosedFormMember(v, p);
    }
  }

  lemma ClosedFormMember(v: Cell, p: Cell)
    requires InGrid(v)
    ensures p in RowColScan(v.row, v.col, 9) + BoxScan(v.row, v.col, 9) <==> IsPeer(v, p) || p == v
  {
    var r, c := v.row, v.col;
    RowColScanSpec(r, c, 9);
    SameBox(v, p);
    if p in BoxScan(r, c, 9) {
      BoxScanSpec(r, c, 9);
      assert p in Home(r, c);
    }
    if InGrid(p) && BoxOf(p) == BoxOf(v) && p.row != r && p.col != c {
      var k :| 0 <= k < 9 && Home(r, c)[k] == p;
      BoxScanHas(r, c, k);
    }
  }

  lemma SameBox(v: Cell, p: Cell)
    requires InGrid(v)
    ensures p in Home(v.row, v.col) <==> InGrid(p) && BoxOf(p) == BoxOf(v)
  {
    HomeBox(v);
    BoxPartition(BoxOf(v), p);
  }

  lemma {:induction false} RowColScanPrefix(r: int, c: int, m: nat, n: nat)
    requires m <= n
    ensures RowColScan(r, c, m) <= RowColScan(r, c, n)
    decreases n
  {
    if m < n {
      RowColScanPrefix(r, c, m, n - 1);
    }
  }

  lemma BoxScanHas(r: int, c: int, k: nat)
    requires k < 9
    requires Home(r, c)[k].row != r && Home(r, c)[k].col != c
    ensures Home(r, c)[k] in BoxScan(r, c, 9)
  {
    assert Home(r, c)[k] in BoxScan(r, c, k + 1);
    BoxScanGrows(r, c, k + 1, 9);
  }

  lemma {:induction false} BoxScanGrows(r: int, c: int, m: nat, n: nat)
    requires m <= n <= 9
    ensures BoxScan(r, c, m) <= BoxScan(r, c, n)
    decreases n
  {
    if m < n {
      BoxScanGrows(r, c, m, n - 1);
    }
  }
}
