/**
 * The solver object: the grid, its domain store, the arc list, the box and
 * peer tables and the undo trail, with AC-3 propagation and the
 * forward-checking backtracking search that falls back on it.
 */
module Solver {
  import opened Grid
  import opened Peers
  import opened Domains
  import opened Heuristics
  import opened Trail

  /** A search result or a wiped-out cell, when there is one. */
  datatype Option<T> = None | Some(value: T)

  /** A subset has the cardinality of its superset only when the two are equal. */
  lemma SubsetCard<T>(a: set<T>, b: set<T>)
    requires a <= b
    ensures |a| == |b| <==> a == b
  {
    if a != b {
      assert b == a + (b - a);
      assert b - a != {};
    }
  }

  /** The value of key `b` in the box table, or the empty list where Python's get() gives None. */
  function Lookup(m: map<int, seq<Cell>>, b: int): seq<Cell> {
    if b in m then m[b] else []
  }

  /** The box table after generateSubGrid's loops have met the first `k` cells of `box`. */
  function Filled(m: map<int, seq<Cell>>, box: int, k: int): map<int, seq<Cell>>
    requires 0 <= k <= 9
  {
    if k == 0 then m else m[box := Lookup(m, box) + BoxCells(box)[..k]]
  }

  /** Meeting one more cell creates the entry for `box` or appends to it. */
  lemma FilledStep(m: map<int, seq<Cell>>, box: int, i: int, j: int)
    requires 0 <= i < 3 && 0 <= j < 3
    ensures var cur := Filled(m, box, 3 * i + j);
      var cell := Cell((box / 3) * 3 + i, (box % 3) * 3 + j);
      Filled(m, box, 3 * i + j + 1) == if box !in cur then cur[box := [cell]] else cur[box := cur[box] + [cell]]
  {
    var k := 3 * i + j;
    var cell := Cell((box / 3) * 3 + i, (box % 3) * 3 + j);
    BoxCellsNext(box, i, j);
    if k == 0 {
      assert BoxCells(box)[..1] == [cell];
    } else {
      assert Lookup(m, box) + BoxCells(box)[..k + 1] == (Lookup(m, box) + BoxCells(box)[..k]) + [cell];
    }
  }

  /** The whole box met: its cells follow what the table held, and nothing else changed. */
  lemma FilledSpec(m: map<int, seq<Cell>>, box: int)
    ensures forall b :: b in Filled(m, box, 9) <==> b in m || b == box
    ensures Filled(m, box, 9)[box] == Lookup(m, box) + BoxCells(box)
    ensures forall b :: b in m && b != box ==> Filled(m, box, 9)[b] == m[b]
  {
    assert BoxCells(box)[..9] == BoxCells(box);
  }

  /** generateSubGrid run on an empty table builds the box table. */
  lemma BoxTableFromEmpty(subGrid: map<int, seq<Cell>>)
    requires forall b :: b in subGrid <==> 0 <= b < 9
    requires forall b :: 0 <= b < 9 ==> subGrid[b] == Lookup(map[], b) + BoxCells(b)
    ensures subGrid == BoxTable()
  {
    forall b | b in subGrid ensures subGrid[b] == BoxTable()[b] {
      assert [] + BoxCells(b) == BoxCells(b);
    }
    SameMap(subGrid, BoxTable());
  }

  /** generateRelatedCellsDomain run on an empty table builds the peer table. */
  lemma RelatedTableFromEmpty(relatedCells: map<Cell, seq<Cell>>)
    requires forall c :: c in relatedCells <==> InGrid(c)
    requires forall c :: InGrid(c) ==> relatedCells[c] == GetRelatedCell(BoxTable(), c)
    ensures relatedCells == RelatedTable()
    ensures PeerTable(relatedCells)
  {
    SameMap(relatedCells, RelatedTable());
  }

  /** Maps with the same keys and the same values are equal. */
  lemma SameMap<K, V>(m1: map<K, V>, m2: map<K, V>)
    requires forall k :: k in m1 <==> k in m2
    requires forall k :: k in m1 ==> m1[k] == m2[k]
    ensures m1 == m2
  {
  }

  /** A duplicate-free extension of `s` whose every element is in `s` adds nothing. */
  lemma NothingNew<T>(s: seq<T>, t: seq<T>)
    requires s <= t && NoDup(t)
    requires forall x :: x in t ==> x in s
    ensures t == s
  {
    if |t| > |s| {
      RepeatedEntry(s, t);
      assert false;
    }
  }

  /** An entry past the prefix that the prefix holds already is a duplicate. */
  lemma RepeatedEntry<T>(s: seq<T>, t: seq<T>)
    requires s <= t && |s| < |t| && t[|s|] in s
    ensures !NoDup(t)
  {
    var k :| 0 <= k < |s| && s[k] == t[|s|];
    assert t[k] == t[|s|];
  }

  /**
   * A peer table as getRelatedCell builds it, up to the order of each list:
   * every grid cell maps to its peers, except that (r, 0) is dropped and the
   * cell itself takes its place when it is not (r, 0).
   */
  ghost predicate PeerTable(t: map<Cell, seq<Cell>>) {
    (forall c :: c in t <==> InGrid(c))
    && forall c, p :: InGrid(c) ==> (p in t[c] <==> (IsPeer(c, p) || p == c) && p != Cell(c.row, 0))
  }

  /** Every grid cell has a peer list, made of grid cells. */
  ghost predicate PeerListsOnGrid(relatedCells: map<Cell, seq<Cell>>) {
    forall c :: InGrid(c) ==> c in relatedCells && forall k :: k in relatedCells[c] ==> InGrid(k)
  }

  /** The trail holds an empty log for every cell the search has yet to assign. */
  ghost predicate CleanTrail(pruned: Pruned, assignment: Assignment, dom: Domain) {
    forall c :: c in dom && c !in assignment ==> c in pruned && pruned[c] == []
  }

  /** Assigning a cell keeps the trail clean for the cells still unassigned. */
  lemma AssignKeepsTrailClean(s: SearchState, v: Cell, value: int, related: seq<Cell>)
    requires forall k :: k in related ==> k in s.domain
    requires CleanTrail(s.pruned, s.assignment, s.domain)
    ensures var t := AssignEffect(s, v, value, related);
      CleanTrail(t.pruned, t.assignment, t.domain)
  {
  }

  /** Every domain of `d2` holds only values its counterpart in `d1` holds, no more often. */
  ghost predicate Within(d2: Domain, d1: Domain) {
    d2.Keys == d1.Keys && forall c :: c in d1 ==> multiset(d2[c]) <= multiset(d1[c])
  }

  /**
   * Narrowing one domain of a store: the result is Within the original, and
   * it is well formed when the original was and the narrowed list is.
   */
  lemma WithinPoint(d1: Domain, d0: Domain, c: Cell)
    requires d1.Keys == d0.Keys && c in d0
    requires forall k :: k in d0 && k != c ==> d1[k] == d0[k]
    requires multiset(d1[c]) <= multiset(d0[c])
    ensures Within(d1, d0)
    ensures (forall k :: k in d0 ==> d0[k] != [] && NoDup(d0[k])) && d1[c] != [] && NoDup(d1[c])
      ==> forall k :: k in d1 ==> d1[k] != [] && NoDup(d1[k])
  {
  }

  lemma SameMultisetsTrans(d3: Domain, d2: Domain, d1: Domain)
    requires SameMultisets(d3, d2) && SameMultisets(d2, d1)
    ensures SameMultisets(d3, d1)
  {
  }

  lemma WithinTrans(d3: Domain, d2: Domain, d1: Domain)
    requires Within(d3, d2) && (Within(d2, d1) || SameMultisets(d2, d1))
    ensures Within(d3, d1)
  {
  }

  /**
   * `out` keeps every entry of `base`, and gives each other cell a
   * one-element list holding one of that cell's candidates in `dom`.
   */
  ghost predicate Extends(out: Assignment, base: Assignment, dom: Domain) {
    (forall c :: c in base ==> c in out && out[c] == base[c])
    && forall c :: c in out && c !in base ==>
         c in dom && out[c].ListVal? && |out[c].items| == 1 && out[c].items[0] in dom[c]
  }

  /**
   * A search result extending the seeded assignment (every single-valued
   * domain, as a one-element list) gives every cell one of its candidates
   * and keeps the seeded values.
   */
  lemma SeededSolution(out: Assignment, seeded: Assignment, d: Domain)
    requires forall c :: c in seeded <==> c in d && |d[c]| == 1
    requires forall c :: c in seeded ==> seeded[c] == ListVal([d[c][0]])
    requires Extends(out, seeded, d)
    ensures forall c :: c in out ==> out[c].ListVal? && |out[c].items| == 1 && out[c].items[0] in d[c]
    ensures forall c :: c in d && |d[c]| == 1 ==> out[c] == ListVal(d[c])
  {
    forall c | c in out
      ensures out[c].ListVal? && |out[c].items| == 1 && out[c].items[0] in d[c]
    {
      if c in seeded {
        assert out[c] == ListVal([d[c][0]]);
      }
    }
    forall c | c in d && |d[c]| == 1 ensures out[c] == ListVal(d[c]) {
      assert d[c] == [d[c][0]];
    }
  }

  /** Extending the assignment made one step deeper extends the current one. */
  lemma ExtendsStep(out: Assignment, assignment: Assignment, v: Cell, value: int, d1: Domain, dom: Domain)
    requires v in dom && v !in assignment && value in dom[v]
    requires Extends(out, assignment[v := ListVal([value])], d1)
    requires SameMultisets(d1, dom)
    ensures Extends(out, assignment, dom)
  {
    forall c | c in out && c !in assignment && c != v
      ensures out[c].items[0] in dom[c]
    {
      assert out[c].items[0] in multiset(d1[c]);
    }
  }

  /** Candidates drawn from narrower domains are candidates of the wider ones. */
  lemma ExtendsWithin(out: Assignment, base: Assignment, d1: Domain, dom: Domain)
    requires Extends(out, base, d1) && Within(d1, dom)
    ensures Extends(out, base, dom)
  {
    forall c | c in out && c !in base ensures out[c].items[0] in dom[c] {
      assert out[c].items[0] in multiset(d1[c]);
    }
  }

  /** Every arc of the list that is not waiting in the queue is consistent. */
  ghost predicate ConsistentOutside(d: Domain, constraints: seq<Arc>, queue: seq<Arc>) {
    forall a :: a in constraints && a !in queue && a.xi in d && a.xj in d ==> ArcConsistent(d, a)
  }

  /** The rest of a duplicate-free queue of arcs from the arc list is one shorter and still such a queue. */
  lemma PopQueue(queue: seq<Arc>, constraints: seq<Arc>)
    requires queue != [] && NoDup(queue) && forall a :: a in queue ==> a in constraints
    ensures NoDup(queue[1..]) && |queue[1..]| < |queue|
    ensures queue[0] in constraints && forall a :: a in queue[1..] ==> a in constraints
  {
    assert queue[0] in queue;
  }

  /** Popping an arc that revise leaves alone: it is consistent already. */
  lemma PopConsistent(d: Domain, arc: Arc, constraints: seq<Arc>, queue0: seq<Arc>, queue: seq<Arc>)
    requires arc.xi in d && arc.xj in d
    requires queue0 != [] && queue0[0] == arc && queue == queue0[1..]
    requires ConsistentOutside(d, constraints, queue0)
    requires d[arc.xi] == Keep(d[arc.xi], d[arc.xj])
    ensures ConsistentOutside(d, constraints, queue)
  {
    assert queue0 == [arc] + queue;
    forall a | a in constraints && a !in queue && a.xi in d && a.xj in d ensures ArcConsistent(d, a) {
      if a != arc {
        assert a !in queue0;
      }
    }
  }

  /**
   * After revise narrows domain(Xi), every arc that points at Xi is back in
   * the queue; every other arc outside the queue is still consistent, since
   * its target is unchanged and its source can only have lost values.
   */
  lemma ReviseStep(d0: Domain, d1: Domain, arc: Arc, constraints: seq<Arc>, queue0: seq<Arc>, queue: seq<Arc>, queue1: seq<Arc>)
    requires arc.xi in d0 && arc.xj in d0 && arc.xi != arc.xj
    requires queue0 != [] && queue0[0] == arc && queue == queue0[1..]
    requires ConsistentOutside(d0, constraints, queue0)
    requires d1.Keys == d0.Keys
    requires forall c :: c in d0 && c != arc.xi ==> d1[c] == d0[c]
    requires d1[arc.xi] == Keep(d0[arc.xi], d0[arc.xj])
    requires forall a :: a in constraints && a.xj == arc.xi ==> a in queue1
    requires forall a :: a in queue ==> a in queue1
    ensures ConsistentOutside(d1, constraints, queue1)
  {
    assert queue0 == [arc] + queue;
    forall a | a in constraints && a !in queue1 && a.xi in d1 && a.xj in d1 ensures ArcConsistent(d1, a) {
      assert a.xj != arc.xi;
      assert d1[a.xj] == d0[a.xj];
      if a != arc {
        assert a !in queue0;
        assert ArcConsistent(d0, a);
      }
    }
  }

  /**
   * How ac3 ends: solved by propagation alone (it returns True), a wiped-out
   * domain (False), or, propagation having stalled, the search's verdict:
   * a solution (ac3 then returns None), or no solution.
   */
  datatype Outcome = Solved | Wipeout(cell: Cell) | SolvedBySearch(solution: Assignment) | SearchFailed

  class Sudoku {
    var puzzle: seq<seq<int>>
    var domain: Domain
    var constraints: seq<Arc>
    var subGrid: map<int, seq<Cell>>
    var relatedCells: map<Cell, seq<Cell>>
    var pruned: Pruned

    /** The box table and the peer table, as built from the grid. */
    ghost predicate TablesBuilt()
      reads this`subGrid, this`relatedCells
    {
      subGrid == BoxTable() && PeerTable(relatedCells)
    }

    /** The arc list: duplicate-free, and made of peer pairs. */
    ghost predicate ArcsOnGrid()
      reads this`constraints
    {
      NoDup(constraints) && forall a :: a in constraints ==> IsPeerArc(a)
    }

    /** Domains as getDomain makes them and AC-3 keeps them: non-empty and duplicate-free. */
    ghost predicate DomainsWellFormed()
      reads this
    {
      forall c :: c in domain ==> domain[c] != [] && NoDup(domain[c])
    }

    /**
     * __init__: read the grid (the file is not modelled: the grid is the
     * parameter), build its domains, an empty arc list, the box table, the
     * peer table and an empty trail entry per cell.
     */
    constructor (puzzle: seq<seq<int>>)
      requires IsGrid(puzzle)
      ensures this.puzzle == puzzle
      ensures domain == InitialDomain(puzzle) && DomainsWellFormed()
      ensures constraints == []
      ensures TablesBuilt()
      ensures forall c :: c in pruned <==> InGrid(c)
      ensures forall c :: InGrid(c) ==> pruned[c] == []
    {
      this.puzzle := puzzle;
      new;
      domain := GetDomain();
      constraints := [];
      subGrid := map[];
      GenerateSubGrid();
      BoxTableFromEmpty(subGrid);
      relatedCells := map[];
      GenerateRelatedCellsDomain();
      pruned := map[];
      GeneratePrunedSet();
      forall c | c in domain ensures domain[c] != [] && NoDup(domain[c]) {
        InitialDomainWellFormed(puzzle, c);
      }
      RelatedTableFromEmpty(relatedCells);
    }

    /**
     * getDomain(): walk the grid row by row (the source names the first
     * index `column`) and give a given digit `v` the domain [v], a blank
     * all of 1..9.
     */
    method GetDomain() returns (d: Domain)
      requires IsGrid(puzzle)
      ensures d == InitialDomain(puzzle)
    {
      d := map[];
      var column := 0;
      while column < |puzzle|
        invariant 0 <= column <= 9
        invariant forall c :: c in d <==> InGrid(c) && c.row < column
        invariant forall c :: c in d ==> d[c] == CellDomain(puzzle, c)
      {
        var row := 0;
        while row < |puzzle|
          invariant 0 <= row <= 9
          invariant forall c :: c in d <==> InGrid(c) && (c.row < column || (c.row == column && c.col < row))
          invariant forall c :: c in d ==> d[c] == CellDomain(puzzle, c)
        {
          var value := puzzle[column][row];
          if value != 0 {
            d := d[Cell(column, row) := [value]];
          } else {
            d := d[Cell(column, row) := Full()];
          }
          row := row + 1;
        }
        column := column + 1;
      }
      SameMap(d, InitialDomain(puzzle));
    }

    /**
     * generateSubGrid(): for boxes 0..8, append the box's cells, row by row,
     * to its entry (creating the entry on the first cell). Starting from an
     * empty table this builds BoxTable().
     */
    method GenerateSubGrid()
      modifies this`subGrid
      ensures forall b :: b in subGrid <==> b in old(subGrid) || 0 <= b < 9
      ensures forall b :: 0 <= b < 9 ==> subGrid[b] == Lookup(old(subGrid), b) + BoxCells(b)
      ensures forall b :: b in old(subGrid) && !(0 <= b < 9) ==> subGrid[b] == old(subGrid)[b]
    {
      var r := 0;
      var c := 0;
      var box := 0;
      while box < 9
        invariant 0 <= box <= 9
        invariant forall b :: b in subGrid <==> b in old(subGrid) || 0 <= b < box
        invariant forall b :: 0 <= b < box ==> subGrid[b] == Lookup(old(subGrid), b) + BoxCells(b)
        invariant forall b :: b in old(subGrid) && !(0 <= b < box) ==> subGrid[b] == old(subGrid)[b]
      {
        if box == 0 || box == 1 || box == 2 {
          r := 0;
        } else if box == 3 || box == 4 || box == 5 {
          r := 3;
        } else if box == 6 || box == 7 || box == 8 {
          r := 6;
        }
        c := box % 3 * 3;
        FillBox(box, r, c);
        box := box + 1;
      }
    }

    /** The two inner loops of generateSubGrid for one box whose top-left cell is (r, c). */
    method FillBox(box: int, r: int, c: int)
      requires 0 <= box < 9 && r == (box / 3) * 3 && c == (box % 3) * 3
      modifies this`subGrid
      ensures forall b :: b in subGrid <==> b in old(subGrid) || b == box
      ensures subGrid[box] == Lookup(old(subGrid), box) + BoxCells(box)
      ensures forall b :: b in old(subGrid) && b != box ==> subGrid[b] == old(subGrid)[b]
    {
      var row := r;
      while row < r + 3
        invariant r <= row <= r + 3
        invariant subGrid == Filled(old(subGrid), box, 3 * (row - r))
      {
        var col := c;
        while col < c + 3
          invariant c <= col <= c + 3
          invariant subGrid == Filled(old(subGrid), box, 3 * (row - r) + (col - c))
        {
          FilledStep(old(subGrid), box, row - r, col - c);
          if box !in subGrid {
            subGrid := subGrid[box := [Cell(row, col)]];
          } else {
            subGrid := subGrid[box := subGrid[box] + [Cell(row, col)]];
          }
          col := col + 1;
        }
        row := row + 1;
      }
      FilledSpec(old(subGrid), box);
    }

    /**
     * generateRelatedCellsDomain(): give every cell of the domain its
     * getRelatedCell list. The domain's keys are visited in the order
     * getDomain inserted them, AllCells().
     */
    method GenerateRelatedCellsDomain()
      requires subGrid == BoxTable()
      requires forall c :: c in domain <==> InGrid(c)
      modifies this`relatedCells
      ensures forall c :: c in relatedCells <==> c in old(relatedCells) || c in domain
      ensures forall c :: c in domain ==> relatedCells[c] == GetRelatedCell(subGrid, c)
      ensures forall c :: c in old(relatedCells) && c !in domain ==> relatedCells[c] == old(relatedCells)[c]
    {
      var keys := AllCells();
      var i := 0;
      while i < |keys|
        invariant 0 <= i <= |keys|
        invariant forall c :: c in relatedCells <==> c in old(relatedCells) || c in keys[..i]
        invariant forall c :: c in keys[..i] ==> relatedCells[c] == GetRelatedCell(subGrid, c)
        invariant forall c :: c in old(relatedCells) && c !in keys[..i] ==> relatedCells[c] == old(relatedCells)[c]
      {
        var coordinate := keys[i];
        assert keys[..i + 1] == keys[..i] + [coordinate];
        var related := GetRelatedCell(subGrid, coordinate);
        relatedCells := relatedCells[coordinate := related];
        i := i + 1;
      }
      assert keys[..i] == keys;
      AllCellsSpec();
    }

    /** generatePrunedSet(): an empty trail entry for every cell of the domain. */
    method GeneratePrunedSet()
      requires forall c :: c in domain <==> InGrid(c)
      modifies this`pruned
      ensures forall c :: c in pruned <==> c in old(pruned) || c in domain
      ensures forall c :: c in domain ==> pruned[c] == []
      ensures forall c :: c in old(pruned) && c !in domain ==> pruned[c] == old(pruned)[c]
    {
      AllCellsSpec();
      var keys := AllCells();
      var i := 0;
      while i < |keys|
        invariant 0 <= i <= |keys|
        invariant forall c :: c in pruned <==> c in old(pruned) || c in keys[..i]
        invariant forall c :: c in keys[..i] ==> pruned[c] == []
        invariant forall c :: c in old(pruned) && c !in keys[..i] ==> pruned[c] == old(pruned)[c]
      {
        var coordinate := keys[i];
        assert keys[..i + 1] == keys[..i] + [coordinate];
        pruned := pruned[coordinate := []];
        i := i + 1;
      }
      assert keys[..i] == keys;
    }

  
    /** The peer table built from the grid lists, for every grid cell, grid cells only. */
    lemma PeerListsFromTables()
      requires TablesBuilt()
      ensures PeerListsOnGrid(relatedCells)
    {
    }

    /**
     * The two guarded appends every add*Constraints loop makes for a pair of
     * cells: the arc (x, y), then (y, x), each only when not listed yet.
     */
    method AddArcPair(x: Cell, y: Cell)
      requires NoDup(constraints)
      modifies this`constraints
      ensures old(constraints) <= constraints && NoDup(constraints)
      ensures forall a :: a in constraints <==> a in old(constraints) || a == Arc(x, y) || a == Arc(y, x)
    {
      if Arc(x, y) !in constraints {
        NoDupConcat(constraints, [Arc(x, y)]);
        constraints := constraints + [Arc(x, y)];
      }
      if Arc(y, x) !in constraints {
        NoDupConcat(constraints, [Arc(y, x)]);
        constraints := constraints + [Arc(y, x)];
      }
    }

    /**
     * addRowConstraints(row): for every pair of columns i < j, the arcs
     * between (row, i) and (row, j) in both directions, skipping any
     * already listed. The list only grows, at its end, without duplicates.
     */
    method AddRowConstraints(row: int)
      requires |puzzle| == 9 && 0 <= row < 9
      requires NoDup(constraints)
      modifies this`constraints
      ensures old(constraints) <= constraints && NoDup(constraints)
      ensures forall a :: a in constraints <==> a in old(constraints) || RowArc(row, a)
    {
      var i := 0;
      while i < |puzzle| - 1
        invariant 0 <= i <= 8
        invariant old(constraints) <= constraints && NoDup(constraints)
        invariant forall a :: a in constraints <==> a in old(constraints) || (RowArc(row, a) && (a.xi.col < i || a.xj.col < i))
      {
        var j := i + 1;
        while j < |puzzle|
          invariant i + 1 <= j <= 9
          invariant old(constraints) <= constraints && NoDup(constraints)
          invariant forall a :: a in constraints <==> (a in old(constraints) || (RowArc(row, a) &&
            (a.xi.col < i || a.xj.col < i || (a.xi.col == i && a.xj.col < j) || (a.xj.col == i && a.xi.col < j))))
        {
          AddArcPair(Cell(row, i), Cell(row, j));
          j := j + 1;
        }
        i := i + 1;
      }
    }

    /** addColumnConstraints(col): the column counterpart of addRowConstraints. */
    method AddColumnConstraints(col: int)
      requires |puzzle| == 9 && 0 <= col < 9
      requires NoDup(constraints)
      modifies this`constraints
      ensures old(constraints) <= constraints && NoDup(constraints)
      ensures forall a :: a in constraints <==> a in old(constraints) || ColumnArc(col, a)
    {
      var i := 0;
      while i < |puzzle| - 1
        invariant 0 <= i <= 8
        invariant old(constraints) <= constraints && NoDup(constraints)
        invariant forall a :: a in constraints <==> a in old(constraints) || (ColumnArc(col, a) && (a.xi.row < i || a.xj.row < i))
      {
        var j := i + 1;
        while j < |puzzle|
          invariant i + 1 <= j <= 9
          invariant old(constraints) <= constraints && NoDup(constraints)
          invariant forall a :: a in constraints <==> (a in old(constraints) || (ColumnArc(col, a) &&
            (a.xi.row < i || a.xj.row < i || (a.xi.row == i && a.xj.row < j) || (a.xj.row == i && a.xi.row < j))))
        {
          AddArcPair(Cell(i, col), Cell(j, col));
          j := j + 1;
        }
        i := i + 1;
      }
    }

    /**
     * addSquareConstraints(square): for every ordered pair of different
     * cells listed for the box, both arcs, skipping any already listed.
     */
    method AddSquareConstraints(square: int)
      requires square in subGrid
      requires NoDup(constraints)
      modifies this`constraints
      ensures old(constraints) <= constraints && NoDup(constraints)
      ensures forall a :: a in constraints <==> (a in old(constraints)
        || (a.xi in subGrid[square] && a.xj in subGrid[square] && a.xi != a.xj))
    {
      var squareArcs := subGrid[square];
      var p := 0;
      while p < |squareArcs|
        invariant 0 <= p <= |squareArcs|
        invariant old(constraints) <= constraints && NoDup(constraints)
        invariant forall a :: a in constraints <==> (a in old(constraints)
          || (a.xi in squareArcs && a.xj in squareArcs && a.xi != a.xj && (a.xi in squareArcs[..p] || a.xj in squareArcs[..p])))
      {
        var q := 0;
        while q < |squareArcs|
          invariant 0 <= q <= |squareArcs|
          invariant old(constraints) <= constraints && NoDup(constraints)
          invariant forall a :: a in constraints <==> (a in old(constraints)
            || (a.xi in squareArcs && a.xj in squareArcs && a.xi != a.xj
                && (a.xi in squareArcs[..p] || a.xj in squareArcs[..p]
                    || (a.xi == squareArcs[p] && a.xj in squareArcs[..q])
                    || (a.xj == squareArcs[p] && a.xi in squareArcs[..q]))))
        {
          assert squareArcs[..q + 1] == squareArcs[..q] + [squareArcs[q]];
          if squareArcs[p] != squareArcs[q] {
            AddArcPair(squareArcs[p], squareArcs[q]);
          }
          q := q + 1;
        }
        assert squareArcs[..p + 1] == squareArcs[..p] + [squareArcs[p]];
        assert squareArcs[..q] == squareArcs;
        p := p + 1;
      }
      assert squareArcs[..p] == squareArcs;
    }

    /**
     * generateConstraints(): rows, columns and boxes 0..8 in turn. Added to
     * an arc list, it lists every peer arc exactly once; a list that holds
     * every peer arc already is left as it is.
     */
    method GenerateConstraints()
      requires |puzzle| == 9 && subGrid == BoxTable()
      requires NoDup(constraints)
      modifies this`constraints
      ensures old(constraints) <= constraints && NoDup(constraints)
      ensures forall a :: a in constraints <==> a in old(constraints) || IsPeerArc(a)
      ensures (forall a :: IsPeerArc(a) ==> a in old(constraints)) ==> constraints == old(constraints)
    {
      var i := 0;
      while i < |puzzle|
        invariant 0 <= i <= 9
        invariant old(constraints) <= constraints && NoDup(constraints)
        invariant forall a :: a in constraints <==> a in old(constraints) || UnitArcBefore(i, a)
      {
        AddRowConstraints(i);
        AddColumnConstraints(i);
        AddSquareConstraints(i);
        forall a ensures a in constraints <==> a in old(constraints) || UnitArcBefore(i + 1, a) {
          BoxPartition(i, a.xi);
          BoxPartition(i, a.xj);
          UnitArcNext(i, a);
        }
        i := i + 1;
      }
      forall a ensures IsPeerArc(a) <==> UnitArcBefore(9, a) {
        PeerArcUnits(a);
      }
      if forall a :: IsPeerArc(a) ==> a in old(constraints) {
        NothingNew(old(constraints), constraints);
      }
    }

    /**
     * revise(arc): walk domain(Xi) as Python's list iterator does (by
     * position, over the live list) and remove every value that has no
     * support in domain(Xj). A removal shifts the list, so the value after a
     * removed one is skipped.
     */
    method Revise(arc: Arc) returns (revised: bool)
      requires arc.xi in domain && arc.xj in domain
      modifies this`domain
      ensures domain.Keys == old(domain).Keys
      ensures forall c :: c in domain && c != arc.xi ==> domain[c] == old(domain)[c]
      ensures multiset(domain[arc.xi]) <= multiset(old(domain)[arc.xi])
      ensures revised <==> |domain[arc.xi]| < |old(domain)[arc.xi]|
      ensures !revised ==> domain == old(domain)
      ensures arc.xi != arc.xj && old(domain)[arc.xj] != [] && NoDup(old(domain)[arc.xi]) && NoDup(old(domain)[arc.xj])
        ==> domain[arc.xi] == Keep(old(domain)[arc.xi], old(domain)[arc.xj])
    {
      ghost var source := domain[arc.xi];
      ghost var target := domain[arc.xj];
      ghost var exact := arc.xi != arc.xj && target != [] && NoDup(source) && NoDup(target);
      revised := false;
      var values := domain[arc.xi];
      var i := 0;
      while i < |values|
        invariant domain == old(domain)[arc.xi := values]
        invariant ReviseScan(source, target, exact, values, i, revised)
        decreases |values| + 1 - i
      {
        var x := values[i];
        ReviseScanStep(source, target, exact, domain[arc.xj], values, i, revised);
        i := i + 1;
        if !CheckConstraint(x, domain[arc.xj]) {
          values := RemoveFirst(values, x);
          domain := domain[arc.xi := values];
          revised := true;
        }
      }
      ReviseScanDone(source, target, exact, values, i, revised);
      if !revised {
        assert domain == old(domain);
      }
    }
  
    /**
     * assign(var, value, assignment, domain): the search's assignment and
     * its domain copy are passed in and handed back; the trail is the field.
     */
    method Assign(v: Cell, value: int, assignment: Assignment, dom: Domain) returns (assignmentOut: Assignment, domainOut: Domain)
      requires v in relatedCells && forall k :: k in relatedCells[v] ==> k in dom
      modifies this`pruned
      ensures SearchState(assignmentOut, domainOut, pruned)
        == AssignEffect(SearchState(assignment, dom, old(pruned)), v, value, relatedCells[v])
    {
      assignmentOut := assignment[v := ListVal([value])];
      domainOut := dom;
      if |dom| > 0 {
        domainOut := ForwardCheck(v, value, assignmentOut, dom);
      }
    }

    /** assign's loop over the related cells of `v`, logging each removal under `v`. */
    method ForwardCheck(v: Cell, value: int, assignment: Assignment, dom: Domain) returns (domainOut: Domain)
      requires v in relatedCells && forall k :: k in relatedCells[v] ==> k in dom
      modifies this`pruned
      ensures domainOut == Prune(relatedCells[v], value, assignment, dom).domain
      ensures pruned == LogTrail(old(pruned), v, Prune(relatedCells[v], value, assignment, dom).trail)
    {
      domainOut := dom;
      var related := relatedCells[v];
      var i := 0;
      assert related[..0] == [];
      while i < |related|
        invariant 0 <= i <= |related|
        invariant domainOut == Prune(related[..i], value, assignment, dom).domain
        invariant pruned == LogTrail(old(pruned), v, Prune(related[..i], value, assignment, dom).trail)
      {
        var cell := related[i];
        ForwardStep(related, i, value, assignment, dom, domainOut, old(pruned), pruned, v);
        if cell !in assignment && value in domainOut[cell] {
          domainOut := domainOut[cell := RemoveFirst(domainOut[cell], value)];
          if v !in pruned {
            pruned := pruned[v := [Removal(cell, value)]];
          } else {
            pruned := pruned[v := pruned[v] + [Removal(cell, value)]];
          }
        }
        i := i + 1;
      }
      assert related[..|related|] == related;
    }

    /** unAssign(var, assignment, domain): undo the forward checking logged under `v`. */
    method UnAssign(v: Cell, assignment: Assignment, dom: Domain) returns (assignmentOut: Assignment, domainOut: Domain)
      requires v in assignment ==> v in pruned && forall r :: r in pruned[v] ==> r.cell in dom
      modifies this`pruned
      ensures SearchState(assignmentOut, domainOut, pruned) == UnAssignEffect(SearchState(assignment, dom, old(pruned)), v)
    {
      assignmentOut := assignment;
      domainOut := dom;
      if v in assignment {
        var trail := pruned[v];
        var i := 0;
        while i < |trail|
          invariant 0 <= i <= |trail|
          invariant forall r :: r in trail[..i] ==> r.cell in dom
          invariant domainOut == Restore(dom, trail[..i])
        {
          var r := trail[i];
          assert trail[..i + 1][..i] == trail[..i];
          assert trail[..i + 1] == trail[..i] + [r];
          domainOut := domainOut[r.cell := domainOut[r.cell] + [r.value]];
          i := i + 1;
        }
        assert trail[..|trail|] == trail;
        pruned := pruned[v := []];
        assignmentOut := assignment - {v};
      }
    }
  
    /**
     * backtrack(assignment, domain): done when every cell is assigned;
     * otherwise pick the next cell by minimum remaining values and try its
     * values in least-constraining order.
     *
     * A solution assigns every cell, keeps the given assignment, and gives
     * each new cell a one-element list holding one of its candidates. A
     * failure hands back the assignment and the trail as they were and the
     * domains with the same values.
     */
    method Backtrack(assignment: Assignment, dom: Domain) returns (result: Option<Assignment>, assignmentOut: Assignment, domainOut: Domain)
      requires forall c :: c in dom <==> InGrid(c)
      requires PeerListsOnGrid(relatedCells)
      requires assignment.Keys <= dom.Keys
      requires CleanTrail(pruned, assignment, dom)
      modifies this`pruned
      ensures forall c :: c in old(pruned) ==> c in pruned
      ensures Within(domainOut, dom)
      ensures result.Some? ==> result.value == assignmentOut && assignmentOut.Keys == dom.Keys
      ensures result.Some? ==> Extends(assignmentOut, assignment, dom)
      ensures result.None? ==> assignmentOut == assignment && pruned == old(pruned) && SameMultisets(domainOut, dom)
      decreases dom.Keys - assignment.Keys, 2
    {
      SubsetCard(assignment.Keys, dom.Keys);
      if |assignment| == |dom| {
        return Some(assignment), assignment, dom;
      }
      AllCellsSpec();
      ghost var unassigned :| unassigned in dom && unassigned !in assignment;
      assert unassigned in AllCells();
      var v := SelectUnassignedVariable(dom, assignment, AllCells());
      var ordered := OrderDomainValues(v, dom, relatedCells);
      assert forall x :: x in ordered ==> x in dom[v] by {
        forall x | x in ordered ensures x in dom[v] {
          assert x in multiset(ordered);
        }
      }
      result, assignmentOut, domainOut := TryValues(v, ordered, assignment, dom);
    }

    /** backtrack's loop over the ordered values of `v`: the first that leads to a solution wins. */
    method TryValues(v: Cell, ordered: seq<int>, assignment: Assignment, dom: Domain)
      returns (result: Option<Assignment>, assignmentOut: Assignment, domainOut: Domain)
      requires forall c :: c in dom <==> InGrid(c)
      requires PeerListsOnGrid(relatedCells)
      requires assignment.Keys <= dom.Keys
      requires CleanTrail(pruned, assignment, dom)
      requires v in dom && v !in assignment
      requires forall x :: x in ordered ==> x in dom[v]
      modifies this`pruned
      ensures forall c :: c in old(pruned) ==> c in pruned
      ensures Within(domainOut, dom)
      ensures result.Some? ==> result.value == assignmentOut && assignmentOut.Keys == dom.Keys
      ensures result.Some? ==> Extends(assignmentOut, assignment, dom)
      ensures result.None? ==> assignmentOut == assignment && pruned == old(pruned) && SameMultisets(domainOut, dom)
      decreases dom.Keys - assignment.Keys, 1
    {
      assignmentOut, domainOut := assignment, dom;
      var i := 0;
      while i < |ordered|
        invariant assignmentOut == assignment
        invariant SameMultisets(domainOut, dom)
        invariant pruned == old(pruned)
      {
        var value := ordered[i];
        if IsConsistence(v, value, assignmentOut, relatedCells[v]) {
          var r, a2, d2 := TryValue(v, value, assignmentOut, domainOut);
          if r.Some? {
            ExtendsStep(a2, assignment, v, value, domainOut, dom);
            WithinTrans(d2, domainOut, dom);
            return r, a2, d2;
          }
          SameMultisetsTrans(d2, domainOut, dom);
          assignmentOut, domainOut := a2, d2;
        }
        i := i + 1;
      }
      result := None;
    }

    /**
     * One pass of backtrack's loop body: assign `value` to `v` with forward
     * checking, recurse, and on failure undo the assignment.
     */
    method TryValue(v: Cell, value: int, assignment: Assignment, dom: Domain)
      returns (result: Option<Assignment>, assignmentOut: Assignment, domainOut: Domain)
      requires forall c :: c in dom <==> InGrid(c)
      requires PeerListsOnGrid(relatedCells)
      requires assignment.Keys <= dom.Keys
      requires CleanTrail(pruned, assignment, dom)
      requires v in dom && v !in assignment
      modifies this`pruned
      ensures forall c :: c in old(pruned) ==> c in pruned
      ensures Within(domainOut, dom)
      ensures result.Some? ==> result.value == assignmentOut && assignmentOut.Keys == dom.Keys
      ensures result.Some? ==> Extends(assignmentOut, assignment[v := ListVal([value])], dom)
      ensures result.None? ==> assignmentOut == assignment && pruned == old(pruned) && SameMultisets(domainOut, dom)
      decreases dom.Keys - assignment.Keys, 0
    {
      ghost var before := SearchState(assignment, dom, pruned);
      var a1, d1 := Assign(v, value, assignment, dom);
      AssignKeepsTrailClean(before, v, value, relatedCells[v]);
      assert dom.Keys - a1.Keys < dom.Keys - assignment.Keys by {
        assert v in dom.Keys - assignment.Keys && v !in dom.Keys - a1.Keys;
      }
      var r, a2, d2 := Backtrack(a1, d1);
      if r.Some? {
        ExtendsWithin(a2, a1, d1, dom);
        WithinTrans(d2, d1, dom);
        return r, a2, d2;
      }
      AssignUnAssignRoundTrip(before, v, value, relatedCells[v], SearchState(a2, d2, pruned));
      assignmentOut, domainOut := UnAssign(v, a2, d2);
      result := None;
    }
  
    /**
     * backtracking_search(domain): seed the assignment with every cell whose
     * domain is already a single value, then search a copy of the domain
     * store. A solution assigns each cell a one-element list holding one of
     * its candidates, and keeps the seeded cells' values.
     */
    method BacktrackingSearch(d: Domain) returns (solution: Option<Assignment>)
      requires forall c :: c in d <==> InGrid(c)
      requires PeerListsOnGrid(relatedCells)
      requires forall c :: InGrid(c) ==> c in pruned && pruned[c] == []
      modifies this`pruned
      ensures forall c :: c in old(pruned) ==> c in pruned
      ensures solution.Some? ==> forall c :: c in solution.value <==> InGrid(c)
      ensures solution.Some? ==> forall c :: c in solution.value ==>
        solution.value[c].ListVal? && |solution.value[c].items| == 1 && solution.value[c].items[0] in d[c]
      ensures solution.Some? ==> forall c :: InGrid(c) && |d[c]| == 1 ==> solution.value[c] == ListVal(d[c])
    {
      AllCellsSpec();
      var cells := AllCells();
      var assignment: Assignment := map[];
      var k := 0;
      while k < |cells|
        invariant 0 <= k <= |cells|
        invariant forall c :: c in assignment <==> c in cells[..k] && |d[c]| == 1
        invariant forall c :: c in assignment ==> assignment[c] == ListVal([d[c][0]])
      {
        var cell := cells[k];
        assert cells[..k + 1] == cells[..k] + [cell];
        if |d[cell]| == 1 {
          assignment := assignment[cell := ListVal([d[cell][0]])];
        }
        k := k + 1;
      }
      assert cells[..k] == cells;
      var domainCopy := d;
      var result, _, _ := Backtrack(assignment, domainCopy);
      solution := result;
      if result.Some? {
        SeededSolution(result.value, assignment, d);
      }
    }

    /**
     * The re-queuing step of ac3: append, in arc-list order, every arc whose
     * right-hand cell is `xi` and that is not waiting already.
     */
    method Requeue(xi: Cell, queue: seq<Arc>) returns (queueOut: seq<Arc>)
      requires NoDup(queue)
      ensures |queue| <= |queueOut| && queueOut[..|queue|] == queue
      ensures NoDup(queueOut)
      ensures forall a :: a in queueOut <==> a in queue || (a in constraints && a.xj == xi)
    {
      queueOut := queue;
      var k := 0;
      while k < |constraints|
        invariant 0 <= k <= |constraints|
        invariant |queue| <= |queueOut| && queueOut[..|queue|] == queue
        invariant NoDup(queueOut)
        invariant forall a :: a in queueOut <==> a in queue || (a in constraints[..k] && a.xj == xi)
      {
        var x := constraints[k];
        assert constraints[..k + 1] == constraints[..k] + [x];
        if xi == x.xj && x !in queueOut {
          NoDupConcat(queueOut, [x]);
          queueOut := queueOut + [x];
        }
        k := k + 1;
      }
      assert constraints[..k] == constraints;
    }

    /**
     * The queue loop of ac3: revise arcs until the queue drains, or stop at
     * the first cell whose domain revise empties.
     */
    method Propagate() returns (wipeout: Option<Cell>)
      requires (forall c :: c in domain <==> InGrid(c)) && DomainsWellFormed()
      requires NoDup(constraints) && forall a :: a in constraints ==> IsPeerArc(a)
      modifies this`domain
      ensures forall c :: c in domain <==> InGrid(c)
      ensures Within(domain, old(domain))
      ensures wipeout.Some? ==> wipeout.value in domain && domain[wipeout.value] == []
      ensures wipeout.None? ==> DomainsWellFormed()
      ensures wipeout.None? ==> forall a :: a in constraints && a.xi in domain && a.xj in domain ==> ArcConsistent(domain, a)
    {
      AllCellsSpec();
      var queue := constraints;
      while |queue| != 0
        invariant forall c :: c in domain <==> InGrid(c)
        invariant DomainsWellFormed()
        invariant Within(domain, old(domain))
        invariant NoDup(queue) && forall a :: a in queue ==> a in constraints
        invariant ConsistentOutside(domain, constraints, queue)
        decreases SizeSum(domain, AllCells()), |queue|
      {
        ghost var before := domain;
        var wiped;
        queue, wiped := ReviseFront(queue);
        WithinTrans(domain, before, old(domain));
        if wiped.Some? {
          return wiped;
        }
      }
      wipeout := None;
    }

    /**
     * One turn of ac3's queue loop: pop the front arc and revise it; on a
     * wipe-out report the emptied cell, otherwise re-queue the arcs that
     * point at a narrowed domain. Either the domains shrink, or they are
     * unchanged and the queue is one arc shorter.
     */
    method ReviseFront(queue: seq<Arc>) returns (queueOut: seq<Arc>, wipeout: Option<Cell>)
      requires queue != []
      requires (forall c :: c in domain <==> InGrid(c)) && DomainsWellFormed()
      requires forall a :: a in constraints ==> IsPeerArc(a)
      requires NoDup(queue) && forall a :: a in queue ==> a in constraints
      requires ConsistentOutside(domain, constraints, queue)
      modifies this`domain
      ensures forall c :: c in domain <==> InGrid(c)
      ensures Within(domain, old(domain))
      ensures wipeout.Some? ==> wipeout.value in domain && domain[wipeout.value] == []
      ensures wipeout.None? ==> DomainsWellFormed()
      ensures wipeout.None? ==> NoDup(queueOut) && forall a :: a in queueOut ==> a in constraints
      ensures wipeout.None? ==> ConsistentOutside(domain, constraints, queueOut)
      ensures wipeout.None? ==> SizeSum(domain, AllCells()) < SizeSum(old(domain), AllCells())
                                || (domain == old(domain) && |queueOut| < |queue|)
    {
      AllCellsSpec();
      var arc := queue[0];
      queueOut := queue[1..];
      PopQueue(queue, constraints);
      var revised := Revise(arc);
      WithinPoint(domain, old(domain), arc.xi);
      assert arc.xi != arc.xj;
      if revised {
        if |domain[arc.xi]| == 0 {
          return queueOut, Some(arc.xi);
        }
        PointUpdate(domain, old(domain), arc.xi);
        SizeSumShrinks(old(domain), AllCells(), arc.xi, domain[arc.xi]);
        ghost var waiting := queueOut;
        queueOut := Requeue(arc.xi, queueOut);
        ReviseStep(old(domain), domain, arc, constraints, queue, waiting, queueOut);
      } else {
        PopConsistent(domain, arc, constraints, queue, queueOut);
      }
      wipeout := None;
    }

    /**
     * ac3(): propagate from a copy of the arc list, popping at the front and
     * re-queuing at the back every arc that points at a narrowed domain.
     * Stop with Wipeout at the first domain revise empties. Otherwise, once
     * the queue drains, every arc is consistent; the puzzle is Solved when
     * every domain is a single value, and is handed to the search otherwise.
     */
    method Ac3() returns (outcome: Outcome)
      requires (forall c :: c in domain <==> InGrid(c)) && ArcsOnGrid() && DomainsWellFormed()
      requires PeerListsOnGrid(relatedCells)
      requires forall c :: InGrid(c) ==> c in pruned && pruned[c] == []
      modifies this`domain, this`pruned
      ensures forall c :: c in domain <==> InGrid(c)
      ensures Within(domain, old(domain))
      ensures outcome.Wipeout? ==> outcome.cell in domain && domain[outcome.cell] == []
      ensures !outcome.Wipeout? ==> DomainsWellFormed()
      ensures !outcome.Wipeout? ==> forall a :: a in constraints ==> ArcConsistent(domain, a)
      ensures outcome.Solved? ==> SolvedCheck(domain, AllCells())
      ensures outcome.SolvedBySearch? || outcome.SearchFailed? ==> !SolvedCheck(domain, AllCells())
      ensures outcome.SolvedBySearch? ==> forall c :: c in outcome.solution <==> InGrid(c)
      ensures outcome.SolvedBySearch? ==> forall c :: c in outcome.solution ==>
        outcome.solution[c].ListVal? && |outcome.solution[c].items| == 1 && outcome.solution[c].items[0] in domain[c]
    {
      var wipeout := Propagate();
      if wipeout.Some? {
        return Wipeout(wipeout.value);
      }
      if SolvedCheck(domain, AllCells()) {
        return Solved;
      }
      var solution := BacktrackingSearch(domain);
      if solution.Some? {
        outcome := SolvedBySearch(solution.value);
      } else {
        outcome := SearchFailed;
      }
    }
  }

  /**
   * When propagation alone solves the grid (every peer arc consistent, every
   * domain a single value), peers hold different digits: the grid is a
   * solution.
   */
  lemma SolvedByPropagation(d: Domain, constraints: seq<Arc>)
    requires forall c :: c in d <==> InGrid(c)
    requires forall a :: IsPeerArc(a) ==> a in constraints
    requires forall a :: a in constraints && a.xi in d && a.xj in d ==> ArcConsistent(d, a)
    requires SolvedCheck(d, AllCells())
    ensures forall c :: InGrid(c) ==> |d[c]| == 1
    ensures forall p, q :: IsPeer(p, q) ==> d[p][0] != d[q][0]
  {
    forall c | InGrid(c) ensures |d[c]| == 1 {
      AllCellsAt(c);
    }
    forall p, q | IsPeer(p, q) ensures d[p][0] != d[q][0] {
      assert ArcConsistent(d, Arc(p, q));
      assert d[p][0] in d[p];
      var y :| y in d[q] && y != d[p][0];
      assert d[q] == [d[q][0]];
    }
  }

  /** Domains that only lost values, and none of which is empty, keep every given digit. */
  lemma GivensKept(d: Domain, puzzle: seq<seq<int>>)
    requires IsGrid(puzzle)
    requires Within(d, InitialDomain(puzzle))
    requires forall c :: c in d ==> d[c] != []
    ensures forall c :: InGrid(c) && puzzle[c.row][c.col] != 0 ==> d[c] == [puzzle[c.row][c.col]]
  {
    forall c | InGrid(c) && puzzle[c.row][c.col] != 0 ensures d[c] == [puzzle[c.row][c.col]] {
      assert InitialDomain(puzzle)[c] == [puzzle[c.row][c.col]];
      SingletonWithin(d[c], puzzle[c.row][c.col]);
    }
  }

  /** A search result drawn from domains that kept the givens keeps them too. */
  lemma SearchKeepsGivens(solution: Assignment, d: Domain, puzzle: seq<seq<int>>)
    requires IsGrid(puzzle)
    requires forall c :: c in solution <==> InGrid(c)
    requires forall c :: InGrid(c) ==> c in d
    requires forall c :: c in solution ==>
      solution[c].ListVal? && |solution[c].items| == 1 && solution[c].items[0] in d[c]
    requires forall c :: InGrid(c) && puzzle[c.row][c.col] != 0 ==> d[c] == [puzzle[c.row][c.col]]
    ensures forall c :: InGrid(c) && puzzle[c.row][c.col] != 0 ==> solution[c] == ListVal([puzzle[c.row][c.col]])
  {
    forall c | InGrid(c) && puzzle[c.row][c.col] != 0 ensures solution[c] == ListVal([puzzle[c.row][c.col]]) {
      assert solution[c].items == [solution[c].items[0]];
    }
  }

  /**
   * The first two steps of main.py: the solver for a grid, with its arcs
   * generated. Its domains are the grid's, its arcs exactly the peer arcs,
   * and its trail is empty.
   */
  method Build(puzzle: seq<seq<int>>) returns (sudoku: Sudoku)
    requires IsGrid(puzzle)
    ensures fresh(sudoku)
    ensures sudoku.domain == InitialDomain(puzzle) && sudoku.DomainsWellFormed()
    ensures sudoku.ArcsOnGrid() && forall a :: a in sudoku.constraints <==> IsPeerArc(a)
    ensures PeerListsOnGrid(sudoku.relatedCells)
    ensures forall c :: InGrid(c) ==> c in sudoku.pruned && sudoku.pruned[c] == []
  {
    sudoku := new Sudoku(puzzle);
    sudoku.GenerateConstraints();
    sudoku.PeerListsFromTables();
  }

  /** Every given of the puzzle is its cell's only candidate. */
  ghost predicate GivensKeptIn(d: Domain, puzzle: seq<seq<int>>)
    requires IsGrid(puzzle)
  {
    forall c :: InGrid(c) && puzzle[c.row][c.col] != 0 ==> c in d && d[c] == [puzzle[c.row][c.col]]
  }

  /** Every cell holds one value and no two peers hold the same one: a solved grid. */
  ghost predicate SolvedGrid(d: Domain) {
    (forall c :: InGrid(c) ==> c in d && |d[c]| == 1)
    && forall p, q :: IsPeer(p, q) ==> d[p][0] != d[q][0]
  }

  /** The assignment covers the grid and gives every given cell its given, as a one-element list. */
  ghost predicate GivensAssigned(solution: Assignment, puzzle: seq<seq<int>>)
    requires IsGrid(puzzle)
  {
    (forall c :: c in solution <==> InGrid(c))
    && forall c :: InGrid(c) && puzzle[c.row][c.col] != 0 ==> solution[c] == ListVal([puzzle[c.row][c.col]])
  }

  /**
   * main.py's run: build the solver for a grid, generate the arcs, run ac3.
   * The arc list is exactly the peer arcs. Unless a domain is wiped out,
   * every given digit is kept, and a grid solved by propagation alone gives
   * peers different digits.
   */
  method SolvePuzzle(puzzle: seq<seq<int>>) returns (sudoku: Sudoku, outcome: Outcome)
    requires IsGrid(puzzle)
    ensures forall a :: a in sudoku.constraints <==> IsPeerArc(a)
    ensures forall c :: c in sudoku.domain <==> InGrid(c)
    ensures Within(sudoku.domain, InitialDomain(puzzle))
    ensures outcome.Wipeout? ==> outcome.cell in sudoku.domain && sudoku.domain[outcome.cell] == []
    ensures !outcome.Wipeout? ==> GivensKeptIn(sudoku.domain, puzzle)
    ensures outcome.Solved? ==> SolvedGrid(sudoku.domain)
    ensures outcome.SolvedBySearch? ==> GivensAssigned(outcome.solution, puzzle)
  {
    sudoku := Build(puzzle);
    outcome := sudoku.Ac3();
    if !outcome.Wipeout? {
      GivensKept(sudoku.domain, puzzle);
    }
    if outcome.Solved? {
      SolvedByPropagation(sudoku.domain, sudoku.constraints);
    }
    if outcome.SolvedBySearch? {
      SearchKeepsGivens(outcome.solution, sudoku.domain, puzzle);
    }
  }
}
