/**
 * The domain store: each cell's list of candidate values, as built by
 * getDomain, tested by solvedCheck and narrowed by revise through
 * checkConstraint.
 *
 * Domains are lists, not sets: their order decides tie-breaks later on,
 * and the search appends restored values at the end.
 */
module Domains {
  import opened Grid

  type Domain = map<Cell, seq<int>>

  /** The candidates of a blank cell. */
  function Full(): seq<int> {
    [1, 2, 3, 4, 5, 6, 7, 8, 9]
  }

  /** A 9x9 grid of integers, 0 meaning blank. */
  predicate IsGrid(puzzle: seq<seq<int>>) {
    |puzzle| == 9 && forall i :: 0 <= i < 9 ==> |puzzle[i]| == 9
  }

  /** getDomain's entry for one cell: `[v]` for a given digit, all of 1..9 for a blank. */
  function CellDomain(puzzle: seq<seq<int>>, c: Cell): (d: seq<int>)
    requires IsGrid(puzzle) && InGrid(c)
    ensures d != [] && NoDup(d)
    ensures |d| == 1 <==> puzzle[c.row][c.col] != 0
    ensures puzzle[c.row][c.col] != 0 ==> d[0] == puzzle[c.row][c.col]
    ensures puzzle[c.row][c.col] == 0 ==> forall v :: v in d <==> 1 <= v <= 9
  {
    if puzzle[c.row][c.col] != 0 then [puzzle[c.row][c.col]] else Full()
  }

  /** The domain getDomain returns: one entry per grid cell. */
  function InitialDomain(puzzle: seq<seq<int>>): (d: Domain)
    requires IsGrid(puzzle)
    ensures forall c :: c in d <==> InGrid(c)
  {
    AllCellsSpec();
    map c | c in AllCells() :: CellDomain(puzzle, c)
  }

  /** Every initial domain is non-empty and duplicate-free, and is a singleton exactly at the given cells. */
  lemma InitialDomainWellFormed(puzzle: seq<seq<int>>, c: Cell)
    requires IsGrid(puzzle) && InGrid(c)
    ensures InitialDomain(puzzle)[c] != [] && NoDup(InitialDomain(puzzle)[c])
    ensures |InitialDomain(puzzle)[c]| == 1 <==> puzzle[c.row][c.col] != 0
    ensures puzzle[c.row][c.col] == 0 ==> forall v :: v in InitialDomain(puzzle)[c] <==> 1 <= v <= 9
  {
  }

  /**
   * solvedCheck(domain), walking the keys in dictionary order: false at the
   * first entry whose length is not 1.
   */
  function SolvedCheck(domain: Domain, keys: seq<Cell>): (solved: bool)
    requires forall k :: k in keys ==> k in domain
    ensures solved <==> forall i :: 0 <= i < |keys| ==> |domain[keys[i]]| == 1
  {
    if keys == [] then true
    else if |domain[keys[0]]| != 1 then false
    else SolvedCheck(domain, keys[1..])
  }

  /** The initial domain is already solved exactly when the grid has no blank. */
  lemma InitialSolvedIffFilled(puzzle: seq<seq<int>>)
    requires IsGrid(puzzle)
    ensures SolvedCheck(InitialDomain(puzzle), AllCells())
        <==> forall r, c :: 0 <= r < 9 && 0 <= c < 9 ==> puzzle[r][c] != 0
  {
    AllCellsSpec();
    var d := InitialDomain(puzzle);
    if SolvedCheck(d, AllCells()) {
      forall r, c | 0 <= r < 9 && 0 <= c < 9 ensures puzzle[r][c] != 0 {
        AllCellsAt(Cell(r, c));
        InitialDomainWellFormed(puzzle, Cell(r, c));
      }
    }
  }

  /**
   * checkConstraint(value, arc), given the domain of the arc's target: true
   * at the first candidate different from `value`, false when there is none.
   */
  function CheckConstraint(value: int, target: seq<int>): (supported: bool)
    ensures supported <==> exists y :: y in target && y != value
  {
    if target == [] then false
    else if value != target[0] then assert target[0] in target; true
    else
      assert forall y :: y in target <==> y == target[0] || y in target[1..];
      CheckConstraint(value, target[1..])
  }

  /**
   * Under the not-equal constraint, a value lacks support in a non-empty,
   * duplicate-free target domain exactly when that domain is that value alone.
   */
  lemma {:induction false} UnsupportedIffSingleton(value: int, target: seq<int>)
    requires target != [] && NoDup(target)
    ensures !CheckConstraint(value, target) <==> target == [value]
  {
    if |target| > 1 {
      assert target[0] in target && target[1] in target;
      assert target[0] != target[1];
      assert CheckConstraint(value, target);
    }
  }

  /** Two values both unsupported by the same non-empty domain are equal. */
  lemma UnsupportedUnique(a: int, b: int, target: seq<int>)
    requires target != []
    requires !CheckConstraint(a, target) && !CheckConstraint(b, target)
    ensures a == b
  {
    assert target[0] in target;
  }

  /** list.remove(x): drop the first occurrence of `x`. */
  function RemoveFirst(s: seq<int>, x: int): (r: seq<int>)
    requires x in s
    ensures |r| == |s| - 1
  {
    if s[0] == x then s[1..] else [s[0]] + RemoveFirst(s[1..], x)
  }

  /** list.remove(x) takes away exactly one copy of x. */
  lemma {:induction false} RemoveFirstCount(s: seq<int>, x: int)
    requires x in s
    ensures multiset(RemoveFirst(s, x)) == multiset(s) - multiset{x}
  {
    assert s == [s[0]] + s[1..];
    if s[0] != x {
      RemoveFirstCount(s[1..], x);
      assert multiset([s[0]] + RemoveFirst(s[1..], x)) == multiset{s[0]} + multiset(RemoveFirst(s[1..], x));
    }
  }

  /** On a duplicate-free list, list.remove(x) removes exactly the value x. */
  lemma {:induction false} RemoveFirstNoDup(s: seq<int>, x: int)
    requires x in s && NoDup(s)
    ensures NoDup(RemoveFirst(s, x))
    ensures forall y :: y in RemoveFirst(s, x) <==> y in s && y != x
  {
    assert s == [s[0]] + s[1..];
    assert forall y :: y in s[1..] ==> y != s[0];
    if s[0] != x {
      RemoveFirstNoDup(s[1..], x);
      NoDupConcat([s[0]], RemoveFirst(s[1..], x));
    }
  }

  /**
   * What revise leaves in domain(Xi) when domain(Xj) is `target`: the
   * candidates that still have support there, in their order.
   */
  function Keep(source: seq<int>, target: seq<int>): (kept: seq<int>)
    ensures forall x :: x in kept <==> x in source && CheckConstraint(x, target)
    ensures multiset(kept) <= multiset(source)
    ensures NoDup(source) ==> NoDup(kept)
  {
    if source == [] then []
    else
      assert source == [source[0]] + source[1..];
      var rest := Keep(source[1..], target);
      if CheckConstraint(source[0], target) then [source[0]] + rest else rest
  }

  /**
   * With a non-empty, duplicate-free target, revise removes from a
   * duplicate-free source at most the one value v with target == [v], and
   * removes it exactly when it is there.
   */
  lemma {:induction false} KeepRemovesSingletonValue(source: seq<int>, target: seq<int>)
    requires NoDup(source) && target != [] && NoDup(target)
    ensures forall v :: v in source ==> (v !in Keep(source, target) <==> target == [v])
    ensures |Keep(source, target)| == if target[0] in source && target == [target[0]] then |source| - 1 else |source|
  {
    forall v | v in source ensures v !in Keep(source, target) <==> target == [v] {
      UnsupportedIffSingleton(v, target);
    }
    KeepLength(source, target);
  }

  lemma {:induction false} KeepLength(source: seq<int>, target: seq<int>)
    requires NoDup(source) && target != [] && NoDup(target)
    ensures |Keep(source, target)| == if target[0] in source && target == [target[0]] then |source| - 1 else |source|
  {
    if source != [] {
      assert source == [source[0]] + source[1..];
      KeepLength(source[1..], target);
      UnsupportedIffSingleton(source[0], target);
    }
  }

  /** A list every element of which has support is kept whole. */
  lemma {:induction false} KeepAll(source: seq<int>, target: seq<int>)
    requires forall k :: 0 <= k < |source| ==> CheckConstraint(source[k], target)
    ensures Keep(source, target) == source
  {
    if source != [] {
      KeepAll(source[1..], target);
    }
  }

  /**
   * Against a singleton target [u], only u lacks support, so on a
   * duplicate-free list the kept values are the list with u removed.
   */
  lemma {:induction false} KeepSingleton(source: seq<int>, u: int)
    requires NoDup(source)
    ensures Keep(source, [u]) == if u in source then RemoveFirst(source, u) else source
  {
    if source != [] {
      assert source == [source[0]] + source[1..];
      assert forall x :: x in source[1..] ==> x != source[0];
      KeepSingleton(source[1..], u);
      assert CheckConstraint(source[0], [u]) <==> source[0] != u by {
        assert u in [u];
      }
    }
  }

  /**
   * Where revise stands after visiting `i` positions of a duplicate-free list
   * `source` against a fixed duplicate-free target: either nothing was
   * removed and every value visited so far has support, or the one value the
   * target rules out (the target is that value alone) has been removed.
   */
  ghost predicate ReviseProgress(source: seq<int>, target: seq<int>, values: seq<int>, i: int, revised: bool) {
    if revised then |target| == 1 && target[0] in source && values == RemoveFirst(source, target[0])
    else values == source && forall k :: 0 <= k < i && k < |source| ==> CheckConstraint(source[k], target)
  }

  /** One step of revise's scan keeps ReviseProgress; at most one removal happens. */
  lemma ReviseProgressStep(source: seq<int>, target: seq<int>, values: seq<int>, i: int, revised: bool)
    requires NoDup(source) && NoDup(target) && target != []
    requires ReviseProgress(source, target, values, i, revised) && 0 <= i < |values|
    ensures CheckConstraint(values[i], target) ==> ReviseProgress(source, target, values, i + 1, revised)
    ensures !CheckConstraint(values[i], target) ==>
      !revised && ReviseProgress(source, target, RemoveFirst(values, values[i]), i + 1, true)
  {
    UnsupportedIffSingleton(values[i], target);
    if revised {
      RemoveFirstNoDup(source, target[0]);
      assert values[i] in values;
    }
  }

  /** Once the scan has passed the end of the list, what is left is Keep(source, target). */
  lemma ReviseProgressDone(source: seq<int>, target: seq<int>, values: seq<int>, i: int, revised: bool)
    requires NoDup(source) && NoDup(target) && target != []
    requires ReviseProgress(source, target, values, i, revised) && i >= |values|
    ensures values == Keep(source, target)
  {
    if revised {
      assert target == [target[0]];
      KeepSingleton(source, target[0]);
    } else {
      KeepAll(source, target);
    }
  }

  /**
   * The whole state of revise's scan after `i` positions: `values` is the
   * live list, `source` the list it started from, and when `exact` holds
   * (distinct cells, duplicate-free non-empty lists) ReviseProgress as well.
   */
  ghost predicate ReviseScan(source: seq<int>, target: seq<int>, exact: bool, values: seq<int>, i: int, revised: bool) {
    0 <= i <= |values| + 1
    && multiset(values) <= multiset(source)
    && (if revised then |values| < |source| else values == source)
    && (exact ==> ReviseProgress(source, target, values, i, revised))
  }

  /** One step of the scan, against the live target `live`, keeps ReviseScan. */
  lemma ReviseScanStep(source: seq<int>, target: seq<int>, exact: bool, live: seq<int>, values: seq<int>, i: int, revised: bool)
    requires exact ==> NoDup(source) && NoDup(target) && target != [] && live == target
    requires ReviseScan(source, target, exact, values, i, revised) && i < |values|
    ensures CheckConstraint(values[i], live) ==> ReviseScan(source, target, exact, values, i + 1, revised)
    ensures !CheckConstraint(values[i], live) ==>
      ReviseScan(source, target, exact, RemoveFirst(values, values[i]), i + 1, true)
  {
    RemoveFirstCount(values, values[i]);
    if exact {
      ReviseProgressStep(source, target, values, i, revised);
    }
  }

  /** What a finished scan leaves: a sub-multiset, shorter exactly when revised, Keep when exact. */
  lemma ReviseScanDone(source: seq<int>, target: seq<int>, exact: bool, values: seq<int>, i: int, revised: bool)
    requires exact ==> NoDup(source) && NoDup(target) && target != []
    requires ReviseScan(source, target, exact, values, i, revised) && i >= |values|
    ensures multiset(values) <= multiset(source)
    ensures revised <==> |values| < |source|
    ensures !revised ==> values == source
    ensures exact ==> values == Keep(source, target)
  {
    if exact {
      ReviseProgressDone(source, target, values, i, revised);
    }
  }

  /** Arc (Xi, Xj) is consistent: every candidate of Xi has a different candidate in Xj. */
  ghost predicate ArcConsistent(domain: Domain, arc: Arc)
    requires arc.xi in domain && arc.xj in domain
  {
    forall v :: v in domain[arc.xi] ==> CheckConstraint(v, domain[arc.xj])
  }

  /** Total number of candidates over the given keys: AC-3's termination measure. */
  function SizeSum(domain: Domain, keys: seq<Cell>): nat
    requires forall k :: k in keys ==> k in domain
  {
    if keys == [] then 0 else |domain[keys[0]]| + SizeSum(domain, keys[1..])
  }

  /** A non-empty list holding no value other than `v`, and `v` at most once, is [v]. */
  lemma SingletonWithin(s: seq<int>, v: int)
    requires s != [] && multiset(s) <= multiset{v}
    ensures s == [v]
  {
    forall i | 0 <= i < |s| ensures s[i] == v {
      assert s[i] in multiset(s);
    }
    CountAll(s, v);
    assert s == [s[0]];
  }

  /** In a list holding only `v`, `v` occurs once per position. */
  lemma {:induction false} CountAll(s: seq<int>, v: int)
    requires forall i :: 0 <= i < |s| ==> s[i] == v
    ensures multiset(s)[v] == |s|
  {
    if s != [] {
      assert s == [s[0]] + s[1..];
      CountAll(s[1..], v);
    }
  }

  /** A store that differs from `d0` at most at `c` is `d0` with `c` updated. */
  lemma PointUpdate(d1: Domain, d0: Domain, c: Cell)
    requires d1.Keys == d0.Keys && c in d0
    requires forall k :: k in d0 && k != c ==> d1[k] == d0[k]
    ensures d1 == d0[c := d1[c]]
  {
  }

  /** Shrinking one listed domain shrinks the total. */
  lemma {:induction false} SizeSumShrinks(domain: Domain, keys: seq<Cell>, c: Cell, s: seq<int>)
    requires forall k :: k in keys ==> k in domain
    requires NoDup(keys) && c in keys && c in domain && |s| < |domain[c]|
    ensures SizeSum(domain[c := s], keys) < SizeSum(domain, keys)
  {
    if keys[0] == c {
      SizeSumSame(domain, keys[1..], c, s);
    } else {
      SizeSumShrinks(domain, keys[1..], c, s);
    }
  }

  lemma {:induction false} SizeSumSame(domain: Domain, keys: seq<Cell>, c: Cell, s: seq<int>)
    requires forall k :: k in keys ==> k in domain
    requires c !in keys && c in domain
    ensures SizeSum(domain[c := s], keys) == SizeSum(domain, keys)
  {
    if keys != [] {
      SizeSumSame(domain, keys[1..], c, s);
    }
  }
}
