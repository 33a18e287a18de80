/**
 * The read-only helpers of the backtracking search: the assignment's value
 * representation, minimum-remaining-values variable choice, the conflict
 * count and least-constraining-value ordering, and the consistency test.
 */
module Heuristics {
  import opened Grid
  import opened Domains

  /**
   * A value held in the assignment dictionary. Python compares a list with
   * an int as unequal, and the search only ever stores one-element lists,
   * so the distinction matters to isConsistence.
   */
  datatype PyValue = IntVal(n: int) | ListVal(items: seq<int>)

  type Assignment = map<Cell, PyValue>

  predicate HasUnassigned(keys: seq<Cell>, assignment: Assignment) {
    exists k :: k in keys && k !in assignment
  }

  /**
   * The position of Python's min() over the unassigned keys by domain
   * length: an unassigned key with a shortest domain, and no unassigned key
   * before it is as short.
   */
  function SelectIndex(domain: Domain, assignment: Assignment, keys: seq<Cell>): (i: nat)
    requires forall k :: k in keys ==> k in domain
    requires HasUnassigned(keys, assignment)
    ensures i < |keys| && keys[i] !in assignment
    ensures forall j :: 0 <= j < |keys| && keys[j] !in assignment ==> |domain[keys[i]]| <= |domain[keys[j]]|
    ensures forall j :: 0 <= j < i && keys[j] !in assignment ==> |domain[keys[i]]| < |domain[keys[j]]|
    decreases |keys|
  {
    var n := |keys| - 1;
    var init := keys[..n];
    assert forall j :: 0 <= j < n ==> init[j] == keys[j];
    if !HasUnassigned(init, assignment) then
      assert forall j :: 0 <= j < n ==> keys[j] in init;
      n
    else
      var best := SelectIndex(domain, assignment, init);
      if keys[n] !in assignment && |domain[keys[n]]| < |domain[keys[best]]| then n else best
  }

  /**
   * select_unassigned_variable: among the keys (in dictionary order) not in
   * the assignment, the first whose domain is shortest.
   */
  function SelectUnassignedVariable(domain: Domain, assignment: Assignment, keys: seq<Cell>): (v: Cell)
    requires forall k :: k in keys ==> k in domain
    requires HasUnassigned(keys, assignment)
    ensures v in keys && v !in assignment
    ensures forall k :: k in keys && k !in assignment ==> |domain[v]| <= |domain[k]|
  {
    keys[SelectIndex(domain, assignment, keys)]
  }

  /** Whether a related cell counts as a conflict for `val` in sortByConflict. */
  predicate Conflicts(domain: Domain, v: Cell, val: int, key: Cell)
    requires key in domain
  {
    key != v && val in domain[key] && |domain[key]| != 1
  }

  /**
   * sortByConflict: the number of related cells, other than `v` itself,
   * whose domain holds `val` and is not yet a singleton.
   */
  function SortByConflict(domain: Domain, v: Cell, val: int, related: seq<Cell>): (conflicts: nat)
    requires forall k :: k in related ==> k in domain
    ensures conflicts <= |related|
    ensures conflicts == 0 <==> forall i :: 0 <= i < |related| ==> !Conflicts(domain, v, val, related[i])
    ensures conflicts == |related| <==> forall i :: 0 <= i < |related| ==> Conflicts(domain, v, val, related[i])
    ensures v in related ==> conflicts < |related|
  {
    if related == [] then 0
    else
      var init := related[..|related| - 1];
      var key := related[|related| - 1];
      assert forall i :: 0 <= i < |init| ==> init[i] == related[i];
      SortByConflict(domain, v, val, init) + (if Conflicts(domain, v, val, key) then 1 else 0)
  }

  /** The elements of `s` whose key is `n`, in their order. */
  function WithKey(s: seq<int>, key: int -> int, n: int): seq<int> {
    if s == [] then [] else (if key(s[0]) == n then [s[0]] else []) + WithKey(s[1..], key, n)
  }

  predicate SortedByKey(s: seq<int>, key: int -> int) {
    forall i, j :: 0 <= i < j < |s| ==> key(s[i]) <= key(s[j])
  }

  /** Insert `x` before the first element whose key is not smaller. */
  function Insert(x: int, t: seq<int>, key: int -> int): (r: seq<int>)
    ensures multiset(r) == multiset(t) + multiset{x}
  {
    if t == [] || key(x) <= key(t[0]) then [x] + t
    else
      assert t == [t[0]] + t[1..];
      [t[0]] + Insert(x, t[1..], key)
  }

  /** Every element of an insertion is `x` or comes from `t`. */
  lemma {:induction false} InsertFrom(x: int, t: seq<int>, key: int -> int)
    ensures forall i :: 0 <= i < |Insert(x, t, key)| ==> Insert(x, t, key)[i] == x || Insert(x, t, key)[i] in t
  {
    if t != [] && key(x) > key(t[0]) {
      InsertFrom(x, t[1..], key);
      var rest := Insert(x, t[1..], key);
      assert forall i :: 0 < i < |rest| + 1 ==> ([t[0]] + rest)[i] == rest[i - 1];
      assert forall y :: y in t[1..] ==> y in t;
    }
  }

  /** Inserting into a sorted list keeps it sorted. */
  lemma {:induction false} InsertSorted(x: int, t: seq<int>, key: int -> int)
    requires SortedByKey(t, key)
    ensures SortedByKey(Insert(x, t, key), key)
  {
    if t == [] || key(x) <= key(t[0]) {
      SortedCons(x, t, key);
    } else {
      var rest := Insert(x, t[1..], key);
      assert SortedByKey(t[1..], key);
      InsertSorted(x, t[1..], key);
      InsertFrom(x, t[1..], key);
      assert forall i :: 0 <= i < |rest| ==> key(t[0]) <= key(rest[i]);
      SortedCons(t[0], rest, key);
    }
  }

  /** A sorted list stays sorted under a new head whose key is no larger than any of its keys. */
  lemma SortedCons(x: int, t: seq<int>, key: int -> int)
    requires SortedByKey(t, key)
    requires forall i :: 0 <= i < |t| ==> key(x) <= key(t[i])
    ensures SortedByKey([x] + t, key)
  {
    var r := [x] + t;
    forall i, j | 0 <= i < j < |r| ensures key(r[i]) <= key(r[j]) {
      assert r[j] == t[j - 1];
      if i > 0 {
        assert r[i] == t[i - 1];
      }
    }
  }

  /** Inserting places `x` after every element with its key: the order within each key class is kept. */
  lemma {:induction false} InsertWithKey(x: int, t: seq<int>, key: int -> int, n: int)
    ensures WithKey(Insert(x, t, key), key, n) == if key(x) == n then [x] + WithKey(t, key, n) else WithKey(t, key, n)
  {
    if t == [] || key(x) <= key(t[0]) {
      assert ([x] + t)[1..] == t;
      if t != [] && key(x) == n {
        // every element of `t` with key n comes after x already: nothing to reorder
        assert ([x] + t)[0] == x;
      }
    } else {
      var rest := Insert(x, t[1..], key);
      InsertWithKey(x, t[1..], key, n);
      assert ([t[0]] + rest)[1..] == rest;
      assert ([t[0]] + rest)[0] == t[0];
    }
  }

  /**
   * Python's sorted(values, key=...): a stable sort, here written as an
   * insertion sort (every stable sort yields the same list).
   */
  function SortByKey(s: seq<int>, key: int -> int): (r: seq<int>)
    ensures multiset(r) == multiset(s)
    ensures SortedByKey(r, key)
    ensures forall n :: WithKey(r, key, n) == WithKey(s, key, n)
  {
    if s == [] then []
    else
      assert s == [s[0]] + s[1..];
      var rest := SortByKey(s[1..], key);
      InsertSorted(s[0], rest, key);
      assert forall n :: WithKey(Insert(s[0], rest, key), key, n) == WithKey(s, key, n) by {
        forall n ensures WithKey(Insert(s[0], rest, key), key, n) == WithKey(s, key, n) {
          InsertWithKey(s[0], rest, key, n);
        }
      }
      Insert(s[0], rest, key)
  }

  /** sortByConflict as the key function order_domain_values hands to sorted(). */
  function ConflictKey(domain: Domain, v: Cell, related: seq<Cell>): (key: int -> int)
    requires forall k :: k in related ==> k in domain
    ensures forall x :: key(x) == SortByConflict(domain, v, x, related)
  {
    x => SortByConflict(domain, v, x, related)
  }

  /**
   * order_domain_values: a singleton domain is returned as it is; any other
   * is stably sorted by ascending conflict count. Either way the result is a
   * permutation of the domain, ordered by conflict count, and values with
   * equal counts keep their domain order.
   */
  function OrderDomainValues(v: Cell, domain: Domain, relatedCells: map<Cell, seq<Cell>>): (ordered: seq<int>)
    requires v in domain && v in relatedCells
    requires forall k :: k in relatedCells[v] ==> k in domain
    ensures |domain[v]| == 1 ==> ordered == domain[v]
    ensures multiset(ordered) == multiset(domain[v])
    ensures forall i, j :: 0 <= i < j < |ordered| ==>
      SortByConflict(domain, v, ordered[i], relatedCells[v]) <= SortByConflict(domain, v, ordered[j], relatedCells[v])
    ensures forall n :: WithKey(ordered, ConflictKey(domain, v, relatedCells[v]), n) ==
                        WithKey(domain[v], ConflictKey(domain, v, relatedCells[v]), n)
  {
    var key := ConflictKey(domain, v, relatedCells[v]);
    if |domain[v]| == 1 then domain[v] else SortByKey(domain[v], key)
  }

  /**
   * isConsistence: false when some assigned cell related to `v` holds
   * `value`. Python's `==` between the stored one-element list and the int
   * `value` is always false, so an assignment made only of lists never
   * rejects anything.
   */
  function IsConsistence(v: Cell, value: int, assignment: Assignment, related: seq<Cell>): (consistent: bool)
    ensures (forall key :: key in assignment ==> assignment[key].ListVal?) ==> consistent
  {
    forall key :: key in assignment ==> !(assignment[key] == IntVal(value) && key in related)
  }

  /** Were the assignment to hold the bare int (as in "(0,0):4"), a related cell with that value would be rejected. */
  lemma IsConsistenceRejectsBareInt(v: Cell, value: int, assignment: Assignment, related: seq<Cell>, key: Cell)
    requires key in assignment && key in related && assignment[key] == IntVal(value)
    ensures !IsConsistence(v, value, assignment, related)
  {
  }
}
