/**
 * Forward checking and its undo trail: what assign removes from the
 * domains of related cells and logs in pruned[var], and how unAssign puts
 * the logged values back.
 */
module Trail {
  import opened Grid
  import opened Domains
  import opened Heuristics

  /** One logged removal: `value` was taken out of the domain of `cell`. */
  datatype Removal = Removal(cell: Cell, value: int)

  type Pruned = map<Cell, seq<Removal>>

  /** The domain after forward checking, and the removals logged on the way, in order. */
  datatype Pruning = Pruning(domain: Domain, trail: seq<Removal>)

  /** The values the trail logs for `c`. */
  function TrailValues(trail: seq<Removal>, c: Cell): multiset<int> {
    if trail == [] then multiset{}
    else
      var r := trail[|trail| - 1];
      TrailValues(trail[..|trail| - 1], c) + (if r.cell == c then multiset{r.value} else multiset{})
  }

  lemma TrailValuesSnoc(trail: seq<Removal>, r: Removal, c: Cell)
    ensures TrailValues(trail + [r], c) == TrailValues(trail, c) + (if r.cell == c then multiset{r.value} else multiset{})
  {
    assert (trail + [r])[..|trail|] == trail;
  }

  /**
   * assign's loop over the related cells: every one not yet assigned whose
   * domain still holds `value` loses (the first occurrence of) it, and the
   * removal is logged.
   */
  function Prune(related: seq<Cell>, value: int, assignment: Assignment, domain: Domain): (p: Pruning)
    requires forall c :: c in related ==> c in domain
    ensures p.domain.Keys == domain.Keys
    ensures forall r :: r in p.trail ==> r.value == value && r.cell in related && r.cell !in assignment
    decreases |related|
  {
    if related == [] then Pruning(domain, [])
    else
      var init := related[..|related| - 1];
      var c := related[|related| - 1];
      assert forall k :: k in init ==> k in related;
      var prev := Prune(init, value, assignment, domain);
      if c !in assignment && value in prev.domain[c] then
        var trail := prev.trail + [Removal(c, value)];
        assert forall r :: r in trail ==> r in prev.trail || r == Removal(c, value);
        Pruning(prev.domain[c := RemoveFirst(prev.domain[c], value)], trail)
      else
        prev
  }

  /** One step of assign's loop: how the last related cell extends the pruning of the others. */
  lemma PruneStep(related: seq<Cell>, value: int, assignment: Assignment, domain: Domain)
    requires related != [] && forall k :: k in related ==> k in domain
    ensures var init := related[..|related| - 1];
      var k := related[|related| - 1];
      var prev := Prune(init, value, assignment, domain);
      Prune(related, value, assignment, domain) ==
        if k !in assignment && value in prev.domain[k]
        then Pruning(prev.domain[k := RemoveFirst(prev.domain[k], value)], prev.trail + [Removal(k, value)])
        else prev
  {
  }

  /** assign's loop, one position further: the pruning of `related[..i + 1]` from that of `related[..i]`. */
  lemma PrunePrefix(related: seq<Cell>, i: int, value: int, assignment: Assignment, domain: Domain)
    requires 0 <= i < |related| && forall k :: k in related ==> k in domain
    ensures forall k :: k in related[..i] ==> k in domain
    ensures forall k :: k in related[..i + 1] ==> k in domain
    ensures var prev := Prune(related[..i], value, assignment, domain);
      var k := related[i];
      var next := Prune(related[..i + 1], value, assignment, domain);
      && next.domain == (if k !in assignment && value in prev.domain[k] then prev.domain[k := RemoveFirst(prev.domain[k], value)] else prev.domain)
      && next.trail == (if k !in assignment && value in prev.domain[k] then prev.trail + [Removal(k, value)] else prev.trail)
  {
    assert forall k :: k in related[..i + 1] ==> k in related;
    assert forall k :: k in related[..i] ==> k in related;
    assert related[..i + 1][..i] == related[..i];
    PruneStep(related[..i + 1], value, assignment, domain);
  }

  /** Removing the first occurrence of a value and logging it loses nothing. */
  lemma RemoveAccounts(s: seq<int>, x: int)
    requires x in s
    ensures multiset(RemoveFirst(s, x)) + multiset{x} == multiset(s)
  {
    RemoveFirstCount(s, x);
    assert x in multiset(s);
  }

  /** Nothing is lost by forward checking: what remains of a domain plus what was logged for it is the original. */
  lemma {:induction false} PruneAccounts(related: seq<Cell>, value: int, assignment: Assignment, domain: Domain, c: Cell)
    requires forall k :: k in related ==> k in domain
    requires c in domain
    ensures var p := Prune(related, value, assignment, domain);
      multiset(p.domain[c]) + TrailValues(p.trail, c) == multiset(domain[c])
    decreases |related|
  {
    if related != [] {
      var init := related[..|related| - 1];
      var k := related[|related| - 1];
      assert forall x :: x in init ==> x in related;
      PruneAccounts(init, value, assignment, domain, c);
      PruneStep(related, value, assignment, domain);
      var prev := Prune(init, value, assignment, domain);
      if k !in assignment && value in prev.domain[k] {
        TrailValuesSnoc(prev.trail, Removal(k, value), c);
        if k == c {
          RemoveAccounts(prev.domain[c], value);
        }
      }
    }
  }

  /** unAssign's loop over pruned[var]: each logged value is appended back to its cell's domain. */
  function Restore(domain: Domain, trail: seq<Removal>): (d: Domain)
    requires forall r :: r in trail ==> r.cell in domain
    ensures d.Keys == domain.Keys
  {
    if trail == [] then domain
    else
      var init := trail[..|trail| - 1];
      var r := trail[|trail| - 1];
      assert forall x :: x in init ==> x in trail;
      var prev := Restore(domain, init);
      prev[r.cell := prev[r.cell] + [r.value]]
  }

  /**
   * Restoring only appends: each domain keeps its list as a prefix, and a
   * cell the trail does not name keeps its list unchanged.
   */
  lemma {:induction false} RestoreAppends(domain: Domain, trail: seq<Removal>, c: Cell)
    requires forall r :: r in trail ==> r.cell in domain
    requires c in domain
    ensures domain[c] <= Restore(domain, trail)[c]
    ensures (forall r :: r in trail ==> r.cell != c) ==> Restore(domain, trail)[c] == domain[c]
  {
    if trail != [] {
      var init := trail[..|trail| - 1];
      assert forall r :: r in init ==> r in trail;
      RestoreAppends(domain, init, c);
      assert trail[|trail| - 1] in trail;
    }
  }

  /** Restoring gives each domain back exactly the values the trail logs for it. */
  lemma {:induction false} RestoreAccounts(domain: Domain, trail: seq<Removal>, c: Cell)
    requires forall r :: r in trail ==> r.cell in domain
    requires c in domain
    ensures multiset(Restore(domain, trail)[c]) == multiset(domain[c]) + TrailValues(trail, c)
  {
    if trail != [] {
      var init := trail[..|trail| - 1];
      var r := trail[|trail| - 1];
      assert forall x :: x in init ==> x in trail;
      RestoreAccounts(domain, init, c);
      assert trail == init + [r];
      TrailValuesSnoc(init, r, c);
    }
  }

  /**
   * With a duplicate-free peer list, forward checking removes `value` from
   * exactly the related, unassigned cells whose domain holds it, leaves every
   * other domain alone, and logs exactly those removals.
   */
  lemma {:induction false} PruneEffect(related: seq<Cell>, value: int, assignment: Assignment, domain: Domain, c: Cell)
    requires forall k :: k in related ==> k in domain
    requires NoDup(related) && c in domain
    ensures var p := Prune(related, value, assignment, domain);
      p.domain[c] == if c in related && c !in assignment && value in domain[c] then RemoveFirst(domain[c], value) else domain[c]
    ensures var p := Prune(related, value, assignment, domain);
      Removal(c, value) in p.trail <==> c in related && c !in assignment && value in domain[c]
    decreases |related|
  {
    if related != [] {
      var init := related[..|related| - 1];
      var k := related[|related| - 1];
      assert forall x :: x in init ==> x in related;
      assert forall x :: x in related <==> x in init || x == k;
      assert k !in init;
      PruneEffect(init, value, assignment, domain, c);
      PruneEffect(init, value, assignment, domain, k);
      PruneStep(related, value, assignment, domain);
    }
  }

  /** Two domain stores with the same cells holding the same values, in any order. */
  predicate SameMultisets(d1: Domain, d2: Domain) {
    d1.Keys == d2.Keys && forall c :: c in d1 ==> multiset(d1[c]) == multiset(d2[c])
  }

  /** The search's working state: the assignment, the copied domain and the trail `pruned`. */
  datatype SearchState = SearchState(assignment: Assignment, domain: Domain, pruned: Pruned)

  /**
   * The trail after logging `trail` under `v` one removal at a time: the
   * first removal creates the entry when `v` has none, later ones append.
   */
  function LogTrail(pruned: Pruned, v: Cell, trail: seq<Removal>): (p: Pruned)
    ensures forall c :: c in p <==> c in pruned || (c == v && trail != [])
    ensures forall c :: c in p && c != v ==> p[c] == pruned[c]
    ensures v in p ==> p[v] == (if v in pruned then pruned[v] else []) + trail
  {
    if trail == [] then pruned
    else if v in pruned then pruned[v := pruned[v] + trail]
    else pruned[v := trail]
  }

  /** Logging one more removal: it starts the entry for `v` when there is none, else it is appended. */
  lemma LogTrailSnoc(pruned: Pruned, v: Cell, trail: seq<Removal>, r: Removal)
    ensures var q := LogTrail(pruned, v, trail);
      LogTrail(pruned, v, trail + [r]) == if v !in q then q[v := [r]] else q[v := q[v] + [r]]
  {
    if trail == [] {
      assert trail + [r] == [r];
    } else if v in pruned {
      assert pruned[v] + (trail + [r]) == (pruned[v] + trail) + [r];
    }
  }

  /**
   * One iteration of assign's loop, on the live domain store `d` and trail
   * table `pr`: what the iteration does to them is the pruning of one more
   * related cell.
   */
  lemma ForwardStep(related: seq<Cell>, i: int, value: int, assignment: Assignment, domain: Domain,
                    d: Domain, base: Pruned, pr: Pruned, v: Cell)
    requires 0 <= i < |related| && forall k :: k in related ==> k in domain
    requires forall k :: k in related[..i] ==> k in domain
    requires d == Prune(related[..i], value, assignment, domain).domain
    requires pr == LogTrail(base, v, Prune(related[..i], value, assignment, domain).trail)
    ensures forall k :: k in related[..i + 1] ==> k in domain
    ensures related[i] in d
    ensures var k := related[i];
      var hit := k !in assignment && value in d[k];
      && (if hit then d[k := RemoveFirst(d[k], value)] else d) == Prune(related[..i + 1], value, assignment, domain).domain
      && (if !hit then pr else if v !in pr then pr[v := [Removal(k, value)]] else pr[v := pr[v] + [Removal(k, value)]])
         == LogTrail(base, v, Prune(related[..i + 1], value, assignment, domain).trail)
  {
    var prev := Prune(related[..i], value, assignment, domain);
    PrunePrefix(related, i, value, assignment, domain);
    LogTrailSnoc(base, v, prev.trail, Removal(related[i], value));
  }

  /**
   * assign(var, value, assignment, domain): record `[value]` for `v`, then,
   * if the domain store is non-empty, forward-check the related cells and
   * log the removals under `v`.
   */
  function AssignEffect(s: SearchState, v: Cell, value: int, related: seq<Cell>): (t: SearchState)
    requires forall k :: k in related ==> k in s.domain
    ensures t.assignment == s.assignment[v := ListVal([value])]
    ensures t.domain.Keys == s.domain.Keys
    ensures forall c :: c in s.domain ==> multiset(t.domain[c]) <= multiset(s.domain[c])
    ensures forall c :: c in s.pruned ==> c in t.pruned
    ensures forall c :: c in t.pruned && c != v ==> c in s.pruned && t.pruned[c] == s.pruned[c]
    ensures forall r :: v in t.pruned && r in t.pruned[v] ==>
              (r in (if v in s.pruned then s.pruned[v] else [])
               || (r.value == value && r.cell in related && r.cell != v && r.cell !in s.assignment))
  {
    var assignment := s.assignment[v := ListVal([value])];
    if |s.domain| > 0 then
      var p := Prune(related, value, assignment, s.domain);
      assert forall c :: c in s.domain ==> multiset(p.domain[c]) <= multiset(s.domain[c]) by {
        forall c | c in s.domain ensures multiset(p.domain[c]) <= multiset(s.domain[c]) {
          PruneAccounts(related, value, assignment, s.domain, c);
        }
      }
      SearchState(assignment, p.domain, LogTrail(s.pruned, v, p.trail))
    else
      SearchState(assignment, s.domain, s.pruned)
  }

  /**
   * unAssign(var, assignment, domain): when `v` is assigned, append every
   * value logged under it back to its cell, empty its log and drop `v`;
   * otherwise nothing happens.
   */
  function UnAssignEffect(s: SearchState, v: Cell): (t: SearchState)
    requires v in s.assignment ==> v in s.pruned && forall r :: r in s.pruned[v] ==> r.cell in s.domain
    ensures v !in t.assignment && t.domain.Keys == s.domain.Keys
    ensures v in s.assignment ==> t.assignment == s.assignment - {v} && t.pruned == s.pruned[v := []]
    ensures v in s.assignment ==> forall c :: c in s.domain ==>
              multiset(t.domain[c]) == multiset(s.domain[c]) + TrailValues(s.pruned[v], c)
    ensures v !in s.assignment ==> t == s
  {
    if v in s.assignment then
      var d := Restore(s.domain, s.pruned[v]);
      assert forall c :: c in s.domain ==> multiset(d[c]) == multiset(s.domain[c]) + TrailValues(s.pruned[v], c) by {
        forall c | c in s.domain ensures multiset(d[c]) == multiset(s.domain[c]) + TrailValues(s.pruned[v], c) {
          RestoreAccounts(s.domain, s.pruned[v], c);
        }
      }
      SearchState(s.assignment - {v}, d, s.pruned[v := []])
    else
      s
  }

  lemma UpdateThenRemove<K, V>(m: map<K, V>, k: K, x: V)
    requires k !in m
    ensures m[k := x] - {k} == m
  {
  }

  lemma UpdateThenReset(pruned: Pruned, v: Cell, trail: seq<Removal>)
    requires v in pruned && pruned[v] == []
    ensures LogTrail(pruned, v, trail)[v := []] == pruned
  {
  }

  /**
   * The trail round trip: starting from an unassigned `v` with an empty log,
   * assign followed by unAssign gives back the same assignment, the same
   * trail, and every domain with the same values (restored values come back
   * at the end of their lists). It holds even when the domains were
   * reordered in between, as long as they hold the same values.
   */
  lemma AssignUnAssignRoundTrip(s: SearchState, v: Cell, value: int, related: seq<Cell>, t: SearchState)
    requires forall k :: k in related ==> k in s.domain
    requires v !in s.assignment && v in s.pruned && s.pruned[v] == []
    requires var a := AssignEffect(s, v, value, related);
      t.assignment == a.assignment && t.pruned == a.pruned && SameMultisets(t.domain, a.domain)
    ensures v in t.assignment && v in t.pruned && forall r :: r in t.pruned[v] ==> r.cell in t.domain
    ensures var u := UnAssignEffect(t, v);
      u.assignment == s.assignment && u.pruned == s.pruned && SameMultisets(u.domain, s.domain)
  {
    var a := AssignEffect(s, v, value, related);
    var assignment := s.assignment[v := ListVal([value])];
    var trail := if |s.domain| > 0 then Prune(related, value, assignment, s.domain).trail else [];
    assert a.pruned == LogTrail(s.pruned, v, trail);
    assert t.pruned[v] == trail;
    var u := UnAssignEffect(t, v);
    UpdateThenRemove(s.assignment, v, ListVal([value]));
    UpdateThenReset(s.pruned, v, trail);
    forall c | c in s.domain ensures multiset(u.domain[c]) == multiset(s.domain[c]) {
      assert multiset(u.domain[c]) == multiset(a.domain[c]) + TrailValues(trail, c);
      if |s.domain| > 0 {
        PruneAccounts(related, value, assignment, s.domain, c);
      }
    }
  }
}
