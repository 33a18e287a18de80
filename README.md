# Sudoku solver: AC-3 propagation with a backtracking fallback

This project models the `Sudoku` class of `sudoku.py`. The class solves a
9x9 Sudoku in two stages.

- **Propagation.** It builds one candidate list (a *domain*) per cell and the
  directed "must differ" arcs between peer cells. It then runs AC-3: pop an
  arc from the front of a queue, *revise* the left cell's domain against the
  right cell's, and re-queue the arcs that point at a narrowed cell.
- **Search.** If propagation stalls before every domain is a single value,
  it runs a backtracking search on a copy of the domains. The search uses
  minimum-remaining-values variable choice and least-constraining-value
  ordering. It does forward checking and keeps an undo trail (`pruned`).

The modules follow the class's concerns:

- `Grid`: cells, boxes and arcs.
  - The boxes partition the grid.
  - The row, column and box arcs are exactly the peer arcs.
- `Peers`: `getRelatedCell` as its two accumulating loops.
  - The row-and-column loop is `CollectLines`, with its box search `FindBox`.
  - The box loop is `CollectBox`.
  - Both append through the guarded append `Add`.
  - A closed form of the list it builds.
  - The exact contents of the peer table.
- `Domains`:
  - `getDomain`, `solvedCheck` and `checkConstraint`.
  - `list.remove`.
  - `Keep`, which states what `revise` leaves.
  - The invariant of `revise`'s scan.
  - AC-3's termination measure.
- `Heuristics`:
  - The value type of the assignment.
  - `select_unassigned_variable`, `sortByConflict` and `order_domain_values`. `sorted` is modelled as a stable insertion sort.
  - `isConsistence`.
- `Trail`: `assign` and `unAssign` as functions on a search state.
  - What forward checking removes and logs.
  - How unassigning restores it.
  - The assign/unassign round trip.
- `Solver`: the class `Sudoku` with its fields and imperative methods.
  - The constructor and table builders.
  - The arc generators.
  - `revise`, `ac3` and the search.
  - A `main.py` driver.

Behaviours of the source the model keeps on purpose:

- **getRelatedCell.** It drops the first cell it collects, which is always
  (r, 0). So for a cell off column 0 the list holds the cell itself and
  misses its true peer (r, 0). For a cell in column 0 the list is exactly
  its 20 peers. `Peers.GetRelatedCell` states both cases.
- **revise.** It removes from the list it is iterating over, so the value
  after a removed one is skipped. `Solver.Sudoku.Revise` walks the live
  list by position as Python's list iterator does. Its result equals
  `Keep`, the values with support, whenever the two cells differ and both
  domains are non-empty and duplicate-free. AC-3 keeps that true, and then
  at most one value can lack support.
- **isConsistence.** It compares the stored one-element list with the int
  value, which Python treats as unequal. So it never rejects anything.
  `Heuristics.IsConsistence` proves this. `IsConsistenceRejectsBareInt`
  shows what a bare int would have done.
- **ac3 outcomes.** There are four:
  - `Solved` (it returns True).
  - `Wipeout` (False).
  - `SolvedBySearch` (it falls off the end, returning None).
  - `SearchFailed`, when backtrack returns False. In the source,
    `solvedCheck(False)` then raises a TypeError, because a bool is not
    iterable. So lines 217-219 cannot be reached. The model reports the
    outcome instead.
- **Domain order.** Domains are lists. Unassigning appends the restored
  values at the end, so the round trip gives back the same values but not
  their order. `Trail.AssignUnAssignRoundTrip` states it up to multisets.

## Model

| member | source | states |
|---|---|---|
| Grid.AllCells | sudoku.py:57-64 | the 81 domain keys in the order getDomain inserts them, row-major, all on the grid |
| Grid.AllCellsSpec | sudoku.py:57-64 | a cell is a domain key exactly when it lies on the grid, and no key repeats |
| Grid.BoxTable | sudoku.py:67-86 | the box table has exactly the keys 0..8 |
| Grid.BoxPartition | sudoku.py:73-86 | box b lists nine distinct cells, and an on-grid cell is in box b exactly when b is its box number |
| Grid.HomeBox | sudoku.py:74-80 | the top-left corner generateSubGrid computes for a box is the cell's coordinates rounded down to a multiple of 3 |
| Grid.PeerArcUnits | sudoku.py:117-126 | an arc joins two different cells of a row, a column or a box exactly when its cells are peers |
| Grid.UnitArcNext | sudoku.py:123-126 | round n of generateConstraints adds the arcs of row n, column n and box n |
| Peers.AddSpec | sudoku.py:102-107 | the guarded append adds exactly the one cell, and keeps a duplicate-free list duplicate-free |
| Peers.CollectLinesMembers | sudoku.py:101-107 | the row-and-column loop from index x adds exactly the cells of the row and of the column from index x on, each once, and nothing else |
| Peers.CollectBoxMembers | sudoku.py:111-113 | the box loop adds exactly the box cells not listed yet, each once |
| Peers.FindBox | sudoku.py:101-109 | the box the loop records for a cell is the cell's own box |
| Peers.GetRelatedCell | sudoku.py:88-115 | 20 distinct cells: the peers of v plus v itself, minus (r, 0); exactly the peers when v is in column 0, and otherwise holding v and missing (r, 0) |
| Peers.RelatedFacts | sudoku.py:88-115 | the collected list has 21 cells, and dropping its head leaves the list GetRelatedCell describes |
| Peers.CollectedSpec | sudoku.py:95-113 | before the head is dropped, the list is 21 distinct cells, starting with (r, 0), that are v and its peers |
| Peers.ClosedForm | sudoku.py:101-113 | the two loops build the row-and-column scan followed by the box cells off that row and column |
| Peers.LinesClosedForm | sudoku.py:101-107 | the row-and-column loop run from an empty list yields the closed-form scan |
| Peers.RowColScanSpec | sudoku.py:101-107 | after n iterations the list holds exactly the row's and column's cells of index below n, without duplicates, 2n less the repeats in number |
| Peers.CollectLinesSpec | sudoku.py:101-107 | running the remaining iterations from the scan so far ends at the full scan |
| Peers.CollectBoxSpec | sudoku.py:111-113 | the box loop appends exactly the box cells not on the cell's row or column, in box order |
| Peers.BoxScanLength | sudoku.py:111-113 | the box contributes four new cells |
| Peers.RelatedTable | sudoku.py:128-134 | the peer table has an entry for every grid cell and only those |
| Domains.CellDomain | sudoku.py:58-64 | a cell's domain is non-empty and duplicate-free; it is the one-element list of the given digit exactly at a given, and holds exactly 1..9 at a blank |
| Domains.InitialDomain | sudoku.py:53-65 | getDomain gives one entry per grid cell |
| Domains.InitialDomainWellFormed | sudoku.py:53-65 | every initial domain is non-empty and duplicate-free, a singleton exactly at a given, and 1..9 at a blank |
| Domains.SolvedCheck | sudoku.py:241-248 | true exactly when every listed domain has length 1 |
| Domains.InitialSolvedIffFilled | sudoku.py:241-248 | the initial domains pass solvedCheck exactly when the grid has no blank |
| Domains.CheckConstraint | sudoku.py:232-239 | a value has support exactly when the target domain holds a different value |
| Domains.UnsupportedIffSingleton | sudoku.py:232-239 | in a non-empty duplicate-free target, a value lacks support exactly when the target is that value alone |
| Domains.UnsupportedUnique | sudoku.py:232-239 | two values without support in the same non-empty target are equal |
| Domains.RemoveFirst | sudoku.py:228 | list.remove shortens the list by one |
| Domains.RemoveFirstCount | sudoku.py:228 | list.remove takes away exactly one copy of the value |
| Domains.RemoveFirstNoDup | sudoku.py:228 | on a duplicate-free list, list.remove removes exactly that value and keeps the list duplicate-free |
| Domains.Keep | sudoku.py:221-230 | what revise should leave: exactly the values with support, a sub-multiset, duplicate-free when the source is |
| Domains.KeepRemovesSingletonValue | sudoku.py:221-230 | with non-empty duplicate-free domains, revise removes a value exactly when the target is that value alone, so the length drops by at most one |
| Domains.KeepAll | sudoku.py:226-229 | a domain whose every value has support is kept whole |
| Domains.KeepSingleton | sudoku.py:226-229 | against a singleton target [u], the kept list is the source with u removed |
| Domains.ReviseProgressStep | sudoku.py:226-229 | each step of the scan keeps its invariant, and a second removal cannot happen |
| Domains.ReviseProgressDone | sudoku.py:226-229 | the finished scan has left exactly Keep |
| Domains.ReviseScanStep | sudoku.py:226-229 | one iteration of revise's loop over the live list keeps the scan invariant |
| Domains.ReviseScanDone | sudoku.py:226-230 | after the scan the domain is a sub-multiset, revised holds exactly when it shrank, and it is Keep under the exactness conditions |
| Domains.SizeSumShrinks | sudoku.py:186-198 | shrinking one domain lowers the total number of candidates, the measure that makes ac3's loop end |
| Heuristics.SelectIndex | sudoku.py:338-345 | the position Python's min picks: an unassigned key of shortest domain, with no equally short unassigned key before it |
| Heuristics.SelectUnassignedVariable | sudoku.py:334-345 | an unassigned key whose domain is no longer than any other unassigned key's |
| Heuristics.SortByConflict | sudoku.py:359-368 | the count of related cells other than var whose domain holds val and is not a singleton: zero or full exactly as no or every cell conflicts, and below the list length when var is in it |
| Heuristics.Insert | sudoku.py:357 | insertion adds exactly the one element |
| Heuristics.InsertSorted | sudoku.py:357 | inserting into a list sorted by key keeps it sorted |
| Heuristics.InsertWithKey | sudoku.py:357 | insertion keeps the order of equal-key elements, with the new one last among them |
| Heuristics.SortByKey | sudoku.py:357 | sorted() yields a permutation, ordered by key, stable |
| Heuristics.OrderDomainValues | sudoku.py:347-357 | a singleton domain comes back as is; any domain comes back permuted, ordered by conflict count, values with equal counts in domain order |
| Heuristics.IsConsistence | sudoku.py:370-381 | an assignment holding only lists never makes a value inconsistent |
| Heuristics.IsConsistenceRejectsBareInt | sudoku.py:375-379 | a related cell holding the bare int value would make it inconsistent |
| Trail.Prune | sudoku.py:391-407 | forward checking keeps the domain keys and logs only removals of the value from related, unassigned cells |
| Trail.PruneAccounts | sudoku.py:391-407 | nothing is lost: what remains of a domain plus what was logged for it is the original |
| Trail.PruneEffect | sudoku.py:391-407 | with a duplicate-free peer list, the value leaves exactly the related, unassigned cells holding it, and exactly those removals are logged |
| Trail.Restore | sudoku.py:414-415 | restoring keeps the set of domain keys |
| Trail.RestoreAppends | sudoku.py:414-415 | restoring only appends: each domain keeps its list as a prefix, and a cell the trail does not name keeps its list |
| Trail.RestoreAccounts | sudoku.py:414-415 | restoring gives each domain back exactly the values the trail logs for it |
| Trail.LogTrail | sudoku.py:404-407 | the trail gains an entry for var only when something was logged, and other entries are untouched |
| Trail.ForwardStep | sudoku.py:393-407 | one iteration of assign's loop on the live domain and trail is the pruning of one more related cell |
| Trail.AssignEffect | sudoku.py:383-407 | var gets [value]; domains only lose values; only var's trail grows, and only by removals of value from related, unassigned cells other than var |
| Trail.UnAssignEffect | sudoku.py:409-417 | for an assigned var: var is dropped, its trail emptied, and each domain regains exactly what was logged; for an unassigned var nothing changes |
| Trail.AssignUnAssignRoundTrip | sudoku.py:383-417 | assign then unAssign gives back the assignment, the trail and every domain's values |
| Solver.FilledSpec | sudoku.py:81-86 | after a box's loops its entry gains its nine cells in order, and other entries are unchanged |
| Solver.BoxTableFromEmpty | sudoku.py:22-23 | generateSubGrid on an empty table builds the box table |
| Solver.RelatedTableFromEmpty | sudoku.py:24-25 | generateRelatedCellsDomain on an empty table builds the peer table, which lists each cell's peers as getRelatedCell does |
| Solver.NothingNew | sudoku.py:117-126 | a duplicate-free extension of the arc list that adds no new arc is the list itself |
| Solver.WithinPoint | sudoku.py:228 | narrowing one domain keeps the store within the original, and well formed when the narrowed list is |
| Solver.SeededSolution | sudoku.py:293-301 | a search result extending the seeded assignment gives every cell one of its candidates and keeps the seeded values |
| Solver.ExtendsStep | sudoku.py:324-329 | a solution found one level deeper extends the current assignment |
| Solver.ExtendsWithin | sudoku.py:324-329 | candidates of the narrowed domains are candidates of the wider ones |
| Solver.AssignKeepsTrailClean | sudoku.py:383-407 | assign leaves an empty trail entry for every still-unassigned cell |
| Solver.PopQueue | sudoku.py:187 | the queue after pop(0) is shorter, duplicate-free, and made of listed arcs |
| Solver.PopConsistent | sudoku.py:186-188 | popping an arc that revise leaves alone keeps every arc outside the queue consistent |
| Solver.ReviseStep | sudoku.py:188-198 | after a narrowing and the re-queue, every arc outside the queue is still consistent |
| Solver.SolvedByPropagation | sudoku.py:201-206 | when ac3 reports Solved, every cell holds one value and no two peers hold the same |
| Solver.GivensKept | sudoku.py:185-199 | domains that only lost values and are not empty keep every given digit |
| Solver.SearchKeepsGivens | sudoku.py:211-216 | a search result drawn from such domains assigns every given its digit |
| Solver.Sudoku.constructor | sudoku.py:17-27 | the grid's domains, an empty arc list, the box and peer tables, and an empty trail entry per cell |
| Solver.Sudoku.PeerListsFromTables | sudoku.py:128-134 | every grid cell's peer list is made of grid cells |
| Solver.Sudoku.GetDomain | sudoku.py:53-65 | the loops build exactly InitialDomain |
| Solver.Sudoku.GenerateSubGrid | sudoku.py:67-86 | each box 0..8 gains its cells in row order, and other entries are unchanged |
| Solver.Sudoku.FillBox | sudoku.py:81-86 | one box's entry gains its nine cells, and nothing else changes |
| Solver.Sudoku.GenerateRelatedCellsDomain | sudoku.py:128-134 | every domain key gets its getRelatedCell list, and other entries are unchanged |
| Solver.Sudoku.GeneratePrunedSet | sudoku.py:136-141 | every domain key gets an empty trail entry, and other entries are unchanged |
| Solver.Sudoku.AddArcPair | sudoku.py:150-153 | both directions of the pair are listed afterwards, appended only when missing, and the list stays duplicate-free |
| Solver.Sudoku.AddRowConstraints | sudoku.py:143-153 | the list grows at its end, duplicate-free, by exactly the arcs of the row |
| Solver.Sudoku.AddColumnConstraints | sudoku.py:155-165 | the list grows at its end, duplicate-free, by exactly the arcs of the column |
| Solver.Sudoku.AddSquareConstraints | sudoku.py:167-179 | the list grows at its end, duplicate-free, by exactly the arcs between different cells of the box |
| Solver.Sudoku.GenerateConstraints | sudoku.py:117-126 | the list gains every peer arc and nothing else, each once; a list holding them all is left alone |
| Solver.Sudoku.Revise | sudoku.py:221-230 | only domain(Xi) changes, and only by losing values; revised is true exactly when it shrank; with distinct cells and duplicate-free non-empty domains it ends as Keep |
| Solver.Sudoku.Assign | sudoku.py:383-407 | the new assignment, domains and trail are AssignEffect of the old ones |
| Solver.Sudoku.ForwardCheck | sudoku.py:391-407 | the loop leaves the domains and the trail as Prune and LogTrail describe |
| Solver.Sudoku.UnAssign | sudoku.py:409-417 | the new assignment, domains and trail are UnAssignEffect of the old ones |
| Solver.Sudoku.Backtrack | sudoku.py:303-332 | a solution covers every cell, extends the given assignment, and draws each new value from its domain; a failure gives back the assignment and the trail, and the domains' values |
| Solver.Sudoku.TryValues | sudoku.py:319-332 | the same, for the loop over the ordered values |
| Solver.Sudoku.TryValue | sudoku.py:321-330 | the same, for one assign, recursion and unAssign |
| Solver.Sudoku.BacktrackingSearch | sudoku.py:286-301 | a solution covers the grid, gives each cell a one-element list holding one of its candidates, and keeps every singleton domain's value |
| Solver.Sudoku.Requeue | sudoku.py:194-198 | the queue keeps its prefix, stays duplicate-free, and gains exactly the listed arcs pointing at Xi |
| Solver.Sudoku.ReviseFront | sudoku.py:186-198 | one turn either wipes out a named cell or keeps the domains well formed and every arc outside the queue consistent, while the domains shrink or the queue does |
| Solver.Sudoku.Propagate | sudoku.py:185-199 | the loop ends; domains only lose values; either a named cell is empty, or every arc is consistent and every domain well formed |
| Solver.Sudoku.Ac3 | sudoku.py:181-219 | Solved means solvedCheck holds; the search runs only when it fails; Wipeout names an emptied cell; otherwise every arc is consistent |
| Solver.Build | main.py:7-9 | the solver for a grid, with its arcs generated: the grid's domains, exactly the peer arcs, an empty trail |
| Solver.SolvePuzzle | main.py:7-10 | the arcs are exactly the peer arcs; the domains only lost values; without a wipe-out every given is kept; Solved means a valid grid; a search solution keeps every given |

## Left out

- Reading the grid from a file (getSudoku), printSudoku, displayResult and every print: I/O. The constructor takes the grid as a parameter.
- Dictionary keys are the text of a (row, col) tuple; the model keys by the pair itself, which stands in for that text one to one.
- copy.deepcopy of the domains in backtracking_search is a value copy: the model's domain stores are values, so the search cannot alias the class's own store.
- The search's assignment and domain dictionaries, which Python mutates in place and shares through the recursion, are threaded through the methods as values. Only the trail `pruned` is a field of the class.
- Solver.Sudoku.Ac3: the path where backtrack returns False is reported as SearchFailed. In the source, solvedCheck(False) raises a TypeError there, since a bool is not iterable, so the "unable to solve" branch never runs.
- Solver.Sudoku.Ac3: requires that the domains, arcs, peer table and trail are as the constructor and generateConstraints leave them. That is how the program calls it.
- Solver.Sudoku.Ac3: does not state that a search solution is a valid Sudoku. The search never rejects a value, because isConsistence never does, so no such claim holds.
- Solver.Sudoku.Backtrack: requires an empty trail entry for every unassigned cell, which is what the search meets from the constructor on.
- Solver.Sudoku.Backtrack: `if result:` is modelled as "a result was found". The only falsy result would be an empty dictionary, and the search only returns one when the domain store is empty.
- Solver.Sudoku.Revise: the exact result (Keep) is stated only for distinct cells with non-empty, duplicate-free domains. Otherwise only "a sub-multiset, shorter exactly when revised" is stated. AC-3 reaches revise only in the first case.
- Solver.Sudoku.GenerateConstraints: the number of arcs (1620) is not stated; the list is characterised by its members and the absence of duplicates.
- Solver.Sudoku.constructor: requires an exact 9x9 grid (IsGrid), and so do Build and SolvePuzzle. The source behaves differently on other shapes. With nine rows longer than nine, getDomain reads only the first nine columns (sudoku.py:58-60). With a short row, getDomain raises IndexError (sudoku.py:60). On an 8x8 grid, the box search checks only boxes 0 to 7, so for a cell in box 8 the box loop looks up box -1 and raises TypeError on None (sudoku.py:111). On a 10x10 grid, the lookup of box 9 gives None and raises TypeError (sudoku.py:108).
- Solver.Sudoku.constructor: the peer table is stated up to the order of each list. GetRelatedCell gives the lists, and RelatedTable states each list exactly.
- Python's None in subGrid.get(...) for a missing box is read as an empty list (Lookup); every box the loops ask for is present.
- Integer widths are not an issue: the values are cell digits and small counters.
