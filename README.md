# Grid pathfinder and walker

A Dafny model of a small grid-navigation library with two parts.

- `Pathfinder` runs a best-first (A*-style) search over an n x n terrain. It
  has the following parts:
  - A priority queue ordered by a node's key: the accumulated travel cost plus
    a heuristic weight times the estimated distance to the goal.
  - A search grid of `mapSize x mapSize` slots. Every node taken from the queue
    is written to its slot. A neighbor enters the queue only when its slot is
    still empty, so the first write wins and there is no cost relaxation.
  - The search stops when the node taken from the queue is at the goal, or
    when the queue is empty.
  - The path is then rebuilt from the predecessor chain of the last node
    taken, and `foundPath` is set in both cases.
- `Walker` follows such a path one coordinate at a time. On each call to
  `advance` it steps while a coordinate remains and its time budget is
  positive. The budget is *replaced* by the cost of the step just taken, not
  decreased by it.

Modules:

- `Grid`: coordinates, options, the cost model `Terrain` (its size and two
  arbitrary cost functions), and counting facts about the n x n cells.
- `Nodes`: the search node `PFNode` as a class with its two mutable flags. It
  also holds:
  - the neighbor locations;
  - the comparison;
  - the lemma relating a node's cost to the cost of its route.
- `SearchTree`: the loop invariant of `computePath`, stated over ghost values,
  and one lemma per step of the loop showing that the step preserves it:
  - the ghost values are the inserted nodes in order, the expanded nodes, the
    queue and the grid content;
  - the invariant says the inserted nodes form a tree of distinct cells rooted
    at the start;
  - the steps are taking a node, expanding it and inserting a neighbor;
  - a ghost record of the rounds, `Trace`, gives the order of the search:
    the node each round took, the queue it took it from and the children it
    queued.
- `Pathfinding`: the `Pathfinder` class.
  - The grid is an `array2<PFNode?>`.
  - `ComputePath` is split into the rounds of its loop. Their ghost
    out-parameters report the run: the grid before and after, the last node,
    whether the goal was reached, the expanded and inserted nodes, and what
    was left in the queue.
- `Walking`: the `Walker` class over a path `seq` and an iterator position.
  - `StopIndex` is the reference definition of where one `advance` stops.
  - `StopsAt` characterises that position.

Where the documented behaviour and the code disagree, the model follows the
code:

- **Walker budget.** With unit travel costs, one `advance(1)` walks to the end
  of the path, not one step. The budget stays 1 after every step.
  `Walking.UnitCostWalk` shows this on a three-element path.
- **Last node.** The last node of `computePath` is never null: the queue
  starts with the start node. So the path always starts at `start` and is
  never skipped.
- **Skipped nodes.** The checks at src/Pathfinder.java:154-155 never skip a
  node: every queued node is valid and unused, so `Pop` proves those branches
  unreachable.
- **Goal at the stop.** When the search stops at the goal, the last node is
  the only expanded node at the goal. When the queue runs out instead, no
  expanded node is at the goal.

## Model

| member | source | states |
|---|---|---|
| Nodes.PFNode.constructor | src/Pathfinder.java:36-47 | the new node has the given location and predecessor, is valid and unused, and its costs are the ones the terrain gives along the whole chain (estimate to the goal, plus the predecessor's cost plus the travel cost of the last step) |
| Nodes.CostIsRouteCost | src/Pathfinder.java:43-46 | a node's accumulated cost is the sum of the travel costs along its predecessor chain, from the first node to it |
| Nodes.KeyIsRouteCost | src/Pathfinder.java:62-64 | a node's key is its route's travel cost plus the weight times the estimated distance from its location to the goal |
| Nodes.PFNode.GetCost | src/Pathfinder.java:62-64 | the key is the accumulated cost plus the weight times the estimate to the goal; Nodes.KeyIsRouteCost turns that into the route's travel cost plus the weighted estimate |
| Nodes.PFNode.IsValid | src/Pathfinder.java:67-69 | reads the valid flag, with no side effect |
| Nodes.PFNode.IsUsed | src/Pathfinder.java:77-79 | reads the used flag, with no side effect |
| Nodes.PFNode.CompareTo | src/Pathfinder.java:50-58 | the result is -1, 0 or 1 exactly when this key is less than, equal to or greater than that key |
| Nodes.CompareToIsTotalPreorder | src/Pathfinder.java:50-58 | the comparison is antisymmetric, transitive and total, as a priority queue's ordering needs |
| Nodes.PFNode.Invalidate | src/Pathfinder.java:72-74 | afterwards the node is not valid, and its used flag is unchanged |
| Nodes.PFNode.Use | src/Pathfinder.java:82-84 | afterwards the node is used, and its valid flag is unchanged |
| Nodes.NeighborLocs | src/Pathfinder.java:87-105 | at most four distinct locations, each adjacent to the node's location; for a location on the grid, they are exactly the adjacent cells on the grid |
| Nodes.PFNode.Neighbors | src/Pathfinder.java:87-105 | one fresh node for each neighbor location, in iteration order, each with this node as predecessor and with the terrain's costs, valid and unused |
| Nodes.LeastExists | src/Pathfinder.java:151-152 | a non-empty queue holds a node whose key is at most every other node's key, so delMin always has something to return |
| SearchTree.RootedInBounds | src/Pathfinder.java:153 | a node whose chain starts at the start cell and stays on the grid lies on the grid, so writing it to its slot is in range |
| SearchTree.PopInv | src/Pathfinder.java:152-153 | taking any node from the queue and writing it to its slot keeps the invariant, and the node is an inserted one on the grid (the start node on the first round) |
| SearchTree.ExpandInv | src/Pathfinder.java:156-157 | marking a taken, not yet expanded node as expanded keeps the invariant |
| SearchTree.InsertInv | src/Pathfinder.java:159-164 | inserting a neighbor of an expanded node whose slot is empty, on the grid and in the queue, keeps the invariant |
| SearchTree.SettledTake | src/Pathfinder.java:152-157 | when every inserted node is queued or expanded, taking a node and expanding it keeps that so: no inserted node is ever dropped unexpanded |
| SearchTree.SettledAdd | src/Pathfinder.java:163-164 | nodes inserted and queued together keep every inserted node queued or expanded |
| SearchTree.SettledEmpty | src/Pathfinder.java:151 | once the queue is empty, every inserted node has been expanded |
| SearchTree.ClosedExtend | src/Pathfinder.java:158-165 | expanding a node not at the goal, and populating all its neighbor cells while no populated slot is cleared, keeps every expanded node's neighbor cells populated |
| SearchTree.BestFirstStep | src/Pathfinder.java:152-164 | a round that takes a node of least key from the current queue and queues only its children extends a best-first record by one round, keeping every earlier round as it was |
| SearchTree.HistoryStart | src/Pathfinder.java:147-150 | before the first round the queue holds just the start node, nothing has been taken and the last node is null |
| SearchTree.HistoryStep | src/Pathfinder.java:151-166 | one round that takes a node of least key, expands it and queues only its children, none when it stops at the goal, extends the history: the node becomes the last one taken, it is not one taken before, and there is again one expanded node per round and the queue after the round becomes the current queue |
| SearchTree.ChildKey | src/Pathfinder.java:43-64 | when one step never lowers the weighted estimate by more than the step's travel cost (a consistent estimate), a node's key is at least its predecessor's key |
| SearchTree.TakenInKeyOrder | src/Pathfinder.java:151-164 | with a consistent estimate, the nodes taken round after round have keys that never drop: each next node was either already queued, so its key is at least the least key, or a child of the node just taken |
| SearchTree.HistoryOrdered | src/Pathfinder.java:151-166 | a finished search's history gives its order: every round took a node of least key from its queue; the nodes taken are exactly the expanded ones, one per round, none taken twice; the queue left holds inserted, unexpanded nodes, each once, and its size plus the rounds is the number of inserted nodes; the last node is the last one taken, when the goal was reached the last node has a least key among the nodes left in the queue |
| SearchTree.ClaimedStep | src/Pathfinder.java:151-166 | a round whose node claims its empty neighbor cells, and whose added nodes follow the inserted ones, extends the record of claims: the inserted nodes stay the start node followed by every round's children in order, and every earlier round's claim is kept |
| SearchTree.ClaimedCell | src/Pathfinder.java:158-165 | the claim of one round, cell by cell: unless the round's node is at the goal, each of its neighbor cells was populated before the search, is the start cell, or holds a child queued in that round or an earlier one |
| SearchTree.KeptClaims | src/Pathfinder.java:158-165 | when every expanded node not at the goal has its neighbor cells populated, and every populated slot was populated before the search or holds an inserted node, each such neighbor cell was populated before the search or is the cell of an inserted node |
| SearchTree.OfferingStep | src/Pathfinder.java:159-164 | offering the next neighbor, which is inserted and queued exactly when its slot is empty, advances the offering loop's invariant by one neighbor |
| SearchTree.OfferingDone | src/Pathfinder.java:159-165 | after all neighbors are offered, the added nodes are exactly neighbors whose slots were empty, each now in its slot; every neighbor cell is populated, an empty one by an added node; no other slot changed |
| Pathfinding.Pathfinder.constructor | src/Pathfinder.java:108-112 | the grid is n x n for the terrain's n, and it is empty; search size, path, found flag and cost are zero; start and end are unset and the weight is 1 |
| Pathfinding.Pathfinder.SetPathStart | src/Pathfinder.java:114-116 | start becomes the given location, with no bounds check; nothing else changes |
| Pathfinding.Pathfinder.GetPathStart | src/Pathfinder.java:118-120 | returns the configured start |
| Pathfinding.Pathfinder.SetPathEnd | src/Pathfinder.java:122-124 | end becomes the given location, with no bounds check; nothing else changes |
| Pathfinding.Pathfinder.GetPathEnd | src/Pathfinder.java:126-128 | returns the configured end |
| Pathfinding.Pathfinder.SetHeuristic | src/Pathfinder.java:130-132 | the weight becomes the given value; nothing else changes |
| Pathfinding.Pathfinder.GetHeuristic | src/Pathfinder.java:134-136 | returns the weight |
| Pathfinding.Pathfinder.ResetPath | src/Pathfinder.java:138-144 | a fresh, empty n x n grid; search size, path, found flag and cost are zero; start, end and weight are unchanged |
| Pathfinding.Pathfinder.ComputePath | src/Pathfinder.java:146-175 | first write wins on the grid, except at the start cell; the inserted nodes are distinct cells rooted at the start; the search size grows by the expansions, at most n * n; either the last node is at the goal and expanded, or the queue is empty (always so for a goal off the grid); start equal to goal gives one expansion and the path [start]; the path is the last node's route, from the start, with adjacent steps on the grid; the cost is the last node's key; every inserted node stays valid and is used exactly when expanded; every expanded node not at the goal has all its neighbor cells populated, and when the queue ran out every inserted node was expanded; every round took a node of least key from the queue and expanded it, so the search size is the number of rounds; no node was taken twice; the queue left holds only inserted, unexpanded nodes, each once; the last node is the last one taken and, when the goal was reached, has a least key among the nodes left in the queue; with a consistent estimate the keys of the nodes taken never drop; the inserted nodes are the start node and then each round's children in round order, and each round not at the goal claimed every neighbor cell that was still empty, with its own children or earlier ones (details below) |
| Pathfinding.Pathfinder.Search | src/Pathfinder.java:147-166 | the loop's result for start s and goal e: the tree of inserted nodes, their slots and the first-write-wins grid, the queue left holding only inserted, unexpanded nodes, each once (inside `Ordered`), every inserted node valid and used exactly when expanded, every expanded node not at e with all its neighbor cells populated, and the terminal facts listed below for ComputePath; when the queue ran out, every inserted node was expanded; the record of the rounds is best first, takes exactly the expanded nodes, one per round and none twice, and ends at the last node, which has a least key among the nodes left when e was reached, and keys never drop under a consistent estimate; the inserted nodes are the start node followed by each round's children in order, and every round not at e claimed each empty neighbor cell by the end of that round |
| Pathfinding.Pathfinder.Explore | src/Pathfinder.java:151-166 | the loop: the invariant holds from the start node alone until the queue is empty or a node at e has been expanded, and it ends with some node taken; every queued node is the start node or fresh; the record of the rounds shows that each took a node of least key from its queue and queued only its children, every node taken was expanded, the last node taken is the result, and the stopping round queued nothing; the inserted nodes are the start node followed by the children of each round in order, and each round not at e left every neighbor cell of its node populated before the search or holding a node inserted by then |
| Pathfinding.Pathfinder.StartNode | src/Pathfinder.java:147-149 | a fresh, valid, unused node at the start with no predecessor, alone in the queue, makes up the invariant's initial state |
| Pathfinding.Pathfinder.Round | src/Pathfinder.java:151-166 | one round keeps the invariant with one more node taken. The taken node is one of least key and is newly expanded: it was not expanded before, and the expanded nodes grow by exactly it. The round stops exactly when it is at the goal. The inserted nodes grow by the added ones, which join the queue; they are children of the taken node, and there are none when the round stops. Every queued node was queued before or is fresh. The search size grows by one. No expanded node is at the goal except the taken node when the round stops. When start and goal coincide, the first round expands the start node and stops. Unless the taken node is at the goal, each of its neighbor cells was populated before the search or now holds an inserted node |
| Pathfinding.Pathfinder.Pop | src/Pathfinder.java:152-157 | takes a node of least key out of the queue, writes it to its slot and expands it; the skip branches for a used or invalidated node are proved unreachable, since every queued node is valid and unused |
| Pathfinding.Pathfinder.Spread | src/Pathfinder.java:158-165 | stops exactly when the expanded node is at the goal; otherwise offers its neighbors; either way the invariant holds for the next round; the added nodes are children of the expanded node, none when it stops; they are appended to the inserted nodes and join the queue, and every queued node was queued before or is fresh |
| Pathfinding.Pathfinder.TakeMin | src/Pathfinder.java:152-153 | takes a node of least key out of the queue, leaving the rest, and writes it to its slot while keeping the invariant; the node is an inserted, unexpanded one, valid and unused |
| Pathfinding.Pathfinder.Expand | src/Pathfinder.java:156-157 | the search size grows by one, the node becomes used and joins the expanded nodes, every inserted node stays valid and used exactly when expanded, and the invariant still holds |
| Pathfinding.Pathfinder.OfferNeighbors | src/Pathfinder.java:159-165 | after all neighbors have been offered, the invariant holds. Every neighbor cell is populated. The inserted nodes, appended to the queue, are exactly fresh children of the expanded node, valid and unused, one in each neighbor cell whose slot was empty. No other slot changed |
| Pathfinding.Pathfinder.OfferEach | src/Pathfinder.java:159-165 | the loop over the neighbors in iteration order: keeps the invariant, and each added node is one of the neighbors whose cell was empty and is now in its slot; every neighbor cell is populated and no other slot changed |
| Pathfinding.Pathfinder.OfferNext | src/Pathfinder.java:160-164 | one iteration: offers the next neighbor and keeps the invariant and the loop's progress |
| Pathfinding.Pathfinder.Offer | src/Pathfinder.java:160-164 | a neighbor whose slot is empty is written to it and added to the queue, and one whose slot is taken is dropped, keeping the invariant either way |
| Pathfinding.Pathfinder.Place | src/Pathfinder.java:153 | the grid afterwards is the grid before with the node's cell set to the node |
| Pathfinding.Pathfinder.Conclude | src/Pathfinder.java:168-174 | the cost is the last node's key, the path is its route, and the found flag is set |
| Pathfinding.TracePath | src/Pathfinder.java:168-173 | pushing the locations of the predecessor chain gives the route from the chain's first node to the given node |
| Pathfinding.Pathfinder.FoundPath | src/Pathfinder.java:177-179 | returns the found flag |
| Pathfinding.Pathfinder.GetPathCost | src/Pathfinder.java:181-183 | returns the path cost |
| Pathfinding.Pathfinder.GetSearchSize | src/Pathfinder.java:185-187 | returns the number of expansions |
| Pathfinding.Pathfinder.GetPathSolution | src/Pathfinder.java:189-191 | returns the path |
| Pathfinding.Pathfinder.WasSearched | src/Pathfinder.java:193-197 | true exactly when the cell's slot is populated |
| Walking.StopIndexStops | src/Walker.java:34-42 | where one advance stops, iterator position by position, with each budget replaced by the step's cost: it does not move when nothing remains or the budget is not positive; otherwise it takes at least one step, every step but the last costs more than zero, and it ends at the end of the path or right after a step of cost at most zero |
| Walking.StopsAtIsStopIndex | src/Walker.java:34-42 | that characterisation picks out exactly one stopping position, both directions |
| Walking.AllPositiveWalksToEnd | src/Walker.java:34-42 | if every remaining step costs more than zero, one advance with a positive budget reaches the end of the path |
| Walking.Walker.constructor | src/Walker.java:16-20 | the location is the first element of the path, the rest remains to be walked, and the done flag is clear |
| Walking.Walker.GetLocation | src/Walker.java:23-25 | returns the current location, which is an element of the path |
| Walking.Walker.DoneWalking | src/Walker.java:28-30 | true exactly when no element remains; then the location is the last element |
| Walking.Walker.Advance | src/Walker.java:34-42 | the position moves to StopIndex's position; the elements walked are exactly the path between the old and new positions, and what remains is the rest; a budget of at most zero moves nothing; the done flag records the last step |

`ComputePath` requires the start to be set and on the grid, and the end to be
set. It ensures the following.

- **Grid.** First write wins:
  - every slot populated before the search keeps its node, except the start
    cell's;
  - every slot that changed holds a node of this search.
- **Inserted nodes.** They occupy distinct cells, so there are at most n * n
  of them. Each is rooted at the start and is written to its own slot, with
  its whole chain on the grid. Every inserted node except the first has an
  expanded node as its predecessor.
- **Search size.** It grows by the number of expanded nodes, which is at most
  n * n. Every inserted node stays valid, and it is used exactly when it
  was expanded.
- **Expansion.** Every expanded node not at the goal has all its neighbor
  cells populated. Nodes are never skipped: when the queue runs out, every
  inserted node has been expanded.
- **When the goal is reached.** The last node is expanded, lies at the goal,
  and is the only expanded node there.
- **When the goal is not reached.** The queue is empty. This is the case
  whenever the goal is off the grid.
- **Start equals goal.** Exactly one expansion, and the path is the start
  alone.
- **The path.**
  - It is the last node's route.
  - It starts at the start and ends at the last node.
  - Consecutive cells are adjacent, and every cell is on the grid and
    populated.
- **Order.** Every round took a node of least key from the queue as it was
  then, expanded it, and queued only children of that node. The nodes taken
  are exactly the expanded ones and no node is taken twice, so the search
  size grows by the number of rounds. The queue left at the end holds only
  inserted, unexpanded nodes, each once; its size plus the number of rounds
  is the number of inserted nodes. The last node is the one the
  last round took. When the goal was reached, the last round queued nothing,
  so the last node has a least key among the nodes left in the queue. When
  the estimate is consistent (one step never lowers the weighted estimate by
  more than its travel cost), the keys of the nodes taken never drop from
  one round to the next.
- **Claims, round by round.** The inserted nodes are the start node followed
  by the children each round queued, in the order of the rounds. A round
  whose node is not at the goal claims every neighbor cell still empty at
  that moment: by the end of that round each such cell was populated before
  the search, is the start cell, or holds a child queued in that round or an
  earlier one. A later round never claims a cell that an earlier round left
  empty next to its node.
- **The cost.** It is the last node's key. By `Nodes.KeyIsRouteCost`, that is
  the path's travel cost plus the weighted estimate to the goal.

## Left out

- Floating point: costs, the heuristic weight and the budget are unbounded
  reals. Float rounding is not modelled.
- The cost model's implementation is not part of this model. `Terrain` is its
  size plus two arbitrary functions. Non-negativity of costs is neither
  assumed nor needed.
- The priority queue's implementation is not part of this model. It is a
  multiset, and delMin returns some node of least key. The tie-break is left
  open.
- `searchSize` is an unbounded integer. It is proved to grow by at most
  n * n per search, and a 32-bit wrap-around is not modelled.
- The exceptions the code gets from a start outside the grid, or from an
  unset start, are preconditions of `ComputePath`. An unset end is only
  passed to the cost model and compared with node locations. What happens
  then depends on the cost model, and `ComputePath` requires the end to be
  set. A cell outside the
  grid given to `wasSearched`, and an empty path given to the `Walker`
  constructor, are preconditions too.
- The commented-out fields at src/Pathfinder.java:14-15 have no effect and
  are not modelled.
- `invalidate` is never called by the search in the code. It is modelled,
  and the search proves that no queued node is invalid, so the skip at
  src/Pathfinder.java:155 is unreachable.
- `isValid` and `isUsed` are modelled as reading functions: a getter has no
  side effect.
- Optimality of the returned path is not proved. With first-write-wins slots
  and no relaxation, the code does not guarantee it. No concrete search run
  is worked out either, such as the cost on a uniform 3 x 3 grid.
- Aliasing of the `Iterable` the `Walker` is built from is not modelled. The
  path is taken as a fixed sequence.
