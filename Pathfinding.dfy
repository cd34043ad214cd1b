/** Best-first grid search: a priority queue ordered by cost + heuristic *
    estimate, and a search grid that keeps the first node ever associated
    with each cell. */
module Pathfinding {
  import opened Grid
  import opened Nodes
  import opened SearchTree

  class Pathfinder {
    const terrain: Terrain
    var start: Option<Coord>
    var end: Option<Coord>
    var heuristic: real
    var pathCost: real
    var foundPath: bool
    var searchSize: int
    var pathSolution: seq<Coord>
    var nodeMap: array2<PFNode?>
    const mapSize: nat

    ghost predicate Valid()
      reads this`nodeMap
    {
      mapSize == terrain.n && nodeMap.Length0 == mapSize && nodeMap.Length1 == mapSize
    }

    /** What resetPath establishes: an empty grid and zeroed results. */
    ghost predicate Cleared()
      reads this, nodeMap
      requires Valid()
    {
      searchSize == 0 && pathSolution == [] && !foundPath && pathCost == 0.0 &&
      forall i, j :: 0 <= i < mapSize && 0 <= j < mapSize ==> nodeMap[i, j] == null
    }

    /** The grid slot of c is populated. */
    ghost predicate Searched(c: Coord)
      reads this`nodeMap, nodeMap
      requires Valid() && InBounds(c, mapSize)
    {
      nodeMap[c.i, c.j] != null
    }

    constructor (terrain: Terrain)
      ensures Valid() && fresh(nodeMap) && Cleared()
      ensures this.terrain == terrain && start == None && end == None && heuristic == 1.0
    {
      this.terrain := terrain;
      mapSize := terrain.n;
      start := None;
      end := None;
      heuristic := 1.0;
      nodeMap := new PFNode?[terrain.n, terrain.n]((i, j) => null);
      new;
      ResetPath();
    }

    method SetPathStart(loc: Coord)
      modifies this`start
      ensures start == Some(loc)
    {
      start := Some(loc);
    }

    method GetPathStart() returns (r: Option<Coord>)
      ensures r == start
    {
      r := start;
    }

    method SetPathEnd(loc: Coord)
      modifies this`end
      ensures end == Some(loc)
    {
      end := Some(loc);
    }

    method GetPathEnd() returns (r: Option<Coord>)
      ensures r == end
    {
      r := end;
    }

    method SetHeuristic(v: real)
      modifies this`heuristic
      ensures heuristic == v
    {
      heuristic := v;
    }

    method GetHeuristic() returns (r: real)
      ensures r == heuristic
    {
      r := heuristic;
    }

    /** A fresh, empty grid and zeroed results; the configuration stays. */
    method ResetPath()
      requires mapSize == terrain.n
      modifies this`nodeMap, this`searchSize, this`pathSolution, this`foundPath, this`pathCost
      ensures Valid() && fresh(nodeMap) && Cleared()
    {
      nodeMap := new PFNode?[mapSize, mapSize]((i, j) => null);
      searchSize := 0;
      pathSolution := [];
      foundPath := false;
      pathCost := 0.0;
    }

    method FoundPath() returns (r: bool)
      ensures r == foundPath
    {
      r := foundPath;
    }

    method GetPathCost() returns (r: real)
      ensures r == pathCost
    {
      r := pathCost;
    }

    method GetSearchSize() returns (r: int)
      ensures r == searchSize
    {
      r := searchSize;
    }

    method GetPathSolution() returns (r: seq<Coord>)
      ensures r == pathSolution
    {
      r := pathSolution;
    }

    method WasSearched(loc: Coord) returns (r: bool)
      requires Valid() && InBounds(loc, mapSize)
      ensures r <==> Searched(loc)
    {
      r := nodeMap[loc.i, loc.j] != null;
    }

    /** slots is the content of the grid: the populated cells and their nodes. */
    ghost predicate Mirrors(slots: map<Coord, PFNode>)
      reads this`nodeMap, nodeMap
      requires Valid()
    {
      (forall c {:trigger c in slots} :: c in slots ==> InBounds(c, mapSize)) &&
      forall i, j {:trigger nodeMap[i, j]} :: 0 <= i < mapSize && 0 <= j < mapSize ==>
        nodeMap[i, j] == if Coord(i, j) in slots then slots[Coord(i, j)] else null
    }

    /** The grid, as a map from populated cells to their nodes. */
    ghost function Slots(): (slots: map<Coord, PFNode>)
      reads this`nodeMap, nodeMap
      requires Valid()
      ensures Mirrors(slots)
    {
      var slots := map c | c in Cells(mapSize) && nodeMap[c.i, c.j] != null :: nodeMap[c.i, c.j];
      assert forall i, j :: 0 <= i < mapSize && 0 <= j < mapSize ==> (Coord(i, j) in Cells(mapSize));
      slots
    }

    /** Runs the search from start towards end, then rebuilds the path from
        the last node taken from the queue. The ghost results describe the
        run: the grid before and after, the node the path ends at, whether
        the loop stopped at end, the nodes expanded, the nodes inserted into
        the queue in order, and what was left in the queue. */
    method ComputePath() returns (ghost before: map<Coord, PFNode>, ghost after: map<Coord, PFNode>,
                                  ghost last: PFNode, ghost reached: bool, ghost expanded: set<PFNode>,
                                  ghost inserted: seq<PFNode>, ghost remaining: multiset<PFNode>,
                                  ghost trace: Trace)
      requires Valid()
      requires start.Some? && InBounds(start.value, mapSize) && end.Some?
      modifies this`searchSize, this`pathSolution, this`pathCost, this`foundPath, nodeMap
      ensures Valid() && foundPath
      ensures forall c {:trigger c in before} :: c in before ==> InBounds(c, mapSize)
      ensures forall i, j {:trigger old(nodeMap[i, j])} :: 0 <= i < mapSize && 0 <= j < mapSize ==>
                old(nodeMap[i, j]) == if Coord(i, j) in before then before[Coord(i, j)] else null
      ensures Mirrors(after)
      // the grid: first write wins, except that the start node takes its own slot
      ensures Kept(before, after, inserted, start.value)
      // the inserted nodes occupy distinct cells, and all of them were placed on the grid
      ensures Tree(terrain, mapSize, start.value, end.value, inserted, expanded)
      ensures Placed(inserted, after, true)
      // every inserted node stays valid, and the used ones are exactly the expanded ones
      ensures forall y {:trigger y in inserted} :: y in inserted ==> y.valid && (y.used <==> y in expanded)
      // searchSize counts expansions
      ensures searchSize == old(searchSize) + |expanded| && |expanded| <= |inserted|
      ensures searchSize <= old(searchSize) + mapSize * mapSize
      // every expanded node not at the goal offered all its neighbors
      ensures Closed(mapSize, end.value, expanded, after)
      // how the loop ends
      ensures last in inserted && Rooted(last, terrain, mapSize, start.value, end.value) && RouteWithin(last, after.Keys)
      ensures reached ==> last in expanded && last.loc == end.value
      ensures !reached ==> remaining == multiset{} && forall y :: y in inserted ==> y in expanded
      ensures forall x {:trigger x in expanded} :: x in expanded && x.loc == end.value ==> reached && x == last
      ensures !InBounds(end.value, mapSize) ==> !reached
      // best first: every round took a node of least key from its queue and
      // expanded it, no node was taken twice, the queue left holds inserted
      // nodes only and the path ends at the last one taken
      ensures Ordered(heuristic, inserted, expanded, last, reached, remaining, trace)
      // with a consistent estimate, keys never drop from one round to the next
      ensures Consistent(terrain, end.value, heuristic) ==>
                forall i, j :: 0 <= i <= j < |trace.taken| ==>
                  trace.taken[i].GetCost(heuristic) <= trace.taken[j].GetCost(heuristic)
      // after the start node, the inserted nodes are the children of the
      // rounds in order, and every round claimed the empty cells next to its node
      ensures inserted[1..] == Flatten(trace.children) && Claimed(mapSize, end.value, before, inserted[0], trace)
      ensures start.value == end.value ==>
                reached && last == inserted[0] && searchSize == old(searchSize) + 1 && pathSolution == [start.value]
      // the path
      ensures pathSolution == last.Route()
      ensures pathSolution[0] == start.value && pathSolution[|pathSolution| - 1] == last.loc
      ensures Chained(pathSolution)
      ensures forall k :: 0 <= k < |pathSolution| ==> InBounds(pathSolution[k], mapSize) && pathSolution[k] in after
      ensures pathCost == last.GetCost(heuristic)
    {
      var s, e := start.value, end.value;
      before := Slots();
      var temp;
      temp, remaining, reached, expanded, inserted, after, trace := Search(s, e, before);
      last := temp;
      Conclude(temp);
      assert start.value == s && end.value == e;
    }

    /** The end of computePath: the cost and the path of the last node
        taken, and the flag that a search ran. */
    method Conclude(last: PFNode)
      requires last.Linked()
      modifies this`pathSolution, this`pathCost, this`foundPath
      ensures foundPath && pathCost == last.GetCost(heuristic) && pathSolution == last.Route()
    {
      pathCost := last.GetCost(heuristic);
      pathSolution := TracePath(last);
      foundPath := true;
    }

    /** The search loop of computePath: repeatedly takes a node of least key
        from the queue, writes it to its slot and, unless it was already used
        or invalidated, expands it, until the queue is empty or the node is at
        e. Returns the last node taken. */
    method Search(s: Coord, e: Coord, ghost before: map<Coord, PFNode>)
      returns (last: PFNode, remaining: multiset<PFNode>, ghost reached: bool, ghost expanded: set<PFNode>,
               ghost inserted: seq<PFNode>, ghost after: map<Coord, PFNode>, ghost trace: Trace)
      requires Valid() && Mirrors(before) && InBounds(s, mapSize)
      modifies this`searchSize, nodeMap
      ensures Valid() && Mirrors(after)
      ensures Tree(terrain, mapSize, s, e, inserted, expanded) && Placed(inserted, after, true)
      ensures Kept(before, after, inserted, s)
      ensures Flags(inserted, expanded) && Closed(mapSize, e, expanded, after)
      ensures searchSize == old(searchSize) + |expanded| && |expanded| <= |inserted|
      ensures last in inserted && Rooted(last, terrain, mapSize, s, e) && RouteWithin(last, after.Keys)
      ensures reached ==> last in expanded && last.loc == e
      ensures !reached ==> remaining == multiset{} && forall y {:trigger y in inserted} :: y in inserted ==> y in expanded
      ensures forall x {:trigger x in expanded} :: x in expanded && x.loc == e ==> reached && x == last
      ensures s == e ==> reached && last == inserted[0] && |expanded| == 1
      // best first: every round took a node of least key from its queue
      ensures Ordered(heuristic, inserted, expanded, last, reached, remaining, trace)
      ensures Consistent(terrain, e, heuristic) ==>
                forall i, j :: 0 <= i <= j < |trace.taken| ==>
                  trace.taken[i].GetCost(heuristic) <= trace.taken[j].GetCost(heuristic)
      ensures inserted[1..] == Flatten(trace.children) && Claimed(mapSize, e, before, inserted[0], trace)
    {
      var startNode := StartNode(s, e, before);
      var temp, pq, stop;
      ghost var popped;
      temp, pq, stop, inserted, expanded, after, popped, trace := Explore(s, e, before, startNode);
      last, remaining, reached := temp, pq, stop;
      InsertedRooted(terrain, mapSize, s, e, inserted, expanded, after, last);
      if !reached {
        SettledEmpty(inserted, expanded, pq);
      }
      HistoryOrdered(heuristic, inserted, expanded, pq, trace, temp, stop, popped);
      if Consistent(terrain, e, heuristic) {
        TakenInKeyOrder(terrain, mapSize, s, e, heuristic, inserted, expanded, trace);
      }
    }

    /** The state between two rounds of the search: the loop invariant, the
        grid mirrored by slots, no expanded node at e unless the loop is
        stopping at temp, the last node taken, and the count of expansions
        since base. */
    ghost predicate Frontier(s: Coord, e: Coord, before: map<Coord, PFNode>, root: PFNode, base: int,
                             inserted: seq<PFNode>, expanded: set<PFNode>, slots: map<Coord, PFNode>,
                             pq: multiset<PFNode>, popped: nat, temp: PFNode?, stop: bool)
      reads this, nodeMap, set y | y in inserted
    {
      Valid() && Mirrors(slots) &&
      Inv(terrain, mapSize, s, e, before, inserted, expanded, slots, pq, popped) &&
      Settled(inserted, expanded, pq) && Flags(inserted, expanded) && Closed(mapSize, e, expanded, slots) &&
      inserted[0] == root &&
      (forall x {:trigger x in expanded} :: x in expanded ==> x.loc != e || (stop && x == temp)) &&
      (stop ==> temp in expanded && temp.loc == e) &&
      searchSize == base + |expanded| &&
      (popped == 0 <==> temp == null) && (popped == 0 ==> !stop) && (temp != null ==> temp in inserted) &&
      (s == e ==> popped == 0 || (stop && temp == root && |expanded| == 1))
    }

    /** The loop of the search, from the queue holding only the start node
        until the queue is empty or a node at e has been expanded. */
    method Explore(s: Coord, e: Coord, ghost before: map<Coord, PFNode>, startNode: PFNode)
      returns (temp: PFNode?, pq: multiset<PFNode>, stop: bool, ghost inserted: seq<PFNode>,
               ghost expanded: set<PFNode>, ghost slots: map<Coord, PFNode>, ghost popped: nat,
               ghost trace: Trace)
      requires Frontier(s, e, before, startNode, searchSize, [startNode], {}, before, multiset{startNode}, 0, null, false)
      modifies this`searchSize, nodeMap, startNode
      ensures Frontier(s, e, before, startNode, old(searchSize), inserted, expanded, slots, pq, popped, temp, stop)
      ensures forall y {:trigger pq[y]} :: y in pq ==> y == startNode || fresh(y)
      ensures temp != null && (!stop ==> pq == multiset{})
      // the order in which the rounds took their nodes
      ensures History(heuristic, startNode, expanded, pq, trace, temp, stop, popped)
      ensures inserted[1..] == Flatten(trace.children) && Claimed(mapSize, e, before, startNode, trace)
    {
      ghost var base := searchSize;
      pq, temp, popped, slots := multiset{startNode}, null, 0, before;
      expanded, inserted := {}, [startNode];
      stop := false;
      trace := Trace([], [], [pq]);
      HistoryStart(heuristic, startNode);
      ghost var cap := mapSize * mapSize;
      while pq != multiset{} && !stop
        invariant Frontier(s, e, before, startNode, base, inserted, expanded, slots, pq, popped, temp, stop)
        invariant forall y {:trigger pq[y]} :: y in pq ==> y == startNode || fresh(y)
        invariant popped == 0 ==> pq != multiset{}
        invariant History(heuristic, startNode, expanded, pq, trace, temp, stop, popped)
        invariant inserted == [startNode] + Flatten(trace.children) && Claimed(mapSize, e, before, startNode, trace)
        decreases cap - |inserted| + |pq|
      {
        var x;
        ghost var added;
        ghost var pq0, expanded0, inserted0 := pq, expanded, inserted;
        x, pq, stop, inserted, expanded, slots, added := Round(s, e, before, startNode, base, pq, inserted, expanded, slots, popped, temp);
        HistoryStep(heuristic, startNode, expanded0, expanded, pq0, trace, temp, popped, x, added, pq, stop);
        ClaimedStep(mapSize, e, before, startNode, inserted0, trace, x, added, pq, inserted);
        trace := trace.Next(x, added, pq);
        temp := x;
        popped := popped + 1;
      }
      AfterRoot(startNode, Flatten(trace.children), inserted);
    }

    /** The node the queue starts with: a fresh node at s with no
        predecessor, which alone makes up the invariant's initial state. */
    method StartNode(s: Coord, e: Coord, ghost before: map<Coord, PFNode>) returns (x: PFNode)
      requires Valid() && Mirrors(before) && InBounds(s, mapSize)
      ensures fresh(x)
      ensures Inv(terrain, mapSize, s, e, before, [x], {}, before, multiset{x}, 0)
      ensures Settled([x], {}, multiset{x}) && Flags([x], {}) && Closed(mapSize, e, {}, before)
    {
      x := new PFNode(terrain, e, s, null);
      assert Rooted(x, terrain, mapSize, s, e);
    }

    /** One round of the search loop: takes a node x of least key from the
        queue, writes it to its slot and expands it and, unless x is at e,
        offers its neighbors. stop reports that x is at e, which ends the
        loop. Between rounds no queued node is used or invalid, so x is
        always expanded. */
    method Round(s: Coord, e: Coord, ghost before: map<Coord, PFNode>, ghost root: PFNode, ghost base: int,
                 pq0: multiset<PFNode>, ghost inserted0: seq<PFNode>, ghost expanded0: set<PFNode>,
                 ghost slots0: map<Coord, PFNode>, ghost popped: nat, ghost temp: PFNode?)
      returns (x: PFNode, pq: multiset<PFNode>, stop: bool, ghost inserted: seq<PFNode>,
               ghost expanded: set<PFNode>, ghost slots: map<Coord, PFNode>, ghost added: seq<PFNode>)
      requires Frontier(s, e, before, root, base, inserted0, expanded0, slots0, pq0, popped, temp, false)
      requires pq0 != multiset{}
      modifies this`searchSize, nodeMap, pq0
      ensures Frontier(s, e, before, root, base, inserted, expanded, slots, pq, popped + 1, x, stop)
      // delMin took x, of least key, and the round queued only children of x
      ensures Took(old(heuristic), x, pq0, added, pq)
      // x is newly expanded
      ensures x !in expanded0 && expanded == expanded0 + {x}
      ensures stop <==> x.loc == e
      // the nodes inserted: fresh ones, appended to the queue; none when the round stops
      ensures inserted == inserted0 + added && (stop ==> added == [])
      // unless x is at e, its neighbor cells are claimed now
      ensures Claims(mapSize, e, before, x, inserted)
      ensures forall y {:trigger pq[y]} :: y in pq ==> y in pq0 || fresh(y)
      ensures |inserted| - |pq| == |inserted0| - |pq0| + 1
    {
      var pq1;
      ghost var slots1;
      x, pq1, slots1, expanded := Pop(s, e, before, root, base, pq0, inserted0, expanded0, slots0, popped, temp);
      pq, stop, inserted, slots, added := Spread(s, e, before, root, base, x, pq1, inserted0, expanded0, slots0,
                                                 slots1, popped);
      KeptClaims(mapSize, e, before, s, expanded, slots, inserted, x);
    }

    /** A node x of least key has just been taken from the queue: the part
        of Taken that does not depend on the heap. */
    ghost predicate Chosen(s: Coord, e: Coord, before: map<Coord, PFNode>, root: PFNode,
                           inserted: seq<PFNode>, expanded0: set<PFNode>, slots0: map<Coord, PFNode>,
                           pq: multiset<PFNode>, popped: nat, x: PFNode)
    {
      Inv(terrain, mapSize, s, e, before, inserted, expanded0, slots0[x.loc := x], pq, popped + 1) &&
      Settled(inserted, expanded0 + {x}, pq) && Closed(mapSize, e, expanded0, slots0) &&
      x in inserted && x !in pq && x !in expanded0 && InBounds(x.loc, mapSize) && inserted[0] == root &&
      (forall y {:trigger y in expanded0} :: y in expanded0 ==> y.loc != e) &&
      |expanded0| < popped + 1 && (s == e ==> x == root && expanded0 == {})
    }

    /** A node x of least key has just been taken from the queue and written
        to its slot; it is neither used nor invalidated. */
    ghost predicate Taken(s: Coord, e: Coord, before: map<Coord, PFNode>, root: PFNode, base: int,
                          inserted: seq<PFNode>, expanded0: set<PFNode>, slots0: map<Coord, PFNode>,
                          pq: multiset<PFNode>, popped: nat, x: PFNode, slots: map<Coord, PFNode>)
      reads this, nodeMap, set y | y in inserted
    {
      Valid() && Mirrors(slots) && slots == slots0[x.loc := x] &&
      Chosen(s, e, before, root, inserted, expanded0, slots0, pq, popped, x) &&
      Flags(inserted, expanded0) && x.valid && !x.used && searchSize == base + |expanded0|
    }

    /** Taking a queued node x between two rounds. */
    lemma Choose(s: Coord, e: Coord, before: map<Coord, PFNode>, root: PFNode, base: int, inserted: seq<PFNode>,
                 expanded: set<PFNode>, slots0: map<Coord, PFNode>, pq0: multiset<PFNode>, popped: nat,
                 temp: PFNode?, x: PFNode)
      requires Frontier(s, e, before, root, base, inserted, expanded, slots0, pq0, popped, temp, false)
      requires x in pq0
      ensures Chosen(s, e, before, root, inserted, expanded, slots0, pq0 - multiset{x}, popped, x)
      ensures x.valid && !x.used
    {
      PopInv(terrain, mapSize, s, e, before, inserted, expanded, slots0, pq0, popped, x);
      SettledTake(inserted, expanded, pq0, x);
    }

    /** The part of Popped that does not depend on the heap. */
    ghost predicate Expanded(s: Coord, e: Coord, before: map<Coord, PFNode>, root: PFNode,
                             inserted: seq<PFNode>, expanded0: set<PFNode>, slots0: map<Coord, PFNode>,
                             pq: multiset<PFNode>, popped: nat, x: PFNode, slots: map<Coord, PFNode>)
    {
      Inv(terrain, mapSize, s, e, before, inserted, expanded0 + {x}, slots, pq, popped + 1) &&
      Settled(inserted, expanded0 + {x}, pq) &&
      Closed(mapSize, e, expanded0, slots0) && slots == slots0[x.loc := x] &&
      x in inserted && x !in expanded0 && InBounds(x.loc, mapSize) && inserted[0] == root &&
      (forall y {:trigger y in expanded0} :: y in expanded0 ==> y.loc != e) &&
      (s == e ==> x == root && expanded0 == {})
    }

    /** A node x has just been taken from the queue, written to its slot and
        expanded: the invariant holds for the round's new counts. */
    ghost predicate Popped(s: Coord, e: Coord, before: map<Coord, PFNode>, root: PFNode, base: int,
                           inserted: seq<PFNode>, expanded0: set<PFNode>, slots0: map<Coord, PFNode>,
                           pq: multiset<PFNode>, popped: nat, x: PFNode, slots: map<Coord, PFNode>)
      reads this, nodeMap, set y | y in inserted
    {
      Valid() && Mirrors(slots) && Flags(inserted, expanded0 + {x}) && searchSize == base + |expanded0| + 1 &&
      Expanded(s, e, before, root, inserted, expanded0, slots0, pq, popped, x, slots)
    }

    /** Expanding the taken node x keeps the invariant. */
    lemma Expanding(s: Coord, e: Coord, before: map<Coord, PFNode>, root: PFNode, base: int,
                    inserted: seq<PFNode>, expanded0: set<PFNode>, slots0: map<Coord, PFNode>,
                    pq: multiset<PFNode>, popped: nat, x: PFNode, slots: map<Coord, PFNode>)
      requires Taken(s, e, before, root, base, inserted, expanded0, slots0, pq, popped, x, slots)
      ensures Expanded(s, e, before, root, inserted, expanded0, slots0, pq, popped, x, slots)
    {
      ExpandInv(terrain, mapSize, s, e, before, inserted, expanded0, slots, pq, popped + 1, x);
    }

    /** The first half of a round: delMin, the write of the taken node to its
        slot and its expansion. The branch that skips a used or invalidated
        node is unreachable. */
    method Pop(s: Coord, e: Coord, ghost before: map<Coord, PFNode>, ghost root: PFNode, ghost base: int,
               pq0: multiset<PFNode>, ghost inserted0: seq<PFNode>, ghost expanded0: set<PFNode>,
               ghost slots0: map<Coord, PFNode>, ghost popped: nat, ghost temp: PFNode?)
      returns (x: PFNode, pq: multiset<PFNode>, ghost slots: map<Coord, PFNode>, ghost expanded: set<PFNode>)
      requires Frontier(s, e, before, root, base, inserted0, expanded0, slots0, pq0, popped, temp, false)
      requires pq0 != multiset{}
      modifies this`searchSize, nodeMap, pq0
      ensures Popped(s, e, before, root, base, inserted0, expanded0, slots0, pq, popped, x, slots)
      ensures x in pq0 && LeastIn(x, pq0, old(heuristic)) && pq == pq0 - multiset{x}
      ensures expanded == expanded0 + {x}
    {
      x, pq, slots := TakeMin(s, e, before, root, base, pq0, inserted0, expanded0, slots0, popped, temp);
      if x.IsUsed() || !x.IsValid() {
        // skipped by the source; no taken node is used or invalid
        assert false;
      }
      expanded := Expand(s, e, before, root, base, x, pq, inserted0, expanded0, slots0, slots, popped);
    }

    /** The second half of a round: unless the expanded node x is at e,
        offers its neighbors. */
    method Spread(s: Coord, e: Coord, ghost before: map<Coord, PFNode>, ghost root: PFNode, ghost base: int,
                  x: PFNode, pq1: multiset<PFNode>, ghost inserted0: seq<PFNode>, ghost expanded0: set<PFNode>,
                  ghost slots0: map<Coord, PFNode>, ghost slots1: map<Coord, PFNode>, ghost popped: nat)
      returns (pq: multiset<PFNode>, stop: bool, ghost inserted: seq<PFNode>, ghost slots: map<Coord, PFNode>,
               ghost added: seq<PFNode>)
      requires Popped(s, e, before, root, base, inserted0, expanded0, slots0, pq1, popped, x, slots1)
      modifies nodeMap
      ensures Frontier(s, e, before, root, base, inserted, expanded0 + {x}, slots, pq, popped + 1, x, stop)
      ensures stop <==> x.loc == e
      ensures inserted == inserted0 + added && pq == pq1 + multiset(added)
      ensures forall y {:trigger y in added} :: y in added ==> y.fromNode == x
      ensures stop ==> added == []
      ensures forall y {:trigger pq[y]} :: y in pq ==> y in pq1 || fresh(y)
    {
      ghost var expanded := expanded0 + {x};
      stop := x.loc == e;
      inserted, pq, slots, added := inserted0, pq1, slots1, [];
      if !stop {
        pq, inserted, slots, added := OfferNeighbors(s, e, before, x, pq1, inserted0, expanded, slots1, popped + 1);
        Grown(s, e, before, root, base, x, pq1, inserted0, expanded0, slots0, slots1, popped, pq, inserted, slots,
              added);
      } else {
        Halt(s, e, before, root, base, x, pq1, inserted0, expanded0, slots0, slots1, popped);
        assert inserted0 + [] == inserted0;
      }
    }

    /** The end of the last round: the node x just expanded is at e, and the
        loop stops without offering its neighbors. */
    lemma Halt(s: Coord, e: Coord, before: map<Coord, PFNode>, root: PFNode, base: int, x: PFNode,
               pq1: multiset<PFNode>, inserted0: seq<PFNode>, expanded0: set<PFNode>,
               slots0: map<Coord, PFNode>, slots1: map<Coord, PFNode>, popped: nat)
      requires Popped(s, e, before, root, base, inserted0, expanded0, slots0, pq1, popped, x, slots1)
      requires x.loc == e
      ensures Frontier(s, e, before, root, base, inserted0, expanded0 + {x}, slots1, pq1, popped + 1, x, true)
    {
      ClosedExtend(mapSize, e, expanded0, x, slots0, slots1, slots1);
    }

    /** A round that goes on: once the neighbors of x are offered, the
        invariant holds again, with the added nodes queued and every
        neighbor cell of x populated. */
    lemma Grown(s: Coord, e: Coord, before: map<Coord, PFNode>, root: PFNode, base: int, x: PFNode,
                pq1: multiset<PFNode>, inserted0: seq<PFNode>, expanded0: set<PFNode>,
                slots0: map<Coord, PFNode>, slots1: map<Coord, PFNode>, popped: nat,
                pq: multiset<PFNode>, inserted: seq<PFNode>, slots: map<Coord, PFNode>, added: seq<PFNode>)
      requires Valid() && Mirrors(slots) && Flags(inserted, expanded0 + {x})
      requires Inv(terrain, mapSize, s, e, before, inserted, expanded0 + {x}, slots, pq, popped + 1)
      requires Settled(inserted0, expanded0 + {x}, pq1) && Closed(mapSize, e, expanded0, slots0)
      requires slots1 == slots0[x.loc := x] && inserted == inserted0 + added && pq == pq1 + multiset(added)
      requires forall c {:trigger c in NeighborLocs(x.loc, mapSize)} :: c in NeighborLocs(x.loc, mapSize) ==> c in slots
      requires forall c {:trigger c in slots1} :: c in slots1 ==> c in slots
      requires x in inserted0 && x !in expanded0 && inserted0[0] == root && x.loc != e
      requires forall y {:trigger y in expanded0} :: y in expanded0 ==> y.loc != e
      requires searchSize == base + |expanded0| + 1 && (s == e ==> x == root && expanded0 == {})
      ensures Frontier(s, e, before, root, base, inserted, expanded0 + {x}, slots, pq, popped + 1, x, false)
    {
      SettledAdd(inserted0, expanded0 + {x}, pq1, added);
      ClosedExtend(mapSize, e, expanded0, x, slots0, slots1, slots);
    }

    /** delMin followed by the write of the taken node to its slot: x is some
        node of least key (the tie-break is not specified). */
    method TakeMin(s: Coord, e: Coord, ghost before: map<Coord, PFNode>, ghost root: PFNode, ghost base: int,
                   pq0: multiset<PFNode>, ghost inserted: seq<PFNode>, ghost expanded: set<PFNode>,
                   ghost slots0: map<Coord, PFNode>, ghost popped: nat, ghost temp: PFNode?)
      returns (x: PFNode, pq: multiset<PFNode>, ghost slots: map<Coord, PFNode>)
      requires Frontier(s, e, before, root, base, inserted, expanded, slots0, pq0, popped, temp, false)
      requires pq0 != multiset{}
      modifies nodeMap
      ensures Taken(s, e, before, root, base, inserted, expanded, slots0, pq, popped, x, slots)
      ensures x in pq0 && LeastIn(x, pq0, heuristic) && pq == pq0 - multiset{x}
    {
      LeastExists(pq0, heuristic);
      x :| x in pq0 && LeastIn(x, pq0, heuristic);
      Choose(s, e, before, root, base, inserted, expanded, slots0, pq0, popped, temp, x);
      pq := pq0 - multiset{x};
      slots := Place(x, slots0);
    }

    /** Expansion of a taken node x that is neither used nor invalidated:
        counts it and marks it used. */
    method Expand(s: Coord, e: Coord, ghost before: map<Coord, PFNode>, ghost root: PFNode, ghost base: int,
                  x: PFNode, ghost pq: multiset<PFNode>, ghost inserted: seq<PFNode>, ghost expanded0: set<PFNode>,
                  ghost slots0: map<Coord, PFNode>, ghost slots: map<Coord, PFNode>, ghost popped: nat)
      returns (ghost expanded: set<PFNode>)
      requires Taken(s, e, before, root, base, inserted, expanded0, slots0, pq, popped, x, slots)
      modifies this`searchSize, x
      ensures Popped(s, e, before, root, base, inserted, expanded0, slots0, pq, popped, x, slots)
      ensures expanded == expanded0 + {x}
    {
      Expanding(s, e, before, root, base, inserted, expanded0, slots0, pq, popped, x, slots);
      searchSize := searchSize + 1;
      x.Use();
      expanded := expanded0 + {x};
    }

    /** Writes x to the slot of its location. */
    method Place(x: PFNode, ghost slots0: map<Coord, PFNode>) returns (ghost slots: map<Coord, PFNode>)
      requires Valid() && Mirrors(slots0) && InBounds(x.loc, mapSize)
      modifies nodeMap
      ensures Valid() && Mirrors(slots) && slots == slots0[x.loc := x]
    {
      nodeMap[x.loc.i, x.loc.j] := x;
      slots := slots0[x.loc := x];
    }

    /** Expands x: creates its neighbors and, in iteration order, writes each
        one whose slot is empty to that slot and adds it to the queue. */
    method OfferNeighbors(ghost s: Coord, e: Coord, ghost before: map<Coord, PFNode>, x: PFNode,
                          pq0: multiset<PFNode>, ghost inserted0: seq<PFNode>, ghost expanded: set<PFNode>,
                          ghost slots0: map<Coord, PFNode>, ghost popped: nat)
      returns (pq: multiset<PFNode>, ghost inserted: seq<PFNode>, ghost slots: map<Coord, PFNode>,
               ghost added: seq<PFNode>)
      requires Valid() && Mirrors(slots0) && popped > 0 && x in expanded && InBounds(x.loc, mapSize)
      requires Inv(terrain, mapSize, s, e, before, inserted0, expanded, slots0, pq0, popped)
      requires Flags(inserted0, expanded)
      modifies nodeMap
      ensures Valid() && Mirrors(slots)
      ensures Inv(terrain, mapSize, s, e, before, inserted, expanded, slots, pq, popped)
      ensures Flags(inserted, expanded)
      // the nodes inserted: fresh children of x, each in a neighbor cell whose slot was empty
      ensures inserted == inserted0 + added && pq == pq0 + multiset(added)
      ensures forall y {:trigger y in added} :: y in added ==> fresh(y) && y.fromNode == x && y.valid && !y.used
      ensures forall y {:trigger y in added} :: y in added ==> y.loc !in slots0 && y.loc in slots && slots[y.loc] == y
      // every neighbor cell is now populated, an empty one by an inserted node; no other slot changed
      ensures forall c {:trigger c in NeighborLocs(x.loc, mapSize)} :: c in NeighborLocs(x.loc, mapSize) ==> c in slots && (c !in slots0 ==> slots[c] in added)
      ensures forall c {:trigger c in slots} :: c in slots ==> c in slots0 || c in NeighborLocs(x.loc, mapSize)
      ensures forall c {:trigger c in slots0} :: c in slots0 ==> c in slots && slots[c] == slots0[c]
    {
      ExpandedRooted(terrain, mapSize, s, e, inserted0, expanded, x);
      var ns := x.Neighbors(terrain, e);
      ghost var ls := NeighborLocs(x.loc, mapSize);
      pq, inserted, slots, added := OfferEach(s, e, before, x, ns, ls, pq0, inserted0, expanded, slots0, popped);
      forall y | y in added
        ensures fresh(y) && y.fromNode == x && y.valid && !y.used
      {
        var j :| 0 <= j < |ns| && ns[j] == y;
      }
    }

    /** The loop of the expansion: offers the neighbors ns of x, in order. */
    method OfferEach(ghost s: Coord, e: Coord, ghost before: map<Coord, PFNode>, x: PFNode, ns: seq<PFNode>,
                     ghost ls: seq<Coord>, pq0: multiset<PFNode>, ghost inserted0: seq<PFNode>,
                     ghost expanded: set<PFNode>, ghost slots0: map<Coord, PFNode>, ghost popped: nat)
      returns (pq: multiset<PFNode>, ghost inserted: seq<PFNode>, ghost slots: map<Coord, PFNode>,
               ghost added: seq<PFNode>)
      requires Valid() && Mirrors(slots0) && popped > 0 && x in expanded
      requires Inv(terrain, mapSize, s, e, before, inserted0, expanded, slots0, pq0, popped)
      requires |ns| == |ls|
      requires forall k :: 0 <= k < |ns| ==> ns[k].loc == ls[k] && InBounds(ls[k], mapSize) && Adjacent(x.loc, ls[k])
      requires forall k :: 0 <= k < |ns| ==> ns[k].fromNode == x && ns[k].Wf(terrain, e)
      modifies nodeMap
      ensures Valid() && Mirrors(slots)
      ensures Inv(terrain, mapSize, s, e, before, inserted, expanded, slots, pq, popped)
      ensures inserted == inserted0 + added && pq == pq0 + multiset(added)
      ensures forall y {:trigger y in added} :: y in added ==> y in ns && y.loc !in slots0 && y.loc in slots && slots[y.loc] == y
      ensures forall c {:trigger c in ls} :: c in ls ==> c in slots && (c !in slots0 ==> slots[c] in added)
      ensures forall c {:trigger c in slots} :: c in slots ==> c in slots0 || c in ls
      ensures forall c {:trigger c in slots0} :: c in slots0 ==> c in slots && slots[c] == slots0[c]
    {
      added := [];
      pq, inserted, slots := pq0, inserted0, slots0;
      var k := 0;
      OfferingStart(ls, ns, slots0, inserted0, pq0);
      while k < |ns|
        invariant Valid() && Mirrors(slots)
        invariant Inv(terrain, mapSize, s, e, before, inserted, expanded, slots, pq, popped)
        invariant Offering(ls, ns, k, slots0, inserted0, pq0, slots, inserted, pq, added)
      {
        pq, inserted, slots, added := OfferNext(s, e, before, x, ns, ls, k, pq, inserted, expanded, slots, popped,
                                                slots0, inserted0, pq0, added);
        k := k + 1;
      }
      OfferingDone(ls, ns, slots0, inserted0, pq0, slots, inserted, pq, added);
    }

    /** One step of the loop of the expansion: offers ns[k]. */
    method OfferNext(ghost s: Coord, e: Coord, ghost before: map<Coord, PFNode>, x: PFNode, ns: seq<PFNode>,
                     ghost ls: seq<Coord>, k: nat, pq1: multiset<PFNode>, ghost inserted1: seq<PFNode>,
                     ghost expanded: set<PFNode>, ghost slots1: map<Coord, PFNode>, ghost popped: nat,
                     ghost slots0: map<Coord, PFNode>, ghost inserted0: seq<PFNode>, ghost pq0: multiset<PFNode>,
                     ghost added1: seq<PFNode>)
      returns (pq: multiset<PFNode>, ghost inserted: seq<PFNode>, ghost slots: map<Coord, PFNode>,
               ghost added: seq<PFNode>)
      requires Valid() && Mirrors(slots1) && popped > 0 && x in expanded
      requires Inv(terrain, mapSize, s, e, before, inserted1, expanded, slots1, pq1, popped)
      requires k < |ns| == |ls|
      requires ns[k].loc == ls[k] && InBounds(ls[k], mapSize) && Adjacent(x.loc, ls[k])
      requires ns[k].fromNode == x && ns[k].Wf(terrain, e)
      requires Offering(ls, ns, k, slots0, inserted0, pq0, slots1, inserted1, pq1, added1)
      modifies nodeMap
      ensures Valid() && Mirrors(slots)
      ensures Inv(terrain, mapSize, s, e, before, inserted, expanded, slots, pq, popped)
      ensures Offering(ls, ns, k + 1, slots0, inserted0, pq0, slots, inserted, pq, added)
    {
      pq, inserted, slots := Offer(s, e, before, x, ns[k], pq1, inserted1, expanded, slots1, popped);
      added := OfferingStep(ls, ns, k, slots0, inserted0, pq0, slots1, inserted1, pq1, added1, slots, inserted, pq);
    }

    /** Offers nb, a neighbor of the expanded node x: when nb's slot is
        empty, writes nb to it and adds nb to the queue. */
    method Offer(ghost s: Coord, ghost e: Coord, ghost before: map<Coord, PFNode>, ghost x: PFNode, nb: PFNode,
                 pq0: multiset<PFNode>, ghost inserted0: seq<PFNode>, ghost expanded: set<PFNode>,
                 ghost slots0: map<Coord, PFNode>, ghost popped: nat)
      returns (pq: multiset<PFNode>, ghost inserted: seq<PFNode>, ghost slots: map<Coord, PFNode>)
      requires Valid() && Mirrors(slots0) && popped > 0 && x in expanded
      requires Inv(terrain, mapSize, s, e, before, inserted0, expanded, slots0, pq0, popped)
      requires nb.fromNode == x && nb.Wf(terrain, e) && InBounds(nb.loc, mapSize) && Adjacent(x.loc, nb.loc)
      modifies nodeMap
      ensures Valid() && Mirrors(slots)
      ensures Inv(terrain, mapSize, s, e, before, inserted, expanded, slots, pq, popped)
      ensures if nb.loc in slots0 then inserted == inserted0 && pq == pq0 && slots == slots0
              else inserted == inserted0 + [nb] && pq == pq0 + multiset{nb} && slots == slots0[nb.loc := nb]
    {
      pq, inserted, slots := pq0, inserted0, slots0;
      if nodeMap[nb.loc.i, nb.loc.j] == null {
        InsertInv(terrain, mapSize, s, e, before, inserted, expanded, slots, pq, popped, x, nb);
        slots := Place(nb, slots);
        pq := pq + multiset{nb};
        inserted := inserted + [nb];
      }
    }
  }

  /** Walks the predecessor chain from x, pushing each location, so the
      result runs from the first node of the chain to x. */
  method TracePath(x: PFNode) returns (path: seq<Coord>)
    requires x.Linked()
    ensures path == x.Route()
  {
    path := [];
    var p: PFNode? := x;
    while p != null
      invariant p != null ==> p.Linked() && p.Route() + path == x.Route()
      invariant p == null ==> path == x.Route()
      decreases if p == null then 0 else p.depth + 1
    {
      path := Push(path, p.loc);
      p := p.fromNode;
    }
  }
}
