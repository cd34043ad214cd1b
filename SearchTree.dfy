/** The invariant of the search loop, stated over the values the loop
    manipulates (the nodes inserted so far, the nodes expanded, the queue and
    the content of the grid), and how each step of the loop preserves it. */
module SearchTree {
  import opened Grid
  import opened Nodes

  /** x was built for terrain t and goal e, its chain starts at s, stays on
      the n x n grid and moves between adjacent cells. */
  ghost predicate Rooted(x: PFNode, t: Terrain, n: int, s: Coord, e: Coord) {
    x.Wf(t, e) &&
    var r := x.Route();
    r[0] == s && Chained(r) && forall k :: 0 <= k < |r| ==> InBounds(r[k], n)
  }

  /** A rooted node lies on the grid. */
  lemma RootedInBounds(x: PFNode, t: Terrain, n: int, s: Coord, e: Coord)
    requires Rooted(x, t, n, s, e)
    ensures InBounds(x.loc, n)
  {
    var r := x.Route();
    assert r[|r| - 1] == x.loc;
  }

  /** Every cell on x's chain is in claimed. */
  ghost predicate RouteWithin(x: PFNode, claimed: set<Coord>)
    requires x.Linked()
  {
    forall k :: 0 <= k < |x.Route()| ==> x.Route()[k] in claimed
  }

  /** The search tree: the nodes inserted into the queue, in order, start
      with a root at s, occupy distinct cells (so there are at most n * n of
      them), are rooted at s, and all but the root descend from an expanded
      node, which is an inserted one. */
  ghost predicate Tree(t: Terrain, n: int, s: Coord, e: Coord, inserted: seq<PFNode>, expanded: set<PFNode>) {
    0 < |inserted| <= n * n && inserted[0].loc == s && inserted[0].fromNode == null &&
    Distinct(Locs(inserted)) &&
    (forall k {:trigger Rooted(inserted[k], t, n, s, e)} :: 0 <= k < |inserted| ==> Rooted(inserted[k], t, n, s, e)) &&
    (forall k :: 1 <= k < |inserted| ==> inserted[k].fromNode in expanded) &&
    (forall x {:trigger x in expanded} :: x in expanded ==> x in inserted)
  }

  /** Once the root has been taken from the queue, every inserted node
      occupies its own slot, and so does every node on its chain. */
  ghost predicate Placed(inserted: seq<PFNode>, slots: map<Coord, PFNode>, rootTaken: bool) {
    (forall k :: 0 <= k < |inserted| && (k > 0 || rootTaken) ==>
       inserted[k].loc in slots && slots[inserted[k].loc] == inserted[k] && inserted[k].Linked()) &&
    (forall k {:trigger RouteWithin(inserted[k], slots.Keys)} :: 0 <= k < |inserted| && (k > 0 || rootTaken) ==>
       RouteWithin(inserted[k], slots.Keys))
  }

  /** First write wins: a slot populated before the search keeps its node,
      except the start cell's; a slot that changed holds an inserted node
      located at that cell. */
  ghost predicate Kept(before: map<Coord, PFNode>, slots: map<Coord, PFNode>, inserted: seq<PFNode>, s: Coord) {
    (forall c {:trigger c in before} :: c in before && c != s ==> c in slots && slots[c] == before[c]) &&
    (forall c {:trigger c in slots} :: c in slots && (c !in before || slots[c] != before[c]) ==>
       slots[c] in inserted && slots[c].loc == c)
  }

  /** The queue holds inserted nodes not yet taken, each once and none of
      them expanded; before the first take it holds just the root. */
  ghost predicate Queue(inserted: seq<PFNode>, expanded: set<PFNode>, pq: multiset<PFNode>, popped: nat) {
    (forall x {:trigger pq[x]} :: x in pq ==> x in inserted && pq[x] == 1 && x !in expanded) &&
    popped + |pq| == |inserted| && |expanded| <= popped &&
    (popped == 0 ==> |inserted| == 1 && pq == multiset{inserted[0]} && expanded == {})
  }

  /** Between two rounds every inserted node is still queued or has been
      expanded: no node taken from the queue was skipped. */
  ghost predicate Settled(inserted: seq<PFNode>, expanded: set<PFNode>, pq: multiset<PFNode>) {
    forall y {:trigger y in inserted} :: y in inserted ==> y in pq || y in expanded
  }

  /** Every cell next to an expanded node not at e has a populated slot:
      expanding a node offers all its neighbors. */
  ghost predicate Closed(n: int, e: Coord, expanded: set<PFNode>, slots: map<Coord, PFNode>) {
    forall y, c {:trigger c in NeighborLocs(y.loc, n), y in expanded} ::
      y in expanded && y.loc != e && c in NeighborLocs(y.loc, n) ==> c in slots
  }

  /** Taking x from the queue and expanding it keeps every inserted node
      queued or expanded. */
  lemma SettledTake(inserted: seq<PFNode>, expanded: set<PFNode>, pq: multiset<PFNode>, x: PFNode)
    requires Settled(inserted, expanded, pq)
    ensures Settled(inserted, expanded + {x}, pq - multiset{x})
  {
    forall y | y in inserted
      ensures y in pq - multiset{x} || y in expanded + {x}
    {
      if y != x {
        assert (pq - multiset{x})[y] == pq[y];
      }
    }
  }

  /** Once the queue is empty, every inserted node has been expanded. */
  lemma SettledEmpty(inserted: seq<PFNode>, expanded: set<PFNode>, pq: multiset<PFNode>)
    requires Settled(inserted, expanded, pq) && pq == multiset{}
    ensures forall y {:trigger y in inserted} :: y in inserted ==> y in expanded
  {
  }

  /** Nodes inserted and queued together keep every inserted node queued or
      expanded. */
  lemma SettledAdd(inserted: seq<PFNode>, expanded: set<PFNode>, pq: multiset<PFNode>, added: seq<PFNode>)
    requires Settled(inserted, expanded, pq)
    ensures Settled(inserted + added, expanded, pq + multiset(added))
  {
  }

  /** Expanding x keeps the expanded nodes closed when the slots only grow
      and, unless x is at e, every neighbor cell of x ends up populated. */
  lemma ClosedExtend(n: int, e: Coord, expanded: set<PFNode>, x: PFNode, slots0: map<Coord, PFNode>,
                     slots1: map<Coord, PFNode>, slots: map<Coord, PFNode>)
    requires Closed(n, e, expanded, slots0)
    requires slots1 == slots0[x.loc := x]
    requires forall c {:trigger c in slots1} :: c in slots1 ==> c in slots
    requires x.loc != e ==> forall c {:trigger c in NeighborLocs(x.loc, n)} :: c in NeighborLocs(x.loc, n) ==> c in slots
    ensures Closed(n, e, expanded + {x}, slots)
  {
    forall y, c | y in expanded + {x} && y.loc != e && c in NeighborLocs(y.loc, n)
      ensures c in slots
    {
      if y != x {
        assert c in slots0 && c in slots1;
      }
    }
  }

  /** No inserted node has been invalidated, and exactly the expanded ones
      are marked used. */
  ghost predicate Flags(inserted: seq<PFNode>, expanded: set<PFNode>)
    reads set y | y in inserted
  {
    forall y {:trigger y in inserted} :: y in inserted ==> y.valid && (y.used <==> y in expanded)
  }

  /** Progress of offering the neighbors ns, at cells ls, of one node: the
      first k have been offered; the nodes added to the queue are among ns
      and sit in slots that were empty; every offered cell is now claimed,
      one that was empty by an added node; no other slot changed. */
  ghost predicate Offering(ls: seq<Coord>, ns: seq<PFNode>, k: nat, slots0: map<Coord, PFNode>,
                           inserted0: seq<PFNode>, pq0: multiset<PFNode>, slots: map<Coord, PFNode>,
                           inserted: seq<PFNode>, pq: multiset<PFNode>, added: seq<PFNode>) {
    k <= |ls| == |ns| &&
    inserted == inserted0 + added && pq == pq0 + multiset(added) &&
    (forall y {:trigger y in added} :: y in added ==> y in ns && y.loc !in slots0 && y.loc in slots && slots[y.loc] == y) &&
    (forall j :: 0 <= j < k ==> ls[j] in slots && (ls[j] !in slots0 ==> slots[ls[j]] in added)) &&
    (forall c {:trigger c in slots} :: c in slots ==> c in slots0 || c in ls[..k]) &&
    (forall c {:trigger c in slots0} :: c in slots0 ==> c in slots && slots[c] == slots0[c])
  }

  /** Nothing has been offered yet. */
  lemma OfferingStart(ls: seq<Coord>, ns: seq<PFNode>, slots0: map<Coord, PFNode>,
                      inserted0: seq<PFNode>, pq0: multiset<PFNode>)
    requires |ls| == |ns|
    ensures Offering(ls, ns, 0, slots0, inserted0, pq0, slots0, inserted0, pq0, [])
  {
    assert inserted0 + [] == inserted0;
  }

  /** Offering the next neighbor, which joins the queue exactly when its
      slot is empty, makes progress. */
  lemma OfferingStep(ls: seq<Coord>, ns: seq<PFNode>, k: nat, slots0: map<Coord, PFNode>,
                     inserted0: seq<PFNode>, pq0: multiset<PFNode>, slots: map<Coord, PFNode>,
                     inserted: seq<PFNode>, pq: multiset<PFNode>, added: seq<PFNode>,
                     slots': map<Coord, PFNode>, inserted': seq<PFNode>, pq': multiset<PFNode>)
    returns (added': seq<PFNode>)
    requires Offering(ls, ns, k, slots0, inserted0, pq0, slots, inserted, pq, added)
    requires k < |ns| && ns[k].loc == ls[k]
    requires if ns[k].loc in slots then inserted' == inserted && pq' == pq && slots' == slots
             else inserted' == inserted + [ns[k]] && pq' == pq + multiset{ns[k]} && slots' == slots[ns[k].loc := ns[k]]
    ensures Offering(ls, ns, k + 1, slots0, inserted0, pq0, slots', inserted', pq', added')
  {
    assert ls[..k + 1] == ls[..k] + [ls[k]];
    if ns[k].loc in slots {
      added' := added;
      OfferingSkip(ls, ns, k, slots0, inserted0, pq0, slots, inserted, pq, added);
    } else {
      added' := added + [ns[k]];
      OfferingTake(ls, ns, k, slots0, inserted0, pq0, slots, inserted, pq, added);
    }
  }

  /** The next neighbor's cell is claimed: nothing is added. */
  lemma OfferingSkip(ls: seq<Coord>, ns: seq<PFNode>, k: nat, slots0: map<Coord, PFNode>,
                     inserted0: seq<PFNode>, pq0: multiset<PFNode>, slots: map<Coord, PFNode>,
                     inserted: seq<PFNode>, pq: multiset<PFNode>, added: seq<PFNode>)
    requires Offering(ls, ns, k, slots0, inserted0, pq0, slots, inserted, pq, added)
    requires k < |ns| && ns[k].loc == ls[k] && ns[k].loc in slots
    requires ls[..k + 1] == ls[..k] + [ls[k]]
    ensures Offering(ls, ns, k + 1, slots0, inserted0, pq0, slots, inserted, pq, added)
  {
    if ls[k] !in slots0 {
      assert ls[k] in ls[..k];
      var j :| 0 <= j < k && ls[j] == ls[k];
    }
  }

  /** The next neighbor's cell is empty: it is added and its cell claimed. */
  lemma OfferingTake(ls: seq<Coord>, ns: seq<PFNode>, k: nat, slots0: map<Coord, PFNode>,
                     inserted0: seq<PFNode>, pq0: multiset<PFNode>, slots: map<Coord, PFNode>,
                     inserted: seq<PFNode>, pq: multiset<PFNode>, added: seq<PFNode>)
    requires Offering(ls, ns, k, slots0, inserted0, pq0, slots, inserted, pq, added)
    requires k < |ns| && ns[k].loc == ls[k] && ns[k].loc !in slots
    requires ls[..k + 1] == ls[..k] + [ls[k]]
    ensures Offering(ls, ns, k + 1, slots0, inserted0, pq0, slots[ns[k].loc := ns[k]], inserted + [ns[k]],
                     pq + multiset{ns[k]}, added + [ns[k]])
  {
    AppendSnoc(inserted0, added, ns[k]);
  }

  /** Once all of ns has been offered, the nodes added are at empty cells of
      ls, and every cell of ls is claimed, an empty one by an added node. */
  lemma OfferingDone(ls: seq<Coord>, ns: seq<PFNode>, slots0: map<Coord, PFNode>,
                     inserted0: seq<PFNode>, pq0: multiset<PFNode>, slots: map<Coord, PFNode>,
                     inserted: seq<PFNode>, pq: multiset<PFNode>, added: seq<PFNode>)
    requires Offering(ls, ns, |ns|, slots0, inserted0, pq0, slots, inserted, pq, added)
    ensures inserted == inserted0 + added && pq == pq0 + multiset(added)
    ensures forall y {:trigger y in added} :: y in added ==> y in ns && y.loc !in slots0 && y.loc in slots && slots[y.loc] == y
    ensures forall c {:trigger c in ls} :: c in ls ==> c in slots && (c !in slots0 ==> slots[c] in added)
    ensures forall c {:trigger c in slots} :: c in slots ==> c in slots0 || c in ls
    ensures forall c {:trigger c in slots0} :: c in slots0 ==> c in slots && slots[c] == slots0[c]
  {
    assert ls[..|ns|] == ls;
    forall c | c in ls
      ensures c in slots && (c !in slots0 ==> slots[c] in added)
    {
      var j :| 0 <= j < |ls| && ls[j] == c;
    }
  }

  lemma AppendSnoc(a: seq<PFNode>, b: seq<PFNode>, x: PFNode)
    ensures a + (b + [x]) == a + b + [x]
    ensures multiset(b + [x]) == multiset(b) + multiset{x}
  {
  }

  /** The whole loop invariant. */
  ghost predicate Inv(t: Terrain, n: int, s: Coord, e: Coord, before: map<Coord, PFNode>, inserted: seq<PFNode>,
                      expanded: set<PFNode>, slots: map<Coord, PFNode>, pq: multiset<PFNode>, popped: nat) {
    Tree(t, n, s, e, inserted, expanded) && Placed(inserted, slots, popped > 0) &&
    Kept(before, slots, inserted, s) && Queue(inserted, expanded, pq, popped)
  }

  /** Any inserted node is rooted and, once the root has been taken, its
      chain lies within the populated cells. */
  lemma InsertedRooted(t: Terrain, n: int, s: Coord, e: Coord, inserted: seq<PFNode>, expanded: set<PFNode>,
                       slots: map<Coord, PFNode>, x: PFNode)
    requires Tree(t, n, s, e, inserted, expanded) && Placed(inserted, slots, true) && x in inserted
    ensures Rooted(x, t, n, s, e) && RouteWithin(x, slots.Keys)
  {
    var k :| 0 <= k < |inserted| && inserted[k] == x;
    assert Rooted(inserted[k], t, n, s, e) && RouteWithin(inserted[k], slots.Keys);
  }

  /** One round of the search: x has a least key in the queue q it is
      taken from, and the queue q' after the round is the rest of q plus the
      nodes cs the round queued, all of them children of x. */
  ghost predicate Took(h: real, x: PFNode, q: multiset<PFNode>, cs: seq<PFNode>, q': multiset<PFNode>) {
    x in q && LeastIn(x, q, h) && q' == q - multiset{x} + multiset(cs) &&
    forall y {:trigger y in cs} :: y in cs ==> y.fromNode == x
  }

  /** The record of a search's rounds: round i took taken[i] from the queue
      queues[i] and queued children[i]; the last queue is the queue now. */
  datatype Trace = Trace(taken: seq<PFNode>, children: seq<seq<PFNode>>, queues: seq<multiset<PFNode>>)
  {
    /** The record extended by a round that took x, queued cs and left q. */
    function Next(x: PFNode, cs: seq<PFNode>, q: multiset<PFNode>): (tr: Trace)
      ensures |tr.taken| == |taken| + 1 && tr.taken[|taken|] == x
    {
      Trace(taken + [x], children + [cs], queues + [q])
    }
  }

  /** Round i of the record tr. */
  ghost predicate TookAt(h: real, tr: Trace, i: nat) {
    i < |tr.taken| && i < |tr.children| && i + 1 < |tr.queues| &&
    Took(h, tr.taken[i], tr.queues[i], tr.children[i], tr.queues[i + 1])
  }

  /** The order of a search from root: the first queue holds just the root,
      and every round took a node of least key from its queue and queued
      only children of it. */
  ghost predicate BestFirst(h: real, root: PFNode, tr: Trace) {
    |tr.queues| == |tr.taken| + 1 && |tr.children| == |tr.taken| && tr.queues[0] == multiset{root} &&
    forall i: nat {:trigger TookAt(h, tr, i)} :: i < |tr.taken| ==> TookAt(h, tr, i)
  }

  /** A round that takes x, of least key, from the current queue and
      queues children of x extends the order by one round. */
  lemma BestFirstStep(h: real, root: PFNode, tr: Trace, x: PFNode, added: seq<PFNode>, q': multiset<PFNode>)
    requires BestFirst(h, root, tr)
    requires Took(h, x, tr.queues[|tr.taken|], added, q')
    ensures BestFirst(h, root, tr.Next(x, added, q'))
  {
    var tr' := tr.Next(x, added, q');
    forall i: nat | i < |tr'.taken|
      ensures TookAt(h, tr', i)
    {
      if i < |tr.taken| {
        assert TookAt(h, tr, i);
        assert tr'.taken[i] == tr.taken[i] && tr'.children[i] == tr.children[i];
        assert tr'.queues[i] == tr.queues[i] && tr'.queues[i + 1] == tr.queues[i + 1];
      }
    }
  }

  /** The history of a search from root after popped rounds: BestFirst,
      with pq the queue now, every node taken expanded and taken only once,
      one expanded node per round, temp the last one taken and, when the
      search stops, nothing queued in its last round. */
  ghost predicate History(h: real, root: PFNode, expanded: set<PFNode>, pq: multiset<PFNode>, tr: Trace,
                          temp: PFNode?, stop: bool, popped: nat) {
    BestFirst(h, root, tr) && tr.queues[|tr.taken|] == pq && |tr.taken| == popped && |expanded| == popped &&
    (forall k: nat {:trigger TookAt(h, tr, k)} :: k < |tr.taken| ==>
       TookAt(h, tr, k) && tr.taken[k] in expanded && tr.taken[k] !in tr.taken[..k]) &&
    (popped > 0 ==> temp == tr.taken[popped - 1]) &&
    (stop ==> popped > 0 && tr.children[popped - 1] == [])
  }

  /** Before the first round only the root is queued and nothing was taken. */
  lemma HistoryStart(h: real, root: PFNode)
    ensures History(h, root, {}, multiset{root}, Trace([], [], [multiset{root}]), null, false, 0)
  {
  }

  /** A round that takes x, of least key, from the queue, expands it and
      queues children of x, none when it stops, extends the history. */
  lemma HistoryStep(h: real, root: PFNode, expanded0: set<PFNode>, expanded: set<PFNode>, pq0: multiset<PFNode>,
                    tr: Trace, temp: PFNode?, popped: nat, x: PFNode, added: seq<PFNode>, pq: multiset<PFNode>,
                    stop: bool)
    requires History(h, root, expanded0, pq0, tr, temp, false, popped)
    requires Took(h, x, pq0, added, pq) && x !in expanded0 && expanded == expanded0 + {x} && (stop ==> added == [])
    ensures History(h, root, expanded, pq, tr.Next(x, added, pq), x, stop, popped + 1)
  {
    BestFirstStep(h, root, tr, x, added, pq);
    var tr' := tr.Next(x, added, pq);
    forall k: nat | k < |tr'.taken|
      ensures TookAt(h, tr', k) && tr'.taken[k] in expanded
      ensures tr'.taken[k] !in tr'.taken[..k]
    {
      if k < |tr.taken| {
        assert TookAt(h, tr, k);
        assert tr'.taken[..k] == tr.taken[..k];
      } else {
        assert tr'.taken[..k] == tr.taken;
        forall j | 0 <= j < |tr.taken|
          ensures tr.taken[j] != x
        {
          assert TookAt(h, tr, j);
        }
      }
    }
  }

  /** The nodes the rounds queued, round after round. */
  function Flatten(css: seq<seq<PFNode>>): seq<PFNode> {
    if css == [] then [] else Flatten(css[..|css| - 1]) + css[|css| - 1]
  }

  lemma FlattenSnoc(css: seq<seq<PFNode>>, cs: seq<PFNode>)
    ensures Flatten(css + [cs]) == Flatten(css) + cs
  {
    assert (css + [cs])[..|css|] == css;
  }

  /** Unless x is at e, every neighbor cell of x was populated before the
      search or is the cell of one of the nodes inserted. */
  ghost predicate Claims(n: int, e: Coord, before: map<Coord, PFNode>, x: PFNode, inserted: seq<PFNode>) {
    x.loc != e ==>
      forall c {:trigger c in NeighborLocs(x.loc, n)} :: c in NeighborLocs(x.loc, n) ==> c in before || c in Locs(inserted)
  }

  /** Round k claimed every neighbor cell of its node that was still empty:
      each such cell holds the root or a node queued in round k or before. */
  ghost predicate ClaimedAt(n: int, e: Coord, before: map<Coord, PFNode>, root: PFNode, tr: Trace, k: nat) {
    k < |tr.taken| && k < |tr.children| && Claims(n, e, before, tr.taken[k], [root] + Flatten(tr.children[..k + 1]))
  }

  /** Every round claimed the empty cells next to its node. */
  ghost predicate Claimed(n: int, e: Coord, before: map<Coord, PFNode>, root: PFNode, tr: Trace) {
    |tr.children| == |tr.taken| &&
    forall k: nat {:trigger ClaimedAt(n, e, before, root, tr, k)} :: k < |tr.taken| ==> ClaimedAt(n, e, before, root, tr, k)
  }

  /** When the nodes inserted are the root and then the children of each
      round, in order, a round that takes x, inserts added and leaves every
      neighbor cell of x populated before the search or inserted keeps them
      so and extends the claims. */
  lemma ClaimedStep(n: int, e: Coord, before: map<Coord, PFNode>, root: PFNode, inserted0: seq<PFNode>, tr: Trace,
                    x: PFNode, added: seq<PFNode>, q: multiset<PFNode>, inserted: seq<PFNode>)
    requires inserted0 == [root] + Flatten(tr.children) && Claimed(n, e, before, root, tr)
    requires inserted == inserted0 + added && Claims(n, e, before, x, inserted)
    ensures inserted == [root] + Flatten(tr.Next(x, added, q).children)
    ensures Claimed(n, e, before, root, tr.Next(x, added, q))
  {
    var tr' := tr.Next(x, added, q);
    FlattenSnoc(tr.children, added);
    forall k: nat | k < |tr'.taken|
      ensures ClaimedAt(n, e, before, root, tr', k)
    {
      if k < |tr.taken| {
        assert ClaimedAt(n, e, before, root, tr, k);
        assert tr'.children[..k + 1] == tr.children[..k + 1];
      } else {
        assert tr'.children[..k + 1] == tr.children + [added];
        assert [root] + Flatten(tr'.children[..k + 1]) == inserted;
      }
    }
  }

  /** A node queued by the rounds was queued by one of them. */
  lemma {:induction false} FlattenMember(css: seq<seq<PFNode>>, y: PFNode)
    requires y in Flatten(css)
    ensures exists j :: 0 <= j < |css| && y in css[j]
  {
    var init := css[..|css| - 1];
    if y !in css[|css| - 1] {
      FlattenMember(init, y);
      var j :| 0 <= j < |init| && y in init[j];
      assert css[j] == init[j];
    }
  }

  /** The claim of round k, cell by cell: unless its node is at e, each of
      its neighbor cells was populated before the search, is the root's
      cell, or is the cell of a child queued in round k or earlier. */
  lemma ClaimedCell(n: int, e: Coord, before: map<Coord, PFNode>, root: PFNode, tr: Trace, k: nat, c: Coord)
    requires Claimed(n, e, before, root, tr) && k < |tr.taken|
    requires tr.taken[k].loc != e && c in NeighborLocs(tr.taken[k].loc, n)
    ensures c in before || c == root.loc || exists j, y :: 0 <= j <= k && y in tr.children[j] && y.loc == c
  {
    assert ClaimedAt(n, e, before, root, tr, k);
    var inserted := [root] + Flatten(tr.children[..k + 1]);
    if c !in before {
      var i :| 0 <= i < |inserted| && Locs(inserted)[i] == c;
      if i > 0 {
        var y := inserted[i];
        assert y in Flatten(tr.children[..k + 1]);
        FlattenMember(tr.children[..k + 1], y);
        var j :| 0 <= j < k + 1 && y in tr.children[..k + 1][j];
        assert y in tr.children[j] && y.loc == c;
      }
    }
  }

  /** A sequence made of the root and then rest holds rest after the root. */
  lemma AfterRoot(root: PFNode, rest: seq<PFNode>, inserted: seq<PFNode>)
    requires inserted == [root] + rest
    ensures inserted[1..] == rest
  {
  }

  /** With every expanded node closed and first write wins, the neighbor
      cells of an expanded node are claimed. */
  lemma KeptClaims(n: int, e: Coord, before: map<Coord, PFNode>, s: Coord, expanded: set<PFNode>,
                   slots: map<Coord, PFNode>, inserted: seq<PFNode>, x: PFNode)
    requires Closed(n, e, expanded, slots) && Kept(before, slots, inserted, s) && x in expanded
    ensures Claims(n, e, before, x, inserted)
  {
    if x.loc != e {
      forall c | c in NeighborLocs(x.loc, n)
        ensures c in before || c in Locs(inserted)
      {
        assert c in slots;
        if c !in before {
          var k :| 0 <= k < |inserted| && inserted[k] == slots[c];
          assert Locs(inserted)[k] == c;
        }
      }
    }
  }

  /** The estimate is consistent for terrain t, goal e and weight h: one step
      between adjacent cells never lowers h times the estimate by more than
      the cost of that step. */
  ghost predicate Consistent(t: Terrain, e: Coord, h: real) {
    forall a, b {:trigger t.travelCost(a, b)} :: Adjacent(a, b) ==>
      h * t.distance(a, e) <= t.travelCost(a, b) + h * t.distance(b, e)
  }

  /** With a consistent estimate, no node's key is below its predecessor's. */
  lemma ChildKey(t: Terrain, n: int, s: Coord, e: Coord, h: real, y: PFNode)
    requires Consistent(t, e, h) && Rooted(y, t, n, s, e) && y.fromNode != null
    ensures y.fromNode.GetCost(h) <= y.GetCost(h)
  {
    var p := y.fromNode;
    var r := y.Route();
    assert r == p.Route() + [y.loc];
    assert r[|r| - 2] == p.loc;
    assert Adjacent(p.loc, y.loc);
    assert p.Wf(t, e) && y.cost == p.cost + t.travelCost(p.loc, y.loc);
    assert h * t.distance(p.loc, e) <= t.travelCost(p.loc, y.loc) + h * t.distance(y.loc, e);
  }

  /** With a consistent estimate, the search takes its nodes in order of
      nondecreasing key. */
  lemma TakenInKeyOrder(t: Terrain, n: int, s: Coord, e: Coord, h: real, inserted: seq<PFNode>,
                        expanded: set<PFNode>, tr: Trace)
    requires Tree(t, n, s, e, inserted, expanded) && BestFirst(h, inserted[0], tr)
    requires forall k :: 0 <= k < |tr.taken| ==> tr.taken[k] in expanded
    requires Consistent(t, e, h)
    ensures forall i, j :: 0 <= i <= j < |tr.taken| ==> tr.taken[i].GetCost(h) <= tr.taken[j].GetCost(h)
  {
    var ts := tr.taken;
    forall i | 0 <= i < |ts| - 1
      ensures ts[i].GetCost(h) <= ts[i + 1].GetCost(h)
    {
      assert TookAt(h, tr, i) && TookAt(h, tr, i + 1);
      var y := ts[i + 1];
      if y in tr.children[i] {
        assert y in expanded && y in inserted;
        var k :| 0 <= k < |inserted| && inserted[k] == y;
        ChildKey(t, n, s, e, h, inserted[k]);
      } else {
        assert y in tr.queues[i];
        assert ts[i].CompareTo(y, h) <= 0;
      }
    }
    KeysSorted(h, ts);
  }

  /** What a finished search promises about its order, for terrain t, goal e
      and weight h: every round took a node of least key (BestFirst from the
      root), remaining is the queue left, the nodes taken are exactly the
      expanded ones, none taken twice, and last is the last one taken. The
      nodes left in the queue are inserted, unexpanded nodes, each queued
      once, and they and the rounds add up to the inserted nodes. A search that reached e queued nothing in
      its last round, so last has a least key among the nodes left. */
  ghost predicate Ordered(h: real, inserted: seq<PFNode>, expanded: set<PFNode>, last: PFNode, reached: bool,
                          remaining: multiset<PFNode>, tr: Trace) {
    0 < |inserted| && BestFirst(h, inserted[0], tr) && remaining == tr.queues[|tr.taken|] &&
    0 < |tr.taken| && last == tr.taken[|tr.taken| - 1] &&
    (forall k :: 0 <= k < |tr.taken| ==> tr.taken[k] in expanded && tr.taken[k] !in tr.taken[..k]) &&
    (forall y {:trigger y in expanded} :: y in expanded ==> y in tr.taken) &&
    Queue(inserted, expanded, remaining, |tr.taken|) && |expanded| == |tr.taken| &&
    (reached ==> tr.children[|tr.taken| - 1] == [] && LeastIn(last, remaining, h))
  }

  /** The history of a finished search gives its order. */
  lemma HistoryOrdered(h: real, inserted: seq<PFNode>, expanded: set<PFNode>, pq: multiset<PFNode>, tr: Trace,
                       temp: PFNode?, stop: bool, popped: nat)
    requires 0 < |inserted| && popped > 0
    requires History(h, inserted[0], expanded, pq, tr, temp, stop, popped)
    requires Queue(inserted, expanded, pq, popped)
    ensures temp != null && Ordered(h, inserted, expanded, temp, stop, pq, tr)
  {
    forall k | 0 <= k < |tr.taken|
      ensures tr.taken[k] in expanded && tr.taken[k] !in tr.taken[..k]
    {
      assert TookAt(h, tr, k);
    }
    DistinctCovers(tr.taken, expanded);
    if stop {
      assert TookAt(h, tr, |tr.taken| - 1);
    }
  }

  /** A sequence of distinct elements of a set, as long as the set has
      elements, lists all of them. */
  lemma DistinctCovers(ts: seq<PFNode>, xs: set<PFNode>)
    requires forall k :: 0 <= k < |ts| ==> ts[k] in xs && ts[k] !in ts[..k]
    requires |xs| == |ts|
    ensures forall y {:trigger y in xs} :: y in xs ==> y in ts
  {
    var listed := set k | 0 <= k < |ts| :: ts[k];
    DistinctCount(ts);
    var rest := xs - listed;
    assert xs == listed + rest;
    assert |xs| == |listed| + |rest|;
  }

  /** The elements of a sequence without repetitions are as many as its length. */
  lemma {:induction false} DistinctCount(ts: seq<PFNode>)
    requires forall k :: 0 <= k < |ts| ==> ts[k] !in ts[..k]
    ensures |set k | 0 <= k < |ts| :: ts[k]| == |ts|
  {
    if ts != [] {
      var init := ts[..|ts| - 1];
      forall k | 0 <= k < |init|
        ensures init[k] !in init[..k]
      {
        assert init[..k] == ts[..k];
      }
      DistinctCount(init);
      var last := ts[|ts| - 1];
      assert (set k | 0 <= k < |ts| :: ts[k]) == (set k | 0 <= k < |init| :: init[k]) + {last};
      assert last !in (set k | 0 <= k < |init| :: init[k]);
    }
  }

  /** Keys that never drop from one node to the next are sorted. */
  lemma {:induction false} KeysSorted(h: real, ts: seq<PFNode>)
    requires forall i :: 0 <= i < |ts| - 1 ==> ts[i].GetCost(h) <= ts[i + 1].GetCost(h)
    ensures forall i, j :: 0 <= i <= j < |ts| ==> ts[i].GetCost(h) <= ts[j].GetCost(h)
  {
    if |ts| > 1 {
      var init := ts[..|ts| - 1];
      KeysSorted(h, init);
      forall i, j | 0 <= i <= j < |ts|
        ensures ts[i].GetCost(h) <= ts[j].GetCost(h)
      {
        if j == |ts| - 1 && i < j {
          assert init[i] == ts[i] && init[j - 1] == ts[j - 1];
        } else if j < |ts| - 1 {
          assert init[i] == ts[i] && init[j] == ts[j];
        }
      }
    }
  }

  /** An expanded node is rooted. */
  lemma ExpandedRooted(t: Terrain, n: int, s: Coord, e: Coord, inserted: seq<PFNode>, expanded: set<PFNode>,
                       x: PFNode)
    requires Tree(t, n, s, e, inserted, expanded) && x in expanded
    ensures Rooted(x, t, n, s, e)
  {
    var k :| 0 <= k < |inserted| && inserted[k] == x;
    assert Rooted(inserted[k], t, n, s, e);
  }

  lemma InsertInv(t: Terrain, n: int, s: Coord, e: Coord, before: map<Coord, PFNode>, inserted: seq<PFNode>,
                  expanded: set<PFNode>, slots: map<Coord, PFNode>, pq: multiset<PFNode>, popped: nat,
                  x: PFNode, nb: PFNode)
    requires Inv(t, n, s, e, before, inserted, expanded, slots, pq, popped)
    requires popped > 0 && x in expanded
    requires nb.fromNode == x && nb.Wf(t, e) && InBounds(nb.loc, n) && Adjacent(x.loc, nb.loc)
    requires nb.loc !in slots
    ensures Inv(t, n, s, e, before, inserted + [nb], expanded, slots[nb.loc := nb], pq + multiset{nb}, popped)
  {
    InsertStep(t, n, s, e, inserted, expanded, slots, before, pq, popped, x, nb);
  }

  /** Taking x from the queue and writing it to its slot keeps the invariant. */
  lemma PopStep(t: Terrain, n: int, s: Coord, e: Coord, inserted: seq<PFNode>, expanded: set<PFNode>,
                slots: map<Coord, PFNode>, before: map<Coord, PFNode>, pq: multiset<PFNode>, popped: nat, x: PFNode)
    requires Tree(t, n, s, e, inserted, expanded) && Placed(inserted, slots, popped > 0)
    requires Kept(before, slots, inserted, s) && Queue(inserted, expanded, pq, popped)
    requires x in pq
    ensures x in inserted && (popped == 0 ==> x == inserted[0])
    ensures Placed(inserted, slots[x.loc := x], true)
    ensures Kept(before, slots[x.loc := x], inserted, s)
    ensures Queue(inserted, expanded, pq - multiset{x}, popped + 1)
    ensures |expanded| < popped + 1
  {
    var slots' := slots[x.loc := x];
    if popped == 0 {
      assert x == inserted[0];
      var r := x.Route();
      assert r == [s];
      assert RouteWithin(x, slots'.Keys);
    } else {
      var k :| 0 <= k < |inserted| && inserted[k] == x;
      assert slots' == slots;
    }
    forall k | 0 <= k < |inserted|
      ensures RouteWithin(inserted[k], slots'.Keys)
    {
      if k > 0 || popped > 0 {
        assert RouteWithin(inserted[k], slots.Keys);
      }
    }
  }

  /** Expanding a node that is not yet expanded keeps the tree. */
  lemma ExpandStep(t: Terrain, n: int, s: Coord, e: Coord, inserted: seq<PFNode>, expanded: set<PFNode>,
                   pq: multiset<PFNode>, popped: nat, x: PFNode)
    requires Tree(t, n, s, e, inserted, expanded) && Queue(inserted, expanded, pq, popped)
    requires x in inserted && x !in expanded && x !in pq && |expanded| < popped
    ensures Queue(inserted, expanded + {x}, pq, popped)
    ensures Tree(t, n, s, e, inserted, expanded + {x})
  {
  }

  /** Taking x from the queue and writing it to its slot keeps the invariant;
      x lies on the grid. */
  lemma PopInv(t: Terrain, n: int, s: Coord, e: Coord, before: map<Coord, PFNode>, inserted: seq<PFNode>,
               expanded: set<PFNode>, slots: map<Coord, PFNode>, pq: multiset<PFNode>, popped: nat, x: PFNode)
    requires Inv(t, n, s, e, before, inserted, expanded, slots, pq, popped) && x in pq
    ensures x in inserted && InBounds(x.loc, n) && (popped == 0 ==> x == inserted[0])
    ensures |expanded| < popped + 1
    ensures Inv(t, n, s, e, before, inserted, expanded, slots[x.loc := x], pq - multiset{x}, popped + 1)
  {
    PopStep(t, n, s, e, inserted, expanded, slots, before, pq, popped, x);
    var k :| 0 <= k < |inserted| && inserted[k] == x;
    RootedInBounds(x, t, n, s, e);
  }

  /** Expanding a taken node that is not yet expanded keeps the invariant. */
  lemma ExpandInv(t: Terrain, n: int, s: Coord, e: Coord, before: map<Coord, PFNode>, inserted: seq<PFNode>,
                  expanded: set<PFNode>, slots: map<Coord, PFNode>, pq: multiset<PFNode>, popped: nat, x: PFNode)
    requires Inv(t, n, s, e, before, inserted, expanded, slots, pq, popped)
    requires x in inserted && x !in expanded && x !in pq && |expanded| < popped
    ensures Inv(t, n, s, e, before, inserted, expanded + {x}, slots, pq, popped)
  {
    ExpandStep(t, n, s, e, inserted, expanded, pq, popped, x);
  }

  /** Inserting a neighbor of an expanded node into an empty slot keeps the invariant. */
  lemma InsertStep(t: Terrain, n: int, s: Coord, e: Coord, inserted: seq<PFNode>, expanded: set<PFNode>,
                   slots: map<Coord, PFNode>, before: map<Coord, PFNode>, pq: multiset<PFNode>, popped: nat,
                   x: PFNode, nb: PFNode)
    requires Tree(t, n, s, e, inserted, expanded) && Placed(inserted, slots, true)
    requires Kept(before, slots, inserted, s) && Queue(inserted, expanded, pq, popped)
    requires popped > 0 && x in expanded
    requires nb.fromNode == x && nb.Wf(t, e) && InBounds(nb.loc, n) && Adjacent(x.loc, nb.loc)
    requires nb.loc !in slots
    ensures Tree(t, n, s, e, inserted + [nb], expanded)
    ensures Placed(inserted + [nb], slots[nb.loc := nb], true)
    ensures Kept(before, slots[nb.loc := nb], inserted + [nb], s)
    ensures Queue(inserted + [nb], expanded, pq + multiset{nb}, popped)
  {
    InsertTree(t, n, s, e, inserted, expanded, slots, popped, x, nb);
    InsertPlaced(inserted, slots, x, nb);
    InsertKept(before, slots, inserted, s, popped, nb);
    forall k | 0 <= k < |inserted|
      ensures inserted[k] != nb
    {
      assert inserted[k].loc in slots;
    }
    InsertQueue(inserted, expanded, pq, popped, nb);
  }

  lemma InsertKept(before: map<Coord, PFNode>, slots: map<Coord, PFNode>, inserted: seq<PFNode>, s: Coord,
                   popped: nat, nb: PFNode)
    requires Kept(before, slots, inserted, s) && Placed(inserted, slots, true)
    requires popped > 0 && |inserted| > 0 && inserted[0].loc == s && nb.loc !in slots
    ensures Kept(before, slots[nb.loc := nb], inserted + [nb], s)
  {
    assert s in slots;
    var slots' := slots[nb.loc := nb];
    var ins := inserted + [nb];
    forall c | c in slots' && (c !in before || slots'[c] != before[c])
      ensures slots'[c] in ins
    {
      if c != nb.loc {
        var k :| 0 <= k < |inserted| && inserted[k] == slots[c];
        assert ins[k] == inserted[k];
      } else {
        assert ins[|inserted|] == nb;
      }
    }
  }

  lemma InsertQueue(inserted: seq<PFNode>, expanded: set<PFNode>, pq: multiset<PFNode>, popped: nat, nb: PFNode)
    requires Queue(inserted, expanded, pq, popped) && popped > 0 && nb !in inserted && nb !in expanded
    ensures Queue(inserted + [nb], expanded, pq + multiset{nb}, popped)
  {
    var ins := inserted + [nb];
    assert nb !in pq;
    forall y | y in pq + multiset{nb}
      ensures y in ins && (pq + multiset{nb})[y] == 1 && y !in expanded
    {
      if y != nb {
        var k :| 0 <= k < |inserted| && inserted[k] == y;
        assert ins[k] == inserted[k];
      } else {
        assert ins[|inserted|] == nb;
      }
    }
  }

  /** nb's chain is x's chain extended by one adjacent cell on the grid. */
  lemma InsertRooted(t: Terrain, n: int, s: Coord, e: Coord, x: PFNode, nb: PFNode)
    requires Rooted(x, t, n, s, e)
    requires nb.fromNode == x && nb.Wf(t, e) && InBounds(nb.loc, n) && Adjacent(x.loc, nb.loc)
    ensures Rooted(nb, t, n, s, e) && nb.Route() == x.Route() + [nb.loc]
  {
    var r := x.Route();
    assert nb.Route() == r + [nb.loc];
    ChainedSnoc(r, nb.loc);
  }

  lemma InsertTree(t: Terrain, n: int, s: Coord, e: Coord, inserted: seq<PFNode>, expanded: set<PFNode>,
                   slots: map<Coord, PFNode>, popped: nat, x: PFNode, nb: PFNode)
    requires Tree(t, n, s, e, inserted, expanded) && Placed(inserted, slots, true)
    requires popped > 0 && x in expanded
    requires nb.fromNode == x && nb.Wf(t, e) && InBounds(nb.loc, n) && Adjacent(x.loc, nb.loc)
    requires nb.loc !in slots
    ensures Tree(t, n, s, e, inserted + [nb], expanded)
  {
    var ins := inserted + [nb];
    var k0 :| 0 <= k0 < |inserted| && inserted[k0] == x;
    InsertRooted(t, n, s, e, x, nb);
    var ls := Locs(ins);
    assert ls == Locs(inserted) + [nb.loc];
    forall k | 0 <= k < |inserted|
      ensures ls[k] != nb.loc
    {
      assert inserted[k].loc in slots;
    }
    forall k | 0 <= k < |ins|
      ensures InBounds(ls[k], n)
    {
      if k < |inserted| {
        var rk := inserted[k].Route();
        assert Rooted(inserted[k], t, n, s, e);
        assert InBounds(rk[|rk| - 1], n);
      }
    }
    DistinctCellsBound(ls, n);
    forall k | 0 <= k < |ins|
      ensures Rooted(ins[k], t, n, s, e)
    {
      if k < |inserted| {
        assert ins[k] == inserted[k] && Rooted(inserted[k], t, n, s, e);
      }
    }
    forall k | 1 <= k < |ins|
      ensures ins[k].fromNode in expanded
    {
      if k < |inserted| {
        assert ins[k] == inserted[k];
      }
    }
  }

  lemma InsertPlaced(inserted: seq<PFNode>, slots: map<Coord, PFNode>, x: PFNode, nb: PFNode)
    requires Placed(inserted, slots, true) && x in inserted
    requires nb.fromNode == x && nb.Linked() && nb.loc !in slots
    ensures Placed(inserted + [nb], slots[nb.loc := nb], true)
  {
    var ins := inserted + [nb];
    var slots' := slots[nb.loc := nb];
    var k0 :| 0 <= k0 < |inserted| && inserted[k0] == x;
    assert nb.Route() == x.Route() + [nb.loc];
    assert RouteWithin(nb, slots'.Keys) by {
      assert RouteWithin(x, slots.Keys);
    }
    forall k | 0 <= k < |ins|
      ensures ins[k].loc in slots' && slots'[ins[k].loc] == ins[k] && ins[k].Linked() && RouteWithin(ins[k], slots'.Keys)
    {
      if k < |inserted| {
        assert ins[k] == inserted[k];
        assert RouteWithin(inserted[k], slots.Keys);
      }
    }
  }
}
