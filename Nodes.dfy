/** Search nodes: a location, a link to the predecessor, the accumulated
    cost and the heuristic estimate, plus what the search needs of them
    (the neighbor locations, the priority order, the cost of a route). */
module Nodes {
  import opened Grid

  /** Pushing onto the stack the search returns its results in: iteration
      runs from the most recently pushed element, so a push prepends. */
  function Push<T>(s: seq<T>, x: T): seq<T> {
    [x] + s
  }

  /** Locations of the neighbors of a node at c, in iteration order: the
      candidates are pushed in the order row - 1, row + 1, column - 1,
      column + 1, each only if its changed coordinate lies in [0, n). */
  function NeighborLocs(c: Coord, n: int): (r: seq<Coord>)
    ensures |r| <= 4 && Distinct(r)
    ensures forall k :: 0 <= k < |r| ==> Adjacent(c, r[k]) && (InBounds(c, n) ==> InBounds(r[k], n))
    ensures InBounds(c, n) ==> forall d {:trigger d in r} :: d in r <==> InBounds(d, n) && Adjacent(c, d)
  {
    var s0 := [];
    var s1 := if c.i - 1 >= 0 then Push(s0, Coord(c.i - 1, c.j)) else s0;
    var s2 := if c.i + 1 < n then Push(s1, Coord(c.i + 1, c.j)) else s1;
    var s3 := if c.j - 1 >= 0 then Push(s2, Coord(c.i, c.j - 1)) else s2;
    if c.j + 1 < n then Push(s3, Coord(c.i, c.j + 1)) else s3
  }

  /** Sum of the travel costs between consecutive coordinates of s. */
  function RouteCost(t: Terrain, s: seq<Coord>): real {
    if |s| <= 1 then 0.0 else RouteCost(t, s[..|s| - 1]) + t.travelCost(s[|s| - 2], s[|s| - 1])
  }

  /** One search node: a location, its predecessor, the accumulated cost and
      the heuristic estimate, both fixed at construction, and two flags. */
  class PFNode {
    const loc: Coord
    const fromNode: PFNode?
    var valid: bool
    const cost: real
    var used: bool
    const costToEnd: real
    /** Length of the predecessor chain; it makes the chain acyclic. */
    ghost const depth: nat

    ghost predicate Linked()
      decreases depth
    {
      fromNode == null || (fromNode.depth < depth && fromNode.Linked())
    }

    /** The costs along the whole chain are the ones the constructor computes
        for terrain t and goal e. */
    ghost predicate Wf(t: Terrain, e: Coord)
      decreases depth
    {
      Linked() && costToEnd == t.distance(loc, e) &&
      (fromNode == null ==> cost == 0.0) &&
      (fromNode != null ==> cost == fromNode.cost + t.travelCost(fromNode.loc, loc) && fromNode.Wf(t, e))
    }

    /** The locations of the predecessor chain, from its first node to this. */
    ghost function Route(): (r: seq<Coord>)
      requires Linked()
      ensures |r| > 0 && r[|r| - 1] == loc
      decreases depth
    {
      if fromNode == null then [loc] else fromNode.Route() + [loc]
    }

    constructor (t: Terrain, e: Coord, loc: Coord, fromNode: PFNode?)
      requires fromNode != null ==> fromNode.Wf(t, e)
      ensures this.loc == loc && this.fromNode == fromNode && valid && !used
      ensures Wf(t, e)
    {
      this.loc := loc;
      this.fromNode := fromNode;
      valid := true;
      used := false;
      costToEnd := t.distance(loc, e);
      cost := if fromNode != null then fromNode.cost + t.travelCost(fromNode.loc, loc) else 0.0;
      depth := if fromNode != null then fromNode.depth + 1 else 0;
    }

    /** The key of the priority queue: the accumulated cost plus h times the
        estimate to the goal. */
    function GetCost(h: real): (r: real)
      ensures r == cost + h * costToEnd
    {
      cost + h * costToEnd
    }

    /** The sign of GetCost(h) - that.GetCost(h). */
    function CompareTo(that: PFNode, h: real): (r: int)
      ensures r == -1 <==> GetCost(h) < that.GetCost(h)
      ensures r == 0 <==> GetCost(h) == that.GetCost(h)
      ensures r == 1 <==> GetCost(h) > that.GetCost(h)
    {
      if GetCost(h) < that.GetCost(h) then -1
      else if GetCost(h) > that.GetCost(h) then 1
      else 0
    }

    function IsValid(): (r: bool)
      reads this
      ensures r == valid
    {
      valid
    }

    method Invalidate()
      modifies this
      ensures !IsValid() && used == old(used)
    {
      valid := false;
    }

    function IsUsed(): (r: bool)
      reads this
      ensures r == used
    {
      used
    }

    method Use()
      modifies this
      ensures IsUsed() && valid == old(valid)
    {
      used := true;
    }

    /** Fresh nodes, with this as predecessor, for the adjacent cells whose
        changed coordinate lies in [0, t.n), in iteration order. */
    method Neighbors(t: Terrain, e: Coord) returns (s: seq<PFNode>)
      requires Wf(t, e)
      ensures |s| == |NeighborLocs(loc, t.n)|
      ensures forall k :: 0 <= k < |s| ==> fresh(s[k])
      ensures forall k :: 0 <= k < |s| ==> s[k].loc == NeighborLocs(loc, t.n)[k]
      ensures forall k :: 0 <= k < |s| ==> s[k].fromNode == this && s[k].Wf(t, e)
      ensures forall k :: 0 <= k < |s| ==> s[k].valid && !s[k].used
    {
      s := [];
      var i := loc.i;
      var j := loc.j;
      ghost var ls: seq<Coord> := [];
      if i - 1 >= 0 {
        s := PushNeighbor(s, t, e, Coord(i - 1, j), ls);
        ls := Push(ls, Coord(i - 1, j));
      }
      if i + 1 < t.n {
        s := PushNeighbor(s, t, e, Coord(i + 1, j), ls);
        ls := Push(ls, Coord(i + 1, j));
      }
      if j - 1 >= 0 {
        s := PushNeighbor(s, t, e, Coord(i, j - 1), ls);
        ls := Push(ls, Coord(i, j - 1));
      }
      if j + 1 < t.n {
        s := PushNeighbor(s, t, e, Coord(i, j + 1), ls);
        ls := Push(ls, Coord(i, j + 1));
      }
      assert ls == NeighborLocs(loc, t.n);
    }

    /** Pushes a fresh node for c, with this as predecessor, onto s. */
    method PushNeighbor(s: seq<PFNode>, t: Terrain, e: Coord, c: Coord, ghost ls: seq<Coord>) returns (s': seq<PFNode>)
      requires Wf(t, e) && Offspring(s, ls, t, e)
      ensures Offspring(s', Push(ls, c), t, e)
      ensures |s'| == |s| + 1 && fresh(s'[0]) && s'[1..] == s
      ensures s'[0].valid && !s'[0].used
    {
      var nb := new PFNode(t, e, c, this);
      s' := Push(s, nb);
    }

    /** s are well-formed nodes with this as predecessor, at locations ls. */
    ghost predicate Offspring(s: seq<PFNode>, ls: seq<Coord>, t: Terrain, e: Coord) {
      |s| == |ls| &&
      forall k :: 0 <= k < |s| ==> s[k].loc == ls[k] && s[k].fromNode == this && s[k].Wf(t, e)
    }
  }

  /** Comparable's contract: CompareTo is antisymmetric and transitive. */
  lemma CompareToIsTotalPreorder(a: PFNode, b: PFNode, c: PFNode, h: real)
    ensures a.CompareTo(b, h) == -b.CompareTo(a, h)
    ensures a.CompareTo(b, h) <= 0 && b.CompareTo(c, h) <= 0 ==> a.CompareTo(c, h) <= 0
    ensures a.CompareTo(b, h) <= 0 || b.CompareTo(a, h) <= 0
  {
  }

  /** The cost of a node is the travel cost along its predecessor chain. */
  lemma {:induction false} CostIsRouteCost(x: PFNode, t: Terrain, e: Coord)
    requires x.Wf(t, e)
    ensures x.cost == RouteCost(t, x.Route())
    decreases x.depth
  {
    if x.fromNode != null {
      CostIsRouteCost(x.fromNode, t, e);
      var r := x.Route();
      assert r[..|r| - 1] == x.fromNode.Route();
    }
  }

  /** Hence a node's key is its route's travel cost plus the weighted
      heuristic estimate from its location to e. */
  lemma KeyIsRouteCost(x: PFNode, t: Terrain, e: Coord, h: real)
    requires x.Wf(t, e)
    ensures x.GetCost(h) == RouteCost(t, x.Route()) + h * t.distance(x.loc, e)
  {
    CostIsRouteCost(x, t, e);
  }

  /** x has a least key in q: what the queue's delMin may return. */
  predicate LeastIn(x: PFNode, q: multiset<PFNode>, h: real) {
    forall y :: y in q ==> x.CompareTo(y, h) <= 0
  }

  /** A non-empty queue has an element of least key. */
  lemma {:induction false} LeastExists(q: multiset<PFNode>, h: real)
    requires q != multiset{}
    ensures exists x :: x in q && LeastIn(x, q, h)
    decreases |q|
  {
    var y :| y in q;
    var rest := q - multiset{y};
    assert forall z :: z in q ==> z == y || z in rest;
    if rest == multiset{} {
      assert LeastIn(y, q, h);
    } else {
      LeastExists(rest, h);
      var m :| m in rest && LeastIn(m, rest, h);
      if y.GetCost(h) < m.GetCost(h) {
        assert LeastIn(y, q, h);
      } else {
        assert LeastIn(m, q, h);
      }
    }
  }

  function Locs(s: seq<PFNode>): (r: seq<Coord>)
    ensures |r| == |s| && forall k {:trigger r[k]} :: 0 <= k < |s| ==> r[k] == s[k].loc
  {
    if s == [] then [] else Locs(s[..|s| - 1]) + [s[|s| - 1].loc]
  }
}
