/** The walker: an agent that follows a path of coordinates over a terrain,
    moving on each call to Advance while its time budget is positive. */
module Walking {
  import opened Grid

  /** Cost of the step that takes path[m], coming from path[m - 1]. */
  function StepCost(t: Terrain, path: seq<Coord>, m: int): real
    requires 1 <= m < |path|
  {
    t.travelCost(path[m - 1], path[m])
  }

  /** The iterator position at which Advance stops, from position k (path[k - 1]
      is the current location) with time budget b. The budget is REPLACED by
      the cost of each step taken, not decreased by it. */
  function StopIndex(t: Terrain, path: seq<Coord>, k: nat, b: real): (r: nat)
    requires 1 <= k <= |path|
    ensures k <= r <= |path|
    decreases |path| - k
  {
    if k < |path| && b > 0.0 then StopIndex(t, path, k + 1, StepCost(t, path, k)) else k
  }

  /** r is where a walk from position k with budget b ends: nowhere but k when
      there is nothing left or the budget is not positive; otherwise at least
      one step, every step but the last has positive cost, and the walk ends
      at the end of the path or right after a step of cost <= 0. */
  predicate StopsAt(t: Terrain, path: seq<Coord>, k: nat, b: real, r: nat)
    requires 1 <= k <= |path|
  {
    if k == |path| || b <= 0.0 then r == k
    else
      k < r <= |path| &&
      (forall m :: k <= m < r - 1 ==> StepCost(t, path, m) > 0.0) &&
      (r == |path| || StepCost(t, path, r - 1) <= 0.0)
  }

  /** StopIndex satisfies the characterisation. */
  lemma {:induction false} StopIndexStops(t: Terrain, path: seq<Coord>, k: nat, b: real)
    requires 1 <= k <= |path|
    ensures StopsAt(t, path, k, b, StopIndex(t, path, k, b))
    decreases |path| - k
  {
    if k < |path| && b > 0.0 {
      StopIndexStops(t, path, k + 1, StepCost(t, path, k));
    }
  }

  /** The characterisation determines the stopping position uniquely, so
      StopsAt(.., r) holds exactly when r == StopIndex(..). */
  lemma {:induction false} StopsAtIsStopIndex(t: Terrain, path: seq<Coord>, k: nat, b: real, r: nat)
    requires 1 <= k <= |path|
    ensures StopsAt(t, path, k, b, r) <==> r == StopIndex(t, path, k, b)
    decreases |path| - k
  {
    StopIndexStops(t, path, k, b);
    if StopsAt(t, path, k, b, r) && k < |path| && b > 0.0 {
      var c := StepCost(t, path, k);
      if r > k + 1 {
        assert c > 0.0;
        assert StopsAt(t, path, k + 1, c, r);
      } else {
        assert r == |path| || c <= 0.0;
      }
      StopsAtIsStopIndex(t, path, k + 1, c, r);
    }
  }

  /** With every remaining step of positive cost, one call with a positive
      budget walks to the end of the path. */
  lemma AllPositiveWalksToEnd(t: Terrain, path: seq<Coord>, k: nat, b: real)
    requires 1 <= k <= |path| && b > 0.0
    requires forall m :: k <= m < |path| ==> StepCost(t, path, m) > 0.0
    ensures StopIndex(t, path, k, b) == |path|
  {
    StopIndexStops(t, path, k, b);
  }

  class Walker {
    const terrain: Terrain
    /** The sequence the iterator runs over; path[next..] is what is left. */
    const path: seq<Coord>
    var next: nat
    var location: Coord
    /** Set by each step to whether the path is used up; doneWalking() does
        not read it. */
    var doneWalking: bool

    /** The location is always the element the iterator returned last. */
    ghost predicate Valid()
      reads this
    {
      1 <= next <= |path| && location == path[next - 1]
    }

    /** Elements the iterator has not yet returned. */
    ghost function Remaining(): seq<Coord>
      reads this
      requires Valid()
    {
      path[next..]
    }

    /** Takes the first element of the path as the current location. */
    constructor (terrain: Terrain, path: seq<Coord>)
      requires |path| > 0
      ensures Valid()
      ensures this.terrain == terrain && this.path == path
      ensures location == path[0] && Remaining() == path[1..] && !doneWalking
    {
      this.terrain := terrain;
      this.path := path;
      next := 1;
      location := path[0];
      doneWalking := false;
    }

    method GetLocation() returns (r: Coord)
      requires Valid()
      ensures r == location && r in path
    {
      r := location;
    }

    method DoneWalking() returns (r: bool)
      requires Valid()
      ensures r <==> Remaining() == []
      ensures r ==> location == path[|path| - 1]
    {
      r := next >= |path|;
    }

    /** Steps along the path while an element remains and the budget is
        positive; the budget becomes the cost of the step just taken.
        trace lists the locations taken, one per step. */
    method Advance(byTime: real) returns (ghost trace: seq<Coord>)
      requires Valid()
      modifies this
      ensures Valid()
      ensures next == StopIndex(terrain, path, old(next), byTime)
      ensures trace == path[old(next)..next]
      ensures old(next) <= next && Remaining() == old(Remaining())[next - old(next)..]
      ensures byTime <= 0.0 ==> next == old(next) && location == old(location)
      ensures next > old(next) ==> doneWalking == (next == |path|)
      ensures next == old(next) ==> doneWalking == old(doneWalking)
    {
      var budget := byTime;
      trace := [];
      while next < |path| && budget > 0.0
        invariant Valid() && old(next) <= next
        invariant StopIndex(terrain, path, next, budget) == StopIndex(terrain, path, old(next), byTime)
        invariant trace == path[old(next)..next]
        invariant next > old(next) ==> doneWalking == (next == |path|)
        invariant next == old(next) ==> doneWalking == old(doneWalking)
        decreases |path| - next
      {
        var nextLoc := path[next];
        ghost var stop := StopIndex(terrain, path, next, budget);
        budget := terrain.travelCost(location, nextLoc);
        assert stop == StopIndex(terrain, path, next + 1, budget) by {
          assert StepCost(terrain, path, next) == budget;
        }
        location := nextLoc;
        next := next + 1;
        doneWalking := next >= |path|;
        assert path[old(next)..next] == path[old(next)..next - 1] + [nextLoc];
        trace := trace + [nextLoc];
      }
      assert path[old(next)..][next - old(next)..] == path[next..];
    }
  }

  /** Using a walker: with unit costs, one Advance(1.0) on a three-element
      path reaches the end, because the budget is replaced, not spent. */
  method UnitCostWalk()
  {
    var t := Terrain(3, (a, b) => 0.0, (a, b) => 1.0);
    var p := [Coord(0, 0), Coord(0, 1), Coord(0, 2)];
    var w := new Walker(t, p);
    var here := w.GetLocation();
    assert here == Coord(0, 0);
    var done := w.DoneWalking();
    assert !done;
    ghost var trace := w.Advance(1.0);
    here := w.GetLocation();
    done := w.DoneWalking();
    assert here == Coord(0, 2) && done;
    assert trace == [Coord(0, 1), Coord(0, 2)];
  }
}
