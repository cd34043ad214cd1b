/** Collaborators of the search and the walker: grid coordinates, the cost
    model (Terrain) and facts about the square grid of cells. */
module Grid {

  datatype Option<T> = None | Some(value: T)

  /** A grid coordinate: row i, column j, compared by value. */
  datatype Coord = Coord(i: int, j: int)

  /** The cost model. Its implementation is not part of this model, so it is
      represented by its size n and two arbitrary total functions: the
      heuristic distance estimate and the travel cost between two cells. */
  datatype Terrain = Terrain(n: nat, distance: (Coord, Coord) -> real, travelCost: (Coord, Coord) -> real)

  /** c lies inside the n x n grid. */
  predicate InBounds(c: Coord, n: int) {
    0 <= c.i < n && 0 <= c.j < n
  }

  /** a and b differ by exactly one in exactly one coordinate. */
  predicate Adjacent(a: Coord, b: Coord) {
    (a.i == b.i && (a.j == b.j + 1 || b.j == a.j + 1)) ||
    (a.j == b.j && (a.i == b.i + 1 || b.i == a.i + 1))
  }

  /** Every two consecutive coordinates of s are adjacent. */
  predicate Chained(s: seq<Coord>) {
    forall k :: 0 <= k < |s| - 1 ==> Adjacent(s[k], s[k + 1])
  }

  /** No coordinate occurs twice in s. */
  predicate Distinct(s: seq<Coord>) {
    forall a, b :: 0 <= a < b < |s| ==> s[a] != s[b]
  }

  /** All n * n cells of the grid. */
  function Cells(n: nat): set<Coord> {
    set i, j | 0 <= i < n && 0 <= j < n :: Coord(i, j)
  }

  /** The first m rows of an n-column grid. */
  function Rows(m: nat, n: nat): set<Coord> {
    set i, j | 0 <= i < m && 0 <= j < n :: Coord(i, j)
  }

  /** The first n cells of row i. */
  function Row(i: int, n: nat): set<Coord> {
    set j | 0 <= j < n :: Coord(i, j)
  }

  lemma {:induction false} RowSize(i: int, n: nat)
    ensures |Row(i, n)| == n
  {
    if n > 0 {
      RowSize(i, n - 1);
      assert Row(i, n) == Row(i, n - 1) + {Coord(i, n - 1)};
    }
  }

  /** The first m rows are the first m - 1 rows and, apart from them, row m - 1. */
  lemma RowsSnoc(m: nat, n: nat)
    requires m > 0
    ensures Rows(m, n) == Rows(m - 1, n) + Row(m - 1, n) && Rows(m - 1, n) !! Row(m - 1, n)
  {
  }

  lemma {:induction false} RowsSize(m: nat, n: nat)
    ensures |Rows(m, n)| == m * n
  {
    if m > 0 {
      RowsSize(m - 1, n);
      RowSize(m - 1, n);
      RowsSnoc(m, n);
      assert |Rows(m, n)| == (m - 1) * n + n;
    }
  }

  /** The grid has exactly n * n cells. */
  lemma CellsSize(n: nat)
    ensures |Cells(n)| == n * n
  {
    RowsSize(n, n);
    assert Cells(n) == Rows(n, n);
  }

  lemma InBoundsIsCell(c: Coord, n: nat)
    ensures c in Cells(n) <==> InBounds(c, n)
  {
    if InBounds(c, n) {
      assert Coord(c.i, c.j) in Cells(n);
    }
  }

  /** A sequence of distinct elements of a set is no longer than the set. */
  lemma {:induction false} DistinctWithin(s: seq<Coord>, a: set<Coord>)
    requires Distinct(s)
    requires forall k :: 0 <= k < |s| ==> s[k] in a
    ensures |s| <= |a|
  {
    if |s| > 0 {
      var x := s[|s| - 1];
      var rest := s[..|s| - 1];
      forall k | 0 <= k < |rest|
        ensures rest[k] in a - {x}
      {
        assert rest[k] == s[k] && k < |s| - 1;
      }
      DistinctWithin(rest, a - {x});
      assert a == (a - {x}) + {x};
    }
  }

  /** Distinct cells of an n x n grid number at most n * n. */
  lemma DistinctCellsBound(s: seq<Coord>, n: nat)
    requires Distinct(s)
    requires forall k :: 0 <= k < |s| ==> InBounds(s[k], n)
    ensures |s| <= n * n
  {
    forall k | 0 <= k < |s|
      ensures s[k] in Cells(n)
    {
      InBoundsIsCell(s[k], n);
    }
    DistinctWithin(s, Cells(n));
    CellsSize(n);
  }

  /** Extending a chained sequence by a coordinate adjacent to its last one
      keeps it chained. */
  lemma ChainedSnoc(s: seq<Coord>, c: Coord)
    requires Chained(s) && |s| > 0 && Adjacent(s[|s| - 1], c)
    ensures Chained(s + [c])
  {
    var t := s + [c];
    forall k | 0 <= k < |t| - 1
      ensures Adjacent(t[k], t[k + 1])
    {
      if k < |s| - 1 {
        assert t[k] == s[k] && t[k + 1] == s[k + 1];
      }
    }
  }
}
