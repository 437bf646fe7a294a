/** The contact network as the renderer stores it: a dense N x N matrix of
    0/1 entries (row `a` is node `a`'s `edge_list`), a degree array and a
    degree total. This module holds the pure vocabulary about those values;
    the class in module EpidemicRenderer updates them in place. */
module Graph {
  import opened Counting

  /** Every row has as many entries as there are rows. */
  predicate Square(adj: seq<seq<int>>)
  {
    forall a :: 0 <= a < |adj| ==> |adj[a]| == |adj|
  }

  /** Every entry is 0 or 1. */
  predicate ZeroOne(adj: seq<seq<int>>)
    requires Square(adj)
  {
    forall a, b :: 0 <= a < |adj| && 0 <= b < |adj| ==> adj[a][b] == 0 || adj[a][b] == 1
  }

  /** The relation is undirected. */
  predicate Symmetric(adj: seq<seq<int>>)
    requires Square(adj)
  {
    forall a, b :: 0 <= a < |adj| && 0 <= b < |adj| ==> adj[a][b] == adj[b][a]
  }

  /** No node is adjacent to itself. */
  predicate Loopless(adj: seq<seq<int>>)
    requires Square(adj)
  {
    forall a :: 0 <= a < |adj| ==> adj[a][a] == 0
  }

  /** `deg[a]` is the number of 1s in row `a`. */
  predicate DegreesMatch(adj: seq<seq<int>>, deg: seq<int>)
    requires Square(adj)
  {
    |deg| == |adj| && forall a :: 0 <= a < |adj| ==> deg[a] == Occurrences(adj[a], 1)
  }

  /** Number of adjacent pairs `a < b` with `a < i`: the 1s strictly above
      the diagonal in the first `i` rows. */
  function UpperUpTo(adj: seq<seq<int>>, i: nat): nat
    requires Square(adj) && i <= |adj|
  {
    if i == 0 then 0
    else UpperUpTo(adj, i - 1) + Occurrences(adj[i - 1][i..], 1)
  }

  /** Number of undirected edges: adjacent pairs `a < b`. */
  function EdgeCount(adj: seq<seq<int>>): nat
    requires Square(adj)
  {
    UpperUpTo(adj, |adj|)
  }

  /** The graph invariant: a symmetric, loop-free 0/1 matrix whose degree
      array counts each row, whose degrees sum to `total`, and `total` is
      twice the number of edges. */
  predicate GraphOk(adj: seq<seq<int>>, deg: seq<int>, total: int)
  {
    Square(adj) && ZeroOne(adj) && Symmetric(adj) && Loopless(adj) &&
    DegreesMatch(adj, deg) && Sum(deg) == total && 2 * EdgeCount(adj) == total
  }

  /** `adj` with both directions of the pair {a, b} set to 1, written in the
      order `renderer::add_node` writes them. */
  function Link(adj: seq<seq<int>>, a: nat, b: nat): (r: seq<seq<int>>)
    requires Square(adj) && a < |adj| && b < |adj|
    ensures Square(r) && |r| == |adj|
    ensures r[a] == adj[a][b := 1]
    ensures a != b ==> r[b] == adj[b][a := 1]
    ensures forall x :: 0 <= x < |adj| && x != a && x != b ==> r[x] == adj[x]
  {
    var first := adj[a := adj[a][b := 1]];
    first[b := first[b][a := 1]]
  }

  /** `deg` with entries `a` and `b` incremented, as `add_node` does. */
  function Bump(deg: seq<int>, a: nat, b: nat): (r: seq<int>)
    requires a < |deg| && b < |deg|
    ensures |r| == |deg|
    ensures a != b ==> r == deg[a := deg[a] + 1][b := deg[b] + 1]
    ensures a == b ==> r == deg[a := deg[a] + 2]
  {
    var first := deg[a := deg[a] + 1];
    first[b := first[b] + 1]
  }

  /** Entry by entry, linking sets exactly the two mirrored entries of the
      pair and leaves every other entry as it was. */
  lemma LinkAt(adj: seq<seq<int>>, a: nat, b: nat, x: nat, y: nat)
    requires Square(adj) && a < |adj| && b < |adj| && x < |adj| && y < |adj|
    ensures Link(adj, a, b)[x][y] == if (x == a && y == b) || (x == b && y == a) then 1 else adj[x][y]
  {
  }

  /** For a new pair a < b, linking adds exactly one edge to the rows that
      the count has reached. */
  lemma {:induction false} UpperLink(adj: seq<seq<int>>, a: nat, b: nat, i: nat)
    requires Square(adj) && a < b < |adj| && adj[a][b] == 0 && i <= |adj|
    ensures UpperUpTo(Link(adj, a, b), i) == UpperUpTo(adj, i) + (if a < i then 1 else 0)
  {
    if i > 0 {
      UpperLink(adj, a, b, i - 1);
      var r := Link(adj, a, b);
      var x := i - 1;
      if x == a {
        assert r[a][i..] == adj[a][i..][b - i := 1];
        OccurrencesUpdate(adj[a][i..], b - i, 1, 1);
      } else if x == b {
        assert r[b][i..] == adj[b][i..];
      } else {
        assert r[x] == adj[x];
      }
    }
  }

  /** Linking two distinct, non-adjacent nodes adds one to the row count of
      each of them and leaves every other row count as it was. */
  lemma LinkDegrees(adj: seq<seq<int>>, deg: seq<int>, a: nat, b: nat)
    requires Square(adj) && DegreesMatch(adj, deg) && Symmetric(adj)
    requires a < |adj| && b < |adj| && a != b && adj[a][b] == 0
    ensures DegreesMatch(Link(adj, a, b), Bump(deg, a, b))
  {
    var r := Link(adj, a, b);
    var d := Bump(deg, a, b);
    assert adj[b][a] == 0;
    OccurrencesUpdate(adj[a], b, 1, 1);
    OccurrencesUpdate(adj[b], a, 1, 1);
    forall x | 0 <= x < |r|
      ensures d[x] == Occurrences(r[x], 1)
    {
      if x != a && x != b {
        assert r[x] == adj[x];
      }
    }
  }

  /** Linking two distinct nodes keeps the matrix 0/1, symmetric and free
      of self-loops. */
  lemma LinkShape(adj: seq<seq<int>>, a: nat, b: nat)
    requires Square(adj) && ZeroOne(adj) && Symmetric(adj) && Loopless(adj)
    requires a < |adj| && b < |adj| && a != b
    ensures ZeroOne(Link(adj, a, b)) && Symmetric(Link(adj, a, b)) && Loopless(Link(adj, a, b))
  {
    forall x, y | 0 <= x < |adj| && 0 <= y < |adj|
      ensures Link(adj, a, b)[x][y] == if (x == a && y == b) || (x == b && y == a) then 1 else adj[x][y]
    {
      LinkAt(adj, a, b, x, y);
    }
  }

  /** Adding a new edge between two distinct, non-adjacent nodes keeps the
      graph invariant, with the total grown by two. */
  lemma {:induction false} LinkKeepsGraph(adj: seq<seq<int>>, deg: seq<int>, total: int, a: nat, b: nat)
    requires GraphOk(adj, deg, total)
    requires a < |adj| && b < |adj| && a != b && adj[a][b] == 0
    ensures GraphOk(Link(adj, a, b), Bump(deg, a, b), total + 2)
  {
    var r := Link(adj, a, b);
    LinkShape(adj, a, b);
    LinkDegrees(adj, deg, a, b);
    SumUpdate(deg, a, deg[a] + 1);
    SumUpdate(deg[a := deg[a] + 1], b, deg[b] + 1);
    if a < b {
      UpperLink(adj, a, b, |adj|);
    } else {
      assert r == Link(adj, b, a);
      UpperLink(adj, b, a, |adj|);
    }
  }

  /** The all-zero N x N matrix with zero degrees satisfies the invariant
      with total 0. */
  lemma {:induction false} EmptyGraph(adj: seq<seq<int>>, deg: seq<int>)
    requires Square(adj) && |deg| == |adj|
    requires forall a, b :: 0 <= a < |adj| && 0 <= b < |adj| ==> adj[a][b] == 0
    requires forall a :: 0 <= a < |deg| ==> deg[a] == 0
    ensures GraphOk(adj, deg, 0)
  {
    forall a | 0 <= a < |adj|
      ensures Occurrences(adj[a], 1) == 0
    {
      OccurrencesAbsent(adj[a], 1);
    }
    SumZeros(deg);
    EmptyUpper(adj, |adj|);
  }

  lemma {:induction false} EmptyUpper(adj: seq<seq<int>>, i: nat)
    requires Square(adj) && i <= |adj|
    requires forall a, b :: 0 <= a < |adj| && 0 <= b < |adj| ==> adj[a][b] == 0
    ensures UpperUpTo(adj, i) == 0
  {
    if i > 0 {
      EmptyUpper(adj, i - 1);
      OccurrencesAbsent(adj[i - 1][i..], 1);
    }
  }

  /** Row-major flattening of the matrix, as uploaded to the adjacency
      buffer: row 0, then row 1, and so on. Every value of every row
      appears in it, and nothing else does. */
  function Flatten(adj: seq<seq<int>>): (r: seq<int>)
    ensures forall a, x :: 0 <= a < |adj| && x in adj[a] ==> x in r
    ensures forall x :: x in r ==> exists a :: 0 <= a < |adj| && x in adj[a]
  {
    if |adj| == 0 then [] else adj[0] + Flatten(adj[1..])
  }

  /** With rows of width `n`, the flattened matrix has `|adj| * n` entries. */
  lemma {:induction false} FlattenLength(adj: seq<seq<int>>, n: nat)
    requires forall a :: 0 <= a < |adj| ==> |adj[a]| == n
    ensures |Flatten(adj)| == |adj| * n
  {
    if |adj| > 0 {
      FlattenLength(adj[1..], n);
      assert |adj| * n == n + (|adj| - 1) * n;
    }
  }

  /** Entry (i, j) of the matrix sits at index `i * n + j` of the flattening. */
  lemma {:induction false} FlattenAt(adj: seq<seq<int>>, n: nat, i: nat, j: nat)
    requires forall a :: 0 <= a < |adj| ==> |adj[a]| == n
    requires i < |adj| && j < n
    ensures |Flatten(adj)| == |adj| * n
    ensures i * n + j < |Flatten(adj)| && Flatten(adj)[i * n + j] == adj[i][j]
  {
    FlattenLength(adj, n);
    if i > 0 {
      FlattenAt(adj[1..], n, i - 1, j);
      assert i * n + j == n + ((i - 1) * n + j);
    }
  }

  /** Coordinates that the edge loop of `renderer::render` appends for row
      `i`, columns `i + 1` up to `j - 1`: the endpoints (x, y) of node `i`
      and of node `c`, for every adjacent `c`. */
  function RowSegments<C>(adj: seq<seq<int>>, x: seq<C>, y: seq<C>, i: nat, j: nat): seq<C>
    requires Square(adj) && |x| == |adj| && |y| == |adj| && i < |adj| && j <= |adj|
  {
    if j <= i + 1 then []
    else RowSegments(adj, x, y, i, j - 1)
         + (if adj[i][j - 1] == 1 then [x[i], y[i], x[j - 1], y[j - 1]] else [])
  }

  /** Coordinates appended for rows `0` up to `i - 1`. */
  function SegmentsUpTo<C>(adj: seq<seq<int>>, x: seq<C>, y: seq<C>, i: nat): seq<C>
    requires Square(adj) && |x| == |adj| && |y| == |adj| && i <= |adj|
  {
    if i == 0 then []
    else SegmentsUpTo(adj, x, y, i - 1) + RowSegments(adj, x, y, i - 1, |adj|)
  }

  /** The whole edge-vertex list: four coordinates per adjacent pair `a < b`,
      in row-major order. */
  function EdgeSegments<C>(adj: seq<seq<int>>, x: seq<C>, y: seq<C>): seq<C>
    requires Square(adj) && |x| == |adj| && |y| == |adj|
  {
    SegmentsUpTo(adj, x, y, |adj|)
  }

  /** A row contributes four coordinates per 1 to the right of the diagonal. */
  lemma {:induction false} RowSegmentsLength<C>(adj: seq<seq<int>>, x: seq<C>, y: seq<C>, i: nat, j: nat)
    requires Square(adj) && |x| == |adj| && |y| == |adj| && i < |adj| && i + 1 <= j <= |adj|
    ensures |RowSegments(adj, x, y, i, j)| == 4 * Occurrences(adj[i][i + 1..j], 1)
  {
    if j > i + 1 {
      RowSegmentsLength(adj, x, y, i, j - 1);
      assert adj[i][i + 1..j][..j - 1 - (i + 1)] == adj[i][i + 1..j - 1];
    }
  }

  /** The edge-vertex list holds four coordinates per edge. */
  lemma {:induction false} SegmentsLength<C>(adj: seq<seq<int>>, x: seq<C>, y: seq<C>, i: nat)
    requires Square(adj) && |x| == |adj| && |y| == |adj| && i <= |adj|
    ensures |SegmentsUpTo(adj, x, y, i)| == 4 * UpperUpTo(adj, i)
  {
    if i > 0 {
      SegmentsLength(adj, x, y, i - 1);
      RowSegmentsLength(adj, x, y, i - 1, |adj|);
      assert adj[i - 1][i..|adj|] == adj[i - 1][i..];
    }
  }
}
