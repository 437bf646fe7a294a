/** How the renderer builds its contact network: the seed clique over the
    first M0 nodes, then preferential attachment of every later node to M
    earlier ones. The predicates here describe the matrix, degrees and total
    at each point of those loops; the class in module EpidemicRenderer runs the
    loops and keeps these states as invariants. */
module Construction {
  import opened Counting
  import opened Graph

  /** Entry (a, b) once the seed-clique loops have handled every pair
      (p, q), p < q, that comes before (i, j) in loop order. */
  predicate CliqueDone(a: int, b: int, i: int, j: int, m0: int)
  {
    a != b &&
    var p := if a < b then a else b;
    var q := if a < b then b else a;
    q < m0 && (p < i || (p == i && q < j))
  }

  /** Degree of node `a` at that same point of the seed-clique loops. */
  function CliqueDegree(a: int, i: int, j: int, m0: int): int
  {
    if a >= m0 then 0
    else if a < i then m0 - 1
    else if a == i then j - 1
    else if a < j then i + 1
    else i
  }

  /** The state of matrix, degrees and total when the seed-clique loops are
      about to handle pair (i, j). */
  predicate CliqueState(adj: seq<seq<int>>, pool: seq<int>, total: int, n: nat, m0: nat, i: nat, j: nat)
  {
    |adj| == n && GraphOk(adj, pool, total) &&
    (forall a, b :: 0 <= a < n && 0 <= b < n ==> adj[a][b] == if CliqueDone(a, b, i, j, m0) then 1 else 0) &&
    (forall a :: 0 <= a < n ==> pool[a] == CliqueDegree(a, i, j, m0)) &&
    total == i * (2 * m0 - i - 1) + 2 * (j - i - 1)
  }

  /** Handling pair (i, j) moves the state on to (i, j + 1). */
  lemma CliqueStep(adj: seq<seq<int>>, pool: seq<int>, total: int, n: nat, m0: nat, i: nat, j: nat)
    requires i < j < m0 <= n && CliqueState(adj, pool, total, n, m0, i, j)
    ensures CliqueState(Link(adj, i, j), Bump(pool, i, j), total + 2, n, m0, i, j + 1)
  {
    LinkKeepsGraph(adj, pool, total, i, j);
    var r := Link(adj, i, j);
    forall a, b | 0 <= a < n && 0 <= b < n
      ensures r[a][b] == if CliqueDone(a, b, i, j + 1, m0) then 1 else 0
    {
      if a != i && a != j {
        assert r[a] == adj[a];
      }
    }
  }

  /** Finishing row i is the same state as starting row i + 1. */
  lemma CliqueNextRow(adj: seq<seq<int>>, pool: seq<int>, total: int, n: nat, m0: nat, i: nat)
    requires i < m0 <= n && CliqueState(adj, pool, total, n, m0, i, m0)
    ensures CliqueState(adj, pool, total, n, m0, i + 1, i + 2)
  {
    assert (i + 1) * (2 * m0 - (i + 1) - 1) == i * (2 * m0 - i - 1) + 2 * (m0 - i - 1);
  }

  /** Before the loops, the all-zero graph is the state at pair (0, 1). */
  lemma CliqueStart(adj: seq<seq<int>>, pool: seq<int>, n: nat, m0: nat)
    requires |adj| == n && GraphOk(adj, pool, 0)
    requires forall a, b :: 0 <= a < n && 0 <= b < n ==> adj[a][b] == 0
    requires forall a :: 0 <= a < n ==> pool[a] == 0
    ensures CliqueState(adj, pool, 0, n, m0, 0, 1)
  {
  }

  /** After the loops, every pair of distinct nodes below M0 is adjacent,
      each of them has degree M0 - 1 and the total is M0 * (M0 - 1). */
  lemma CliqueComplete(adj: seq<seq<int>>, pool: seq<int>, total: int, n: nat, m0: nat)
    requires m0 <= n && CliqueState(adj, pool, total, n, m0, m0, m0 + 1)
    ensures forall a, b :: 0 <= a < n && 0 <= b < n ==>
              adj[a][b] == if a < m0 && b < m0 && a != b then 1 else 0
    ensures forall a :: 0 <= a < n ==> pool[a] == if a < m0 then m0 - 1 else 0
    ensures total == m0 * (m0 - 1)
  {
  }

  /** Every pair of distinct nodes below M0 is adjacent. */
  predicate SeedKept(adj: seq<seq<int>>, n: nat, m0: nat)
  {
    |adj| == n && Square(adj) && m0 <= n &&
    forall a, b :: 0 <= a < m0 && 0 <= b < m0 && a != b ==> adj[a][b] == 1
  }

  /** Every node from M0 up to `i - 1` has exactly M neighbours of lower
      index. */
  predicate LowerDegrees(adj: seq<seq<int>>, m0: nat, m: nat, i: nat)
    requires Square(adj) && i <= |adj|
  {
    forall a :: m0 <= a < i ==> Occurrences(adj[a][..a], 1) == m
  }

  /** Rows `i` and later are all zero: those nodes have not been attached. */
  predicate RowsEmpty(adj: seq<seq<int>>, i: nat)
    requires Square(adj)
  {
    forall a, b :: i <= a < |adj| && 0 <= b < |adj| ==> adj[a][b] == 0
  }

  /** The state of `generate` before node `i` is attached: nodes M0 to
      `i - 1` each brought M edges, later nodes have none. */
  predicate Before(adj: seq<seq<int>>, pool: seq<int>, total: int, n: nat, m0: nat, m: nat, i: nat)
  {
    |adj| == n && 2 <= m0 <= i <= n && GraphOk(adj, pool, total) && SeedKept(adj, n, m0) &&
    LowerDegrees(adj, m0, m, i) && RowsEmpty(adj, i) &&
    total == m0 * (m0 - 1) + 2 * m * (i - m0)
  }

  /** The state of `generate` while node `i` is being attached and has `e`
      edges so far, all of them to lower nodes. */
  predicate Attaching(adj: seq<seq<int>>, pool: seq<int>, total: int, n: nat, m0: nat, m: nat, i: nat, e: nat)
  {
    |adj| == n && 2 <= m0 <= i < n && GraphOk(adj, pool, total) && SeedKept(adj, n, m0) &&
    LowerDegrees(adj, m0, m, i) && RowsEmpty(adj, i + 1) &&
    (forall b :: i <= b < n ==> adj[i][b] == 0) &&
    Occurrences(adj[i][..i], 1) == e &&
    total == m0 * (m0 - 1) + 2 * m * (i - m0) + 2 * e
  }

  /** From `adj0`/`pool0` to `adj`/`pool`, only edges between node `i` and
      other nodes were added: every entry outside row and column `i` is
      unchanged, and every other node's degree grew by its new entry in
      column `i`. */
  predicate OnlyNodeLinked(adj0: seq<seq<int>>, pool0: seq<int>, adj: seq<seq<int>>, pool: seq<int>, n: nat, i: nat)
  {
    |adj0| == n && |adj| == n && Square(adj0) && Square(adj) && |pool0| == n && |pool| == n && i < n &&
    (forall a, b :: 0 <= a < n && 0 <= b < n && a != i && b != i ==> adj[a][b] == adj0[a][b]) &&
    forall a :: 0 <= a < n && a != i ==> pool[a] == pool0[a] + adj[a][i]
  }

  /** Before node `i` is attached, no node is adjacent to it, so the state
      is related to itself. */
  lemma OnlyNodeLinkedBegin(adj: seq<seq<int>>, pool: seq<int>, total: int, n: nat, m0: nat, m: nat, i: nat)
    requires i < n && Before(adj, pool, total, n, m0, m, i)
    ensures OnlyNodeLinked(adj, pool, adj, pool, n, i)
  {
    forall a | 0 <= a < n && a != i
      ensures adj[a][i] == 0
    {
      assert adj[a][i] == adj[i][a];
    }
  }

  /** Linking node `i` to a node `j` it is not yet adjacent to keeps the
      relation: only entries (j, i) and (i, j) change, and only node `j`'s
      degree outside node `i` grows, by that new entry. */
  lemma OnlyNodeLinkedStep(adj0: seq<seq<int>>, pool0: seq<int>, adj: seq<seq<int>>, pool: seq<int>, n: nat, i: nat, j: nat)
    requires OnlyNodeLinked(adj0, pool0, adj, pool, n, i)
    requires j < n && j != i && adj[j][i] == 0
    ensures OnlyNodeLinked(adj0, pool0, Link(adj, j, i), Bump(pool, j, i), n, i)
  {
    var r := Link(adj, j, i);
    forall a, b | 0 <= a < n && 0 <= b < n && a != i && b != i
      ensures r[a][b] == adj0[a][b]
    {
      LinkAt(adj, j, i, a, b);
    }
    forall a | 0 <= a < n && a != i
      ensures Bump(pool, j, i)[a] == pool0[a] + r[a][i]
    {
      LinkAt(adj, j, i, a, i);
    }
  }

  /** The completed seed clique is the state before node M0. */
  lemma SeedIsBefore(adj: seq<seq<int>>, pool: seq<int>, total: int, n: nat, m0: nat, m: nat)
    requires |adj| == n && 2 <= m0 <= n && GraphOk(adj, pool, total)
    requires forall a, b :: 0 <= a < n && 0 <= b < n ==>
               adj[a][b] == if a < m0 && b < m0 && a != b then 1 else 0
    requires total == m0 * (m0 - 1)
    ensures Before(adj, pool, total, n, m0, m, m0)
  {
  }

  /** Node `i` starts with no edges. */
  lemma AttachBegin(adj: seq<seq<int>>, pool: seq<int>, total: int, n: nat, m0: nat, m: nat, i: nat)
    requires i < n && Before(adj, pool, total, n, m0, m, i)
    ensures Attaching(adj, pool, total, n, m0, m, i, 0)
  {
    OccurrencesAbsent(adj[i][..i], 1);
  }

  /** Linking node `i` to a lower node `j` it is not yet adjacent to adds one
      edge to node `i` and keeps every other part of the state. */
  lemma AttachStep(adj: seq<seq<int>>, pool: seq<int>, total: int, n: nat, m0: nat, m: nat, i: nat, e: nat, j: nat)
    requires Attaching(adj, pool, total, n, m0, m, i, e)
    requires j < i && adj[j][i] == 0
    ensures Attaching(Link(adj, j, i), Bump(pool, j, i), total + 2, n, m0, m, i, e + 1)
  {
    var r := Link(adj, j, i);
    LinkKeepsGraph(adj, pool, total, j, i);
    forall a, b | 0 <= a < m0 && 0 <= b < m0 && a != b
      ensures r[a][b] == 1
    {
      LinkAt(adj, j, i, a, b);
    }
    forall a | m0 <= a < i
      ensures Occurrences(r[a][..a], 1) == m
    {
      if a == j {
        assert r[a][..a] == adj[a][..a];
      } else {
        assert r[a] == adj[a];
      }
    }
    forall a, b | i + 1 <= a < n && 0 <= b < n
      ensures r[a][b] == 0
    {
      assert r[a] == adj[a];
    }
    assert adj[i][j] == 0;
    assert r[i][..i] == adj[i][..i][j := 1];
    OccurrencesUpdate(adj[i][..i], j, 1, 1);
  }

  /** Once node `i` has M edges, the state is the one before node `i + 1`. */
  lemma AttachEnd(adj: seq<seq<int>>, pool: seq<int>, total: int, n: nat, m0: nat, m: nat, i: nat)
    requires Attaching(adj, pool, total, n, m0, m, i, m)
    ensures Before(adj, pool, total, n, m0, m, i + 1)
  {
  }

  /** While node `i` is being attached, its degree is its edge count so far,
      every later node has degree 0, and the degrees of nodes `0` to `i - 1`
      sum to the total less node `i`'s edges. */
  lemma AttachingDegrees(adj: seq<seq<int>>, pool: seq<int>, total: int, n: nat, m0: nat, m: nat, i: nat, e: nat)
    requires Attaching(adj, pool, total, n, m0, m, i, e)
    ensures pool[i] == e
    ensures forall a :: i < a < n ==> pool[a] == 0
    ensures Sum(pool[..i]) == total - e
    ensures forall x :: 0 <= x < |pool| ==> pool[x] >= 0
  {
    OccurrencesAbsentTail(adj[i], i, 1);
    forall a | i < a < n
      ensures pool[a] == 0
    {
      OccurrencesAbsent(adj[a], 1);
    }
    SumZeroTail(pool, i + 1);
    SumSnoc(pool, i);
  }

  /** When node `i`'s loop ends it has exactly M neighbours, all of lower
      index, and every later node still has no edges and degree 0. */
  lemma NodeExit(adj: seq<seq<int>>, pool: seq<int>, total: int, n: nat, m0: nat, m: nat, i: nat)
    requires Attaching(adj, pool, total, n, m0, m, i, m)
    ensures Occurrences(adj[i], 1) == m && pool[i] == m
    ensures forall b :: i <= b < n ==> adj[i][b] == 0
    ensures forall a, b :: i < a < n && 0 <= b < n ==> adj[a][b] == 0
    ensures forall a :: i < a < n ==> pool[a] == 0
  {
    AttachingDegrees(adj, pool, total, n, m0, m, i, m);
  }

  /** Node `j`'s share of the degree total added up over nodes `0` to `j`:
      the cumulative probability the attachment loop reaches at `j`. */
  function Share(pool: seq<int>, total: int, j: nat): real
    requires j < |pool| && total != 0
  {
    Sum(pool[..j + 1]) as real / total as real
  }

  /** Moving on to node `j` adds its own share to the cumulative sum. */
  lemma ShareStep(pool: seq<int>, total: int, j: nat)
    requires j < |pool| && total != 0
    ensures Sum(pool[..j + 1]) as real / total as real
         == Sum(pool[..j]) as real / total as real + pool[j] as real / total as real
  {
    SumSnoc(pool, j);
  }

  /** Node `j` can take the draw `p` for node `i`: the cumulative share has
      passed `p` and `j` is not yet adjacent to `i`. */
  predicate Eligible(adj: seq<seq<int>>, pool: seq<int>, total: int, i: nat, p: real, j: nat)
    requires Square(adj) && j < |pool| && j < |adj| && i < |adj| && total != 0
  {
    p < Share(pool, total, j) && adj[j][i] == 0
  }

  /** Cumulative shares never decrease along the nodes. */
  lemma ShareMonotone(pool: seq<int>, total: int, j: nat, k: nat)
    requires j <= k < |pool| && total > 0
    requires forall x :: 0 <= x < |pool| ==> pool[x] >= 0
    ensures Share(pool, total, j) <= Share(pool, total, k)
  {
    SumPrefixMonotone(pool, j + 1, k + 1);
  }

  /** Dividing by the same positive total keeps the order. */
  lemma DivideMonotone(x: int, y: int, total: int)
    requires x <= y && total > 0
    ensures x as real / total as real <= y as real / total as real
  {
  }

  /** The total over itself is the whole. */
  lemma WholeShare(total: int)
    requires total > 0
    ensures total as real / total as real == 1.0
  {
  }

  /** If the degrees of nodes `0` to `i - 1` sum to `s` and `p` is at least
      `s` over the total, no cumulative share below `i` passes `p`. */
  lemma NoShareAbove(pool: seq<int>, total: int, i: nat, p: real)
    requires 0 < i <= |pool| && total > 0
    requires forall x :: 0 <= x < |pool| ==> pool[x] >= 0
    requires Sum(pool[..i]) as real <= p * total as real
    ensures forall j :: 0 <= j < i ==> !(p < Share(pool, total, j))
  {
    forall j | 0 <= j < i
      ensures Share(pool, total, j) <= p
    {
      SumPrefixMonotone(pool, j + 1, i);
      DivideMonotone(Sum(pool[..j + 1]), Sum(pool[..i]), total);
    }
  }

  /** The degree total is positive once the seed clique exists. */
  lemma TotalPositive(m0: nat, m: nat, i: nat, e: nat)
    requires 2 <= m0 <= i
    ensures m0 * (m0 - 1) + 2 * m * (i - m0) + 2 * e > 0
  {
    assert m0 * (m0 - 1) >= m0 by {
      assert m0 - 1 >= 1;
    }
    assert m * (i - m0) >= 0;
  }

  /** A draw at or above the share of all nodes below `i` finds no node:
      the attempt runs off the end of the loop and adds nothing. */
  lemma FallsOffEnd(adj: seq<seq<int>>, pool: seq<int>, total: int, n: nat, m0: nat, m: nat, i: nat, e: nat, p: real)
    requires Attaching(adj, pool, total, n, m0, m, i, e)
    requires (total - e) as real <= p * total as real
    ensures total > 0
    ensures forall j :: 0 <= j < i ==> !Eligible(adj, pool, total, i, p, j)
  {
    TotalPositive(m0, m, i, e);
    AttachingDegrees(adj, pool, total, n, m0, m, i, e);
    NoShareAbove(pool, total, i, p);
  }

  /** The first draw for a new node always attaches it somewhere: no lower
      node is adjacent to it yet and the shares of the lower nodes add up
      to 1. */
  lemma FirstDrawAttaches(adj: seq<seq<int>>, pool: seq<int>, total: int, n: nat, m0: nat, m: nat, i: nat, p: real)
    requires Attaching(adj, pool, total, n, m0, m, i, 0)
    requires 0.0 <= p < 1.0
    ensures total > 0
    ensures Eligible(adj, pool, total, i, p, i - 1)
  {
    TotalPositive(m0, m, i, 0);
    AttachingDegrees(adj, pool, total, n, m0, m, i, 0);
    assert pool[..i - 1 + 1] == pool[..i];
    assert Sum(pool[..i]) == total;
    WholeShare(total);
  }

  /** The finished network: it has M0 * (M0 - 1) / 2 + M * (N - M0) edges,
      every seed node has degree at least M0 - 1 and every later node degree
      at least M. */
  lemma Finished(adj: seq<seq<int>>, pool: seq<int>, total: int, n: nat, m0: nat, m: nat)
    requires Before(adj, pool, total, n, m0, m, n)
    ensures 2 * EdgeCount(adj) == m0 * (m0 - 1) + 2 * m * (n - m0)
    ensures forall a :: 0 <= a < m0 ==> pool[a] >= m0 - 1
    ensures forall a :: m0 <= a < n ==> pool[a] >= m
  {
    forall a | 0 <= a < m0
      ensures pool[a] >= m0 - 1
    {
      SeedRowCount(adj, n, m0, a);
    }
    forall a | m0 <= a < n
      ensures pool[a] >= m
    {
      OccurrencesPrefix(adj[a], a, 1);
    }
  }

  /** A seed node's row holds a 1 for each of the other M0 - 1 seed nodes. */
  lemma {:induction false} SeedRowCount(adj: seq<seq<int>>, n: nat, m0: nat, a: nat)
    requires SeedKept(adj, n, m0) && a < m0
    ensures Occurrences(adj[a], 1) >= m0 - 1
  {
    SeedPrefixCount(adj, n, m0, a, m0);
    OccurrencesPrefix(adj[a], m0, 1);
  }

  /** Among the first `k <= M0` entries of seed row `a`, every one except
      the diagonal is 1. */
  lemma {:induction false} SeedPrefixCount(adj: seq<seq<int>>, n: nat, m0: nat, a: nat, k: nat)
    requires SeedKept(adj, n, m0) && a < m0 && k <= m0
    ensures Occurrences(adj[a][..k], 1) >= k - (if a < k then 1 else 0)
  {
    if k > 0 {
      SeedPrefixCount(adj, n, m0, a, k - 1);
      OccurrencesSnoc(adj[a], k - 1, 1);
    }
  }
}
