/** The per-node state buffers: 2N floats, interleaved, where slot `2k`
    holds node `k`'s susceptible value and slot `2k + 1` its infected value. */
module Results {
  import opened Counting

  /** The susceptible channel: the even slots. */
  function Susceptible(buf: seq<real>): seq<real>
  {
    seq(|buf| / 2, k requires 0 <= k < |buf| / 2 => buf[2 * k])
  }

  /** The infected channel: the odd slots. */
  function Infected(buf: seq<real>): seq<real>
  {
    seq(|buf| / 2, k requires 0 <= k < |buf| / 2 => buf[2 * k + 1])
  }

  /** The three nodes the initial buffer marks infected: the start node and
      the nodes one and four places after it (no wrap-around). */
  predicate IsSeed(k: int, startNode: int)
  {
    k == startNode || k == startNode + 1 || k == startNode + 4
  }

  /** `buf` is the initial state for `n` nodes: seeds are (0, 1), every
      other node is (1, 0). */
  predicate Seeded(buf: seq<real>, n: nat, startNode: int)
  {
    |buf| == 2 * n &&
    forall k :: 0 <= k < n ==>
      Susceptible(buf)[k] == (if IsSeed(k, startNode) then 0.0 else 1.0) &&
      Infected(buf)[k] == (if IsSeed(k, startNode) then 1.0 else 0.0)
  }

  /** Fills the initial results buffer: every node susceptible, then the
      three seed nodes switched to infected. */
  method SeedResults(n: nat, startNode: int) returns (buf: seq<real>)
    requires 0 <= startNode && startNode + 4 < n
    ensures Seeded(buf, n, startNode)
  {
    buf := seq(2 * n, _ => 0.0);
    for i := 0 to n
      invariant |buf| == 2 * n
      invariant forall t :: 0 <= t < 2 * i ==> buf[t] == if t % 2 == 0 then 1.0 else 0.0
    {
      buf := buf[2 * i := 1.0];
      buf := buf[2 * i + 1 := 0.0];
    }
    buf := buf[startNode * 2 := 0.0];
    buf := buf[startNode * 2 + 1 := 1.0];
    buf := buf[(startNode + 1) * 2 := 0.0];
    buf := buf[(startNode + 1) * 2 + 1 := 1.0];
    buf := buf[(startNode + 4) * 2 := 0.0];
    buf := buf[(startNode + 4) * 2 + 1 := 1.0];
  }

  /** Number of seeds below `k`. */
  function SeedsBelow(k: int, startNode: int): nat
  {
    (if startNode < k then 1 else 0) + (if startNode + 1 < k then 1 else 0) + (if startNode + 4 < k then 1 else 0)
  }

  lemma {:induction false} SeededPrefixCounts(buf: seq<real>, n: nat, startNode: int, k: nat)
    requires 0 <= startNode && Seeded(buf, n, startNode) && k <= n
    ensures Occurrences(Infected(buf)[..k], 1.0) == SeedsBelow(k, startNode)
    ensures Occurrences(Susceptible(buf)[..k], 1.0) == k - SeedsBelow(k, startNode)
  {
    if k > 0 {
      SeededPrefixCounts(buf, n, startNode, k - 1);
      OccurrencesSnoc(Infected(buf), k - 1, 1.0);
      OccurrencesSnoc(Susceptible(buf), k - 1, 1.0);
    }
  }

  /** The initial buffer has exactly three infected nodes and N - 3
      susceptible ones. */
  lemma SeededCounts(buf: seq<real>, n: nat, startNode: int)
    requires 0 <= startNode && startNode + 4 < n && Seeded(buf, n, startNode)
    ensures Occurrences(Infected(buf), 1.0) == 3
    ensures Occurrences(Susceptible(buf), 1.0) == n - 3
  {
    SeededPrefixCounts(buf, n, startNode, n);
    assert Infected(buf)[..n] == Infected(buf);
    assert Susceptible(buf)[..n] == Susceptible(buf);
  }

  /** An all-zero buffer (the initial "last results") shows no infected node. */
  lemma ZeroBufferCounts(buf: seq<real>)
    requires forall t :: 0 <= t < |buf| ==> buf[t] == 0.0
    ensures Occurrences(Infected(buf), 1.0) == 0
    ensures Occurrences(Susceptible(buf), 1.0) == 0
  {
    OccurrencesAbsent(Infected(buf), 1.0);
    OccurrencesAbsent(Susceptible(buf), 1.0);
  }

  /** Interleaves two channels back into one buffer: slot `2k` from the
      first, slot `2k + 1` from the second. */
  function Interleave(susceptible: seq<real>, infected: seq<real>): (buf: seq<real>)
    requires |susceptible| == |infected|
    ensures |buf| == 2 * |susceptible|
  {
    seq(2 * |susceptible|, t requires 0 <= t < 2 * |susceptible| =>
      if t % 2 == 0 then susceptible[t / 2] else infected[t / 2])
  }

  /** Splitting an even-length buffer into its two channels loses nothing:
      interleaving them gives the buffer back, and splitting an interleaving
      gives the channels back. */
  lemma SplitInterleave(buf: seq<real>, susceptible: seq<real>, infected: seq<real>)
    requires |buf| % 2 == 0 && |susceptible| == |infected|
    ensures Interleave(Susceptible(buf), Infected(buf)) == buf
    ensures Susceptible(Interleave(susceptible, infected)) == susceptible
    ensures Infected(Interleave(susceptible, infected)) == infected
  {
    var back := Interleave(Susceptible(buf), Infected(buf));
    forall t | 0 <= t < |buf|
      ensures back[t] == buf[t]
    {
      if t % 2 == 0 {
        assert 2 * (t / 2) == t;
      } else {
        assert 2 * (t / 2) + 1 == t;
      }
    }
  }
}
