/** Counting over sequences: how many entries equal a value, and the sum of
    an integer sequence. Both are defined from the end of the sequence, which
    is the order in which the renderer's loops visit entries. */
module Counting {

  /** Number of entries of `s` that equal `x`. */
  function Occurrences<T(==)>(s: seq<T>, x: T): (c: nat)
    ensures c <= |s|
  {
    if |s| == 0 then 0
    else Occurrences(s[..|s| - 1], x) + (if s[|s| - 1] == x then 1 else 0)
  }

  /** Extending a sequence by one entry adds one to the count exactly when
      that entry is the counted value. */
  lemma OccurrencesSnoc<T>(s: seq<T>, k: nat, x: T)
    requires k < |s|
    ensures Occurrences(s[..k + 1], x) == Occurrences(s[..k], x) + (if s[k] == x then 1 else 0)
  {
    assert s[..k + 1][..k] == s[..k];
  }

  /** Overwriting one entry changes the count only by what was removed and
      what was written. */
  lemma {:induction false} OccurrencesUpdate<T>(s: seq<T>, k: nat, v: T, x: T)
    requires k < |s|
    ensures Occurrences(s[k := v], x)
         == Occurrences(s, x) - (if s[k] == x then 1 else 0) + (if v == x then 1 else 0)
  {
    var last := |s| - 1;
    if k == last {
      assert s[k := v][..last] == s[..last];
    } else {
      assert s[k := v][..last] == s[..last][k := v];
      OccurrencesUpdate(s[..last], k, v, x);
    }
  }

  /** A sequence none of whose entries is `x` contains it zero times. */
  lemma {:induction false} OccurrencesAbsent<T>(s: seq<T>, x: T)
    requires forall k :: 0 <= k < |s| ==> s[k] != x
    ensures Occurrences(s, x) == 0
  {
    if |s| > 0 {
      OccurrencesAbsent(s[..|s| - 1], x);
    }
  }

  /** Sum of the entries of `s`. */
  function Sum(s: seq<int>): int
  {
    if |s| == 0 then 0 else Sum(s[..|s| - 1]) + s[|s| - 1]
  }

  /** Overwriting one entry changes the sum by the difference. */
  lemma {:induction false} SumUpdate(s: seq<int>, k: nat, v: int)
    requires k < |s|
    ensures Sum(s[k := v]) == Sum(s) - s[k] + v
  {
    var last := |s| - 1;
    if k == last {
      assert s[k := v][..last] == s[..last];
    } else {
      assert s[k := v][..last] == s[..last][k := v];
      SumUpdate(s[..last], k, v);
    }
  }

  /** The sum of non-negative entries grows with the prefix taken. */
  lemma {:induction false} SumPrefixMonotone(s: seq<int>, j: nat, k: nat)
    requires j <= k <= |s|
    requires forall x :: 0 <= x < |s| ==> s[x] >= 0
    ensures Sum(s[..j]) <= Sum(s[..k])
  {
    if j < k {
      SumPrefixMonotone(s, j, k - 1);
      assert s[..k][..k - 1] == s[..k - 1];
    }
  }

  /** A sequence of zeros sums to zero. */
  lemma {:induction false} SumZeros(s: seq<int>)
    requires forall k :: 0 <= k < |s| ==> s[k] == 0
    ensures Sum(s) == 0
  {
    if |s| > 0 {
      SumZeros(s[..|s| - 1]);
    }
  }

  /** Extending a prefix by one entry adds that entry to the sum. */
  lemma SumSnoc(s: seq<int>, k: nat)
    requires k < |s|
    ensures Sum(s[..k + 1]) == Sum(s[..k]) + s[k]
  {
    assert s[..k + 1][..k] == s[..k];
  }

  /** Entries that are all zero from index `k` on add nothing to the sum. */
  lemma {:induction false} SumZeroTail(s: seq<int>, k: nat)
    requires k <= |s|
    requires forall x :: k <= x < |s| ==> s[x] == 0
    ensures Sum(s) == Sum(s[..k])
  {
    if k < |s| {
      SumZeroTail(s[..|s| - 1], k);
      assert s[..|s| - 1][..k] == s[..k];
    } else {
      assert s[..k] == s;
    }
  }

  /** Entries none of which is `x` from index `k` on add nothing to the count. */
  lemma {:induction false} OccurrencesAbsentTail<T>(s: seq<T>, k: nat, x: T)
    requires k <= |s|
    requires forall y :: k <= y < |s| ==> s[y] != x
    ensures Occurrences(s, x) == Occurrences(s[..k], x)
  {
    if k < |s| {
      OccurrencesAbsentTail(s[..|s| - 1], k, x);
      assert s[..|s| - 1][..k] == s[..k];
    } else {
      assert s[..k] == s;
    }
  }

  /** A prefix holds no more copies of `x` than the whole sequence. */
  lemma {:induction false} OccurrencesPrefix<T>(s: seq<T>, k: nat, x: T)
    requires k <= |s|
    ensures Occurrences(s[..k], x) <= Occurrences(s, x)
  {
    if k < |s| {
      OccurrencesPrefix(s[..|s| - 1], k, x);
      assert s[..|s| - 1][..k] == s[..k];
    } else {
      assert s[..k] == s;
    }
  }
}
