/**
 * Orderings and reversal of index sequences, shared by the harness checks,
 * the index-reversing wrapper and the fixture builders.
 */
module Seqs {

  /** Adjacent entries strictly increase: the test that `test_access_base`
      runs on every ordered sparse extraction. */
  predicate StrictlyIncreasing(s: seq<int>) {
    forall i :: 0 < i < |s| ==> s[i - 1] < s[i]
  }

  predicate StrictlyDecreasing(s: seq<int>) {
    forall i :: 0 < i < |s| ==> s[i - 1] > s[i]
  }

  predicate NonDecreasing(s: seq<int>) {
    forall i :: 0 < i < |s| ==> s[i - 1] <= s[i]
  }

  /** No value occurs twice. */
  predicate Distinct<T(==)>(s: seq<T>) {
    forall i, j :: 0 <= i < j < |s| ==> s[i] != s[j]
  }

  function Reversed<T>(s: seq<T>): (r: seq<T>)
    ensures |r| == |s|
  {
    if s == [] then [] else Reversed(s[1..]) + [s[0]]
  }

  lemma {:induction false} ReversedAt<T>(s: seq<T>, k: nat)
    requires k < |s|
    ensures Reversed(s)[k] == s[|s| - 1 - k]
  {
    if k < |s| - 1 {
      ReversedAt(s[1..], k);
    }
  }

  /** Reversal is its own inverse. */
  lemma ReversedInvolution<T>(s: seq<T>)
    ensures Reversed(Reversed(s)) == s
  {
    forall k | 0 <= k < |s|
      ensures Reversed(Reversed(s))[k] == s[k]
    {
      ReversedAt(Reversed(s), k);
      ReversedAt(s, |s| - 1 - k);
    }
  }

  /** Reversal keeps every element with its multiplicity. */
  lemma {:induction false} ReversedMultiset<T>(s: seq<T>)
    ensures multiset(Reversed(s)) == multiset(s)
  {
    if s != [] {
      ReversedMultiset(s[1..]);
      assert s == [s[0]] + s[1..];
    }
  }

  /** The adjacent test is enough for order between any two positions. */
  lemma {:induction false} IncreasingPairwise(s: seq<int>, i: nat, j: nat)
    requires StrictlyIncreasing(s)
    requires i < j < |s|
    ensures s[i] < s[j]
  {
    if i < j - 1 {
      IncreasingPairwise(s, i, j - 1);
    }
  }

  lemma IncreasingIsDistinct(s: seq<int>)
    requires StrictlyIncreasing(s)
    ensures Distinct(s)
  {
    forall i, j | 0 <= i < j < |s|
      ensures s[i] != s[j]
    {
      IncreasingPairwise(s, i, j);
    }
  }

  /** Reversing a strictly increasing sequence gives a strictly decreasing one. */
  lemma ReversedIncreasingIsDecreasing(s: seq<int>)
    requires StrictlyIncreasing(s)
    ensures StrictlyDecreasing(Reversed(s))
  {
    var r := Reversed(s);
    forall i | 0 < i < |r|
      ensures r[i - 1] > r[i]
    {
      ReversedAt(s, i - 1);
      ReversedAt(s, i);
    }
  }

  /** A duplicate-free sequence holds each value at most once. */
  lemma {:induction false} DistinctCounts<T>(s: seq<T>, x: T)
    requires Distinct(s)
    ensures multiset(s)[x] <= 1
  {
    if s != [] {
      var rest := s[1..];
      assert s == [s[0]] + rest;
      assert Distinct(rest) by {
        forall i, j | 0 <= i < j < |rest|
          ensures rest[i] != rest[j]
        {
          assert rest[i] == s[i + 1] && rest[j] == s[j + 1];
        }
      }
      DistinctCounts(rest, x);
      if x == s[0] {
        assert x !in rest by {
          forall j | 0 <= j < |rest|
            ensures rest[j] != s[0]
          {
            assert rest[j] == s[j + 1];
          }
        }
      }
    }
  }

  /** Two equal neighbours make their value occur at least twice. */
  lemma AdjacentRepeatCounts<T>(s: seq<T>, i: nat)
    requires 0 < i < |s| && s[i - 1] == s[i]
    ensures multiset(s)[s[i]] >= 2
  {
    assert s == s[..i - 1] + [s[i - 1], s[i]] + s[i + 1..];
  }
}
