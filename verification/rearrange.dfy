/**
 Reference definitions of what the rewiring operations compute, stated on
 sequences independently of the primitive steps: reversal, pairwise swap,
 and the survivors of duplicate deletion.
 */
module Rearrange {
  import opened CStrings
  import opened ListHead

  /** The elements in the opposite order. */
  function Rev<T>(s: seq<T>): (r: seq<T>)
    ensures |r| == |s|
    ensures forall i :: 0 <= i < |s| ==> r[i] == s[|s| - 1 - i]
  {
    if |s| == 0 then [] else Rev(s[1..]) + [s[0]]
  }

  /** Reversing a sequence keeps exactly its elements. */
  lemma {:induction false} RevPermutes<T>(s: seq<T>)
    ensures multiset(Rev(s)) == multiset(s)
  {
    if |s| > 0 {
      RevPermutes(s[1..]);
      assert s == [s[0]] + s[1..];
    }
  }

  /** Reversal is an involution. */
  lemma {:induction false} RevInvolution<T>(s: seq<T>)
    ensures Rev(Rev(s)) == s
  {
  }

  /** Reversal moves the last element to the front. */
  lemma {:induction false} RevLastFirst<T>(s: seq<T>)
    requires |s| >= 1
    ensures Rev(s) == [s[|s| - 1]] + Rev(s[..|s| - 1])
  {
    var n := |s|;
    var a, b := Rev(s), [s[n - 1]] + Rev(s[..n - 1]);
    forall i | 0 <= i < n
      ensures a[i] == b[i]
    {
      if i > 0 {
        assert b[i] == Rev(s[..n - 1])[i - 1];
      }
    }
  }

  /** Elements 2k and 2k+1 exchanged for every full pair; a trailing odd element stays. */
  function SwapPairs(s: Queue): (r: Queue)
    ensures |r| == |s|
    ensures forall k :: 0 <= k < |s| / 2 ==> r[2 * k] == s[2 * k + 1] && r[2 * k + 1] == s[2 * k]
    ensures |s| % 2 == 1 ==> r[|s| - 1] == s[|s| - 1]
  {
    if |s| < 2 then s
    else
      var rest := SwapPairs(s[2..]);
      var r := [s[1], s[0]] + rest;
      assert forall k :: 0 <= k < |s| / 2 ==> r[2 * k] == s[2 * k + 1] && r[2 * k + 1] == s[2 * k] by {
        forall k | 1 <= k < |s| / 2
          ensures r[2 * k] == s[2 * k + 1] && r[2 * k + 1] == s[2 * k]
        {
          var j := k - 1;
          assert 0 <= j < |s[2..]| / 2;
          assert rest[2 * j] == s[2..][2 * j + 1];
          assert rest[2 * j + 1] == s[2..][2 * j];
        }
      }
      r
  }

  /** Swapping pairs keeps exactly the queue's elements. */
  lemma {:induction false} SwapPairsPermutes(s: Queue)
    ensures multiset(SwapPairs(s)) == multiset(s)
    decreases |s|
  {
    if |s| >= 2 {
      SwapPairsPermutes(s[2..]);
      assert s == [s[0], s[1]] + s[2..];
    }
  }

  /** Swapping pairs twice restores the queue. */
  lemma {:induction false} SwapPairsInvolution(s: Queue)
    ensures SwapPairs(SwapPairs(s)) == s
  {
    var t := SwapPairs(s);
    var r := SwapPairs(t);
    forall i | 0 <= i < |s|
      ensures r[i] == s[i]
    {
      var k := i / 2;
      assert i == 2 * k || i == 2 * k + 1;
      if k < |s| / 2 {
        assert r[2 * k] == t[2 * k + 1] == s[2 * k];
        assert r[2 * k + 1] == t[2 * k] == s[2 * k + 1];
      } else {
        assert i == |s| - 1 && |s| % 2 == 1;
      }
    }
  }

  /** Pair-swapping an even-length prefix and the rest separately gives the same result. */
  lemma {:induction false} SwapPairsAppend(a: Queue, b: Queue)
    requires |a| % 2 == 0
    ensures SwapPairs(a + b) == SwapPairs(a) + SwapPairs(b)
    decreases |a|
  {
    if |a| >= 2 {
      assert (a + b)[2..] == a[2..] + b;
      SwapPairsAppend(a[2..], b);
    } else {
      assert a + b == b;
    }
  }

  /** The element at `i` has the same string as its successor. */
  predicate EqualsNext(s: Queue, i: int)
    requires 0 <= i < |s|
  {
    i + 1 < |s| && s[i].value == s[i + 1].value
  }

  /** The element at `i` has the same string as its predecessor. */
  predicate EqualsPrev(s: Queue, i: int)
    requires 0 <= i < |s|
  {
    0 < i && s[i - 1].value == s[i].value
  }

  /** The element at `i` belongs to no run of two or more equal strings. */
  predicate Isolated(s: Queue, i: int)
    requires 0 <= i < |s|
  {
    !EqualsNext(s, i) && !EqualsPrev(s, i)
  }

  /** The isolated elements among the first `m`, in order. */
  function KeptPrefix(s: Queue, m: nat): (r: Queue)
    requires m <= |s|
    ensures |r| <= m
  {
    if m == 0 then []
    else
      KeptPrefix(s, m - 1) + (if Isolated(s, m - 1) then [s[m - 1]] else [])
  }

  /** The survivors among the first `m` elements are drawn from those elements. */
  lemma {:induction false} KeptPrefixDrawn(s: Queue, m: nat)
    requires m <= |s|
    ensures multiset(KeptPrefix(s, m)) <= multiset(s[..m])
    decreases m
  {
    if m > 0 {
      KeptPrefixDrawn(s, m - 1);
      assert s[..m] == s[..m - 1] + [s[m - 1]];
    }
  }

  /** The in-order subsequence of elements whose string equals neither neighbour's. */
  function DistinctOnly(s: Queue): Queue {
    KeptPrefix(s, |s|)
  }

  /**
   Duplicate deletion only unlinks nodes: the survivors are drawn from the
   queue, and a ring of distinct nodes stays one.
   */
  lemma {:induction false} DistinctOnlyDrawn(s: Queue)
    ensures multiset(DistinctOnly(s)) <= multiset(s)
    ensures DistinctIds(s) ==> DistinctIds(DistinctOnly(s)) && Ids(DistinctOnly(s)) <= Ids(s)
  {
    KeptPrefixDrawn(s, |s|);
    assert s[..|s|] == s;
    if DistinctIds(s) {
      SubMultisetKeepsDistinctIds(s, DistinctOnly(s));
    }
  }

  /**
   An element at index `i` survives exactly when it is isolated: the
   survivors are the isolated elements and nothing else.
   */
  lemma {:induction false} KeptPrefixMembers(s: Queue, m: nat, e: Element)
    requires m <= |s| && DistinctIds(s)
    ensures e in KeptPrefix(s, m) <==> exists i :: 0 <= i < m && s[i] == e && Isolated(s, i)
    decreases m
  {
    if m > 0 {
      KeptPrefixMembers(s, m - 1, e);
      if e == s[m - 1] {
        assert forall i :: 0 <= i < m - 1 ==> s[i] != e;
      }
    }
  }

  /** Survivors of the whole queue are exactly its isolated elements. */
  lemma {:induction false} DistinctOnlyMembers(s: Queue, e: Element)
    requires DistinctIds(s)
    ensures e in DistinctOnly(s) <==> exists i :: 0 <= i < |s| && s[i] == e && Isolated(s, i)
  {
    KeptPrefixMembers(s, |s|, e);
  }
}
