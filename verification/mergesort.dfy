/**
 The recursive merge sort `q_sort` runs on the ring once it is cut open into
 a NULL-terminated chain, with elements ordered by `strcmp` of their strings.
 */
module MergeSort {
  import opened CStrings
  import opened ListHead

  /** Every element's string is `strcmp`-at-most every later element's. */
  predicate Sorted(s: Queue) {
    forall i, j :: 0 <= i < j < |s| ==> Strcmp(s[i].value, s[j].value) <= 0
  }

  /** The elements holding string `v`, in order. */
  function WithValue(s: Queue, v: CString): (r: Queue)
    ensures |r| <= |s|
  {
    if |s| == 0 then []
    else (if s[0].value == v then [s[0]] else []) + WithValue(s[1..], v)
  }

  /** Elements with equal strings keep their relative order from `before` to `after`. */
  ghost predicate Stable(before: Queue, after: Queue) {
    forall v: CString :: WithValue(after, v) == WithValue(before, v)
  }

  /** Selecting by string distributes over concatenation. */
  lemma {:induction false} WithValueAppend(a: Queue, b: Queue, v: CString)
    ensures WithValue(a + b, v) == WithValue(a, v) + WithValue(b, v)
    decreases |a|
  {
    if |a| > 0 {
      assert (a + b)[1..] == a[1..] + b;
      WithValueAppend(a[1..], b, v);
    } else {
      assert a + b == b;
    }
  }

  /** A sorted queue whose first string is above `v` holds no element with string `v`. */
  lemma {:induction false} WithValueAboveHead(s: Queue, v: CString)
    requires Sorted(s) && |s| > 0 && Strcmp(v, s[0].value) < 0
    ensures WithValue(s, v) == []
    decreases |s|
  {
    if |s| > 1 {
      StrcmpStrictTransitive(v, s[0].value, s[1].value);
      WithValueAboveHead(s[1..], v);
    }
  }

  /**
   The merge loop of `mergesort`: while both chains are non-empty, take the
   head of the right chain only when the left head is strictly greater, so
   ties come from the left chain; then append whichever chain remains.
   */
  function Merge(a: Queue, b: Queue): (r: Queue)
    ensures multiset(r) == multiset(a) + multiset(b)
    ensures |r| == |a| + |b|
    decreases |a| + |b|
  {
    if |a| == 0 then b
    else if |b| == 0 then a
    else if Strcmp(a[0].value, b[0].value) > 0 then
      assert b == [b[0]] + b[1..];
      [b[0]] + Merge(a, b[1..])
    else
      assert a == [a[0]] + a[1..];
      [a[0]] + Merge(a[1..], b)
  }

  /** Dropping the head of a sorted queue leaves it sorted. */
  lemma {:induction false} SortedTail(s: Queue)
    requires Sorted(s) && |s| > 0
    ensures Sorted(s[1..])
  {
    forall i, j | 0 <= i < j < |s| - 1
      ensures Strcmp(s[1..][i].value, s[1..][j].value) <= 0
    {
      assert s[1..][i] == s[i + 1] && s[1..][j] == s[j + 1];
    }
  }

  /** Every element of a sorted queue is at least its head. */
  lemma {:induction false} HeadIsLeast(s: Queue, e: Element)
    requires Sorted(s) && e in s
    ensures Strcmp(s[0].value, e.value) <= 0
  {
    var i :| 0 <= i < |s| && s[i] == e;
    if i == 0 {
      assert Strcmp(s[0].value, s[0].value) == 0;
    }
  }

  /** Merging two sorted chains gives a sorted chain. */
  lemma {:induction false} MergeSorted(a: Queue, b: Queue)
    requires Sorted(a) && Sorted(b)
    ensures Sorted(Merge(a, b))
    decreases |a| + |b|
  {
    if |a| > 0 && |b| > 0 {
      var r := Merge(a, b);
      if Strcmp(a[0].value, b[0].value) > 0 {
        MergeSorted(a, b[1..]);
        var rest := Merge(a, b[1..]);
        assert r == [b[0]] + rest;
        forall e | e in rest
          ensures Strcmp(b[0].value, e.value) <= 0
        {
          assert e in multiset(rest);
          if e in a {
            HeadIsLeast(a, e);
            StrcmpAntisymmetric(a[0].value, b[0].value);
            StrcmpTransitive(b[0].value, a[0].value, e.value);
          } else {
            assert e in b[1..];
            HeadIsLeast(b, e);
          }
        }
        SortedCons(b[0], rest);
      } else {
        MergeSorted(a[1..], b);
        var rest := Merge(a[1..], b);
        assert r == [a[0]] + rest;
        forall e | e in rest
          ensures Strcmp(a[0].value, e.value) <= 0
        {
          assert e in multiset(rest);
          if e in b {
            HeadIsLeast(b, e);
            StrcmpTransitive(a[0].value, b[0].value, e.value);
          } else {
            assert e in a[1..];
            HeadIsLeast(a, e);
          }
        }
        SortedCons(a[0], rest);
      }
    }
  }

  /** Prepending an element that is at most every element keeps a queue sorted. */
  lemma {:induction false} SortedCons(x: Element, s: Queue)
    requires Sorted(s)
    requires forall e :: e in s ==> Strcmp(x.value, e.value) <= 0
    ensures Sorted([x] + s)
  {
    var r := [x] + s;
    forall i, j | 0 <= i < j < |r|
      ensures Strcmp(r[i].value, r[j].value) <= 0
    {
      if i == 0 {
        assert r[j] == s[j - 1];
      } else {
        assert r[i] == s[i - 1] && r[j] == s[j - 1];
      }
    }
  }

  /** Selecting by string from a non-empty queue: its head, then the rest. */
  lemma {:induction false} WithValueHead(s: Queue, v: CString)
    requires |s| > 0
    ensures WithValue(s, v) == (if s[0].value == v then [s[0]] else []) + WithValue(s[1..], v)
  {
  }

  /** The merge takes the right head when the left head is strictly greater. */
  lemma {:induction false} MergeTakesRight(a: Queue, b: Queue)
    requires |a| > 0 && |b| > 0 && Strcmp(a[0].value, b[0].value) > 0
    ensures |Merge(a, b)| > 0 && Merge(a, b)[0] == b[0] && Merge(a, b)[1..] == Merge(a, b[1..])
  {
  }

  /** Otherwise the merge takes the left head. */
  lemma {:induction false} MergeTakesLeft(a: Queue, b: Queue)
    requires |a| > 0 && |b| > 0 && Strcmp(a[0].value, b[0].value) <= 0
    ensures |Merge(a, b)| > 0 && Merge(a, b)[0] == a[0] && Merge(a, b)[1..] == Merge(a[1..], b)
  {
  }

  /** Two queues with the same head select the same prefix before what their tails select. */
  lemma {:induction false} WithValueSameHead(r: Queue, x: Queue, t: Queue, v: CString)
    requires |r| > 0 && |x| > 0 && r[0] == x[0]
    requires WithValue(r[1..], v) == WithValue(x[1..], v) + t
    ensures WithValue(r, v) == WithValue(x, v) + t
  {
    WithValueHead(r, v);
    WithValueHead(x, v);
  }

  /**
   Two queues with the same head, whose tails select `p` apart: the whole
   queues select `p` apart too, provided `p` is empty whenever the head is selected.
   */
  lemma {:induction false} WithValueAfterHead(r: Queue, x: Queue, p: Queue, v: CString)
    requires |r| > 0 && |x| > 0 && r[0] == x[0]
    requires r[0].value == v ==> p == []
    requires WithValue(r[1..], v) == p + WithValue(x[1..], v)
    ensures WithValue(r, v) == p + WithValue(x, v)
  {
    WithValueHead(r, v);
    WithValueHead(x, v);
    if r[0].value == v {
      assert p + WithValue(x[1..], v) == WithValue(x[1..], v);
    }
  }

  /** The merge step that takes the right head, given stability of the rest of the merge. */
  lemma {:induction false} MergeStableTakeRight(a: Queue, b: Queue, v: CString)
    requires Sorted(a) && |a| > 0 && |b| > 0 && Strcmp(a[0].value, b[0].value) > 0
    requires WithValue(Merge(a, b[1..]), v) == WithValue(a, v) + WithValue(b[1..], v)
    ensures WithValue(Merge(a, b), v) == WithValue(a, v) + WithValue(b, v)
  {
    MergeTakesRight(a, b);
    if b[0].value == v {
      StrcmpAntisymmetric(a[0].value, b[0].value);
      WithValueAboveHead(a, v);
    }
    WithValueAfterHead(Merge(a, b), b, WithValue(a, v), v);
  }

  /** The merge step that takes the left head, given stability of the rest of the merge. */
  lemma {:induction false} MergeStableTakeLeft(a: Queue, b: Queue, v: CString)
    requires |a| > 0 && |b| > 0 && Strcmp(a[0].value, b[0].value) <= 0
    requires WithValue(Merge(a[1..], b), v) == WithValue(a[1..], v) + WithValue(b, v)
    ensures WithValue(Merge(a, b), v) == WithValue(a, v) + WithValue(b, v)
  {
    MergeTakesLeft(a, b);
    WithValueSameHead(Merge(a, b), a, WithValue(b, v), v);
  }

  /**
   Merging keeps, for every string, the elements of the left chain before
   those of the right chain: the merge is stable.
   */
  lemma {:induction false} MergeStable(a: Queue, b: Queue, v: CString)
    requires Sorted(a) && Sorted(b)
    ensures WithValue(Merge(a, b), v) == WithValue(a, v) + WithValue(b, v)
    decreases |a| + |b|
  {
    if |a| == 0 {
      assert WithValue(a, v) == [];
    } else if |b| == 0 {
      assert WithValue(b, v) == [];
    } else if Strcmp(a[0].value, b[0].value) > 0 {
      SortedTail(b);
      MergeStable(a, b[1..], v);
      MergeStableTakeRight(a, b, v);
    } else {
      SortedTail(a);
      MergeStable(a[1..], b, v);
      MergeStableTakeLeft(a, b, v);
    }
  }

  /**
   The fast/slow walk of `mergesort` over a NULL-terminated chain of `n`
   nodes: `fast` moves two links and `slow` one while both `fast->next` and
   `fast->next->next` exist. `slow` stops at index (n - 1) / 2.
   */
  function ChainMiddle(n: nat, fast: nat, slow: nat): (mid: nat)
    requires fast == 2 * slow && fast < n
    ensures mid == (n - 1) / 2
    decreases n - fast
  {
    if fast + 1 < n && fast + 2 < n then ChainMiddle(n, fast + 2, slow + 1) else slow
  }

  /**
   `mergesort`: a chain of at most one node is returned as is; otherwise the
   chain is cut after the middle node, so the left part holds the first
   ceil(n / 2) nodes, both parts are sorted and then merged.
   */
  function Sort(s: Queue): (r: Queue)
    ensures multiset(r) == multiset(s)
    decreases |s|
  {
    if |s| <= 1 then s
    else
      var cut := ChainMiddle(|s|, 0, 0) + 1;
      assert s == s[..cut] + s[cut..];
      Merge(Sort(s[..cut]), Sort(s[cut..]))
  }

  /** The first half handed to the left recursive call holds ceil(n / 2) elements. */
  lemma {:induction false} SplitSizes(s: Queue)
    requires |s| >= 2
    ensures ChainMiddle(|s|, 0, 0) + 1 == (|s| + 1) / 2
  {
  }

  /** `mergesort` returns its chain ordered by `strcmp`. */
  lemma {:induction false} SortSorted(s: Queue)
    ensures Sorted(Sort(s))
    decreases |s|
  {
    if |s| > 1 {
      var cut := ChainMiddle(|s|, 0, 0) + 1;
      var left, right := s[..cut], s[cut..];
      assert Sort(s) == Merge(Sort(left), Sort(right));
      SortSorted(left);
      SortSorted(right);
      MergeSorted(Sort(left), Sort(right));
    }
  }

  /** Merging the sorted, stable images of two halves gives a stable image of the whole. */
  lemma {:induction false} MergeStableHalves(left: Queue, right: Queue, sl: Queue, sr: Queue)
    requires Sorted(sl) && Sorted(sr) && Stable(left, sl) && Stable(right, sr)
    ensures Stable(left + right, Merge(sl, sr))
  {
    forall v: CString
      ensures WithValue(Merge(sl, sr), v) == WithValue(left + right, v)
    {
      MergeStable(sl, sr, v);
      assert WithValue(sl, v) == WithValue(left, v);
      assert WithValue(sr, v) == WithValue(right, v);
      WithValueAppend(left, right, v);
    }
  }

  /** `mergesort` keeps elements with equal strings in their input order. */
  lemma {:induction false} SortStable(s: Queue)
    ensures Stable(s, Sort(s))
    decreases |s|
  {
    if |s| > 1 {
      var cut := ChainMiddle(|s|, 0, 0) + 1;
      var left, right := s[..cut], s[cut..];
      assert s == left + right;
      assert Sort(s) == Merge(Sort(left), Sort(right));
      SortStable(left);
      SortStable(right);
      SortSorted(left);
      SortSorted(right);
      MergeStableHalves(left, right, Sort(left), Sort(right));
    }
  }
}
