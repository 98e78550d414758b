/**
 The operations of `queue.c` on the sequence view of the ring. Each takes
 the queue (or NULL, as `None`) and returns the queue it leaves behind;
 allocation outcomes and the identity of a freshly allocated node are inputs.
 */
module QueueOps {
  import opened CStrings
  import opened ListHead
  import opened Rearrange
  import MergeSort
  import Ring

  /** `q_new`: an empty ring, or NULL when the sentinel cannot be allocated. */
  function New(allocOk: bool): (r: Option<Queue>)
    ensures r.Some? <==> allocOk
    ensures r.Some? ==> |r.value| == 0
  {
    if allocOk then Some([]) else None
  }

  /** The outcome of an insertion: the returned flag and the queue afterwards. */
  datatype Inserted = Inserted(ok: bool, queue: Option<Queue>)

  /** `addr` is the address of a node not already in the ring. */
  predicate FreshFor(addr: nat, q: Option<Queue>) {
    q.Some? ==> addr !in Ids(q.value)
  }

  /**
   `q_insert_head`: fails on a NULL queue or when either the element or the
   copy of `s` cannot be allocated, leaving the queue as it was; otherwise
   links a new element holding a copy of `s` right after the sentinel.
   */
  function InsertHead(q: Option<Queue>, s: CString, addr: nat, nodeAlloc: bool, strAlloc: bool): (r: Inserted)
    requires FreshFor(addr, q)
    ensures r.ok <==> q.Some? && nodeAlloc && strAlloc
    ensures !r.ok ==> r.queue == q
    ensures r.ok ==> r.queue.Some? && |r.queue.value| == |q.value| + 1
    ensures r.ok ==> r.queue.value[0] == Element(addr, s) && r.queue.value[1..] == q.value
    ensures r.ok && DistinctIds(q.value) ==> DistinctIds(r.queue.value)
  {
    if q.None? then Inserted(false, q)
    else if !nodeAlloc then Inserted(false, q)
    else if !strAlloc then Inserted(false, q)
    else
      var e := Element(addr, s);
      assert e !in q.value;
      Inserted(true, Some(ListAdd(e, q.value)))
  }

  /**
   `q_insert_tail`: the same failure cases as `q_insert_head`; on success the
   new element is linked right before the sentinel, becoming the last.
   */
  function InsertTail(q: Option<Queue>, s: CString, addr: nat, nodeAlloc: bool, strAlloc: bool): (r: Inserted)
    requires FreshFor(addr, q)
    ensures r.ok <==> q.Some? && nodeAlloc && strAlloc
    ensures !r.ok ==> r.queue == q
    ensures r.ok ==> r.queue.Some? && |r.queue.value| == |q.value| + 1
    ensures r.ok ==> r.queue.value[|q.value|] == Element(addr, s) && r.queue.value[..|q.value|] == q.value
    ensures r.ok && DistinctIds(q.value) ==> DistinctIds(r.queue.value)
  {
    if q.None? then Inserted(false, q)
    else if !nodeAlloc then Inserted(false, q)
    else if !strAlloc then Inserted(false, q)
    else
      var e := Element(addr, s);
      assert e !in q.value;
      Inserted(true, Some(ListAddTail(e, q.value)))
  }

  /**
   The outcome of a removal: the unlinked element (NULL as `None`), the
   queue afterwards, and the caller's buffer `sp` (absent when `sp` is NULL).
   */
  datatype Removed = Removed(elem: Option<Element>, queue: Option<Queue>, buf: Option<seq<char>>)

  /**
   A buffer argument is NULL, or `bufsize` counts at least one and at most
   all of its characters.
   */
  predicate BufferOk(sp: Option<seq<char>>, bufsize: nat) {
    sp.Some? ==> 1 <= bufsize <= |sp.value|
  }

  /**
   `q_remove_head`: NULL on a NULL or empty queue, which is left untouched
   along with the buffer; otherwise unlinks the first element and returns it
   without freeing it, copying its string into a non-NULL `sp` truncated to
   `bufsize - 1` characters and terminated at index `bufsize - 1`; the rest
   of the buffer is untouched.
   */
  function RemoveHead(q: Option<Queue>, sp: Option<seq<char>>, bufsize: nat): (r: Removed)
    requires BufferOk(sp, bufsize)
    ensures q.None? || |q.value| == 0 <==> r.elem.None?
    ensures r.elem.None? ==> r.queue == q && r.buf == sp
    ensures r.elem.Some? ==> r.elem.value == q.value[0] && r.queue == Some(q.value[1..])
    ensures r.elem.Some? ==> (r.buf.Some? <==> sp.Some?)
    ensures r.elem.Some? && sp.Some? ==>
      |r.buf.value| == |sp.value| && r.buf.value[bufsize..] == sp.value[bufsize..] &&
      ReadCString(r.buf.value) == q.value[0].value[..Min(|q.value[0].value|, bufsize - 1)]
  {
    if q.None? || |q.value| == 0 then Removed(None, q, sp)
    else
      var e := q.value[0];
      var rest := ListDel(q.value, 0);
      assert rest == q.value[1..];
      var buf := if sp.Some? then Some(CopyOut(sp.value, e.value, bufsize)) else None;
      if sp.Some? then CopyOutReadsBack(sp.value, e.value, bufsize); Removed(Some(e), Some(rest), buf)
      else Removed(Some(e), Some(rest), buf)
  }

  /**
   `q_remove_tail`: as `q_remove_head`, but unlinks and returns the last
   element, leaving the others in order.
   */
  function RemoveTail(q: Option<Queue>, sp: Option<seq<char>>, bufsize: nat): (r: Removed)
    requires BufferOk(sp, bufsize)
    ensures q.None? || |q.value| == 0 <==> r.elem.None?
    ensures r.elem.None? ==> r.queue == q && r.buf == sp
    ensures r.elem.Some? ==> r.elem.value == q.value[|q.value| - 1] && r.queue == Some(q.value[..|q.value| - 1])
    ensures r.elem.Some? ==> (r.buf.Some? <==> sp.Some?)
    ensures r.elem.Some? && sp.Some? ==>
      |r.buf.value| == |sp.value| && r.buf.value[bufsize..] == sp.value[bufsize..] &&
      ReadCString(r.buf.value) == r.elem.value.value[..Min(|r.elem.value.value|, bufsize - 1)]
  {
    if q.None? || |q.value| == 0 then Removed(None, q, sp)
    else
      var last := |q.value| - 1;
      var e := q.value[last];
      var rest := ListDel(q.value, last);
      assert rest == q.value[..last];
      var buf := if sp.Some? then Some(CopyOut(sp.value, e.value, bufsize)) else None;
      if sp.Some? then CopyOutReadsBack(sp.value, e.value, bufsize); Removed(Some(e), Some(rest), buf)
      else Removed(Some(e), Some(rest), buf)
  }

  /**
   `q_size`: walks the ring from the sentinel's successor back to the
   sentinel counting nodes; a NULL queue has size 0.
   */
  method Size(q: Option<Queue>) returns (n: int)
    ensures q.None? ==> n == 0
    ensures q.Some? ==> n == |q.value|
  {
    if q.None? {
      return 0;
    }
    var len := |q.value|;
    n := 0;
    var node := 0;  // index of the cursor; `len` stands for the sentinel
    while node != len
      invariant 0 <= node <= len
      invariant n == node
      decreases len - node
    {
      n := n + 1;
      node := node + 1;
    }
  }

  /**
   `q_delete_mid`: `fast` starts with `slow` on the first element and moves
   two links per step while neither it nor its successor is the last
   element; the element under `slow`, at index (n - 1) / 2, is unlinked and
   freed. The code reads `head->next` unconditionally, so the queue must be
   non-NULL and non-empty.
   */
  method DeleteMid(q: Queue) returns (ok: bool, r: Queue)
    requires |q| >= 1
    ensures ok
    ensures |r| == |q| - 1
    ensures r == q[..(|q| - 1) / 2] + q[(|q| - 1) / 2 + 1..]
    ensures multiset(r) + multiset{q[(|q| - 1) / 2]} == multiset(q)
  {
    var last := |q| - 1;  // head->prev
    var fast, slow := 0, 0;
    while fast != last && fast + 1 != last
      invariant fast == 2 * slow
      invariant fast <= last
      decreases last - fast
    {
      fast, slow := fast + 2, slow + 1;
    }
    r := ListDel(q, slow);
    ListDelContents(q, slow);
    ok := true;
  }

  /**
   `q_delete_dup`: false only for a NULL queue. One forward pass frees each
   element equal to its successor, and each element that follows such a run;
   the survivors are the elements whose string equals neither neighbour.
   */
  method DeleteDup(q: Option<Queue>) returns (ok: bool, r: Option<Queue>)
    ensures ok <==> q.Some?
    ensures q.None? ==> r.None?
    ensures q.Some? ==> r == Some(DistinctOnly(q.value))
    ensures q.Some? ==> multiset(r.value) <= multiset(q.value)
    ensures q.Some? && DistinctIds(q.value) ==> DistinctIds(r.value)
  {
    if q.None? {
      return false, None;
    }
    var s := q.value;
    var cur := s;
    var k := 0;  // index of `pos` in the current ring
    var used := false;
    var i := 0;  // index of `pos` in the original ring
    assert s[0..] == s;
    while i < |s|
      invariant 0 <= i <= |s|
      invariant cur == KeptPrefix(s, i) + s[i..]
      invariant k == |KeptPrefix(s, i)|
      invariant used <==> 0 < i < |s| && EqualsPrev(s, i)
    {
      DeleteDupLook(s, i, cur, k);
      if k + 1 < |cur| && Strcmp(cur[k].value, cur[k + 1].value) == 0 {
        DeleteDupDrop(s, i, cur, k);
        cur := ListDel(cur, k);
        used := true;
      } else if used {
        DeleteDupDrop(s, i, cur, k);
        cur := ListDel(cur, k);
        used := false;
      } else {
        DeleteDupKeep(s, i, cur, k);
        k := k + 1;
      }
      i := i + 1;
    }
    assert s[|s|..] == [];
    assert cur == KeptPrefix(s, |s|);
    DistinctOnlyDrawn(s);
    return true, Some(cur);
  }

  /**
   The passes of `q_swap`: each moves the second and then the first node to
   the tail, so after `passes` of them the first `2 * passes` elements sit
   swapped pairwise behind the rest.
   */
  method SwapPasses(s: Queue, passes: nat) returns (cur: Queue)
    requires 2 * passes <= |s|
    ensures cur == Swapping(s, 2 * passes)
  {
    cur := s;
    assert s[..0] == [] && s[0..] == s;
    var i := passes;
    ghost var k := 0;  // passes done
    while i > 0
      invariant 0 <= i && k + i == passes
      invariant cur == Swapping(s, 2 * k)
    {
      SwapStep(s, 2 * k);
      cur := ListMoveTail(cur, 1);   // head->next->next
      cur := ListMoveTail(cur, 0);   // head->next
      i, k := i - 1, k + 1;
    }
  }

  /**
   `q_swap`: `q_size(head) >> 1` passes each move the second and then the
   first node to the tail; for an odd size the leftover first node is moved
   last. A NULL queue has size 0 and is left alone.
   */
  method Swap(q: Option<Queue>) returns (r: Option<Queue>)
    ensures q.None? <==> r.None?
    ensures q.Some? ==> r.value == SwapPairs(q.value)
  {
    var n := Size(q);
    var odd := n % 2 == 1;  // q_size(head) & 0x01
    var s := if q.Some? then q.value else [];
    var cur := SwapPasses(s, n / 2);  // q_size(head) >> 1
    if odd {
      assert 2 * (n / 2) == |s| - 1;
      SwapOddTail(s);
      cur := ListMoveTail(cur, 0);
    } else {
      assert 2 * (n / 2) == |s|;
      SwappingDone(s);
    }
    r := if q.Some? then Some(cur) else None;
  }

  /**
   `q_reverse`: nothing to do for a NULL queue or fewer than two elements;
   otherwise, with `pos` fixed on the original last node, each of the
   n - 1 steps moves the node before `pos` to the tail. Returns the number of
   moves; no node is allocated or freed.
   */
  method Reverse(q: Option<Queue>) returns (r: Option<Queue>, moves: nat)
    ensures q.None? <==> r.None?
    ensures q.Some? ==> r.value == Rev(q.value)
    ensures moves == if q.Some? && |q.value| >= 2 then |q.value| - 1 else 0
  {
    if q.None? || |q.value| < 2 {  // head->next->next == head
      return q, 0;
    }
    var s := q.value;
    var n := |s|;
    var cur := s;
    var pos := n - 1;  // index of the original tail node in `cur`
    var i := Size(q);
    moves := 0;
    while i > 1
      invariant 1 <= i <= n && pos == i - 1 && moves == n - i
      invariant cur == Reversing(s, pos)
    {
      ReverseStep(s, pos);
      cur := ListMoveTail(cur, pos - 1);  // pos->prev
      pos, i, moves := pos - 1, i - 1, moves + 1;
    }
    ReversingDone(s);
    r := Some(cur);
  }

  /** The ring's nodes: the sentinel and the node of every element. */
  function NodesOf(q: Queue): set<Ring.Node> {
    Ring.Nodes(IdSeq(q))
  }

  /**
   `q_sort`: a NULL queue is left alone. Otherwise the ring is cut before
   the sentinel, `mergesort` sorts the open chain, and the final pass
   rebuilds every `prev` link, whatever it held before, and closes the ring
   at the sentinel. The result is ordered by `strcmp`, holds the same
   elements, keeps equal strings in their input order, and its links form a
   ring (a self-linked sentinel when the queue is empty).
   */
  method Sort(q: Option<Queue>, stalePrev: map<Ring.Node, Ring.Node>) returns (r: Option<Queue>, links: Option<Ring.Links>)
    requires q.Some? ==> DistinctIds(q.value) && stalePrev.Keys == NodesOf(q.value)
    ensures q.None? <==> r.None?
    ensures q.None? <==> links.None?
    ensures r.Some? ==> MergeSort.Sorted(r.value)
    ensures r.Some? ==> multiset(r.value) == multiset(q.value)
    ensures r.Some? ==> MergeSort.Stable(q.value, r.value)
    ensures r.Some? ==> Ring.Encodes(links.value, IdSeq(r.value)) && Ring.Invariant(links.value)
  {
    if q.None? {
      return None, None;
    }
    var sorted := MergeSort.Sort(q.value);
    MergeSort.SortSorted(q.value);
    MergeSort.SortStable(q.value);
    PermutationKeepsDistinctIds(q.value, sorted);
    SameNodes(q.value, sorted);
    var ring := Ring.Reclose(IdSeq(sorted), stalePrev);
    Ring.EncodesInvariant(ring, IdSeq(sorted));
    return Some(sorted), Some(ring);
  }

  /** Rings with the same addresses have the same nodes, and distinct addresses stay distinct in order. */
  lemma {:induction false} SameNodes(q: Queue, r: Queue)
    requires Ids(r) == Ids(q) && DistinctIds(r)
    ensures NodesOf(r) == NodesOf(q)
    ensures Ring.Distinct(IdSeq(r))
  {
    forall s: Queue, id: nat
      ensures id in IdSeq(s) <==> id in Ids(s)
    {
      if id in IdSeq(s) {
        var i :| 0 <= i < |s| && IdSeq(s)[i] == id;
        assert s[i] in s;
      }
      if id in Ids(s) {
        var e :| e in s && e.id == id;
        var i :| 0 <= i < |s| && s[i] == e;
        assert IdSeq(s)[i] == id;
      }
    }
  }

  /**
   The queue part-way through `q_reverse`: the original tail node sits at
   index `pos`, the nodes before it are untouched, and the nodes from `pos`
   on have already been moved behind it in reverse order.
   */
  function Reversing(s: Queue, pos: nat): Queue
    requires pos < |s|
  {
    s[..pos] + [s[|s| - 1]] + Rev(s[pos..|s| - 1])
  }

  /** One pass of `q_reverse`: the node before the original tail moves to the back. */
  lemma {:induction false} ReverseStep(s: Queue, pos: nat)
    requires 1 <= pos < |s|
    ensures ListMoveTail(Reversing(s, pos), pos - 1) == Reversing(s, pos - 1)
  {
    var n := |s|;
    var c := Reversing(s, pos);
    assert c[pos - 1] == s[pos - 1];
    assert ListDel(c, pos - 1) == s[..pos - 1] + [s[n - 1]] + Rev(s[pos..n - 1]) by {
      assert c[..pos - 1] == s[..pos - 1];
      assert c[pos..] == [s[n - 1]] + Rev(s[pos..n - 1]);
    }
    assert s[pos - 1..n - 1][1..] == s[pos..n - 1];
  }

  /** Once the original tail node has reached the front, the queue is reversed. */
  lemma {:induction false} ReversingDone(s: Queue)
    requires |s| >= 1
    ensures Reversing(s, 0) == Rev(s)
  {
    assert s[..0] == [] && s[0..|s| - 1] == s[..|s| - 1];
    RevLastFirst(s);
  }

  /**
   The queue part-way through `q_swap`: the first `j` elements, already
   swapped pairwise, have moved behind the untouched rest.
   */
  function Swapping(s: Queue, j: nat): Queue
    requires j <= |s|
  {
    s[j..] + SwapPairs(s[..j])
  }

  /** Moving the first node to the tail rotates the queue by one. */
  lemma {:induction false} MoveFirstToTail(x: Element, t: Queue)
    ensures ListMoveTail([x] + t, 0) == t + [x]
  {
    assert ([x] + t)[1..] == t;
  }

  /** Moving the second node to the tail leaves the first one in front. */
  lemma {:induction false} MoveSecondToTail(x: Element, y: Element, t: Queue)
    ensures ListMoveTail([x, y] + t, 1) == [x] + (t + [y])
  {
    var c := [x, y] + t;
    assert c[..1] == [x] && c[2..] == t;
  }

  /** Before a pass of `q_swap`, the next pair sits at the front. */
  lemma {:induction false} SwappingFront(s: Queue, j: nat)
    requires j + 2 <= |s|
    ensures Swapping(s, j) == [s[j], s[j + 1]] + (s[j + 2..] + SwapPairs(s[..j]))
  {
    assert s[j..] == [s[j], s[j + 1]] + s[j + 2..];
  }

  /** After a pass of `q_swap`, the pair sits swapped at the back. */
  lemma {:induction false} SwappingBack(s: Queue, j: nat)
    requires j % 2 == 0 && j + 2 <= |s|
    ensures Swapping(s, j + 2) == ((s[j + 2..] + SwapPairs(s[..j])) + [s[j + 1]]) + [s[j]]
  {
    assert s[..j + 2] == s[..j] + s[j..j + 2];
    SwapPairsAppend(s[..j], s[j..j + 2]);
    assert SwapPairs(s[j..j + 2]) == [s[j + 1], s[j]];
  }

  /** One pass of `q_swap`: the pair at the front goes to the back, swapped. */
  lemma {:induction false} SwapStep(s: Queue, j: nat)
    requires j % 2 == 0 && j + 2 <= |s|
    ensures ListMoveTail(ListMoveTail(Swapping(s, j), 1), 0) == Swapping(s, j + 2)
  {
    var t := s[j + 2..] + SwapPairs(s[..j]);
    var x, y := s[j], s[j + 1];
    SwappingFront(s, j);
    MoveSecondToTail(x, y, t);
    MoveFirstToTail(x, t + [y]);
    SwappingBack(s, j);
    calc {
      ListMoveTail(ListMoveTail(Swapping(s, j), 1), 0);
      ListMoveTail(ListMoveTail([x, y] + t, 1), 0);
      ListMoveTail([x] + (t + [y]), 0);
      (t + [y]) + [x];
      Swapping(s, j + 2);
    }
  }

  /** On an even-sized queue, once every pair has moved the queue is swapped. */
  lemma {:induction false} SwappingDone(s: Queue)
    requires |s| % 2 == 0
    ensures Swapping(s, |s|) == SwapPairs(s)
  {
    assert s[..|s|] == s;
  }

  /** The last move of `q_swap` on an odd-sized queue sends the unpaired element last. */
  lemma {:induction false} SwapOddTail(s: Queue)
    requires |s| % 2 == 1
    ensures ListMoveTail(Swapping(s, |s| - 1), 0) == SwapPairs(s)
  {
    var n := |s|;
    assert s[n - 1..] == [s[n - 1]];
    assert s == s[..n - 1] + [s[n - 1]];
    SwapPairsAppend(s[..n - 1], [s[n - 1]]);
  }

  /**
   What one iteration of `q_delete_dup` sees at the element of original
   index `i`, which sits at index `k` right after the survivors so far: the
   element itself, and its original successor after it, so that comparing
   the two decides whether a run continues.
   */
  lemma {:induction false} DeleteDupLook(s: Queue, i: nat, cur: Queue, k: nat)
    requires i < |s|
    requires cur == KeptPrefix(s, i) + s[i..] && k == |KeptPrefix(s, i)|
    ensures k < |cur| && cur[k] == s[i]
    ensures k + 1 < |cur| && Strcmp(cur[k].value, cur[k + 1].value) == 0 <==> EqualsNext(s, i)
    ensures EqualsNext(s, i) ==> EqualsPrev(s, i + 1)
    ensures !EqualsNext(s, i) ==> !(i + 1 < |s| && EqualsPrev(s, i + 1))
  {
    assert cur[k..] == s[i..];
    if k + 1 < |cur| {
      assert cur[k + 1] == s[i + 1];
    }
  }

  /** An isolated element stays where it is and joins the survivors. */
  lemma {:induction false} DeleteDupKeep(s: Queue, i: nat, cur: Queue, k: nat)
    requires i < |s| && Isolated(s, i)
    requires cur == KeptPrefix(s, i) + s[i..] && k == |KeptPrefix(s, i)|
    ensures KeptPrefix(s, i + 1) + s[i + 1..] == cur && |KeptPrefix(s, i + 1)| == k + 1
  {
    assert KeptPrefix(s, i + 1) == KeptPrefix(s, i) + [s[i]];
    assert s[i..] == [s[i]] + s[i + 1..];
  }

  /** An element of a run is unlinked; the survivors are unchanged. */
  lemma {:induction false} DeleteDupDrop(s: Queue, i: nat, cur: Queue, k: nat)
    requires i < |s| && !Isolated(s, i)
    requires cur == KeptPrefix(s, i) + s[i..] && k == |KeptPrefix(s, i)|
    ensures k < |cur|
    ensures KeptPrefix(s, i + 1) + s[i + 1..] == ListDel(cur, k) && |KeptPrefix(s, i + 1)| == k
  {
    assert KeptPrefix(s, i + 1) == KeptPrefix(s, i);
    assert cur[..k] == KeptPrefix(s, i);
    assert cur[k + 1..] == s[i + 1..];
  }
}
