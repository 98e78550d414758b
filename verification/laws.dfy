/**
 Properties that relate several queue operations: insertion and removal
 round trips, the size after a run of insertions and removals, duplicate
 deletion on sorted input, and the worked examples of the queue's contract.
 */
module QueueLaws {
  import opened CStrings
  import opened ListHead
  import opened Rearrange
  import opened QueueOps
  import MergeSort

  /** Inserting at the head and then removing from the head gives back the new element and the old queue. */
  lemma {:induction false} InsertRemoveHeadRoundTrip(q: Queue, s: CString, addr: nat, sp: Option<seq<char>>, bufsize: nat)
    requires addr !in Ids(q) && BufferOk(sp, bufsize)
    ensures var ins := InsertHead(Some(q), s, addr, true, true);
      ins.ok && RemoveHead(ins.queue, sp, bufsize).elem == Some(Element(addr, s)) && RemoveHead(ins.queue, sp, bufsize).queue == Some(q)
  {
    var ins := InsertHead(Some(q), s, addr, true, true);
    assert ins.queue.value[1..] == q;
  }

  /** Inserting at the tail and then removing from the tail gives back the new element and the old queue. */
  lemma {:induction false} InsertRemoveTailRoundTrip(q: Queue, s: CString, addr: nat, sp: Option<seq<char>>, bufsize: nat)
    requires addr !in Ids(q) && BufferOk(sp, bufsize)
    ensures var ins := InsertTail(Some(q), s, addr, true, true);
      ins.ok && RemoveTail(ins.queue, sp, bufsize).elem == Some(Element(addr, s)) && RemoveTail(ins.queue, sp, bufsize).queue == Some(q)
  {
    var ins := InsertTail(Some(q), s, addr, true, true);
    assert ins.queue.value[..|q|] == q;
  }

  /** An address above every address in the ring: one `malloc` may return. */
  function FreshAddr(q: Queue): (a: nat)
    ensures forall e :: e in q ==> e.id < a
  {
    if |q| == 0 then 0
    else
      var rest := FreshAddr(q[1..]);
      assert forall e :: e in q ==> e == q[0] || e in q[1..];
      if q[0].id + 1 > rest then q[0].id + 1 else rest
  }

  /** One call made on the queue by its user. */
  datatype Op = PushHead(s: CString) | PushTail(s: CString) | PopHead | PopTail

  /** The queue after one call, every allocation succeeding and no buffer given. */
  function Step(q: Queue, op: Op): (r: Queue)
    ensures op.PushHead? || op.PushTail? ==> |r| == |q| + 1
    ensures (op.PopHead? || op.PopTail?) && |q| >= 1 ==> |r| == |q| - 1
  {
    match op
    case PushHead(s) => InsertHead(Some(q), s, FreshAddr(q), true, true).queue.value
    case PushTail(s) => InsertTail(Some(q), s, FreshAddr(q), true, true).queue.value
    case PopHead => RemoveHead(Some(q), None, 0).queue.value
    case PopTail => RemoveTail(Some(q), None, 0).queue.value
  }

  /** The queue after the calls `ops`. */
  function Run(q: Queue, ops: seq<Op>): Queue
    decreases |ops|
  {
    if |ops| == 0 then q else Run(Step(q, ops[0]), ops[1..])
  }

  /** The number of insertions among the calls. */
  function Pushes(ops: seq<Op>): nat {
    if |ops| == 0 then 0 else (if ops[0].PushHead? || ops[0].PushTail? then 1 else 0) + Pushes(ops[1..])
  }

  /** The number of removals among the calls. */
  function Pops(ops: seq<Op>): nat {
    if |ops| == 0 then 0 else (if ops[0].PopHead? || ops[0].PopTail? then 1 else 0) + Pops(ops[1..])
  }

  /** Starting from `n` elements, no removal is made on an empty queue. */
  predicate NeverEmptyPop(n: nat, ops: seq<Op>)
    decreases |ops|
  {
    |ops| == 0 ||
    if ops[0].PopHead? || ops[0].PopTail? then n >= 1 && NeverEmptyPop(n - 1, ops[1..])
    else NeverEmptyPop(n + 1, ops[1..])
  }

  /**
   After N successful insertions and M removals, none of them on an empty
   queue, the size has grown by N and shrunk by M.
   */
  lemma {:induction false} SizeAfterRun(q: Queue, ops: seq<Op>)
    requires NeverEmptyPop(|q|, ops)
    ensures |Run(q, ops)| == |q| + Pushes(ops) - Pops(ops)
    decreases |ops|
  {
    if |ops| > 0 {
      var next := Step(q, ops[0]);
      var pop := ops[0].PopHead? || ops[0].PopTail?;
      assert Run(q, ops) == Run(next, ops[1..]);
      assert Pushes(ops) == (if pop then 0 else 1) + Pushes(ops[1..]);
      assert Pops(ops) == (if pop then 1 else 0) + Pops(ops[1..]);
      assert |next| == (if pop then |q| - 1 else |q| + 1);
      assert NeverEmptyPop(|next|, ops[1..]);
      SizeAfterRun(next, ops[1..]);
    }
  }

  /**
   On a queue sorted by `strcmp`, as the callers of `q_delete_dup` provide,
   an element survives exactly when no other element holds its string.
   */
  lemma {:induction false} SortedIsolatedIffUnique(s: Queue, i: nat)
    requires MergeSort.Sorted(s) && i < |s|
    ensures Isolated(s, i) <==> forall j :: 0 <= j < |s| && j != i ==> s[j].value != s[i].value
  {
    if Isolated(s, i) {
      forall j | 0 <= j < |s| && j != i
        ensures s[j].value != s[i].value
      {
        if s[j].value == s[i].value {
          if j > i {
            assert Strcmp(s[i].value, s[i + 1].value) <= 0;
            assert Strcmp(s[i + 1].value, s[j].value) <= 0 || i + 1 == j;
            if i + 1 < j {
              StrcmpAntisymmetric(s[i + 1].value, s[i].value);
            }
          } else {
            assert Strcmp(s[j].value, s[i - 1].value) <= 0 || j == i - 1;
            assert Strcmp(s[i - 1].value, s[i].value) <= 0;
            if j < i - 1 {
              StrcmpAntisymmetric(s[i - 1].value, s[i].value);
            }
          }
        }
      }
    } else if EqualsNext(s, i) {
      assert s[i + 1].value == s[i].value;
    } else {
      assert s[i - 1].value == s[i].value;
    }
  }

  /** Six elements "a", "a", "b", "c", "c", "c": only "b" survives duplicate deletion. */
  lemma {:induction false} DeleteDupExample()
    ensures var q := [Element(0, "a"), Element(1, "a"), Element(2, "b"),
                      Element(3, "c"), Element(4, "c"), Element(5, "c")];
      DistinctOnly(q) == [Element(2, "b")]
  {
    var q := [Element(0, "a"), Element(1, "a"), Element(2, "b"),
              Element(3, "c"), Element(4, "c"), Element(5, "c")];
    assert !Isolated(q, 0) && !Isolated(q, 1) && Isolated(q, 2);
    assert !Isolated(q, 3) && !Isolated(q, 4) && !Isolated(q, 5);
    assert KeptPrefix(q, 1) == [];
    assert KeptPrefix(q, 2) == [];
    assert KeptPrefix(q, 3) == [Element(2, "b")];
    assert KeptPrefix(q, 4) == [Element(2, "b")];
    assert KeptPrefix(q, 5) == [Element(2, "b")];
    assert KeptPrefix(q, 6) == [Element(2, "b")];
  }

  /** Five elements "a" to "e": pairs swap and the odd "e" stays last. */
  lemma {:induction false} SwapExample()
    ensures var q := [Element(0, "a"), Element(1, "b"), Element(2, "c"), Element(3, "d"), Element(4, "e")];
      Values(SwapPairs(q)) == ["b", "a", "d", "c", "e"]
  {
    var q := [Element(0, "a"), Element(1, "b"), Element(2, "c"), Element(3, "d"), Element(4, "e")];
    var r := SwapPairs(q);
    assert r[0] == q[1] && r[1] == q[0] && r[2] == q[3] && r[3] == q[2] && r[4] == q[4];
  }
}
