/**
 The queue's state and the `list.h` primitives it is built from.

 A queue is the sentinel-anchored ring read forwards from the sentinel: the
 sequence of its elements, each an allocation identity (the node's address)
 and the owned string. A pointer to a node is its index in that sequence.
 */
module ListHead {
  import opened CStrings

  /** A possibly-NULL value: `None` is the NULL queue or the NULL result. */
  datatype Option<T> = None | Some(value: T)

  /** An `element_t`: the node's identity and its `strdup`'d string. */
  datatype Element = Element(id: nat, value: CString)

  /** The elements in the order `next` visits them from the sentinel. */
  type Queue = seq<Element>

  /** Distinct nodes have distinct addresses. */
  predicate DistinctIds(q: Queue) {
    forall i, j :: 0 <= i < j < |q| ==> q[i].id != q[j].id
  }

  /** The addresses of the nodes in ring order. */
  function IdSeq(q: Queue): (r: seq<nat>)
    ensures |r| == |q|
    ensures forall i :: 0 <= i < |q| ==> r[i] == q[i].id
  {
    seq(|q|, i requires 0 <= i < |q| => q[i].id)
  }

  /** A ring of distinct nodes holds each element at most once. */
  lemma {:induction false} DistinctCount(q: Queue, e: Element)
    requires DistinctIds(q)
    ensures multiset(q)[e] <= 1
  {
    if |q| > 0 {
      assert q == [q[0]] + q[1..];
      assert DistinctIds(q[1..]);
      DistinctCount(q[1..], e);
      if e == q[0] {
        assert e !in q[1..];
      }
    }
  }

  /** An element found at two indices is counted twice. */
  lemma {:induction false} RepeatCount(q: Queue, i: nat, j: nat)
    requires i < j < |q| && q[i] == q[j]
    ensures multiset(q)[q[i]] >= 2
  {
    assert q == q[..j] + [q[j]] + q[j + 1..];
    assert q[i] in q[..j];
  }

  /** Any selection of the nodes of a ring keeps their addresses distinct. */
  lemma {:induction false} SubMultisetKeepsDistinctIds(q: Queue, r: Queue)
    requires DistinctIds(q) && multiset(r) <= multiset(q)
    ensures DistinctIds(r)
    ensures Ids(r) <= Ids(q)
  {
    forall i, j | 0 <= i < j < |r|
      ensures r[i].id != r[j].id
    {
      assert r[i] in multiset(q) && r[j] in multiset(q);
      var a :| 0 <= a < |q| && q[a] == r[i];
      var b :| 0 <= b < |q| && q[b] == r[j];
      if r[i] == r[j] {
        RepeatCount(r, i, j);
        DistinctCount(q, r[i]);
      } else {
        assert a != b;
      }
    }
    forall e | e in r
      ensures e in q
    {
      assert e in multiset(r);
    }
  }

  /** Rearranging the nodes of a ring keeps their addresses distinct. */
  lemma {:induction false} PermutationKeepsDistinctIds(q: Queue, r: Queue)
    requires DistinctIds(q) && multiset(r) == multiset(q)
    ensures DistinctIds(r)
    ensures Ids(r) == Ids(q)
  {
    SubMultisetKeepsDistinctIds(q, r);
    SubMultisetKeepsDistinctIds(r, q);
  }

  /** The addresses of the nodes in the ring. */
  function Ids(q: Queue): set<nat> {
    set e | e in q :: e.id
  }

  /** The string payloads in ring order. */
  function Values(q: Queue): seq<CString> {
    seq(|q|, i requires 0 <= i < |q| => q[i].value)
  }

  /** `list_add(n, head)`: link `n` right after the sentinel. */
  function ListAdd(e: Element, q: Queue): (r: Queue)
    ensures |r| == |q| + 1 && r[0] == e && r[1..] == q
  {
    [e] + q
  }

  /** `list_add_tail(n, head)`: link `n` right before the sentinel. */
  function ListAddTail(e: Element, q: Queue): (r: Queue)
    ensures |r| == |q| + 1 && r[|q|] == e && r[..|q|] == q
  {
    q + [e]
  }

  /** `list_del(node)` for the node at index `i`: its neighbours are joined. */
  function ListDel(q: Queue, i: nat): (r: Queue)
    requires i < |q|
    ensures |r| == |q| - 1
  {
    q[..i] + q[i + 1..]
  }

  /** Unlinking a node removes exactly that node from the ring's contents. */
  lemma {:induction false} ListDelContents(q: Queue, i: nat)
    requires i < |q|
    ensures multiset(ListDel(q, i)) + multiset{q[i]} == multiset(q)
  {
    assert q == q[..i] + [q[i]] + q[i + 1..];
  }

  /**
   Unlinking a node keeps every other node in order: the nodes before it
   stay where they were and the nodes after it move up by one.
   */
  lemma {:induction false} ListDelKeepsOrder(q: Queue, i: nat)
    requires i < |q|
    ensures forall j :: 0 <= j < i ==> ListDel(q, i)[j] == q[j]
    ensures forall j :: i <= j < |q| - 1 ==> ListDel(q, i)[j] == q[j + 1]
  {
  }

  /** `list_move_tail(node, head)`: `list_del` then `list_add_tail`. */
  function ListMoveTail(q: Queue, i: nat): (r: Queue)
    requires i < |q|
    ensures |r| == |q| && r[|q| - 1] == q[i]
  {
    ListAddTail(q[i], ListDel(q, i))
  }

  /** Moving a node to the tail keeps the other nodes in their order in front of it. */
  lemma {:induction false} ListMoveTailKeepsOrder(q: Queue, i: nat)
    requires i < |q|
    ensures ListMoveTail(q, i) == ListDel(q, i) + [q[i]]
    ensures forall j :: 0 <= j < i ==> ListMoveTail(q, i)[j] == q[j]
    ensures forall j :: i <= j < |q| - 1 ==> ListMoveTail(q, i)[j] == q[j + 1]
  {
    ListDelKeepsOrder(q, i);
  }
}
