/**
 The pointer-level view of a ring: every node, the sentinel included, with
 its `next` and `prev` links. It relates the sequence view used elsewhere to
 the doubly-linked structure, and models the pass at the end of `q_sort`
 that rebuilds every `prev` link from an open, NULL-terminated chain.
 */
module Ring {
  import Rearrange

  /** The sentinel, or the node at the given address. */
  datatype Node = Head | Item(id: nat)

  /** The `next` and `prev` pointer of every node of a ring. */
  datatype Links = Links(next: map<Node, Node>, prev: map<Node, Node>)

  /** Distinct nodes of a chain have distinct addresses. */
  predicate Distinct(chain: seq<nat>) {
    forall i, j :: 0 <= i < j < |chain| ==> chain[i] != chain[j]
  }

  /** The node at index `k` of the chain, where index -1 is the sentinel. */
  function At(chain: seq<nat>, k: int): Node
    requires -1 <= k < |chain|
  {
    if k == -1 then Head else Item(chain[k])
  }

  /** The node after index `k`: the sentinel closes the ring after the last node. */
  function After(chain: seq<nat>, k: int): Node
    requires -1 <= k < |chain|
  {
    if k + 1 < |chain| then At(chain, k + 1) else Head
  }

  /** The sentinel and the nodes of the chain. */
  function Nodes(chain: seq<nat>): set<Node> {
    {Head} + set id | id in chain :: Item(id)
  }

  /**
   `r` is the ring that visits `chain` when `next` is followed from the
   sentinel: every node's `next` is the node after it and every node's
   `prev` the node before it, with the sentinel between the last node and
   the first; an empty chain is the self-linked sentinel.
   */
  predicate Encodes(r: Links, chain: seq<nat>) {
    && r.next.Keys == Nodes(chain)
    && r.prev.Keys == Nodes(chain)
    && (forall k :: -1 <= k < |chain| ==> r.next[At(chain, k)] == After(chain, k))
    && (forall k :: -1 <= k < |chain| ==> r.prev[After(chain, k)] == At(chain, k))
  }

  /**
   The ring invariant: the same nodes carry both links, and for every node
   `x`, `x.next.prev == x` and `x.prev.next == x`.
   */
  predicate Invariant(r: Links) {
    && r.next.Keys == r.prev.Keys
    && (forall x :: x in r.next ==> r.next[x] in r.prev && r.prev[r.next[x]] == x)
    && (forall x :: x in r.prev ==> r.prev[x] in r.next && r.next[r.prev[x]] == x)
  }

  /** Every node of a chain sits at some index. */
  lemma {:induction false} NodeIndex(chain: seq<nat>, x: Node)
    requires x in Nodes(chain)
    ensures exists k :: -1 <= k < |chain| && At(chain, k) == x
    ensures exists k :: -1 <= k < |chain| && After(chain, k) == x
  {
    if x == Head {
      assert At(chain, -1) == x;
      assert After(chain, |chain| - 1) == x;
    } else {
      var k :| 0 <= k < |chain| && chain[k] == x.id;
      assert At(chain, k) == x;
      assert After(chain, k - 1) == x;
    }
  }

  /** In a ring that encodes a chain, `x.next.prev == x` for every node. */
  lemma {:induction false} EncodesNextPrev(r: Links, chain: seq<nat>, x: Node)
    requires Encodes(r, chain) && x in r.next
    ensures r.next[x] in r.prev && r.prev[r.next[x]] == x
  {
    NodeIndex(chain, x);
    var k :| -1 <= k < |chain| && At(chain, k) == x;
    assert r.next[x] == After(chain, k);
  }

  /** In a ring that encodes a chain, `x.prev.next == x` for every node. */
  lemma {:induction false} EncodesPrevNext(r: Links, chain: seq<nat>, x: Node)
    requires Encodes(r, chain) && x in r.prev
    ensures r.prev[x] in r.next && r.next[r.prev[x]] == x
  {
    NodeIndex(chain, x);
    var k :| -1 <= k < |chain| && After(chain, k) == x;
    assert r.prev[x] == At(chain, k);
  }

  /** A ring that encodes a chain satisfies the ring invariant. */
  lemma {:induction false} EncodesInvariant(r: Links, chain: seq<nat>)
    requires Encodes(r, chain)
    ensures Invariant(r)
  {
    forall x | x in r.next
      ensures r.next[x] in r.prev && r.prev[r.next[x]] == x
    {
      EncodesNextPrev(r, chain, x);
    }
    forall x | x in r.prev
      ensures r.prev[x] in r.next && r.next[r.prev[x]] == x
    {
      EncodesPrevNext(r, chain, x);
    }
  }

  /** The nodes reached by following `links` from `x` for `steps` steps. */
  function Walk(links: map<Node, Node>, x: Node, steps: nat): seq<Node>
    decreases steps
  {
    if steps == 0 || x !in links then []
    else [links[x]] + Walk(links, links[x], steps - 1)
  }

  /** The chain's nodes, first to last. */
  function Items(chain: seq<nat>): seq<Node> {
    seq(|chain|, k requires 0 <= k < |chain| => Item(chain[k]))
  }

  /** Following `next` from the node at index `k` visits the rest of the chain, then the sentinel. */
  lemma {:induction false} WalkNextFrom(r: Links, chain: seq<nat>, k: int)
    requires Encodes(r, chain) && -1 <= k < |chain|
    ensures Walk(r.next, At(chain, k), |chain| - k) == Items(chain)[k + 1..] + [Head]
    decreases |chain| - k
  {
    var x, y := At(chain, k), After(chain, k);
    assert x in r.next && r.next[x] == y;
    assert Walk(r.next, x, |chain| - k) == [y] + Walk(r.next, y, |chain| - k - 1);
    if k + 1 < |chain| {
      assert y == At(chain, k + 1);
      WalkNextFrom(r, chain, k + 1);
      assert Items(chain)[k + 1..] == [Item(chain[k + 1])] + Items(chain)[k + 2..];
    } else {
      assert Items(chain)[k + 1..] == [];
    }
  }

  /** Following `prev` from the node after index `k` visits the chain backwards, then the sentinel. */
  lemma {:induction false} WalkPrevFrom(r: Links, chain: seq<nat>, k: int)
    requires Encodes(r, chain) && -1 <= k < |chain|
    ensures Walk(r.prev, After(chain, k), k + 2) == Rearrange.Rev(Items(chain)[..k + 1]) + [Head]
    decreases k
  {
    var x := After(chain, k);
    assert x in r.prev && r.prev[x] == At(chain, k);
    if k >= 0 {
      assert At(chain, k) == After(chain, k - 1);
      WalkPrevFrom(r, chain, k - 1);
      Rearrange.RevLastFirst(Items(chain)[..k + 1]);
      assert Items(chain)[..k + 1][..k] == Items(chain)[..k];
    } else {
      assert r.prev[After(chain, -1)] == Head;
    }
  }

  /**
   Walking `next` from the sentinel visits the chain and returns to the
   sentinel; walking `prev` visits the same nodes in the reverse order.
   */
  lemma {:induction false} TraversalsAgree(r: Links, chain: seq<nat>)
    requires Encodes(r, chain)
    ensures Walk(r.next, Head, |chain| + 1) == Items(chain) + [Head]
    ensures Walk(r.prev, Head, |chain| + 1) == Rearrange.Rev(Items(chain)) + [Head]
  {
    WalkNextFrom(r, chain, -1);
    assert At(chain, -1) == Head;
    WalkPrevFrom(r, chain, |chain| - 1);
    assert After(chain, |chain| - 1) == Head;
    assert Items(chain)[..|chain|] == Items(chain);
    assert Items(chain)[0..] == Items(chain);
  }

  /** The index at which address `id` occurs in the chain. */
  function IndexOf(chain: seq<nat>, id: nat): (k: nat)
    requires id in chain
    ensures k < |chain| && chain[k] == id
  {
    if chain[0] == id then 0 else 1 + IndexOf(chain[1..], id)
  }

  /** In a chain without repeated addresses, the index of a node is its position. */
  lemma {:induction false} IndexOfAt(chain: seq<nat>, k: nat)
    requires Distinct(chain) && k < |chain|
    ensures IndexOf(chain, chain[k]) == k
  {
  }

  /** The node that follows `x` in the chain, or the sentinel after the last one. */
  function NextNode(chain: seq<nat>, x: Node): Node
    requires x in Nodes(chain)
  {
    if x == Head then After(chain, -1) else After(chain, IndexOf(chain, x.id))
  }

  /**
   The NULL-terminated chain `mergesort` hands back: the sentinel's `next`
   is the first node, every node's `next` its successor; the last node has
   a NULL `next`, which is absence from the map.
   */
  function OpenChain(chain: seq<nat>): map<Node, Node> {
    map x | x in Nodes(chain) - {At(chain, |chain| - 1)} :: NextNode(chain, x)
  }

  /** A node has a `next` in the open chain exactly when it is not the last node. */
  lemma {:induction false} OpenChainNext(chain: seq<nat>, k: int)
    requires Distinct(chain) && -1 <= k < |chain|
    ensures At(chain, k) in OpenChain(chain) <==> k < |chain| - 1
    ensures k < |chain| - 1 ==> OpenChain(chain)[At(chain, k)] == After(chain, k)
  {
    var m := OpenChain(chain);
    assert m.Keys == Nodes(chain) - {At(chain, |chain| - 1)};
    if k >= 0 {
      assert chain[k] in chain;
      assert At(chain, k) in Nodes(chain);
      if k < |chain| - 1 {
        assert chain[k] != chain[|chain| - 1];
        assert At(chain, k) != At(chain, |chain| - 1);
        assert At(chain, k) in m;
      } else {
        assert At(chain, k) !in m;
      }
      IndexOfAt(chain, k);
    } else {
      assert Head in Nodes(chain);
    }
  }

  /**
   Closing the open chain at its last node with every `prev` already
   rebuilt gives the ring of the chain.
   */
  lemma {:induction false} ClosedChainEncodes(chain: seq<nat>, prev: map<Node, Node>)
    requires Distinct(chain)
    requires prev.Keys == Nodes(chain)
    requires forall j :: -1 <= j < |chain| - 1 ==> prev[After(chain, j)] == At(chain, j)
    ensures Encodes(Links(OpenChain(chain)[At(chain, |chain| - 1) := Head],
                          prev[Head := At(chain, |chain| - 1)]), chain)
  {
    var last := At(chain, |chain| - 1);
    var next := OpenChain(chain)[last := Head];
    forall j | -1 <= j < |chain|
      ensures next[At(chain, j)] == After(chain, j)
    {
      OpenChainNext(chain, j);
    }
    forall x | x in Nodes(chain)
      ensures x in next
    {
      NodeIndex(chain, x);
      var j :| -1 <= j < |chain| && At(chain, j) == x;
      OpenChainNext(chain, j);
    }
  }

  /**
   The end of `q_sort`: walking the open chain from the sentinel, set each
   successor's `prev` to the current node until a NULL `next`; then the
   sentinel's `prev` becomes the last node and the last node's `next` the
   sentinel. Whatever `prev` links the nodes held before, the result is the
   ring of the chain; an empty chain leaves the sentinel self-linked.
   */
  method Reclose(chain: seq<nat>, stalePrev: map<Node, Node>) returns (r: Links)
    requires Distinct(chain)
    requires stalePrev.Keys == Nodes(chain)
    ensures Encodes(r, chain)
  {
    var next := OpenChain(chain);
    var prev := stalePrev;
    var i := Head;
    ghost var k := -1;  // index of `i` in the chain
    OpenChainNext(chain, k);
    while i in next  // i->next != NULL
      invariant -1 <= k < |chain| && i == At(chain, k)
      invariant i in next <==> k < |chain| - 1
      invariant prev.Keys == Nodes(chain)
      invariant forall j :: -1 <= j < k ==> prev[After(chain, j)] == At(chain, j)
      decreases |chain| - k
    {
      OpenChainNext(chain, k);
      prev := prev[next[i] := i];  // i->next->prev = i
      i := next[i];
      k := k + 1;
      OpenChainNext(chain, k);
    }
    ClosedChainEncodes(chain, prev);
    prev := prev[Head := i];  // head->prev = i
    next := next[i := Head];  // i->next = head
    r := Links(next, prev);
  }
}
