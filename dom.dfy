/**
 * The two DOM operations the drop handler relies on, over the ordered
 * children of the list container: Node.nextSibling and Node.insertBefore
 * (the "pre-insert" algorithm of the WHATWG DOM Living Standard, section 4.2.3).
 */
module Dom {
  import opened Wrappers
  import opened Sequences

  /** An element of the page, by identity. */
  type NodeId = int

  /** node.nextSibling for a child `n`: the child after it, or null when `n` is the last one. */
  function NextSibling(children: seq<NodeId>, n: NodeId): (r: Option<NodeId>)
    requires n in children
    ensures r.None? <==> IndexOf(children, n) == |children| - 1
    ensures r.Some? ==> r.value == children[IndexOf(children, n) + 1]
  {
    var i := IndexOf(children, n);
    if i + 1 < |children| then Some(children[i + 1]) else None
  }

  /** Putting a new element at index `k` of a sequence without repetitions. */
  lemma InsertAtFacts(rest: seq<NodeId>, k: nat, x: NodeId)
    requires Distinct(rest) && x !in rest && k <= |rest|
    ensures Distinct(rest[..k] + [x] + rest[k..])
    ensures IndexOf(rest[..k] + [x] + rest[k..], x) == k
    ensures RemoveAt(rest[..k] + [x] + rest[k..], k) == rest
    ensures multiset(rest[..k] + [x] + rest[k..]) == multiset(rest) + multiset{x}
  {
    DistinctInsert(rest, k, x);
    IndexOfDistinct(rest[..k] + [x] + rest[k..], k);
    RemoveInserted(rest, k, x);
  }

  /** After such an insertion the new element sits between the old neighbours at `k - 1` and `k`. */
  lemma InsertAtNeighbours(rest: seq<NodeId>, k: nat, x: NodeId, r: seq<NodeId>)
    requires Distinct(rest) && x !in rest && k <= |rest|
    requires r == rest[..k] + [x] + rest[k..]
    ensures IndexOf(r, x) == k && RemoveAt(r, k) == rest
    ensures 0 < k ==> IndexOf(r, rest[k - 1]) == k - 1
    ensures k < |rest| ==> IndexOf(r, rest[k]) == k + 1
  {
    InsertAtFacts(rest, k, x);
    if 0 < k {
      assert IndexOf(r, rest[k - 1]) == k - 1 by {
        InsertAtIndex(rest, k, x, k - 1);
        IndexOfDistinct(r, k - 1);
      }
    }
    if k < |rest| {
      assert IndexOf(r, rest[k]) == k + 1 by {
        InsertAtIndex(rest, k, x, k);
        IndexOfDistinct(r, k + 1);
      }
    }
  }

  /** After `node` is taken out, the reference child is still there. */
  lemma ReferenceRemains(children: seq<NodeId>, i: nat, c: NodeId)
    requires i < |children| && c in children && c != children[i]
    ensures c in RemoveAt(children, i)
  {
    var k := IndexOf(children, c);
    var p := if k < i then k else k - 1;
    RemoveAtIndex(children, i, p);
    assert RemoveAt(children, i)[p] == c;
  }

  /**
   * Step 3 of pre-insert: a reference child equal to `node` is replaced by
   * node's next sibling.  The reference is never `node` itself.
   */
  function Reference(children: seq<NodeId>, node: NodeId, child: Option<NodeId>): (r: Option<NodeId>)
    requires Distinct(children) && node in children
    requires child.Some? ==> child.value in children
    ensures r.Some? ==> r.value in children && r.value != node
    ensures child != Some(node) ==> r == child
    ensures child == Some(node) ==> r == NextSibling(children, node)
  {
    if child == Some(node) then
      var next := NextSibling(children, node);
      if next.Some? then IndexOfDistinct(children, IndexOf(children, node) + 1); next else next
    else child
  }

  /**
   * parent.insertBefore(node, child) where `node` is already one of the
   * children: a reference child equal to `node` is first replaced by node's
   * next sibling; then `node` is taken out and put back immediately before
   * the reference child, or at the end when the reference is null.
   */
  function InsertBefore(children: seq<NodeId>, node: NodeId, child: Option<NodeId>): (r: seq<NodeId>)
    requires Distinct(children) && node in children
    requires child.Some? ==> child.value in children
    ensures |r| == |children|
  {
    var i := IndexOf(children, node);
    var reference := Reference(children, node, child);
    var rest := RemoveAt(children, i);
    match reference
    case None => rest + [node]
    case Some(c) =>
      ReferenceRemains(children, i, c);
      var k := IndexOf(rest, c);
      rest[..k] + [node] + rest[k..]
  }

  /**
   * What insertBefore guarantees: the children are the same nodes without
   * repetitions, the others keep their order, and `node` ends up right
   * before the reference child, or last for a null reference.
   */
  lemma InsertBeforeFacts(children: seq<NodeId>, node: NodeId, child: Option<NodeId>)
    requires Distinct(children) && node in children
    requires child.Some? ==> child.value in children
    ensures var r := InsertBefore(children, node, child);
      && multiset(r) == multiset(children)
      && Distinct(r) && node in r
      && RemoveAt(r, IndexOf(r, node)) == RemoveAt(children, IndexOf(children, node))
      && (child.None? ==> r[|r| - 1] == node)
      && (child.Some? && child.value != node ==>
            IndexOf(r, node) + 1 < |r| && r[IndexOf(r, node) + 1] == child.value)
  {
    var i := IndexOf(children, node);
    var rest := RemoveAt(children, i);
    DistinctRemoveAt(children, i);
    RemoveAtMultiset(children, i);
    var k := InsertBeforeShape(children, node, child);
    InsertAtFacts(rest, k, node);
  }

  /**
   * insertBefore unfolded: `node` is put back at some index `k` of the
   * remaining children, where the reference child now stands, or at the end.
   */
  lemma InsertBeforeShape(children: seq<NodeId>, node: NodeId, child: Option<NodeId>) returns (k: nat)
    requires Distinct(children) && node in children
    requires child.Some? ==> child.value in children
    ensures var rest := RemoveAt(children, IndexOf(children, node));
      && k <= |rest|
      && InsertBefore(children, node, child) == rest[..k] + [node] + rest[k..]
      && (child.None? ==> k == |rest|)
      && (child.Some? && child.value != node ==> k < |rest| && rest[k] == child.value)
  {
    var i := IndexOf(children, node);
    var reference := Reference(children, node, child);
    var rest := RemoveAt(children, i);
    if reference.None? {
      k := |rest|;
      assert rest + [node] == rest[..k] + [node] + rest[k..];
    } else {
      ReferenceRemains(children, i, reference.value);
      k := IndexOf(rest, reference.value);
    }
  }

  /** insertBefore(node, node) leaves the children as they were. */
  lemma InsertBeforeItself(children: seq<NodeId>, node: NodeId)
    requires Distinct(children) && node in children
    ensures InsertBefore(children, node, Some(node)) == children
  {
    if IndexOf(children, node) + 1 < |children| {
      InsertBeforeItselfInner(children, node);
    } else {
      InsertBeforeItselfLast(children, node);
    }
  }

  lemma InsertBeforeItselfInner(children: seq<NodeId>, node: NodeId)
    requires Distinct(children) && node in children
    requires IndexOf(children, node) + 1 < |children|
    ensures InsertBefore(children, node, Some(node)) == children
  {
    var i := IndexOf(children, node);
    var rest := RemoveAt(children, i);
    DistinctRemoveAt(children, i);
    RemoveAtRestore(children, i);
    IndexOfDistinct(rest, i);
    assert IndexOf(rest, children[i + 1]) == i;
    assert InsertBefore(children, node, Some(node)) == rest[..i] + [node] + rest[i..];
  }

  lemma InsertBeforeItselfLast(children: seq<NodeId>, node: NodeId)
    requires Distinct(children) && node in children
    requires IndexOf(children, node) + 1 == |children|
    ensures InsertBefore(children, node, Some(node)) == children
  {
    var rest := RemoveAt(children, IndexOf(children, node));
    assert InsertBefore(children, node, Some(node)) == rest + [node];
    assert rest + [node] == children;
  }
}
