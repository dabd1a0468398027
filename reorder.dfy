/**
 * The reorder rule of the drop handler: where the dragged item goes,
 * given the freshly enumerated items and the item the drop landed on.
 */
module Reorder {
  import opened Wrappers
  import opened Sequences
  import opened Dom

  /**
   * The reference child handleDrop passes to insertBefore, for the dragged
   * item `dragged` and the item `dropNode` closest to the drop target (null
   * when the target lies in no item): a forward drag uses the drop item's
   * next sibling, anything else the drop item itself.  A null drop item has
   * index -1 and so takes the second branch.
   */
  function DropReference(items: seq<NodeId>, dragged: NodeId, dropNode: Option<NodeId>): (r: Option<NodeId>)
    requires dragged in items
    requires dropNode.Some? ==> dropNode.value in items
    ensures r.Some? ==> r.value in items
  {
    var dragIndex := IndexOf(items, dragged);
    var dropIndex := if dropNode.Some? then IndexOf(items, dropNode.value) else -1;
    if dragIndex < dropIndex then NextSibling(items, dropNode.value) else dropNode
  }

  /** The container's children after handleDrop's insertion. */
  function DropOrder(items: seq<NodeId>, dragged: NodeId, dropNode: Option<NodeId>): (r: seq<NodeId>)
    requires Distinct(items) && dragged in items
    requires dropNode.Some? ==> dropNode.value in items
  {
    InsertBefore(items, dragged, DropReference(items, dragged, dropNode))
  }

  /** A drop only rearranges the items: the same nodes, still without repetitions. */
  lemma DropOrderFacts(items: seq<NodeId>, dragged: NodeId, dropNode: Option<NodeId>)
    requires Distinct(items) && dragged in items
    requires dropNode.Some? ==> dropNode.value in items
    ensures var r := DropOrder(items, dragged, dropNode);
      multiset(r) == multiset(items) && Distinct(r) && dragged in r
  {
    InsertBeforeFacts(items, dragged, DropReference(items, dragged, dropNode));
  }

  /** After a forward move the dragged item directly follows the drop item. */
  lemma ForwardAdjacent(items: seq<NodeId>, dragged: NodeId, target: NodeId)
    requires Distinct(items) && dragged in items && target in items
    requires IndexOf(items, dragged) < IndexOf(items, target)
    ensures var r := DropOrder(items, dragged, Some(target));
      IndexOf(r, dragged) == IndexOf(r, target) + 1
  {
    ForwardMove(items, dragged, target);
    MovedAfter(items, IndexOf(items, dragged), IndexOf(items, target), DropOrder(items, dragged, Some(target)));
  }

  /** Re-inserting items[i] at a later index j of the rest puts it right after items[j]. */
  lemma MovedAfter(items: seq<NodeId>, i: nat, j: nat, r: seq<NodeId>)
    requires Distinct(items) && i < j < |items|
    requires r == RemoveAt(items, i)[..j] + [items[i]] + RemoveAt(items, i)[j..]
    ensures IndexOf(r, items[i]) == IndexOf(r, items[j]) + 1
  {
    var rest := RemoveAt(items, i);
    assert Distinct(rest) && items[i] !in rest by {
      DistinctRemoveAt(items, i);
    }
    assert rest[j - 1] == items[j] by {
      RemoveAtIndex(items, i, j - 1);
    }
    InsertAtNeighbours(rest, j, items[i], r);
  }

  /** A forward move keeps every other item in its order. */
  lemma ForwardKeepsOthers(items: seq<NodeId>, dragged: NodeId, target: NodeId)
    requires Distinct(items) && dragged in items && target in items
    requires IndexOf(items, dragged) < IndexOf(items, target)
    ensures var r := DropOrder(items, dragged, Some(target));
      RemoveAt(r, IndexOf(r, dragged)) == RemoveAt(items, IndexOf(items, dragged))
  {
    DistinctRemoveAt(items, IndexOf(items, dragged));
    ForwardMove(items, dragged, target);
    InsertAtNeighbours(RemoveAt(items, IndexOf(items, dragged)), IndexOf(items, target), dragged,
      DropOrder(items, dragged, Some(target)));
  }

  /**
   * Forward move: dragged from index i onto the item at a later index j.
   * The dragged item is taken out and put back at index j of the remaining
   * items, right after the drop item, which has moved down to j - 1; read
   * on the original items that is items[..i] + items[i + 1..j + 1] +
   * [dragged] + items[j + 1..] (ForwardOnItems).
   */
  lemma ForwardMove(items: seq<NodeId>, dragged: NodeId, target: NodeId)
    requires Distinct(items) && dragged in items && target in items
    requires IndexOf(items, dragged) < IndexOf(items, target)
    ensures var rest, j := RemoveAt(items, IndexOf(items, dragged)), IndexOf(items, target);
      DropOrder(items, dragged, Some(target)) == rest[..j] + [dragged] + rest[j..]
  {
    var i, j := IndexOf(items, dragged), IndexOf(items, target);
    var rest := RemoveAt(items, i);
    var reference := NextSibling(items, target);
    assert DropReference(items, dragged, Some(target)) == reference;
    var k := InsertBeforeShape(items, dragged, reference);
    if reference.Some? {
      DistinctRemoveAt(items, i);
      RemoveAtIndex(items, i, j);
      IndexOfDistinct(rest, j);
      IndexOfDistinct(rest, k);
    }
  }

  /**
   * A forward move read on the original items: the items after the dragged
   * one up to the drop item close up, then the dragged one follows.
   */
  lemma ForwardOnItems(items: seq<NodeId>, dragged: NodeId, target: NodeId)
    requires Distinct(items) && dragged in items && target in items
    requires IndexOf(items, dragged) < IndexOf(items, target)
    ensures var i, j := IndexOf(items, dragged), IndexOf(items, target);
      DropOrder(items, dragged, Some(target)) == items[..i] + items[i + 1..j + 1] + [dragged] + items[j + 1..]
  {
    ForwardMove(items, dragged, target);
    MoveForwardShape(items, IndexOf(items, dragged), IndexOf(items, target), dragged, DropOrder(items, dragged, Some(target)));
  }

  /** After a backward move the drop item directly follows the dragged one. */
  lemma BackwardAdjacent(items: seq<NodeId>, dragged: NodeId, target: NodeId)
    requires Distinct(items) && dragged in items && target in items && dragged != target
    requires IndexOf(items, target) <= IndexOf(items, dragged)
    ensures var r := DropOrder(items, dragged, Some(target));
      IndexOf(r, target) == IndexOf(r, dragged) + 1
  {
    var i, j := IndexOf(items, dragged), IndexOf(items, target);
    var rest := RemoveAt(items, i);
    DistinctRemoveAt(items, i);
    BackwardMove(items, dragged, target);
    assert rest[j] == target by {
      RemoveAtIndex(items, i, j);
    }
    InsertAtNeighbours(rest, j, dragged, DropOrder(items, dragged, Some(target)));
  }

  /** A backward move keeps every other item in its order. */
  lemma BackwardKeepsOthers(items: seq<NodeId>, dragged: NodeId, target: NodeId)
    requires Distinct(items) && dragged in items && target in items && dragged != target
    requires IndexOf(items, target) <= IndexOf(items, dragged)
    ensures var r := DropOrder(items, dragged, Some(target));
      RemoveAt(r, IndexOf(r, dragged)) == RemoveAt(items, IndexOf(items, dragged))
  {
    DistinctRemoveAt(items, IndexOf(items, dragged));
    BackwardMove(items, dragged, target);
    InsertAtNeighbours(RemoveAt(items, IndexOf(items, dragged)), IndexOf(items, target), dragged,
      DropOrder(items, dragged, Some(target)));
  }

  /**
   * Backward move: dragged from index i onto a different item at an earlier
   * index j.  The dragged item is taken out and put back at index j of the
   * remaining items, right before the drop item; read on the original items
   * that is items[..j] + [dragged] + items[j..i] + items[i + 1..]
   * (BackwardOnItems).
   */
  lemma BackwardMove(items: seq<NodeId>, dragged: NodeId, target: NodeId)
    requires Distinct(items) && dragged in items && target in items && dragged != target
    requires IndexOf(items, target) <= IndexOf(items, dragged)
    ensures var rest, j := RemoveAt(items, IndexOf(items, dragged)), IndexOf(items, target);
      DropOrder(items, dragged, Some(target)) == rest[..j] + [dragged] + rest[j..]
  {
    var i, j := IndexOf(items, dragged), IndexOf(items, target);
    var rest := RemoveAt(items, i);
    assert DropReference(items, dragged, Some(target)) == Some(target);
    var k := InsertBeforeShape(items, dragged, Some(target));
    DistinctRemoveAt(items, i);
    RemoveAtIndex(items, i, j);
    IndexOfDistinct(rest, j);
    IndexOfDistinct(rest, k);
  }

  /** A backward move read on the original items: the dragged item is put in front of the drop item. */
  lemma BackwardOnItems(items: seq<NodeId>, dragged: NodeId, target: NodeId)
    requires Distinct(items) && dragged in items && target in items && dragged != target
    requires IndexOf(items, target) <= IndexOf(items, dragged)
    ensures var i, j := IndexOf(items, dragged), IndexOf(items, target);
      DropOrder(items, dragged, Some(target)) == items[..j] + [dragged] + items[j..i] + items[i + 1..]
  {
    BackwardMove(items, dragged, target);
    MoveBackShape(items, IndexOf(items, dragged), IndexOf(items, target), dragged, DropOrder(items, dragged, Some(target)));
  }

  /** Dropping an item on itself leaves the order unchanged. */
  lemma DropOnItself(items: seq<NodeId>, dragged: NodeId)
    requires Distinct(items) && dragged in items
    ensures DropOrder(items, dragged, Some(dragged)) == items
  {
    assert DropReference(items, dragged, Some(dragged)) == Some(dragged);
    InsertBeforeItself(items, dragged);
  }

  /**
   * A drop whose target closest() maps to no item appends the dragged item
   * at the end of the list (insertBefore with a null reference); the others
   * keep their order.
   */
  lemma DropOnNoItem(items: seq<NodeId>, dragged: NodeId)
    requires Distinct(items) && dragged in items
    ensures DropOrder(items, dragged, None) == RemoveAt(items, IndexOf(items, dragged)) + [dragged]
  {
    var k := InsertBeforeShape(items, dragged, None);
    var rest := RemoveAt(items, IndexOf(items, dragged));
    assert rest[..k] == rest && rest[k..] == [];
  }
}
