/**
 * The drag controller: the script's module-level state, the page elements
 * it reads and writes, and its handlers as methods.
 */
module DragDrop {
  import opened Wrappers
  import opened Sequences
  import opened Dom
  import opened ClassName
  import opened Snapshot
  import Text
  import opened Reorder

  /** setParentListDataAttribute (:7): the order snapshot is always published. */
  const SET_PARENT_LIST_DATA_ATTRIBUTE := true

  /** The texts of `items`, in their order. */
  function TextsOf(items: seq<NodeId>, text: map<NodeId, string>): (r: seq<string>)
    requires forall n :: n in items ==> n in text
    ensures |r| == |items|
    ensures forall i :: 0 <= i < |items| ==> items[i] in text && r[i] == text[items[i]]
  {
    if items == [] then []
    else
      var head := items[0];
      assert head in items;
      assert forall n :: n in items[1..] ==> n in items;
      var rest := TextsOf(items[1..], text);
      assert forall i :: 1 <= i < |items| ==> items[i] == items[1..][i - 1];
      [text[head]] + rest
  }

  /**
   * addCssSelectorToElement applied to the page's className table: nothing
   * happens for a null element or one without a className.
   */
  function WithClassAdded(classes: map<NodeId, string>, element: Option<NodeId>, sel: string): (r: map<NodeId, string>)
    ensures r.Keys == classes.Keys
    ensures forall n :: n in classes && Some(n) != element ==> r[n] == classes[n]
    ensures element.Some? && element.value in classes ==> r[element.value] == AddClass(classes[element.value], sel)
  {
    if element.Some? && element.value in classes then classes[element.value := AddClass(classes[element.value], sel)]
    else classes
  }

  /** removeCssSelectorFromElement applied to the page's className table. */
  function WithClassRemoved(classes: map<NodeId, string>, element: NodeId, sel: string): (r: map<NodeId, string>)
    ensures r.Keys == classes.Keys
    ensures forall n :: n in classes && n != element ==> r[n] == classes[n]
    ensures element in classes ==> r[element] == RemoveClass(classes[element], sel)
  {
    if element in classes then classes[element := RemoveClass(classes[element], sel)] else classes
  }

  /** Entering the same element twice while dragging marks it as entering once does. */
  lemma HoverIdempotent(classes: map<NodeId, string>, element: Option<NodeId>)
    ensures WithClassAdded(WithClassAdded(classes, element, HOVERED), element, HOVERED)
         == WithClassAdded(classes, element, HOVERED)
  {
    if element.Some? && element.value in classes {
      AddClassIdempotent(classes[element.value], HOVERED);
    }
  }

  /**
   * A drag enter followed by a drag leave on an item whose className is
   * non-empty, has spaces as its only whitespace and does not contain
   * "hovered" gives the item back its class tokens.
   */
  lemma EnterThenLeave(classes: map<NodeId, string>, item: NodeId)
    requires item in classes && classes[item] != ""
    requires SpacesOnly(classes[item]) && !Text.Contains(classes[item], HOVERED)
    ensures var after := WithClassRemoved(WithClassAdded(classes, Some(item), HOVERED), item, HOVERED);
      after.Keys == classes.Keys && Tokens(after[item]) == Tokens(classes[item])
  {
    AddThenRemove(classes[item], HOVERED);
  }

  class DragDropList {
    // The page, as far as the script sees it.
    /** The `.drag-drop-list-item` elements in document order: the container's children. */
    var items: seq<NodeId>
    /** The innerText of each item. */
    const text: map<NodeId, string>
    /** For an element inside an item, that item: what closest('.drag-drop-list-item') finds. */
    const enclosing: map<NodeId, NodeId>
    /** The className of every element that has one. */
    var classes: map<NodeId, string>
    /** The elements whose draggable attribute is "true". */
    var draggableAttr: set<NodeId>
    /** The first `.drag-drop-list` element of the document, if there is one. */
    const firstList: Option<NodeId>
    /** The list container's data-list-data attribute. */
    var dataListData: Option<string>

    // The script's module-level state (:4-7).
    var listParentNode: Option<NodeId>
    var draggableNodes: seq<NodeId>
    var dragging: Option<NodeId>
    /** Whether init registered the item listeners (:25-32); it registers none when there are no items. */
    var handlersAttached: bool

    ghost predicate Valid()
      reads this
    {
      && Distinct(items)
      && (forall n :: n in items ==> n in text)
      && (forall n :: n in enclosing ==> n !in items && enclosing[n] in items)
      && (dragging.Some? ==> dragging.value in items)
      && (listParentNode.Some? ==> listParentNode == firstList)
      && (handlersAttached ==> listParentNode.Some?)
    }

    /**
     * Between events the listeners are attached and the enumerated items
     * are the page's items.
     */
    ghost predicate Listening()
      reads this
    {
      handlersAttached && listParentNode.Some? && draggableNodes == items
    }

    /** The page before the script runs. */
    constructor (items: seq<NodeId>, text: map<NodeId, string>, enclosing: map<NodeId, NodeId>,
                 classes: map<NodeId, string>, draggableAttr: set<NodeId>, firstList: Option<NodeId>,
                 dataListData: Option<string>)
      requires Distinct(items) && (forall n :: n in items ==> n in text)
      requires forall n :: n in enclosing ==> n !in items && enclosing[n] in items
      ensures Valid()
      ensures this.items == items && this.text == text && this.enclosing == enclosing
      ensures this.classes == classes && this.draggableAttr == draggableAttr
      ensures this.firstList == firstList && this.dataListData == dataListData
      ensures listParentNode == None && draggableNodes == [] && dragging == None && !handlersAttached
    {
      this.items, this.text, this.enclosing := items, text, enclosing;
      this.classes, this.draggableAttr := classes, draggableAttr;
      this.firstList, this.dataListData := firstList, dataListData;
      listParentNode, draggableNodes, dragging, handlersAttached := None, [], None, false;
    }

    /** The snapshot of the current item order that updateNodeReferenceData publishes. */
    function Published(): (r: string)
      reads this`items
      requires forall n :: n in items ==> n in text
      ensures items == [] ==> r == ""
    {
      AttributeValue(ListData(TextsOf(items, text)))
    }

    /** With at least one item and no comma in any text, the published value splits back into the texts. */
    lemma PublishedRoundTrip()
      requires forall n :: n in items ==> n in text
      requires |items| >= 1
      requires forall n :: n in items ==> ',' !in text[n]
      ensures Text.Split(Published(), ',') == TextsOf(items, text)
    {
      var texts := TextsOf(items, text);
      forall i | 0 <= i < |texts|
        ensures ',' !in texts[i]
      {
        var n := items[i];
        assert n in items;
        assert ',' !in text[n];
        assert texts[i] == text[n];
      }
      SnapshotRoundTrip(texts);
    }

    /**
     * closestNodeBySelector(node, '.drag-drop-list-item') (:180-187): the
     * node itself when it is an item, else the item it lies in, else null.
     */
    function ClosestItem(target: NodeId): (r: Option<NodeId>)
      reads this`items
      requires forall n :: n in enclosing ==> enclosing[n] in items
      ensures r.Some? ==> r.value in items
      ensures target in items ==> r == Some(target)
      ensures target !in items && target in enclosing ==> r == Some(enclosing[target])
      ensures r.None? <==> target !in items && target !in enclosing
    {
      if target in items then Some(target)
      else if target in enclosing then Some(enclosing[target])
      else None
    }

    /** updateNodeReferenceData (:119-124): re-enumerate the items and publish their texts. */
    method UpdateNodeReferenceData()
      requires Valid() && listParentNode.Some?
      modifies this`draggableNodes, this`dataListData
      ensures Valid()
      ensures draggableNodes == items
      ensures dataListData == Some(Published())
    {
      draggableNodes := items;
      if SET_PARENT_LIST_DATA_ATTRIBUTE {
        dataListData := Some(AttributeValue(ListData(TextsOf(draggableNodes, text))));
      }
    }

    /**
     * init, that is addDraggableEventHandlers (:15-35).  `threw` is the
     * TypeError raised at :122 when the page has no list container: it ends
     * the script before any item is marked or any listener registered.
     */
    method Init() returns (threw: bool)
      requires Valid()
      modifies this`listParentNode, this`draggableNodes, this`dataListData, this`draggableAttr,
        this`handlersAttached
      ensures Valid()
      ensures listParentNode == firstList && draggableNodes == items
      ensures threw <==> firstList.None?
      ensures threw ==>
        draggableAttr == old(draggableAttr) && dataListData == old(dataListData) && handlersAttached == old(handlersAttached)
      ensures !threw ==> dataListData == Some(Published()) && (handlersAttached <==> |items| > 0)
      ensures !threw && |items| > 0 ==> Listening()
      ensures !threw ==> forall n :: n in draggableAttr <==> n in old(draggableAttr) || n in items
    {
      listParentNode := firstList;
      if listParentNode.None? {
        draggableNodes := items;
        return true;
      }
      UpdateNodeReferenceData();
      MarkDraggable();
      handlersAttached := |draggableNodes| > 0;
      return false;
    }

    /**
     * The forEach of addDraggableEventHandlers (:25-33), as far as the page
     * shows it: every enumerated item gets draggable="true".
     */
    method MarkDraggable()
      modifies this`draggableAttr
      ensures forall n :: n in draggableAttr <==> n in old(draggableAttr) || n in draggableNodes
    {
      var nodes := draggableNodes;
      if |nodes| > 0 {
        for i := 0 to |nodes|
          invariant forall n :: n in draggableAttr <==> n in old(draggableAttr) || n in nodes[..i]
        {
          draggableAttr := draggableAttr + {nodes[i]};
        }
      }
      assert nodes[..|nodes|] == nodes;
    }

    /** handleDragStart (:45-49): the dragged item becomes the drag session. */
    method DragStart(source: NodeId)
      requires Valid() && Listening() && source in items
      modifies this`dragging
      ensures Valid()
      ensures Listening() && dragging == Some(source)
    {
      dragging := Some(source);
    }

    /**
     * handleDragEnter (:66-73): while a session exists, the item closest to
     * the target gets "hovered"; the session itself is left as it is.
     */
    method DragEnter(target: NodeId)
      requires Valid() && Listening()
      modifies this`classes
      ensures Valid() && Listening()
      ensures classes == if dragging.Some? then WithClassAdded(old(classes), ClosestItem(target), HOVERED)
                         else old(classes)
    {
      if dragging.Some? {
        var targetNode := ClosestItem(target);
        classes := WithClassAdded(classes, targetNode, HOVERED);
      }
    }

    /** handleDragLeave (:80-83): the item whose listener fires loses "hovered". */
    method DragLeave(item: NodeId)
      requires Valid() && Listening() && item in items
      modifies this`classes
      ensures Valid() && Listening()
      ensures classes == WithClassRemoved(old(classes), item, HOVERED)
    {
      classes := WithClassRemoved(classes, item, HOVERED);
    }

    /**
     * handleDrop (:90-110).  With a session the dragged item moves by the
     * reorder rule, onto the item closest to the target; without one the
     * order stays.  Either way the target loses "hovered", the snapshot is
     * published again, and the session is kept.
     */
    method Drop(target: NodeId)
      requires Valid() && Listening()
      modifies this`items, this`classes, this`draggableNodes, this`dataListData
      ensures Valid() && Listening()
      ensures old(dragging).None? ==> items == old(items)
      ensures old(dragging).Some? ==> items == DropOrder(old(items), dragging.value, old(ClosestItem(target)))
      ensures multiset(items) == multiset(old(items))
      ensures classes == WithClassRemoved(old(classes), target, HOVERED)
      ensures draggableNodes == items && dataListData == Some(Published())
      ensures dragging == old(dragging)
    {
      UpdateNodeReferenceData();
      Rearrange(target);
    }

    /** The rest of handleDrop (:94-109), once the items have been enumerated. */
    method Rearrange(target: NodeId)
      requires Valid() && Listening()
      modifies this`items, this`classes, this`draggableNodes, this`dataListData
      ensures Valid() && Listening()
      ensures old(dragging).None? ==> items == old(items)
      ensures old(dragging).Some? ==> items == DropOrder(old(items), dragging.value, old(ClosestItem(target)))
      ensures multiset(items) == multiset(old(items))
      ensures classes == WithClassRemoved(old(classes), target, HOVERED)
      ensures draggableNodes == items && dataListData == Some(Published())
    {
      if dragging.Some? {
        MoveDragged(target);
      }
      classes := WithClassRemoved(classes, target, HOVERED);
      UpdateNodeReferenceData();
    }

    /**
     * The insertion of handleDrop (:97-105), on the freshly enumerated items:
     * a forward drag inserts before the drop item's next sibling, anything
     * else, a drop outside every item included, before the drop item.
     */
    method MoveDragged(target: NodeId)
      requires Valid() && dragging.Some? && draggableNodes == items
      modifies this`items
      ensures Valid()
      ensures items == DropOrder(old(items), dragging.value, old(ClosestItem(target)))
      ensures multiset(items) == multiset(old(items))
    {
      var dropNode := ClosestItem(target);
      var dragged := dragging.value;
      var dragIndex := IndexOf(draggableNodes, dragged);
      var dropIndex := if dropNode.Some? then IndexOf(draggableNodes, dropNode.value) else -1;
      var moved;
      if dragIndex < dropIndex {
        moved := InsertBefore(draggableNodes, dragged, NextSibling(draggableNodes, dropNode.value));
        assert moved == DropOrder(items, dragged, dropNode);
      } else {
        moved := InsertBefore(draggableNodes, dragged, dropNode);
        assert moved == DropOrder(items, dragged, dropNode);
      }
      DropOrderFacts(items, dragged, dropNode);
      SameMembers(items, moved, text, enclosing);
      items := moved;
    }
  }

  /** Two sequences with the same multiset hold the same elements, so the page stays consistent. */
  lemma SameMembers(a: seq<NodeId>, b: seq<NodeId>, text: map<NodeId, string>, enclosing: map<NodeId, NodeId>)
    requires multiset(a) == multiset(b)
    requires forall n :: n in a ==> n in text
    requires forall n :: n in enclosing ==> n !in a && enclosing[n] in a
    ensures forall n :: n in b <==> n in a
    ensures forall n :: n in b ==> n in text
    ensures forall n :: n in enclosing ==> n !in b && enclosing[n] in b
  {
    forall n ensures n in a <==> n in b {
      assert n in a <==> n in multiset(a);
      assert n in b <==> n in multiset(b);
    }
  }
}
