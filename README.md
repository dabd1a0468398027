# Drag-and-drop list reorder, modelled in Dafny

The script makes the items of a `.drag-drop-list` container reorderable with
the browser's native drag and drop:

- On start-up it finds the first list container in the document. It enumerates
  the `.drag-drop-list-item` elements and marks each one `draggable="true"`.
  Then it attaches the drag handlers to every item.
- A drag start records the dragged item as the drag session.
- A drag enter puts the `hovered` class on the item under the cursor, but only
  while a session exists. A drag leave takes the class off again.
- A drop moves the dragged item in front of or behind the item it lands on.
  Then it removes `hovered` from the drop target.
- After every enumeration the container's `data-list-data` attribute gets a
  new snapshot: the item texts, in page order.

The model has eight modules:

- `Wrappers`: `Option`.
- `Sequences`: sequences without repetitions, `Array.prototype.indexOf`, and
  removal at an index.
- `Dom`: `nextSibling`, and `insertBefore` for a node that is already a child.
  `insertBefore` follows the pre-insert and insert algorithms of the WHATWG DOM
  Living Standard, section 4.2.3, including the step where a reference child
  equal to the node is replaced by its next sibling.
- `Reorder`: the reorder rule of `handleDrop`, plus its placement and
  permutation lemmas.
- `Text`: the JavaScript string operations the class helpers use, namely
  `indexOf`, `split` at one character, `join` and `trim`. `trim` removes
  ECMAScript white space and line terminators.
- `ClassName`: `addCssSelectorToElement` and `removeCssSelectorFromElement` as
  functions on a className, plus what they do to the class tokens.
- `Snapshot`: `getDraggableNodeListData`, and the string `setAttribute`
  stores for it.
- `DragDrop`: the controller. The class `DragDropList` holds the parts of the
  page the script reads and writes, and the script's module-level state. Its
  methods `Init`, `DragStart`, `DragEnter`, `DragLeave` and `Drop` are the
  handlers.

Elements are identified by `NodeId` (an `int`). The page is represented as
follows:

- The item sequence is the container's child list.
- Each item's `innerText` is a given string.
- For an element nested inside an item, a given map names that item. This map
  stands in for `closest('.drag-drop-list-item')`.
- A map gives each element's `className`.

### Behaviour the code has that its comments do not state

The model follows what the code does.

- **A drop whose target `closest` maps to no item.** The drop and dragover
  listeners sit on the items only (drag-and-drop.js:26-32). A drop that lands
  outside every item therefore never runs `handleDrop`, and the order stays as
  it is. `dropNode` is null only when `closestNodeBySelector` returns null for a
  target the item's listener did receive. That happens when `node.closest`
  throws and the catch at drag-and-drop.js:183-186 returns null, for example
  for a target that is not an Element. The index of null is -1, so the else
  branch runs `insertBefore(dragging, null)`, which appends the dragged item at
  the end of the list (`Reorder.DropOnNoItem`).
- **The drag session.** Only `handleDragStart` assigns `dragging`
  (drag-and-drop.js:48). Nothing ever resets it, so the session outlives every
  drop (`Drop` keeps `dragging`). A later drop without a new drag start moves
  the same element again.
- **A missing container.** The utilities that query the page or change a
  className catch their errors and fail silently (drag-and-drop.js:133-139,
  149-157, 166-170, 181-186, 196-205, 213-218). `updateNodeReferenceData` has
  no such catch. With no container, its `setAttribute` call at :122 throws and
  ends `init`.
  - `Init` reports this as `threw`.
  - Nothing is marked draggable and no handler is attached.
- **Handlers need items.** The listeners are registered only when there is at
  least one item (drag-and-drop.js:25). `Init` leaves `handlersAttached` false
  otherwise, and the handlers require it.
- **Adding a class.** The doc comment at drag-and-drop.js:126-131 says the
  selector is added "if the selector doesn't already exist". The test at :134
  is a substring test, not a token test. Once `sel` is part of the className,
  nothing is added (`ClassName.AddClassSubstringNoToken`), so a className such
  as `"unhovered"` never gets the `hovered` token
  (`ClassName.AddClassSubstringBlocks`).
- **Removing a class.** The guard at :150 is the same substring test. Removal
  splits at single spaces and trims all ECMAScript white space (:151-153).

## Model

| member | source | states |
|---|---|---|
| Sequences.IndexOf | drag-and-drop-vanilla-js/drag-and-drop.js:98-99 | `indexOf` is -1 exactly when the element is absent. Otherwise it is an index holding the element, with no earlier occurrence. |
| Sequences.IndexOfDistinct | drag-and-drop-vanilla-js/drag-and-drop.js:98-99 | In a list without repetitions, `indexOf` of the element at position p is p. |
| Sequences.RemoveAt | drag-and-drop-vanilla-js/drag-and-drop.js:102-104 | Taking a node out of the child list leaves one element fewer. |
| Sequences.RemoveAtMultiset | drag-and-drop-vanilla-js/drag-and-drop.js:102-104 | Taking a node out of the child list removes exactly that node from the multiset. |
| Sequences.MoveForwardShape | drag-and-drop-vanilla-js/drag-and-drop.js:101-102 | Taking out index i and re-inserting at a later index j of the rest is, on the original items, items[..i] + items[i+1..j+1] + [dragged] + items[j+1..]. |
| Sequences.MoveBackShape | drag-and-drop-vanilla-js/drag-and-drop.js:103-104 | Taking out index i and re-inserting at an earlier index j of the rest is, on the original items, items[..j] + [dragged] + items[j..i] + items[i+1..]. |
| Dom.NextSibling | drag-and-drop-vanilla-js/drag-and-drop.js:102 | `nextSibling` is null exactly for the last child. Otherwise it is the child at the next index. |
| Dom.Reference | drag-and-drop-vanilla-js/drag-and-drop.js:102-104 | The effective reference child of `insertBefore` is never the moved node. It is the given child, or the node's next sibling when the given child is the node itself. |
| Dom.InsertBefore | drag-and-drop-vanilla-js/drag-and-drop.js:102-104 | `insertBefore` keeps the number of children. What it does to them is pinned down by `Dom.InsertBeforeShape` and `Dom.InsertBeforeFacts`. |
| Dom.InsertBeforeShape | drag-and-drop-vanilla-js/drag-and-drop.js:102-104 | `insertBefore` takes the node out and puts it back at one index of the rest. That index is where the reference child stands, or the end for a null reference. |
| Dom.InsertBeforeFacts | drag-and-drop-vanilla-js/drag-and-drop.js:102-104 | `insertBefore` yields a permutation without repetitions. The other children keep their order. A null reference puts the node last. Any other reference ends up directly after the node. |
| Dom.InsertBeforeItself | drag-and-drop-vanilla-js/drag-and-drop.js:104 | `insertBefore(node, node)` leaves the children unchanged. |
| Reorder.DropReference | drag-and-drop-vanilla-js/drag-and-drop.js:97-105 | The reference `handleDrop` hands to `insertBefore` is null or one of the items. |
| Reorder.DropOrder | drag-and-drop-vanilla-js/drag-and-drop.js:97-105 | The order `handleDrop` leaves behind. Its partner lemmas state it on the original items: `Reorder.ForwardOnItems` for a later drop item, `Reorder.BackwardOnItems` for an earlier one, `Reorder.DropOnItself` for the dragged item itself, `Reorder.DropOnNoItem` for a null `dropNode`, and `Reorder.DropOrderFacts` for the permutation. |
| Reorder.DropOrderFacts | drag-and-drop-vanilla-js/drag-and-drop.js:97-105 | A drop is a permutation of the items. The result has no repetitions and still holds the dragged item. |
| Reorder.ForwardMove | drag-and-drop-vanilla-js/drag-and-drop.js:101-102 | When dragIndex < dropIndex, the dragged item is re-inserted at the drop item's old index among the remaining items. |
| Reorder.ForwardAdjacent | drag-and-drop-vanilla-js/drag-and-drop.js:101-102 | After a forward move, the dragged item sits immediately after the drop item. |
| Reorder.ForwardKeepsOthers | drag-and-drop-vanilla-js/drag-and-drop.js:101-102 | After a forward move, all other items keep their relative order. |
| Reorder.ForwardOnItems | drag-and-drop-vanilla-js/drag-and-drop.js:101-102 | Read on the original items (i the dragged index, j the drop index), a forward move gives items[..i] + items[i+1..j+1] + [dragged] + items[j+1..]. |
| Reorder.BackwardMove | drag-and-drop-vanilla-js/drag-and-drop.js:103-105 | When dragIndex >= dropIndex and the items differ, the dragged item is re-inserted at the drop item's index among the remaining items. |
| Reorder.BackwardAdjacent | drag-and-drop-vanilla-js/drag-and-drop.js:103-105 | After a backward move, the dragged item sits immediately before the drop item. |
| Reorder.BackwardKeepsOthers | drag-and-drop-vanilla-js/drag-and-drop.js:103-105 | After a backward move, all other items keep their relative order. |
| Reorder.BackwardOnItems | drag-and-drop-vanilla-js/drag-and-drop.js:103-105 | Read on the original items, a backward move onto an earlier j gives items[..j] + [dragged] + items[j..i] + items[i+1..]. |
| Reorder.DropOnItself | drag-and-drop-vanilla-js/drag-and-drop.js:103-105 | Dropping an item on itself leaves the order unchanged. |
| Reorder.DropOnNoItem | drag-and-drop-vanilla-js/drag-and-drop.js:97-105 | A drop whose target `closest` maps to no item (a null `dropNode`) appends the dragged item. The others keep their order. |
| Text.SubstringIndexFrom | drag-and-drop-vanilla-js/drag-and-drop.js:134 | The search returns the first occurrence at or after the start index, or -1 when there is none. |
| Text.SubstringIndex | drag-and-drop-vanilla-js/drag-and-drop.js:134 | `String.prototype.indexOf` is -1 exactly when the string is not a substring. Otherwise it is the first index where the string occurs. |
| Text.Split | drag-and-drop-vanilla-js/drag-and-drop.js:151 | `split` always yields at least one piece. `Text.SplitPiecesFree`, `Text.JoinSplit` and `Text.SplitJoin` pin the pieces down. |
| Text.Join | drag-and-drop-vanilla-js/drag-and-drop.js:153 | With two or more parts, the separator occurs in the joined string. The same join with a comma is the array-to-string conversion at :122. `Text.JoinSplit` and `Text.SplitJoin` make it the inverse of `Split`. |
| Text.SplitAround | drag-and-drop-vanilla-js/drag-and-drop.js:151 | Splitting a + sep + b gives the pieces of a followed by the pieces of b. |
| Text.SplitPiecesFree | drag-and-drop-vanilla-js/drag-and-drop.js:151 | No piece of a split holds the separator. |
| Text.JoinSplit | drag-and-drop-vanilla-js/drag-and-drop.js:151-153 | Joining the pieces of a split gives the string back. |
| Text.SplitJoin | drag-and-drop-vanilla-js/drag-and-drop.js:151-153 | Splitting a join of separator-free parts gives the parts back. |
| Text.SplitNoSeparator | drag-and-drop-vanilla-js/drag-and-drop.js:151 | A string without the separator splits into itself alone. |
| Text.JoinContainsPart | drag-and-drop-vanilla-js/drag-and-drop.js:153 | Every part of a join occurs in the joined string. |
| Text.SplitPieceOccurs | drag-and-drop-vanilla-js/drag-and-drop.js:150-151 | Every piece of a split is a substring of the split string. |
| Text.TrimStart | drag-and-drop-vanilla-js/drag-and-drop.js:153 | The result is a suffix that starts with non-whitespace. Everything cut off is whitespace. |
| Text.TrimEnd | drag-and-drop-vanilla-js/drag-and-drop.js:153 | The result is a prefix that ends with non-whitespace. Everything cut off is whitespace. |
| Text.Trim | drag-and-drop-vanilla-js/drag-and-drop.js:153 | `trim` gives a substring with no whitespace at either end, surrounded only by whitespace of the input. |
| Text.TrimIdempotent | drag-and-drop-vanilla-js/drag-and-drop.js:153 | Trimming twice is trimming once. |
| ClassName.Without | drag-and-drop-vanilla-js/drag-and-drop.js:151-152 | The filter keeps exactly the pieces different from `sel`. |
| ClassName.AddClass | drag-and-drop-vanilla-js/drag-and-drop.js:132-140 | An empty className stays empty. If `sel` is already a substring, the className is unchanged. Otherwise `sel` is appended and becomes a substring, and the old className is a prefix of the new one. |
| ClassName.RemoveClass | drag-and-drop-vanilla-js/drag-and-drop.js:148-158 | If `sel` is not a substring, the className is unchanged. Otherwise the result has no whitespace at either end. |
| ClassName.TokensTrim | drag-and-drop-vanilla-js/drag-and-drop.js:153 | When the only whitespace is spaces, `trim` does not change the class tokens. |
| ClassName.TokensJoin | drag-and-drop-vanilla-js/drag-and-drop.js:151-153 | The tokens of a space join of space-free pieces are its non-empty pieces. |
| ClassName.TokenOccurs | drag-and-drop-vanilla-js/drag-and-drop.js:134 | A token equal to `sel` makes `sel` a substring. |
| ClassName.RemoveClassTokens | drag-and-drop-vanilla-js/drag-and-drop.js:150-153 | Removing drops exactly the tokens equal to `sel`. The others keep their order. |
| ClassName.RemoveClassIdempotent | drag-and-drop-vanilla-js/drag-and-drop.js:148-158 | Removing a class twice is removing it once. |
| ClassName.AddClassTokens | drag-and-drop-vanilla-js/drag-and-drop.js:134-135 | Adding a class name that is not yet a substring makes it the last token. The earlier tokens are kept. |
| ClassName.AddClassIdempotent | drag-and-drop-vanilla-js/drag-and-drop.js:134-135 | Adding a class twice is adding it once. |
| ClassName.AddThenRemove | drag-and-drop-vanilla-js/drag-and-drop.js:132-158 | Adding a new class name and then removing it gives back the original tokens. |
| ClassName.AddClassSubstringNoToken | drag-and-drop-vanilla-js/drag-and-drop.js:134 | Once `sel` is a substring, adding it leaves the className unchanged, so a className without the token never gains it. |
| ClassName.AddClassSubstringBlocks | drag-and-drop-vanilla-js/drag-and-drop.js:134 | `"unhovered"` never gains the `hovered` token, because the guard is a substring test. |
| Snapshot.ListData | drag-and-drop-vanilla-js/drag-and-drop.js:195-206 | There is one entry per item, in order. The entry is null exactly for an empty text, and otherwise it is the text. |
| Snapshot.Cells | drag-and-drop-vanilla-js/drag-and-drop.js:122 | When an array is converted to a string, each null entry becomes the empty string. |
| Snapshot.AttributeValue | drag-and-drop-vanilla-js/drag-and-drop.js:122 | The stored attribute for an empty list is the empty string. |
| Snapshot.SnapshotRoundTrip | drag-and-drop-vanilla-js/drag-and-drop.js:119-123 | Splitting the stored attribute at commas gives back the item texts, when there is at least one item and no text holds a comma. |
| Snapshot.SnapshotEmptyAmbiguous | drag-and-drop-vanilla-js/drag-and-drop.js:122 | An empty list and a list of one text-less item store the same attribute. |
| DragDrop.TextsOf | drag-and-drop-vanilla-js/drag-and-drop.js:198-200 | The texts of the items, one per item, in order. |
| DragDrop.WithClassAdded | drag-and-drop-vanilla-js/drag-and-drop.js:132-140 | Only the given element's className changes, and it changes by `AddClass`. A null element changes nothing. |
| DragDrop.WithClassRemoved | drag-and-drop-vanilla-js/drag-and-drop.js:148-158 | Only the given element's className changes, and it changes by `RemoveClass`. |
| DragDrop.HoverIdempotent | drag-and-drop-vanilla-js/drag-and-drop.js:69-72 | A second drag enter on the same element changes nothing. |
| DragDrop.EnterThenLeave | drag-and-drop-vanilla-js/drag-and-drop.js:66-83 | A drag enter followed by a drag leave on the same item gives it back its class tokens. |
| DragDrop.DragDropList.Published | drag-and-drop-vanilla-js/drag-and-drop.js:119-122 | The value written to `data-list-data` is the snapshot of the enumerated items' texts. With no items it is the empty string. |
| DragDrop.DragDropList.PublishedRoundTrip | drag-and-drop-vanilla-js/drag-and-drop.js:119-123 | With at least one item and no comma in any text, splitting the published value at commas gives back the items' texts in order. |
| DragDrop.DragDropList.constructor | drag-and-drop-vanilla-js/drag-and-drop.js:4-7 | The script starts with no container, no enumerated items and no session. |
| DragDrop.DragDropList.ClosestItem | drag-and-drop-vanilla-js/drag-and-drop.js:180-187 | `closest` gives the target itself when it is an item. For a target that is not an item but lies in one, it is that enclosing item. Otherwise it is null. |
| DragDrop.DragDropList.UpdateNodeReferenceData | drag-and-drop-vanilla-js/drag-and-drop.js:119-124 | The enumerated items become the page's items, and the snapshot of their texts is written to `data-list-data`. |
| DragDrop.DragDropList.Init | drag-and-drop-vanilla-js/drag-and-drop.js:15-35 | It throws exactly when there is no container, and then changes nothing but the container reference (left null) and the enumerated node list. Otherwise it publishes the snapshot and marks exactly the discovered items draggable. It attaches the listeners exactly when there is at least one item. |
| DragDrop.DragDropList.MarkDraggable | drag-and-drop-vanilla-js/drag-and-drop.js:25-33 | After the loop, the draggable elements are the old ones plus every enumerated item. With no items, nothing changes. |
| DragDrop.DragDropList.DragStart | drag-and-drop-vanilla-js/drag-and-drop.js:45-49 | The dragged item becomes the session, and nothing else changes. |
| DragDrop.DragDropList.DragEnter | drag-and-drop-vanilla-js/drag-and-drop.js:66-73 | With a session, the closest item gets `hovered`. Without one, nothing changes. The session itself is untouched. |
| DragDrop.DragDropList.DragLeave | drag-and-drop-vanilla-js/drag-and-drop.js:80-83 | The item whose listener fires loses `hovered`. |
| DragDrop.DragDropList.Drop | drag-and-drop-vanilla-js/drag-and-drop.js:90-110 | Without a session the order is unchanged. With one, the items take their new order by the reorder rule. The items are always a permutation of the old ones. The target loses `hovered`, the snapshot is republished, and the session is kept. |
| DragDrop.DragDropList.Rearrange | drag-and-drop-vanilla-js/drag-and-drop.js:94-109 | This is the part of the drop after the first enumeration, with the same guarantees as `Drop`. |
| DragDrop.DragDropList.MoveDragged | drag-and-drop-vanilla-js/drag-and-drop.js:97-105 | The two-branch insertion on the freshly enumerated items yields the reorder rule's order. It is a permutation. |

## Left out

- `event.dataTransfer.setData`, `dropEffect` and `preventDefault`, and with them
  `handleDragOver` (drag-and-drop.js:46-47, 56-59, 67, 81, 91). These are
  browser-side effects that do not touch the list, the classes or the
  snapshot.
- The `addEventListener` calls (drag-and-drop.js:28-32). The browser does the
  dispatch. Each handler is a method. `handlersAttached` records whether
  registration happened, which is only when there is at least one item.
- Element.closest and CSS selector matching (drag-and-drop.js:180-187). The
  ancestor lookup is the given `enclosing` map, checked by `ClosestItem`.
- The document queries `getElementsByClassName` and `Array.from`
  (drag-and-drop.js:165-171, 212-219). The item sequence and the first
  container are given inputs. The container's children are taken to be
  exactly the items, so `nextSibling` means "the next item or the end".
- `innerText` rendering. Each item's text is a given string.
- The try/catch "silent fail" blocks.
  - The class helpers are total functions.
  - An element without a className is absent from the `classes` map and is
    left alone.
  - The uncaught TypeError at drag-and-drop.js:122 is the `threw` result of
    `Init`.
- The IIFE and its `window`/`document` wiring (drag-and-drop.js:1, 9, 221).
- DragDrop.DragDropList.DragStart: the model assumes the drag source is an
  item; the session is a single slot holding an item. In a browser, links,
  images and selected text inside an item can be dragged without being marked
  draggable. Their dragstart bubbles up to the item's listener, so `dragging`
  (:48) can hold such an inner node. `handleDrop` then finds dragIndex -1
  (:98). When `dropNode` is an item, -1 < dropIndex holds, so the forward
  branch inserts the inner node before `dropNode.nextSibling` (:101-102).
  When `dropNode` is null, -1 < -1 fails, so `insertBefore(dragging, null)`
  appends the inner node to the container (:103-104). Either way a non-item
  node moves into the container. The model does not capture that case.
- `Text.SubstringIndex` works on Unicode scalar values, while JavaScript
  strings are sequences of UTF-16 code units. Indices can differ for
  characters outside the Basic Multilingual Plane. The script only compares
  the result with -1 (:134, :150), and that outcome is the same under both
  readings.
- The token lemmas (`ClassName.RemoveClassTokens`, `ClassName.AddThenRemove`,
  `ClassName.RemoveClassIdempotent`, `ClassName.TokensTrim`) assume that the
  className's only whitespace is spaces. With tabs or newlines, `split(' ')`
  and `trim` disagree about token boundaries.
