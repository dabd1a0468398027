/**
 * The order snapshot: getDraggableNodeListData's array of item texts and
 * the string setAttribute stores for it in data-list-data.
 */
module Snapshot {
  import opened Wrappers
  import opened Text

  /** getDraggableNodeListData (:195-206): each item's text, or null for an empty text. */
  function ListData(texts: seq<string>): (r: seq<Option<string>>)
    ensures |r| == |texts|
    ensures forall i :: 0 <= i < |texts| ==> (r[i].None? <==> texts[i] == "")
    ensures forall i :: 0 <= i < |texts| && r[i].Some? ==> r[i].value == texts[i]
  {
    if texts == [] then []
    else [if texts[0] == "" then None else Some(texts[0])] + ListData(texts[1..])
  }

  /** The cells Array.prototype.join writes: a null entry becomes the empty string. */
  function Cells(data: seq<Option<string>>): (r: seq<string>)
    ensures |r| == |data|
    ensures forall i :: 0 <= i < |data| ==> r[i] == data[i].GetOr("")
  {
    if data == [] then [] else [data[0].GetOr("")] + Cells(data[1..])
  }

  /**
   * The attribute value setAttribute('data-list-data', data) stores: the
   * array converted to a string, which is its join with commas.
   */
  function AttributeValue(data: seq<Option<string>>): (r: string)
    ensures data == [] ==> r == ""
  {
    Join(Cells(data), ',')
  }

  /**
   * The stored value decodes back to the item texts by splitting at commas,
   * when there is at least one item and no text holds a comma.
   */
  lemma SnapshotRoundTrip(texts: seq<string>)
    requires |texts| >= 1
    requires forall t :: t in texts ==> ',' !in t
    ensures Split(AttributeValue(ListData(texts)), ',') == texts
  {
    var cells := Cells(ListData(texts));
    assert cells == texts;
    SplitJoin(texts, ',');
  }

  /**
   * The snapshot cannot tell an empty list from a list of one item without
   * text: both are stored as the empty string.
   */
  lemma SnapshotEmptyAmbiguous()
    ensures AttributeValue(ListData([])) == AttributeValue(ListData([""])) == ""
  {
    assert ListData([""]) == [None];
  }
}
