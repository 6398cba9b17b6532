/**
 * The recycle bin (utils/structures.py:283-309): a list of deleted items,
 * each the snapshot of a file or folder with the path it was deleted
 * from, addressed by position.
 */
module RecycleBins {
  import opened Wrappers
  import opened FileTree

  /** One entry: `{'original_path': ..., 'item_data': ...}`. */
  datatype BinItem = BinItem(originalPath: string, data: Snapshot)

  /** The entry at `index`, or None for any index outside the list, negative ones included. */
  function ItemAt(items: seq<BinItem>, index: int): (r: Option<BinItem>)
    ensures r.None? <==> index < 0 || index >= |items|
    ensures r.Some? ==> r.value == items[index]
  {
    if 0 <= index < |items| then Some(items[index]) else None
  }

  /** The list after `pop(index)` when the index is in range; the same list otherwise. */
  function Without(items: seq<BinItem>, index: int): seq<BinItem>
  {
    if 0 <= index < |items| then RemoveAt(items, index) else items
  }

  /**
   * Removing entry `index` shortens the list by one, keeps the entries
   * before it and shifts every later entry down by one; an index out of
   * range changes nothing.
   */
  lemma WithoutShifts(items: seq<BinItem>, index: int)
    ensures ItemAt(items, index).None? ==> Without(items, index) == items
    ensures ItemAt(items, index).Some? ==>
              |Without(items, index)| == |items| - 1 &&
              (forall j :: 0 <= j < index ==> ItemAt(Without(items, index), j) == ItemAt(items, j)) &&
              (forall j :: index <= j ==> ItemAt(Without(items, index), j) == ItemAt(items, j + 1))
  {
  }

  /** The entry added last sits at the end, and removing it gives back the list before. */
  lemma AddThenRemoveLast(items: seq<BinItem>, item: BinItem)
    ensures ItemAt(items + [item], |items|) == Some(item)
    ensures Without(items + [item], |items|) == items
  {
    assert (items + [item])[..|items|] == items;
  }

  class RecycleBin {
    var items: seq<BinItem>

    constructor()
      ensures items == []
    {
      items := [];
    }

    /** `add_item`: append at the end. */
    method AddItem(originalPath: string, data: Snapshot)
      modifies this
      ensures items == old(items) + [BinItem(originalPath, data)]
    {
      items := items + [BinItem(originalPath, data)];
    }

    /** `get_all_items`. */
    method GetAllItems() returns (r: seq<BinItem>)
      ensures r == items
    {
      r := items;
    }

    /** `get_item`: the entry at `index` if `0 <= index < len(items)`. */
    method GetItem(index: int) returns (r: Option<BinItem>)
      ensures r == ItemAt(items, index)
    {
      if 0 <= index < |items| {
        r := Some(items[index]);
      } else {
        r := None;
      }
    }

    /** `remove_item`: pop the entry at `index` if it is in range. */
    method RemoveItem(index: int) returns (r: Option<BinItem>)
      modifies this
      ensures r == ItemAt(old(items), index)
      ensures items == Without(old(items), index)
    {
      if 0 <= index < |items| {
        r := Some(items[index]);
        items := items[..index] + items[index + 1..];
      } else {
        r := None;
      }
    }

    /** `recycle_bin.items = []` (app.py:562). */
    method Clear()
      modifies this
      ensures items == []
    {
      items := [];
    }
  }
}
