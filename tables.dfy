/** Row-level meaning of the SQL statements the store issues: the id
    columns, the auto-increment discipline, "latest entry by id", and the
    three UPDATE statements. */
module Tables {
  import opened Schema

  /** The id column of each table, in table order. */
  function CategoryIds(rows: seq<CategoryRow>): seq<nat> {
    seq(|rows|, i requires 0 <= i < |rows| => rows[i].id)
  }

  function ItemIds(rows: seq<ItemRow>): seq<nat> {
    seq(|rows|, i requires 0 <= i < |rows| => rows[i].id)
  }

  function EntryIds(rows: seq<EntryRow>): seq<nat> {
    seq(|rows|, i requires 0 <= i < |rows| => rows[i].id)
  }

  /** The ids of a table whose AUTO_INCREMENT counter stands at `next`:
      strictly increasing in append order, all below the counter. */
  predicate Allocated(ids: seq<nat>, next: nat) {
    && (forall i, j :: 0 <= i < j < |ids| ==> ids[i] < ids[j])
    && (forall i :: 0 <= i < |ids| ==> ids[i] < next)
  }

  /** Allocated ids are distinct: an id picks out one row. */
  lemma DistinctIds(ids: seq<nat>, next: nat)
    requires Allocated(ids, next)
    ensures forall i, j :: 0 <= i < |ids| && 0 <= j < |ids| && ids[i] == ids[j] ==> i == j
  {
  }

  /** Appending the counter's value and advancing the counter keeps the discipline. */
  lemma AllocateNext(ids: seq<nat>, next: nat)
    requires Allocated(ids, next)
    ensures Allocated(ids + [next], next + 1)
  {
  }

  /** `SELECT id FROM t ORDER BY id DESC LIMIT 1`: the greatest id. */
  function MaxId(ids: seq<nat>): (m: nat)
    requires |ids| > 0
    ensures m in ids
    ensures forall i :: 0 <= i < |ids| ==> ids[i] <= m
  {
    if |ids| == 1 then ids[0]
    else
      var rest := MaxId(ids[1..]);
      assert forall i :: 1 <= i < |ids| ==> ids[i] == ids[1..][i - 1];
      if rest < ids[0] then ids[0] else rest
  }

  /** Under the auto-increment discipline the greatest id is the one appended last. */
  lemma MaxIdIsLast(ids: seq<nat>, next: nat)
    requires Allocated(ids, next) && |ids| > 0
    ensures MaxId(ids) == ids[|ids| - 1]
  {
    var m := MaxId(ids);
    var k :| 0 <= k < |ids| && ids[k] == m;
    assert ids[|ids| - 1] <= m;
    if k < |ids| - 1 {
      assert ids[k] < ids[|ids| - 1];
    }
  }

  /** The first row of `SELECT ... FROM entry WHERE item_id = :id ORDER BY id DESC`:
      the entry of the item with the greatest entry id, or None if it has none. */
  function LatestEntry(rows: seq<EntryRow>, itemId: nat): (r: Option<EntryRow>)
    ensures r.None? <==> forall i :: 0 <= i < |rows| ==> rows[i].itemId != Some(itemId)
    ensures r.Some? ==> r.value in rows && r.value.itemId == Some(itemId)
    ensures r.Some? ==>
      forall i :: 0 <= i < |rows| && rows[i].itemId == Some(itemId) ==> rows[i].id <= r.value.id
    decreases |rows|
  {
    if rows == [] then None
    else
      var earlier := rows[..|rows| - 1];
      var last := rows[|rows| - 1];
      var best := LatestEntry(earlier, itemId);
      assert forall i :: 0 <= i < |earlier| ==> rows[i] == earlier[i];
      if last.itemId != Some(itemId) then best
      else if best.Some? && last.id < best.value.id then best
      else Some(last)
  }

  /** The current details of an item as collect_items reads them: those of
      its latest entry, or the default details when it has no entry. */
  function CurrentDetails(rows: seq<EntryRow>, itemId: nat): ItemDetails {
    match LatestEntry(rows, itemId)
    case Some(e) => e.details
    case None => NewDetails
  }

  /** What the current details are: the default details when the item has
      no entry, and otherwise those of a stored entry of the item that no
      other entry of the item outnumbers. */
  lemma CurrentDetailsIsLatest(rows: seq<EntryRow>, itemId: nat)
    ensures (forall i :: 0 <= i < |rows| ==> rows[i].itemId != Some(itemId)) ==>
      CurrentDetails(rows, itemId) == NewDetails
    ensures (exists k :: 0 <= k < |rows| && rows[k].itemId == Some(itemId)) ==>
      exists e :: (e in rows && e.itemId == Some(itemId) && CurrentDetails(rows, itemId) == e.details &&
        forall i :: 0 <= i < |rows| && rows[i].itemId == Some(itemId) ==> rows[i].id <= e.id)
  {
    var r := LatestEntry(rows, itemId);
    if r.Some? {
      assert CurrentDetails(rows, itemId) == r.value.details;
    }
  }

  /** Appending an entry of another item leaves an item's latest entry alone. */
  lemma LatestEntryAppendOther(rows: seq<EntryRow>, e: EntryRow, itemId: nat)
    requires e.itemId != Some(itemId)
    ensures LatestEntry(rows + [e], itemId) == LatestEntry(rows, itemId)
  {
    assert (rows + [e])[..|rows|] == rows;
  }

  /** An appended entry whose id exceeds every stored entry id becomes its item's latest. */
  lemma LatestEntryAppendNewest(rows: seq<EntryRow>, e: EntryRow, itemId: nat)
    requires e.itemId == Some(itemId)
    requires forall i :: 0 <= i < |rows| ==> rows[i].id < e.id
    ensures LatestEntry(rows + [e], itemId) == Some(e)
  {
    assert (rows + [e])[..|rows|] == rows;
  }

  /** Under the auto-increment discipline the latest entry of an item is its
      last entry in append order. */
  lemma LatestEntryIsLastAppended(rows: seq<EntryRow>, next: nat, itemId: nat, k: nat)
    requires Allocated(EntryIds(rows), next)
    requires k < |rows| && rows[k].itemId == Some(itemId)
    requires forall i :: k < i < |rows| ==> rows[i].itemId != Some(itemId)
    ensures LatestEntry(rows, itemId) == Some(rows[k])
  {
    var r := LatestEntry(rows, itemId);
    var ids := EntryIds(rows);
    var j :| 0 <= j < |rows| && rows[j] == r.value;
    assert ids[j] == rows[j].id && ids[k] == rows[k].id;
  }

  /** `UPDATE entry SET removed = 1 WHERE item_id = :item_id`. */
  function MarkEntriesRemoved(rows: seq<EntryRow>, itemId: nat): (r: seq<EntryRow>)
    ensures |r| == |rows|
    ensures forall i :: 0 <= i < |rows| ==> r[i].id == rows[i].id && r[i].itemId == rows[i].itemId
    ensures forall i :: 0 <= i < |rows| && rows[i].itemId == Some(itemId) ==>
      r[i].details == rows[i].details.(removed := true)
    ensures forall i :: 0 <= i < |rows| && rows[i].itemId != Some(itemId) ==> r[i] == rows[i]
    decreases |rows|
  {
    if rows == [] then []
    else
      var last := rows[|rows| - 1];
      MarkEntriesRemoved(rows[..|rows| - 1], itemId)
        + [if last.itemId == Some(itemId) then last.(details := last.details.(removed := true)) else last]
  }

  /** `UPDATE category SET removed = 1 WHERE id = :id`. */
  function MarkCategoryRemoved(rows: seq<CategoryRow>, id: nat): (r: seq<CategoryRow>)
    ensures |r| == |rows|
    ensures forall i :: 0 <= i < |rows| && rows[i].id == id ==> r[i] == rows[i].(removed := true)
    ensures forall i :: 0 <= i < |rows| && rows[i].id != id ==> r[i] == rows[i]
    decreases |rows|
  {
    if rows == [] then []
    else
      var last := rows[|rows| - 1];
      MarkCategoryRemoved(rows[..|rows| - 1], id)
        + [if last.id == id then last.(removed := true) else last]
  }

  /** `UPDATE item SET title = :title, category_id = :category_id WHERE id = :id`.
      A missing id binds NULL, which no row matches. */
  function RetitleItem(rows: seq<ItemRow>, id: Option<nat>, title: string, categoryId: nat): (r: seq<ItemRow>)
    ensures |r| == |rows|
    ensures forall i :: 0 <= i < |rows| && id == Some(rows[i].id) ==>
      r[i] == rows[i].(title := title, categoryId := categoryId)
    ensures forall i :: 0 <= i < |rows| && id != Some(rows[i].id) ==> r[i] == rows[i]
    decreases |rows|
  {
    if rows == [] then []
    else
      var last := rows[|rows| - 1];
      RetitleItem(rows[..|rows| - 1], id, title, categoryId)
        + [if id == Some(last.id) then last.(title := title, categoryId := categoryId) else last]
  }

  /** Soft-deleting an item's entries leaves its latest entry the same row,
      now marked removed. */
  lemma {:induction false} LatestEntryAfterMark(rows: seq<EntryRow>, itemId: nat)
    ensures LatestEntry(MarkEntriesRemoved(rows, itemId), itemId) ==
      match LatestEntry(rows, itemId)
      case Some(e) => Some(e.(details := e.details.(removed := true)))
      case None => None
    decreases |rows|
  {
    if rows != [] {
      var marked := MarkEntriesRemoved(rows, itemId);
      var earlier := rows[..|rows| - 1];
      LatestEntryAfterMark(earlier, itemId);
      assert marked[..|marked| - 1] == MarkEntriesRemoved(earlier, itemId);
    }
  }

  /** Soft-deleting one item's entries leaves every other item's latest entry alone. */
  lemma {:induction false} LatestEntryAfterMarkOther(rows: seq<EntryRow>, itemId: nat, other: nat)
    requires other != itemId
    ensures LatestEntry(MarkEntriesRemoved(rows, itemId), other) == LatestEntry(rows, other)
    decreases |rows|
  {
    if rows != [] {
      var marked := MarkEntriesRemoved(rows, itemId);
      var earlier := rows[..|rows| - 1];
      LatestEntryAfterMarkOther(earlier, itemId, other);
      assert marked[..|marked| - 1] == MarkEntriesRemoved(earlier, itemId);
    }
  }

  /** Soft-deleting an item's entries twice is the same as once. */
  lemma MarkEntriesRemovedIdempotent(rows: seq<EntryRow>, itemId: nat)
    ensures MarkEntriesRemoved(MarkEntriesRemoved(rows, itemId), itemId) == MarkEntriesRemoved(rows, itemId)
  {
    var once := MarkEntriesRemoved(rows, itemId);
    var twice := MarkEntriesRemoved(once, itemId);
    assert forall i :: 0 <= i < |rows| ==> twice[i] == once[i];
  }

  /** Soft-deleting a category twice is the same as once. */
  lemma MarkCategoryRemovedIdempotent(rows: seq<CategoryRow>, id: nat)
    ensures MarkCategoryRemoved(MarkCategoryRemoved(rows, id), id) == MarkCategoryRemoved(rows, id)
  {
    var once := MarkCategoryRemoved(rows, id);
    var twice := MarkCategoryRemoved(once, id);
    assert forall i :: 0 <= i < |rows| ==> twice[i] == once[i];
  }
}
