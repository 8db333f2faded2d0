/** The read operations of the `database` module, as functions of the
    tables' contents, and the facts about them that do not involve a
    change of state. */
module Queries {
  import opened Schema
  import opened Tables

  /** A stored row as the record `SELECT *` deserialises it into. */
  function AsCategory(row: CategoryRow): Category {
    Category(Some(row.id), row.title, row.removed)
  }

  function AsEntry(row: EntryRow): Entry {
    Entry(Some(row.id), row.itemId, row.details)
  }

  /** An item row with its current details attached, as collect_items builds it. */
  function Detailed(row: ItemRow, entries: seq<EntryRow>): Item {
    Item(Some(row.id), row.categoryId, row.title, Some(CurrentDetails(entries, row.id)))
  }

  /** `ItemDetails::from_entry`: the five versioned columns of an entry. */
  function FromEntry(e: Entry): ItemDetails {
    e.details
  }

  /** collect_categories: every category row, once each, removed or not. */
  function CollectCategories(db: Db): (r: seq<Category>)
    ensures |r| == |db.categories|
    ensures forall c :: c in r <==> exists row :: row in db.categories && c == AsCategory(row)
  {
    var rows := db.categories;
    var r := seq(|rows|, i requires 0 <= i < |rows| => AsCategory(rows[i]));
    assert forall i :: 0 <= i < |rows| ==> r[i] == AsCategory(rows[i]);
    r
  }

  /** The entries of one item, in table order (`SELECT * FROM entry WHERE item_id = ...`). */
  function EntriesOf(rows: seq<EntryRow>, itemId: nat): (r: seq<Entry>)
    ensures |r| <= |rows|
    ensures forall e :: e in r <==> exists row :: row in rows && row.itemId == Some(itemId) && e == AsEntry(row)
    decreases |rows|
  {
    if rows == [] then []
    else
      var rest := EntriesOf(rows[1..], itemId);
      assert forall row :: row in rows <==> row == rows[0] || row in rows[1..];
      if rows[0].itemId == Some(itemId) then [AsEntry(rows[0])] + rest else rest
  }

  /** collect_item_entries: the whole history of one item. */
  function CollectItemEntries(db: Db, itemId: nat): (r: seq<Entry>)
    ensures forall e :: e in r <==> exists row :: row in db.entries && row.itemId == Some(itemId) && e == AsEntry(row)
    ensures forall e :: e in r ==> e.itemId == Some(itemId)
    ensures forall row: EntryRow :: row.itemId == Some(itemId) ==> multiset(r)[AsEntry(row)] == multiset(db.entries)[row]
  {
    EntriesOfCounts(db.entries, itemId);
    EntriesOf(db.entries, itemId)
  }

  /** Each row of the item occurs in its history as often as in the table,
      so no entry is listed twice. */
  lemma {:induction false} EntriesOfCounts(rows: seq<EntryRow>, itemId: nat)
    ensures forall row: EntryRow :: row.itemId == Some(itemId) ==>
      multiset(EntriesOf(rows, itemId))[AsEntry(row)] == multiset(rows)[row]
    decreases |rows|
  {
    if rows != [] {
      EntriesOfCounts(rows[1..], itemId);
      assert rows == [rows[0]] + rows[1..];
      forall row: EntryRow | row.itemId == Some(itemId)
        ensures multiset(EntriesOf(rows, itemId))[AsEntry(row)] == multiset(rows)[row]
      {
        assert AsEntry(rows[0]) == AsEntry(row) <==> rows[0] == row;
      }
    }
  }

  /** Appending an entry extends the history of its own item by that entry
      and leaves every other item's history as it was. */
  lemma {:induction false} EntriesOfAppend(rows: seq<EntryRow>, e: EntryRow, itemId: nat)
    ensures EntriesOf(rows + [e], itemId) ==
      EntriesOf(rows, itemId) + (if e.itemId == Some(itemId) then [AsEntry(e)] else [])
    decreases |rows|
  {
    if rows == [] {
      assert EntriesOf([e], itemId) == (if e.itemId == Some(itemId) then [AsEntry(e)] else []) + EntriesOf([], itemId);
    } else {
      assert (rows + [e])[1..] == rows[1..] + [e];
      EntriesOfAppend(rows[1..], e, itemId);
    }
  }

  /** The first row with the given id, the one `exec_first` without ORDER BY returns. */
  function FirstCategory(rows: seq<CategoryRow>, id: nat): (r: Option<CategoryRow>)
    ensures r.None? <==> forall i :: 0 <= i < |rows| ==> rows[i].id != id
    ensures r.Some? ==> r.value in rows && r.value.id == id
    decreases |rows|
  {
    if rows == [] then None
    else if rows[0].id == id then Some(rows[0])
    else
      var r := FirstCategory(rows[1..], id);
      assert forall i :: 1 <= i < |rows| ==> rows[i] == rows[1..][i - 1];
      r
  }

  /** The same `exec_first` lookup on the item table; the source runs one
      such query per table, so the model has one function per row type. */
  function FirstItem(rows: seq<ItemRow>, id: nat): (r: Option<ItemRow>)
    ensures r.None? <==> forall i :: 0 <= i < |rows| ==> rows[i].id != id
    ensures r.Some? ==> r.value in rows && r.value.id == id
    decreases |rows|
  {
    if rows == [] then None
    else if rows[0].id == id then Some(rows[0])
    else
      var r := FirstItem(rows[1..], id);
      assert forall i :: 1 <= i < |rows| ==> rows[i] == rows[1..][i - 1];
      r
  }

  /** With distinct category ids, the first row with a row's id is that row. */
  lemma FirstCategoryOfAllocated(rows: seq<CategoryRow>, next: nat, i: nat)
    requires Allocated(CategoryIds(rows), next)
    requires i < |rows|
    ensures FirstCategory(rows, rows[i].id) == Some(rows[i])
  {
    var r := FirstCategory(rows, rows[i].id);
    var j :| 0 <= j < |rows| && rows[j] == r.value;
    DistinctIds(CategoryIds(rows), next);
    assert CategoryIds(rows)[i] == rows[i].id && CategoryIds(rows)[j] == rows[j].id;
  }

  /** get_category: the category with that id, removed or not; a failure when there is none. */
  function GetCategory(db: Db, id: nat): (r: Result<Category>)
    ensures r.Err? <==> forall i :: 0 <= i < |db.categories| ==> db.categories[i].id != id
    ensures r.Err? ==> r.error == NoCategory(id)
    ensures r.Ok? ==> exists row :: row in db.categories && row.id == id && r.value == AsCategory(row)
  {
    match FirstCategory(db.categories, id)
    case Some(row) => Ok(AsCategory(row))
    case None => Err(NoCategory(id))
  }

  /** get_entry: the versioned columns of the item's latest entry; the
      projection drops the entry's own id and item id. A failure when the
      item has no entry. */
  function GetEntry(db: Db, itemId: nat): (r: Result<Entry>)
    ensures r.Err? <==> forall i :: 0 <= i < |db.entries| ==> db.entries[i].itemId != Some(itemId)
    ensures r.Err? ==> r.error == NoEntries(itemId)
    ensures r.Ok? ==> r.value.id.None? && r.value.itemId.None?
    ensures r.Ok? ==>
      exists row :: row in db.entries && row.itemId == Some(itemId) && r.value.details == row.details &&
        forall i :: 0 <= i < |db.entries| && db.entries[i].itemId == Some(itemId) ==> db.entries[i].id <= row.id
  {
    match LatestEntry(db.entries, itemId)
    case Some(row) => Ok(Entry(None, None, row.details))
    case None => Err(NoEntries(itemId))
  }

  /** get_item: the item row with that id and the details of its latest
      entry. It fails when no row has the id, and when the item has no entry. */
  function GetItem(db: Db, id: nat): (r: Result<Item>)
    ensures r == Err(NoItem(id)) <==> forall i :: 0 <= i < |db.items| ==> db.items[i].id != id
    ensures r == Err(NoEntries(id)) <==>
      (exists i :: 0 <= i < |db.items| && db.items[i].id == id)
      && forall i :: 0 <= i < |db.entries| ==> db.entries[i].itemId != Some(id)
    ensures r.Err? ==> r.error == NoItem(id) || r.error == NoEntries(id)
    ensures r.Ok? ==> exists row :: row in db.items && row.id == id && r.value == Detailed(row, db.entries)
  {
    match FirstItem(db.items, id)
    case None => Err(NoItem(id))
    case Some(row) =>
      match GetEntry(db, id)
      case Err(e) => Err(e)
      case Ok(entry) => Ok(Item(Some(id), row.categoryId, row.title, Some(FromEntry(entry))))
  }

  /** Some entry belongs to the item. */
  predicate HasEntry(entries: seq<EntryRow>, itemId: nat) {
    exists j :: 0 <= j < |entries| && entries[j].itemId == Some(itemId)
  }

  /** Every item row has at least one entry. */
  predicate EveryItemHasEntry(items: seq<ItemRow>, entries: seq<EntryRow>) {
    forall i :: 0 <= i < |items| ==> HasEntry(entries, items[i].id)
  }

  /** The id column of the table with that name, or None for any other name. */
  function TableIds(db: Db, tableName: string): Option<seq<nat>> {
    if tableName == CategoryTable then Some(CategoryIds(db.categories))
    else if tableName == ItemTable then Some(ItemIds(db.items))
    else if tableName == EntryTable then Some(EntryIds(db.entries))
    else None
  }

  /** get_autoincremented_id: the greatest id in the named table. It fails
      on an empty table and on a name that is not a table. */
  function GetAutoincrementedId(db: Db, tableName: string): (r: Result<nat>)
    ensures TableIds(db, tableName).None? ==> r == Err(UnknownTable(tableName))
    ensures TableIds(db, tableName) == Some([]) ==> r == Err(EmptyTable(tableName))
    ensures r.Ok? ==>
      var ids := TableIds(db, tableName).value;
      r.value in ids && forall i :: 0 <= i < |ids| ==> ids[i] <= r.value
    ensures r.Err? ==> TableIds(db, tableName).None? || TableIds(db, tableName) == Some([])
  {
    match TableIds(db, tableName)
    case None => Err(UnknownTable(tableName))
    case Some(ids) => if ids == [] then Err(EmptyTable(tableName)) else Ok(MaxId(ids))
  }

  /** The map collect_items returns: each item row, keyed by its id, with
      its current details. A later row with the same id replaces an earlier
      one, as `BTreeMap::insert` does. */
  function CurrentItems(items: seq<ItemRow>, entries: seq<EntryRow>): (r: map<nat, Item>)
    ensures forall i :: 0 <= i < |items| ==> items[i].id in r
    ensures forall k :: k in r ==>
      exists i :: 0 <= i < |items| && items[i].id == k && r[k] == Detailed(items[i], entries)
    decreases |items|
  {
    if items == [] then map[]
    else
      var earlier := items[..|items| - 1];
      var last := items[|items| - 1];
      var r := CurrentItems(earlier, entries);
      assert forall i :: 0 <= i < |earlier| ==> items[i] == earlier[i];
      assert items[|items| - 1] == last;
      r[last.id := Detailed(last, entries)]
  }

  /** collect_items over one more row: that row's id now maps to that row. */
  lemma CurrentItemsSnoc(items: seq<ItemRow>, entries: seq<EntryRow>, row: ItemRow)
    ensures CurrentItems(items + [row], entries) == CurrentItems(items, entries)[row.id := Detailed(row, entries)]
  {
    assert (items + [row])[..|items|] == items;
  }

  /** collect_items over a prefix one row longer: that row's id now maps to that row. */
  lemma CurrentItemsExtend(items: seq<ItemRow>, entries: seq<EntryRow>, i: nat)
    requires i < |items|
    ensures CurrentItems(items[..i + 1], entries) == CurrentItems(items[..i], entries)[items[i].id := Detailed(items[i], entries)]
  {
    assert items[..i + 1] == items[..i] + [items[i]];
    CurrentItemsSnoc(items[..i], entries, items[i]);
  }

  /** Every value of collect_items carries its own key as id, and details. */
  lemma CurrentItemsKeyed(items: seq<ItemRow>, entries: seq<EntryRow>)
    ensures var r := CurrentItems(items, entries);
      forall k :: k in r ==> r[k].id == Some(k) && r[k].details.Some?
  {
  }

  /** With distinct item ids, every item appears under its own id with its own row. */
  lemma CurrentItemsAt(items: seq<ItemRow>, entries: seq<EntryRow>, next: nat, i: nat)
    requires Allocated(ItemIds(items), next)
    requires i < |items|
    ensures CurrentItems(items, entries)[items[i].id] == Detailed(items[i], entries)
  {
    var r := CurrentItems(items, entries);
    var ids := ItemIds(items);
    var j :| 0 <= j < |items| && items[j].id == items[i].id && r[items[i].id] == Detailed(items[j], entries);
    DistinctIds(ids, next);
    assert ids[i] == items[i].id && ids[j] == items[j].id;
  }

  /** get_item agrees with collect_items: whatever get_item returns is the
      value collect_items has under that id. */
  lemma GetItemInCurrentItems(db: Db, next: nat, id: nat)
    requires Allocated(ItemIds(db.items), next)
    requires GetItem(db, id).Ok?
    ensures id in CurrentItems(db.items, db.entries)
    ensures CurrentItems(db.items, db.entries)[id] == GetItem(db, id).value
  {
    var row :| row in db.items && row.id == id && GetItem(db, id).value == Detailed(row, db.entries);
    var i :| 0 <= i < |db.items| && db.items[i] == row;
    CurrentItemsAt(db.items, db.entries, next, i);
  }

  /** An active category holds the title: equal title, not removed. */
  predicate CategoryTitleActive(categories: seq<CategoryRow>, title: string) {
    exists i :: 0 <= i < |categories| && categories[i].title == title && !categories[i].removed
  }

  /** An active item holds the title: equal title, current details not removed. */
  predicate ItemTitleActive(items: seq<ItemRow>, entries: seq<EntryRow>, title: string) {
    exists i :: 0 <= i < |items| && items[i].title == title && !CurrentDetails(entries, items[i].id).removed
  }

  /** The item test of title_taken's scan: the title matches and the
      item's details are present and not removed. */
  predicate HoldsActiveTitle(item: Item, title: string) {
    item.title == title && item.details.Some? && !item.details.value.removed
  }

  /** What title_taken answers for each table name. */
  function TitleTakenIn(db: Db, title: string, tableName: string): Result<bool> {
    if tableName == CategoryTable then Ok(CategoryTitleActive(db.categories, title))
    else if tableName == ItemTable then Ok(ItemTitleActive(db.items, db.entries, title))
    else Err(InvalidTableName)
  }

  /** No two active categories share a title. */
  predicate ActiveCategoryTitlesDistinct(categories: seq<CategoryRow>) {
    forall i, j :: 0 <= i < j < |categories| && !categories[i].removed && !categories[j].removed ==>
      categories[i].title != categories[j].title
  }

  /** No two active items share a title. */
  predicate ActiveItemTitlesDistinct(items: seq<ItemRow>, entries: seq<EntryRow>) {
    forall i, j ::
      (0 <= i < j < |items| &&
       !CurrentDetails(entries, items[i].id).removed && !CurrentDetails(entries, items[j].id).removed) ==>
      items[i].title != items[j].title
  }
}
