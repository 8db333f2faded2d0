/** The MySQL store behind the connection, as one object: the three tables
    and their AUTO_INCREMENT counters. Every statement of the `database`
    module runs to completion before the next one starts. */
module Database {
  import opened Schema
  import opened Tables
  import opened Queries
  import opened Properties

  class Store {
    var categories: seq<CategoryRow>
    var items: seq<ItemRow>
    var entries: seq<EntryRow>
    /** The id the next inserted row of each table receives. */
    var nextCategoryId: nat
    var nextItemId: nat
    var nextEntryId: nat

    /** Every table's ids were handed out by its counter, in append order. */
    ghost predicate Valid()
      reads this
    {
      && Allocated(CategoryIds(categories), nextCategoryId)
      && Allocated(ItemIds(items), nextItemId)
      && Allocated(EntryIds(entries), nextEntryId)
    }

    /** Every item has at least one entry. insert_item writes an item's
        first entry with it and nothing deletes an entry, so every method
        keeps this. */
    ghost predicate Populated()
      reads this
    {
      EveryItemHasEntry(items, entries)
    }

    /** What a query on the connection sees. */
    function Contents(): Db
      reads this
    {
      Db(categories, items, entries)
    }

    /** An empty schema; AUTO_INCREMENT starts at 1. */
    constructor ()
      ensures Valid() && Populated()
      ensures Contents() == Db([], [], [])
      ensures nextCategoryId == 1 && nextItemId == 1 && nextEntryId == 1
    {
      categories, items, entries := [], [], [];
      nextCategoryId, nextItemId, nextEntryId := 1, 1, 1;
    }

    /** collect_items: every item with its current details, keyed by item id. */
    method CollectItems() returns (result: map<nat, Item>)
      ensures result == CurrentItems(items, entries)
      ensures forall k :: k in result ==> result[k].id == Some(k) && result[k].details.Some?
    {
      var rows := items;
      var detailsList: seq<ItemDetails> := [];
      for i := 0 to |rows|
        invariant |detailsList| == i
        invariant forall j :: 0 <= j < i ==> detailsList[j] == CurrentDetails(entries, rows[j].id)
      {
        var details := match LatestEntry(entries, rows[i].id)
          case Some(e) => e.details
          case None => NewDetails;
        detailsList := detailsList + [details];
      }
      result := map[];
      for i := 0 to |rows|
        invariant result == CurrentItems(rows[..i], entries)
      {
        var item := Item(Some(rows[i].id), rows[i].categoryId, rows[i].title, Some(detailsList[i]));
        assert item == Detailed(rows[i], entries);
        CurrentItemsExtend(rows, entries, i);
        result := result[rows[i].id := item];
      }
      assert rows[..|rows|] == rows;
      CurrentItemsKeyed(rows, entries);
    }

    /** title_taken: whether an active category or item already has exactly
        this title; any other table name is a failure. */
    method TitleTaken(title: string, tableName: string) returns (r: Result<bool>)
      requires Valid()
      ensures r == TitleTakenIn(Contents(), title, tableName)
    {
      if tableName == CategoryTable {
        var taken := CategoryTitleTaken(title);
        r := Ok(taken);
      } else if tableName == ItemTable {
        var taken := ItemTitleTaken(title);
        r := Ok(taken);
      } else {
        r := Err(InvalidTableName);
      }
    }

    /** The category branch of title_taken: a scan of collect_categories
        that stops at the first active category with an equal title. */
    method CategoryTitleTaken(title: string) returns (taken: bool)
      ensures taken == CategoryTitleActive(categories, title)
    {
      var all := CollectCategories(Contents());
      CategoryTitleActiveInCollected(Contents(), title);
      for i := 0 to |all|
        invariant forall j :: 0 <= j < i ==> !(all[j].title == title && !all[j].removed)
      {
        if all[i].title == title && !all[i].removed {
          return true;
        }
      }
      return false;
    }

    /** The item branch of title_taken: a scan of collect_items that stops
        at the first item with an equal title whose current details are not
        removed. */
    method ItemTitleTaken(title: string) returns (taken: bool)
      requires Valid()
      ensures taken == ItemTitleActive(items, entries, title)
    {
      var all := CollectItems();
      var rest := all.Keys;
      while rest != {}
        invariant rest <= all.Keys
        invariant forall k :: k in all && k !in rest ==> !HoldsActiveTitle(all[k], title)
        decreases rest
      {
        var k :| k in rest;
        if HoldsActiveTitle(all[k], title) {
          ItemTitleActiveInCurrentItems(items, entries, nextItemId, title);
          return true;
        }
        rest := rest - {k};
      }
      ItemTitleActiveInCurrentItems(items, entries, nextItemId, title);
      return false;
    }

    /** insert_category: appends one active category with that title. */
    method InsertCategory(title: string)
      requires Valid()
      modifies this
      ensures Valid()
      ensures old(Populated()) ==> Populated()
      ensures categories == old(categories) + [CategoryRow(old(nextCategoryId), title, false)]
      ensures nextCategoryId == old(nextCategoryId) + 1
      ensures items == old(items) && entries == old(entries)
      ensures nextItemId == old(nextItemId) && nextEntryId == old(nextEntryId)
    {
      var row := CategoryRow(nextCategoryId, title, false);
      AllocateNext(CategoryIds(categories), nextCategoryId);
      assert CategoryIds(categories + [row]) == CategoryIds(categories) + [row.id];
      categories := categories + [row];
      nextCategoryId := nextCategoryId + 1;
    }

    /** insert_entry: appends one entry for `item.id` carrying `item.details`;
        an item without details is a failure that writes nothing. */
    method InsertEntry(item: Item) returns (r: Result<()>)
      requires Valid()
      modifies this
      ensures Valid()
      ensures old(Populated()) ==> Populated()
      ensures item.details.None? ==>
        r == Err(MissingDetails) && entries == old(entries) && nextEntryId == old(nextEntryId)
      ensures item.details.Some? ==>
        && r == Ok(())
        && entries == old(entries) + [EntryRow(old(nextEntryId), item.id, item.details.value)]
        && nextEntryId == old(nextEntryId) + 1
      ensures categories == old(categories) && items == old(items)
      ensures nextCategoryId == old(nextCategoryId) && nextItemId == old(nextItemId)
    {
      if item.details.None? {
        return Err(MissingDetails);
      }
      var row := EntryRow(nextEntryId, item.id, item.details.value);
      AllocateNext(EntryIds(entries), nextEntryId);
      assert EntryIds(entries + [row]) == EntryIds(entries) + [row.id];
      if Populated() {
        AppendEntryKeepsEntries(items, entries, row);
      }
      entries := entries + [row];
      nextEntryId := nextEntryId + 1;
      r := Ok(());
    }

    /** insert_item: appends the item row, reads its id back with
        get_autoincremented_id, writes it into the item, and appends the
        item's first entry. The returned item is the caller's item after
        the write-back. */
    method InsertItem(item: Item) returns (r: Result<Item>)
      requires Valid()
      modifies this
      ensures Valid()
      ensures old(Populated()) ==> Populated()
      ensures item.details.None? ==> r == Err(MissingDetails) && Contents() == old(Contents())
      ensures item.details.None? ==>
        nextCategoryId == old(nextCategoryId) && nextItemId == old(nextItemId) && nextEntryId == old(nextEntryId)
      ensures item.details.Some? ==>
        && r == Ok(item.(id := Some(old(nextItemId))))
        && items == old(items) + [ItemRow(old(nextItemId), item.categoryId, item.title)]
        && entries == old(entries) + [EntryRow(old(nextEntryId), Some(old(nextItemId)), item.details.value)]
        && nextItemId == old(nextItemId) + 1 && nextEntryId == old(nextEntryId) + 1
      ensures r.Ok? ==> GetAutoincrementedId(Contents(), ItemTable) == Ok(old(nextItemId))
      ensures categories == old(categories) && nextCategoryId == old(nextCategoryId)
    {
      if item.details.None? {
        return Err(MissingDetails);
      }
      var row := ItemRow(nextItemId, item.categoryId, item.title);
      ghost var first := EntryRow(nextEntryId, Some(nextItemId), item.details.value);
      ghost var wasPopulated := Populated();
      AllocateNext(ItemIds(items), nextItemId);
      assert ItemIds(items + [row]) == ItemIds(items) + [row.id];
      items := items + [row];
      nextItemId := nextItemId + 1;
      MaxIdIsLast(ItemIds(items), nextItemId);
      var id := GetAutoincrementedId(Contents(), ItemTable);
      var written := item.(id := Some(id.value));
      var _ := InsertEntry(written);
      r := Ok(written);
      assert items == old(items) + [row] && entries == old(entries) + [first];
      if wasPopulated {
        InsertItemKeepsEntries(old(items), old(entries), row, first);
      }
    }

    /** update_item: rewrites title and category of the row whose id is
        `item.id` (none when the id is missing or unknown), then appends an
        entry with `item.details` whether or not a row matched. */
    method UpdateItem(item: Item) returns (r: Result<()>)
      requires Valid()
      modifies this
      ensures Valid()
      ensures old(Populated()) ==> Populated()
      ensures items == RetitleItem(old(items), item.id, item.title, item.categoryId)
      ensures item.details.None? ==>
        r == Err(MissingDetails) && entries == old(entries) && nextEntryId == old(nextEntryId)
      ensures item.details.Some? ==>
        && r == Ok(())
        && entries == old(entries) + [EntryRow(old(nextEntryId), item.id, item.details.value)]
        && nextEntryId == old(nextEntryId) + 1
      ensures categories == old(categories)
      ensures nextCategoryId == old(nextCategoryId) && nextItemId == old(nextItemId)
    {
      var retitled := RetitleItem(items, item.id, item.title, item.categoryId);
      assert ItemIds(retitled) == ItemIds(items);
      if Populated() {
        RetitleKeepsEntries(items, entries, item.id, item.title, item.categoryId);
      }
      items := retitled;
      r := InsertEntry(item);
    }

    /** delete_category: marks the category with that id removed and keeps the row. */
    method DeleteCategory(id: nat)
      requires Valid()
      modifies this
      ensures Valid()
      ensures old(Populated()) ==> Populated()
      ensures categories == MarkCategoryRemoved(old(categories), id)
      ensures items == old(items) && entries == old(entries)
      ensures nextCategoryId == old(nextCategoryId) && nextItemId == old(nextItemId)
      ensures nextEntryId == old(nextEntryId)
    {
      var marked := MarkCategoryRemoved(categories, id);
      assert CategoryIds(marked) == CategoryIds(categories);
      categories := marked;
    }

    /** delete_item: marks every existing entry of the item removed, in
        place; it appends nothing. */
    method DeleteItem(itemId: nat)
      requires Valid()
      modifies this
      ensures Valid()
      ensures old(Populated()) ==> Populated()
      ensures entries == MarkEntriesRemoved(old(entries), itemId)
      ensures categories == old(categories) && items == old(items)
      ensures nextCategoryId == old(nextCategoryId) && nextItemId == old(nextItemId)
      ensures nextEntryId == old(nextEntryId)
    {
      var marked := MarkEntriesRemoved(entries, itemId);
      assert EntryIds(marked) == EntryIds(entries);
      if Populated() {
        MarkKeepsEntries(items, entries, itemId);
      }
      entries := marked;
    }

    /** The add-category request: a taken title is rejected before anything
        is written; otherwise the category is inserted. */
    method AddCategory(title: string) returns (r: Result<()>)
      requires Valid()
      modifies this
      ensures Valid()
      ensures old(Populated()) ==> Populated()
      ensures CategoryTitleActive(old(categories), title) ==>
        r == Err(TitleExists(title)) && categories == old(categories) && nextCategoryId == old(nextCategoryId)
      ensures !CategoryTitleActive(old(categories), title) ==>
        && r == Ok(())
        && categories == old(categories) + [CategoryRow(old(nextCategoryId), title, false)]
        && nextCategoryId == old(nextCategoryId) + 1
      ensures ActiveCategoryTitlesDistinct(old(categories)) ==> ActiveCategoryTitlesDistinct(categories)
      ensures items == old(items) && entries == old(entries)
      ensures nextItemId == old(nextItemId) && nextEntryId == old(nextEntryId)
    {
      var taken := TitleTaken(title, CategoryTable);
      if taken == Ok(true) {
        return Err(TitleExists(title));
      }
      InsertFreeCategoryTitle(categories, nextCategoryId, title);
      InsertCategory(title);
      r := Ok(());
    }

    /** The add-item request: the item gets the default details; a taken
        title is rejected before anything is written; otherwise the item is
        inserted with its first entry. */
    method AddItem(item: Item) returns (r: Result<Item>)
      requires Valid()
      modifies this
      ensures Valid()
      ensures old(Populated()) ==> Populated()
      ensures ItemTitleActive(old(items), old(entries), item.title) ==>
        && r == Err(TitleExists(item.title)) && Contents() == old(Contents())
        && nextItemId == old(nextItemId) && nextEntryId == old(nextEntryId)
      ensures !ItemTitleActive(old(items), old(entries), item.title) ==>
        && r == Ok(item.(id := Some(old(nextItemId)), details := Some(NewDetails)))
        && items == old(items) + [ItemRow(old(nextItemId), item.categoryId, item.title)]
        && entries == old(entries) + [EntryRow(old(nextEntryId), Some(old(nextItemId)), NewDetails)]
        && nextItemId == old(nextItemId) + 1 && nextEntryId == old(nextEntryId) + 1
      ensures r.Ok? ==> ItemTitleActive(items, entries, item.title)
      ensures ActiveItemTitlesDistinct(old(items), old(entries)) ==> ActiveItemTitlesDistinct(items, entries)
      ensures categories == old(categories) && nextCategoryId == old(nextCategoryId)
    {
      var initial := item.(details := Some(NewDetails));
      var taken := TitleTaken(item.title, ItemTable);
      if taken == Ok(true) {
        return Err(TitleExists(item.title));
      }
      InsertFreeItemTitle(items, entries, nextItemId, nextEntryId, item.categoryId, item.title, NewDetails);
      r := InsertItem(initial);
    }
  }

  /** A worked example: create category "Plumbing", create item
      "Pump A" in it, record cost 500 and status 2 for the item, read it
      back. Ids start at 1, and the read returns the details of the second
      entry. */
  method PumpScenario() returns (current: Result<Item>)
    ensures current == Ok(Item(Some(1), 1, "Pump A", Some(ItemDetails(Some(500), None, Some(2), None, false))))
  {
    var store := new Store();
    store.InsertCategory("Plumbing");
    assert store.categories == [CategoryRow(1, "Plumbing", false)];
    var created := store.InsertItem(Item(None, 1, "Pump A", Some(NewDetails)));
    assert created == Ok(Item(Some(1), 1, "Pump A", Some(NewDetails)));
    assert store.nextItemId == 2 && store.nextEntryId == 2;
    var edited := ItemDetails(Some(500), None, Some(2), None, false);
    var edit := Item(Some(1), 1, "Pump A", Some(edited));
    ghost var before := store.Contents();
    ghost var entryId := store.nextEntryId;
    assert before.items[0].id == 1;
    GetItemAfterUpdateItem(before, entryId, edit, edited);
    var _ := store.UpdateItem(edit);
    current := GetItem(store.Contents(), 1);
  }
}
