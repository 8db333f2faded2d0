/** What the store's mutations do to its reads: the facts the Store
    methods rely on, stated over table contents before and after. */
module Properties {
  import opened Schema
  import opened Tables
  import opened Queries

  /** An appended entry that belongs to none of the listed items changes none
      of their values in collect_items. */
  lemma {:induction false} CurrentItemsAppendForeignEntry(items: seq<ItemRow>, entries: seq<EntryRow>, e: EntryRow)
    requires forall i :: 0 <= i < |items| ==> e.itemId != Some(items[i].id)
    ensures CurrentItems(items, entries + [e]) == CurrentItems(items, entries)
    decreases |items|
  {
    if items != [] {
      var earlier := items[..|items| - 1];
      var last := items[|items| - 1];
      assert forall i :: 0 <= i < |earlier| ==> earlier[i] == items[i];
      CurrentItemsAppendForeignEntry(earlier, entries, e);
      LatestEntryAppendOther(entries, e, last.id);
      assert Detailed(last, entries + [e]) == Detailed(last, entries);
    }
  }

  /** A fresh item id is not yet a key of collect_items. */
  lemma FreshIdNotInCurrentItems(items: seq<ItemRow>, entries: seq<EntryRow>, itemId: nat)
    requires Allocated(ItemIds(items), itemId)
    ensures itemId !in CurrentItems(items, entries)
  {
    var before := CurrentItems(items, entries);
    assert forall i :: 0 <= i < |items| ==> ItemIds(items)[i] == items[i].id;
  }

  /** insert_item's two appended rows show up in collect_items as exactly one
      new key, the new item id, whose value is the inserted item with the
      inserted details; every other key keeps its value. */
  lemma CurrentItemsAfterInsertItem(
    items: seq<ItemRow>, entries: seq<EntryRow>, itemId: nat, entryId: nat,
    categoryId: nat, title: string, details: ItemDetails)
    requires Allocated(ItemIds(items), itemId)
    requires Allocated(EntryIds(entries), entryId)
    ensures itemId !in CurrentItems(items, entries)
    ensures CurrentItems(items + [ItemRow(itemId, categoryId, title)], entries + [EntryRow(entryId, Some(itemId), details)])
         == CurrentItems(items, entries)[itemId := Item(Some(itemId), categoryId, title, Some(details))]
  {
    FreshIdNotInCurrentItems(items, entries, itemId);
    var row := ItemRow(itemId, categoryId, title);
    var e := EntryRow(entryId, Some(itemId), details);
    var entries' := entries + [e];
    forall i | 0 <= i < |items|
      ensures e.itemId != Some(items[i].id)
    {
      assert ItemIds(items)[i] == items[i].id;
    }
    CurrentItemsAppendForeignEntry(items, entries, e);
    forall i | 0 <= i < |entries|
      ensures entries[i].id < e.id
    {
      assert EntryIds(entries)[i] == entries[i].id;
    }
    LatestEntryAppendNewest(entries, e, itemId);
    assert Detailed(row, entries') == Item(Some(itemId), categoryId, title, Some(details));
    CurrentItemsSnoc(items, entries', row);
  }

  /** update_item followed by get_item: the item row carries the new title
      and category and its details are the ones just appended. */
  lemma GetItemAfterUpdateItem(db: Db, entryId: nat, item: Item, details: ItemDetails)
    requires Allocated(EntryIds(db.entries), entryId)
    requires item.id.Some?
    requires exists i :: 0 <= i < |db.items| && db.items[i].id == item.id.value
    ensures
      var after := Db(db.categories, RetitleItem(db.items, item.id, item.title, item.categoryId),
                      db.entries + [EntryRow(entryId, item.id, details)]);
      GetItem(after, item.id.value) == Ok(Item(item.id, item.categoryId, item.title, Some(details)))
  {
    var id := item.id.value;
    var e := EntryRow(entryId, item.id, details);
    var retitled := RetitleItem(db.items, item.id, item.title, item.categoryId);
    var after := Db(db.categories, retitled, db.entries + [e]);
    forall i | 0 <= i < |db.entries|
      ensures db.entries[i].id < e.id
    {
      assert EntryIds(db.entries)[i] == db.entries[i].id;
    }
    LatestEntryAppendNewest(db.entries, e, id);
    var k :| 0 <= k < |db.items| && db.items[k].id == id;
    assert retitled[k].id == id;
    var r := GetItem(after, id);
    var row :| row in retitled && row.id == id && r.value == Detailed(row, after.entries);
  }

  /** delete_item and the item's current details: with at least one entry
      they become the same details with removed set; with none they stay
      the default. */
  lemma CurrentDetailsAfterDeleteItem(entries: seq<EntryRow>, itemId: nat)
    ensures CurrentDetails(MarkEntriesRemoved(entries, itemId), itemId) ==
      if LatestEntry(entries, itemId).Some?
      then CurrentDetails(entries, itemId).(removed := true)
      else NewDetails
  {
    LatestEntryAfterMark(entries, itemId);
  }

  /** delete_item followed by get_item: an item that get_item found before
      is found again with the same title, category and versioned columns,
      now marked removed. */
  lemma GetItemAfterDeleteItem(db: Db, itemId: nat)
    requires GetItem(db, itemId).Ok?
    ensures
      var before := GetItem(db, itemId).value;
      GetItem(Db(db.categories, db.items, MarkEntriesRemoved(db.entries, itemId)), itemId)
        == Ok(before.(details := Some(before.details.value.(removed := true))))
  {
    LatestEntryAfterMark(db.entries, itemId);
  }

  /** delete_item leaves every other item's current details alone. */
  lemma CurrentDetailsAfterDeleteOther(entries: seq<EntryRow>, itemId: nat, other: nat)
    requires other != itemId
    ensures CurrentDetails(MarkEntriesRemoved(entries, itemId), other) == CurrentDetails(entries, other)
  {
    LatestEntryAfterMarkOther(entries, itemId, other);
  }

  /** delete_category releases the title: once the category with that id is
      removed, no active category holds a title that only it held. */
  lemma DeleteCategoryFreesTitle(categories: seq<CategoryRow>, id: nat, title: string)
    requires forall i :: 0 <= i < |categories| && categories[i].title == title && !categories[i].removed ==>
      categories[i].id == id
    ensures !CategoryTitleActive(MarkCategoryRemoved(categories, id), title)
  {
  }

  /** delete_category followed by get_category: the row is still found,
      with the same title, now marked removed. */
  lemma GetCategoryAfterDelete(db: Db, next: nat, id: nat)
    requires Allocated(CategoryIds(db.categories), next)
    ensures
      var after := GetCategory(Db(MarkCategoryRemoved(db.categories, id), db.items, db.entries), id);
      match GetCategory(db, id)
      case Ok(c) => after == Ok(c.(removed := true))
      case Err(e) => after == Err(e)
  {
    var rows := db.categories;
    var marked := MarkCategoryRemoved(rows, id);
    assert CategoryIds(marked) == CategoryIds(rows);
    if i :| 0 <= i < |rows| && rows[i].id == id {
      FirstCategoryOfAllocated(rows, next, i);
      FirstCategoryOfAllocated(marked, next, i);
    }
  }

  /** A soft delete never makes two active categories share a title. */
  lemma DeleteCategoryKeepsTitlesDistinct(categories: seq<CategoryRow>, id: nat)
    requires ActiveCategoryTitlesDistinct(categories)
    ensures ActiveCategoryTitlesDistinct(MarkCategoryRemoved(categories, id))
  {
  }

  /** Adding an active category under a title no active category holds keeps
      active titles distinct, and the title is then taken. */
  lemma InsertFreeCategoryTitle(categories: seq<CategoryRow>, id: nat, title: string)
    requires !CategoryTitleActive(categories, title)
    ensures ActiveCategoryTitlesDistinct(categories) ==>
      ActiveCategoryTitlesDistinct(categories + [CategoryRow(id, title, false)])
    ensures CategoryTitleActive(categories + [CategoryRow(id, title, false)], title)
  {
    var after := categories + [CategoryRow(id, title, false)];
    assert after[|categories|].title == title;
  }

  /** Adding an item, with an initial entry, under a title no active item
      holds keeps active item titles distinct; if the initial entry is not
      removed, the title is then taken. */
  lemma InsertFreeItemTitle(
    items: seq<ItemRow>, entries: seq<EntryRow>, itemId: nat, entryId: nat,
    categoryId: nat, title: string, details: ItemDetails)
    requires Allocated(ItemIds(items), itemId)
    requires Allocated(EntryIds(entries), entryId)
    requires !ItemTitleActive(items, entries, title)
    ensures
      var items' := items + [ItemRow(itemId, categoryId, title)];
      var entries' := entries + [EntryRow(entryId, Some(itemId), details)];
      && (ActiveItemTitlesDistinct(items, entries) ==> ActiveItemTitlesDistinct(items', entries'))
      && (ItemTitleActive(items', entries', title) <==> !details.removed)
  {
    var items' := items + [ItemRow(itemId, categoryId, title)];
    var e := EntryRow(entryId, Some(itemId), details);
    var entries' := entries + [e];
    forall i | 0 <= i < |items|
      ensures CurrentDetails(entries', items'[i].id) == CurrentDetails(entries, items[i].id)
    {
      assert ItemIds(items)[i] == items[i].id;
      LatestEntryAppendOther(entries, e, items[i].id);
    }
    forall i | 0 <= i < |entries|
      ensures entries[i].id < e.id
    {
      assert EntryIds(entries)[i] == entries[i].id;
    }
    LatestEntryAppendNewest(entries, e, itemId);
    assert CurrentDetails(entries', items'[|items|].id) == details;
  }

  /** The category guard of title_taken can be read off the list
      collect_categories returns. */
  lemma CategoryTitleActiveInCollected(db: Db, title: string)
    ensures
      var all := CollectCategories(db);
      CategoryTitleActive(db.categories, title) <==>
        exists j :: 0 <= j < |all| && all[j].title == title && !all[j].removed
  {
    var all := CollectCategories(db);
    if CategoryTitleActive(db.categories, title) {
      var i :| 0 <= i < |db.categories| && db.categories[i].title == title && !db.categories[i].removed;
      assert AsCategory(db.categories[i]) in all;
    }
  }

  /** With distinct item ids, the item guard of title_taken can be read off
      the map collect_items returns. */
  lemma ItemTitleActiveInCurrentItems(items: seq<ItemRow>, entries: seq<EntryRow>, next: nat, title: string)
    requires Allocated(ItemIds(items), next)
    ensures
      var m := CurrentItems(items, entries);
      ItemTitleActive(items, entries, title) <==>
        exists k :: k in m && HoldsActiveTitle(m[k], title)
  {
    var m := CurrentItems(items, entries);
    if ItemTitleActive(items, entries, title) {
      var i :| 0 <= i < |items| && items[i].title == title && !CurrentDetails(entries, items[i].id).removed;
      CurrentItemsAt(items, entries, next, i);
      assert items[i].id in m;
    }
  }

  /** insert_item appends the item together with an entry of it. */
  lemma InsertItemKeepsEntries(items: seq<ItemRow>, entries: seq<EntryRow>, row: ItemRow, e: EntryRow)
    requires EveryItemHasEntry(items, entries)
    requires e.itemId == Some(row.id)
    ensures EveryItemHasEntry(items + [row], entries + [e])
  {
    var items' := items + [row];
    var entries' := entries + [e];
    forall i | 0 <= i < |items'|
      ensures HasEntry(entries', items'[i].id)
    {
      if i < |items| {
        var j :| 0 <= j < |entries| && entries[j].itemId == Some(items[i].id);
        assert entries'[j] == entries[j] && items'[i] == items[i];
      } else {
        assert entries'[|entries|] == e && items'[i] == row;
      }
    }
  }

  /** Appending any entry (insert_entry, update_item) keeps every item's entries. */
  lemma AppendEntryKeepsEntries(items: seq<ItemRow>, entries: seq<EntryRow>, e: EntryRow)
    requires EveryItemHasEntry(items, entries)
    ensures EveryItemHasEntry(items, entries + [e])
  {
    forall i | 0 <= i < |items|
      ensures HasEntry(entries + [e], items[i].id)
    {
      var j :| 0 <= j < |entries| && entries[j].itemId == Some(items[i].id);
      assert (entries + [e])[j] == entries[j];
    }
  }

  /** update_item's UPDATE keeps every item id, so every item keeps its entries. */
  lemma RetitleKeepsEntries(items: seq<ItemRow>, entries: seq<EntryRow>, id: Option<nat>, title: string, categoryId: nat)
    requires EveryItemHasEntry(items, entries)
    ensures EveryItemHasEntry(RetitleItem(items, id, title, categoryId), entries)
  {
    var retitled := RetitleItem(items, id, title, categoryId);
    forall i | 0 <= i < |retitled|
      ensures HasEntry(entries, retitled[i].id)
    {
      assert retitled[i].id == items[i].id;
    }
  }

  /** delete_item rewrites entries in place, keeping their item ids. */
  lemma MarkKeepsEntries(items: seq<ItemRow>, entries: seq<EntryRow>, itemId: nat)
    requires EveryItemHasEntry(items, entries)
    ensures EveryItemHasEntry(items, MarkEntriesRemoved(entries, itemId))
  {
    var marked := MarkEntriesRemoved(entries, itemId);
    forall i | 0 <= i < |items|
      ensures HasEntry(marked, items[i].id)
    {
      var j :| 0 <= j < |entries| && entries[j].itemId == Some(items[i].id);
      assert marked[j].itemId == entries[j].itemId;
    }
  }

  /** While every item has an entry, get_item never fails with NoEntries,
      and collect_items never falls back to the default details. */
  lemma EveryItemHasEntryConsequences(db: Db, id: nat)
    requires EveryItemHasEntry(db.items, db.entries)
    ensures GetItem(db, id) != Err(NoEntries(id))
    ensures forall i :: 0 <= i < |db.items| ==> LatestEntry(db.entries, db.items[i].id).Some?
  {
    if i :| 0 <= i < |db.items| && db.items[i].id == id {
      var j :| 0 <= j < |db.entries| && db.entries[j].itemId == Some(db.items[i].id);
      assert db.entries[j].itemId == Some(id);
    }
    forall i | 0 <= i < |db.items|
      ensures LatestEntry(db.entries, db.items[i].id).Some?
    {
      var j :| 0 <= j < |db.entries| && db.entries[j].itemId == Some(db.items[i].id);
    }
  }
}
