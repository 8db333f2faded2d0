# Maintenance tracker item store, in Dafny

This project models the `database` module of the maintenance tracker
(`src/db.rs`). The module is a versioned item store over three MySQL tables:

- `category(id, title, removed)`;
- `item(id, category_id, title)`;
- `entry(id, item_id, cost, note, status, visible, removed)`.

An item's current details are the five versioned columns of its entry with
the greatest entry id.

The MySQL server is modelled as one object, `Database.Store`. It holds the
three tables as sequences of rows, plus one AUTO_INCREMENT counter per
table. Every SQL statement runs to completion before the next one starts.

- Inserts append a row whose id is the table's counter, then advance the
  counter. `Store.Valid()` says that each table's ids are strictly
  increasing in append order and all lie below its counter.
- `Store.Populated()` says that every item has at least one entry. The
  constructor establishes it and every mutation keeps it, so on a store
  built by these methods `get_item` of a stored id never fails with
  NoEntries (`Properties.EveryItemHasEntryConsequences`).
- UPDATE statements are functions over rows in `Tables`
  (`MarkCategoryRemoved`, `MarkEntriesRemoved`, `RetitleItem`). The Store
  methods assign their results to the fields.
- The read operations are functions of the table contents (`Queries`):
  `CollectCategories`, `CollectItemEntries`, `GetCategory`, `GetEntry`,
  `GetItem` and `GetAutoincrementedId`. `collect_items` and `title_taken`
  loop in the source, so they are Store methods with loops. Each is proved
  equal to a reference definition (`Queries.CurrentItems`,
  `Queries.TitleTakenIn`).
- Panics, `unwrap` on a missing value, and `unwrap` on `item.details`
  become an `Err(DbError)` result.
- `Properties` relates each mutation to the reads: what `collect_items`,
  `get_item`, `get_category` and `title_taken` see after it.

The structs of `crate::core::structs` are not part of this model. They are
defined minimally in `Schema`:

- `ItemDetails::new()` is the constant `NewDetails`: no cost, note, status
  or visibility, and `removed = false`.
- `ItemDetails::from_entry` is taken to copy the five versioned columns
  (`Queries.FromEntry`).

The table names `"category"`, `"item"` and `"entry"` come from
`src/data.rs:16-18`.

The model follows the code as written. In particular:

- `delete_item` appends no entry. It rewrites `removed = 1` on every
  existing entry of the item, and it is the only operation that changes
  history. On an item with no entries it changes nothing, so the item's
  current details stay the default and the item stays active
  (`Properties.CurrentDetailsAfterDeleteItem`).
- No operation checks title or note lengths. The limits in
  `src/data.rs:9-11` are not enforced by any of the modelled code.
- `update_item` takes no title guard. Only the add handlers check titles.

## Model

| member | source | states |
|---|---|---|
| `Tables.MaxId` | src/db.rs:105-110 | the result of `ORDER BY id DESC LIMIT 1` is an id of the table and no id exceeds it |
| `Tables.MaxIdIsLast` | src/db.rs:103-114 | under the auto-increment discipline, the greatest id is the id appended last, so reading it back after an insert yields the inserted row's id |
| `Tables.LatestEntry` | src/db.rs:26-28 | the first row of `WHERE item_id = :id ORDER BY id DESC` is None exactly when the item has no entry; otherwise it is an entry of that item with an id no other entry of the item exceeds |
| `Tables.CurrentDetails` | src/db.rs:24-38 | an item's current details: the details of its latest entry, or `ItemDetails::new()` when the query finds no entry (its meaning is stated by `Tables.CurrentDetailsIsLatest`) |
| `Tables.CurrentDetailsIsLatest` | src/db.rs:24-38 | an item without entries has the default details; an item with entries has the details of a stored entry of that item whose id no other entry of the item exceeds |
| `Tables.LatestEntryAppendOther` | src/db.rs:188-207 | appending an entry of another item (or with no item id) leaves an item's latest entry unchanged |
| `Tables.LatestEntryAppendNewest` | src/db.rs:188-207 | an appended entry whose id exceeds every stored entry id becomes its item's latest entry |
| `Tables.LatestEntryIsLastAppended` | src/db.rs:26-28 | with allocated entry ids, an item's latest entry is its last entry in append order |
| `Tables.MarkEntriesRemoved` | src/db.rs:91-95 | the UPDATE keeps every row, its id and its item id; the entries of the item get `removed = true` with cost, note, status and visible untouched; all other entries are unchanged |
| `Tables.MarkCategoryRemoved` | src/db.rs:75-80 | the UPDATE keeps every row; the rows with that id get `removed = true`; all other rows are unchanged |
| `Tables.RetitleItem` | src/db.rs:274-285 | the UPDATE keeps every row; only the rows whose id equals the given id get the new title and category; a missing id (NULL) matches no row |
| `Tables.LatestEntryAfterMark` | src/db.rs:89-101 | after delete_item, the item's latest entry is the same row, now with `removed = true`; with no entries it stays None |
| `Tables.LatestEntryAfterMarkOther` | src/db.rs:89-101 | delete_item leaves every other item's latest entry unchanged |
| `Tables.MarkEntriesRemovedIdempotent` | src/db.rs:89-101 | delete_item twice leaves the entry table as delete_item once |
| `Tables.MarkCategoryRemovedIdempotent` | src/db.rs:73-87 | delete_category twice leaves the category table as delete_category once |
| `Queries.CollectCategories` | src/db.rs:11-14 | each category row appears once as a Category with its id, title and removed flag, removed rows included, and nothing else appears |
| `Queries.EntriesOf` | src/db.rs:55-57 | the filtered entry rows are exactly the rows whose item id matches, converted to Entry records |
| `Queries.CollectItemEntries` | src/db.rs:52-60 | a returned entry is exactly a stored entry of the item converted to an Entry, and each stored entry of the item occurs in the result exactly as often as in the table |
| `Queries.EntriesOfCounts` | src/db.rs:55-57 | each row of the item occurs in the filtered history as often as in the table, so no entry is listed twice or dropped |
| `Queries.EntriesOfAppend` | src/db.rs:185-212 | appending an entry extends its own item's history by exactly that entry and leaves every other item's history unchanged |
| `Queries.FirstCategory` | src/db.rs:118-125 | `exec_first` on `WHERE id = :id` is None exactly when no category row has the id; otherwise it is a row with that id |
| `Queries.FirstItem` | src/db.rs:152-159 | `exec_first` on `WHERE id = :id` is None exactly when no item row has the id; otherwise it is a row with that id |
| `Queries.FirstCategoryOfAllocated` | src/db.rs:118-125 | with distinct category ids, `exec_first` on a row's id returns that very row |
| `Queries.GetCategory` | src/db.rs:116-130 | it fails with NoCategory exactly when no row has the id; otherwise it returns that row, removed or not |
| `Queries.GetEntry` | src/db.rs:132-148 | it fails with NoEntries exactly when the item has no entry; otherwise it returns the details of the item's entry with the greatest id, without id or item id |
| `Queries.FromEntry` | src/db.rs:168 | assumed definition: the entry's five versioned columns; `ItemDetails::from_entry` itself is not part of this model |
| `Queries.GetItem` | src/db.rs:150-172 | it fails with NoItem exactly when no row has the id, and with NoEntries exactly when the row exists but has no entry; otherwise it returns the row's title and category with the details of its latest entry |
| `Queries.GetAutoincrementedId` | src/db.rs:103-114 | it fails on a name that is not one of the three tables and on an empty table; otherwise it returns an id of the table that no other id exceeds |
| `Queries.CurrentItems` | src/db.rs:43-47 | every item id is a key; every key holds an item row with that id, together with `Some` of that item's current details (the latest entry's details, or the default when there is none) |
| `Queries.CurrentItemsSnoc` | src/db.rs:44-47 | inserting one more row into the map sets that row's id to that row with its current details and keeps every other key |
| `Queries.CurrentItemsExtend` | src/db.rs:44-47 | the map built over the first i+1 rows is the map over the first i rows with row i inserted, as one iteration of the zip loop does |
| `Queries.CurrentItemsKeyed` | src/db.rs:44-47 | every value of the map has its own key as id and carries details, so the `unwrap` calls on them cannot fail |
| `Queries.CurrentItemsAt` | src/db.rs:43-47 | with distinct item ids, each item row appears under its own id with its own title and category |
| `Queries.GetItemInCurrentItems` | src/db.rs:150-172 | whenever get_item succeeds, collect_items has the same item under that id |
| `Properties.CurrentItemsAppendForeignEntry` | src/db.rs:185-212 | appending an entry whose item id is none of the items' ids changes no value of collect_items |
| `Properties.FreshIdNotInCurrentItems` | src/db.rs:235 | the id the item counter hands out next is not yet a key of collect_items |
| `Properties.CurrentItemsAfterInsertItem` | src/db.rs:214-240 | after insert_item's two appended rows, collect_items is the old map plus exactly one new key, the new item id, mapped to the inserted item with the inserted details |
| `Properties.GetItemAfterUpdateItem` | src/db.rs:272-293 | after update_item of an existing item, get_item returns the new title, the new category and the details just appended |
| `Properties.CurrentDetailsAfterDeleteItem` | src/db.rs:89-101 | after delete_item, an item with at least one entry has its former current details with `removed = true`; an item without entries keeps the default details |
| `Properties.GetItemAfterDeleteItem` | src/db.rs:89-101 | an item that get_item found before delete_item is found after it with the same title, category, cost, note, status and visible, and with `removed = true` |
| `Properties.CurrentDetailsAfterDeleteOther` | src/db.rs:89-101 | delete_item leaves every other item's current details unchanged |
| `Properties.DeleteCategoryFreesTitle` | src/db.rs:73-87 | once the only active category with a title is deleted, no active category has that title, so title_taken answers false |
| `Properties.GetCategoryAfterDelete` | src/db.rs:73-87 | after delete_category, get_category still finds the category, with the same title and `removed = true`; a missing id stays missing |
| `Properties.DeleteCategoryKeepsTitlesDistinct` | src/db.rs:73-87 | a soft delete never makes two active categories share a title |
| `Properties.InsertFreeCategoryTitle` | src/main.rs:234-244 | inserting a category under a title no active category holds keeps active titles distinct, and the title is then taken |
| `Properties.InsertFreeItemTitle` | src/main.rs:259-268 | inserting an item with its first entry under a title no active item holds keeps active item titles distinct; the title is then taken exactly when the entry is not removed |
| `Properties.CategoryTitleActiveInCollected` | src/db.rs:244-251 | "some category row has the title and is not removed" is equivalent to the same test on the list collect_categories returns |
| `Properties.ItemTitleActiveInCurrentItems` | src/db.rs:252-259 | with distinct item ids, "some item row has the title and active current details" is equivalent to the same test on the collect_items map |
| `Properties.InsertItemKeepsEntries` | src/db.rs:214-240 | insert_item appends the item together with an entry of it, so every item keeps having an entry |
| `Properties.AppendEntryKeepsEntries` | src/db.rs:185-212 | appending any entry keeps every item's entries |
| `Properties.RetitleKeepsEntries` | src/db.rs:274-285 | update_item's UPDATE keeps every item id, so every item keeps its entries |
| `Properties.MarkKeepsEntries` | src/db.rs:89-101 | delete_item rewrites entries in place with their item ids, so every item keeps its entries |
| `Properties.EveryItemHasEntryConsequences` | src/db.rs:24-38 | while every item has an entry, get_item never fails with NoEntries and collect_items never falls back to the default details |
| `Queries.HoldsActiveTitle` | src/db.rs:254 | the per-item test of the item scan: an equal title and present details that are not removed |
| `Database.Store.CollectItems` | src/db.rs:16-50 | the two loops (latest details per item, then insertion into the map) return exactly `CurrentItems` of the tables; every value carries its own key as id and has details |
| `Database.Store.TitleTaken` | src/db.rs:242-263 | for the category table: true exactly when some category has an equal title and is not removed; for the item table: true exactly when some item has an equal title and current details not removed; any other name fails with InvalidTableName |
| `Database.Store.CategoryTitleTaken` | src/db.rs:244-251 | the scan of collect_categories with its early return answers true exactly when some category has an equal title and is not removed |
| `Database.Store.ItemTitleTaken` | src/db.rs:252-259 | the scan of collect_items with its early return answers true exactly when some item has an equal title and current details not removed |
| `Database.Store.InsertCategory` | src/db.rs:174-183 | appends exactly one category, with the next id, the title and `removed = false`; the other tables and counters are unchanged |
| `Database.Store.InsertEntry` | src/db.rs:185-212 | appends exactly one entry, with the next id, the item's id (possibly none) and its details; fails without writing when the details are None |
| `Database.Store.InsertItem` | src/db.rs:214-240 | appends one item row and exactly one entry; both carry the new item id, which is returned in the item and is the greatest id of the item table; the entry carries the item's details; categories are unchanged; fails before writing when the details are None |
| `Database.Store.UpdateItem` | src/db.rs:272-293 | only the title and category of the rows with the item's id change; exactly one entry is appended, even if no row matched; earlier entries are unchanged; with no details the row update stays and nothing is appended |
| `Database.Store.DeleteCategory` | src/db.rs:73-87 | the category table becomes `MarkCategoryRemoved` of the old one; nothing else changes |
| `Database.Store.DeleteItem` | src/db.rs:89-101 | the entry table becomes `MarkEntriesRemoved` of the old one, with no row appended; nothing else changes |
| `Database.Store.AddCategory` | src/main.rs:229-245 | a title held by an active category is rejected with nothing written; otherwise the category is appended; either way active category titles stay distinct |
| `Database.Store.AddItem` | src/main.rs:256-272 | a title held by an active item is rejected with nothing written; otherwise the item is inserted with the default details and its title becomes taken; either way active item titles stay distinct |
| `Database.PumpScenario` | src/db.rs:272-293 | creating "Plumbing" and "Pump A" on an empty store, then recording cost 500 and status 2, makes get_item return item 1 with those details |

## Left out

- `connect` and `test_auth` (src/db.rs:62-71, 265-270): connection pools and network transport are outside the model.
- Backend failures: every `mysql::Result` error (connection loss, constraint violations) is left out. In the model a statement always succeeds. `InsertCategory` and `DeleteItem` return nothing; the Results of `InsertEntry`, `InsertItem` and `UpdateItem` carry only `MissingDetails`.
- Concurrency: statements from different requests never interleave here. The race in `get_autoincremented_id` between an insert and the max-id read cannot happen.
- SQL text built with `format!` (src/db.rs:56, 106, 177): titles, ids and table names are values. Quoting and injection are not modelled; `collect_item_entries` takes the item id as a number, not a string.
- The `date` column of `entry`: the database assigns it from its clock, and `collect_item_entries` returns each entry's date (`SELECT *`, src/db.rs:56); the model's `EntryRow` and `Entry` carry none.
- Id width: ids are unbounded naturals. u32 overflow of the AUTO_INCREMENT counters is not modelled.
- `Queries.CollectCategories`: returns the rows in table order. The `ORDER BY title` ordering is not modelled, because it depends on the server's collation.
- `Queries.CollectItemEntries`: states which entries are returned, not their order. The query has no ORDER BY; the model returns table order.
- The `println!` of the details in insert_item (src/db.rs:217): console output.
- Everything else in src/main.rs: credential and configuration files, command-line prompts, HTTP routes, templates and HTML building, JSON (de)serialisation. The add-category and add-item handlers are kept only as the check-then-insert methods `AddCategory` and `AddItem`.
- Ties in `ORDER BY id DESC` cannot happen, because entry ids are unique. Without unique ids, `Tables.LatestEntry` would pick the later row; the server may pick either.
