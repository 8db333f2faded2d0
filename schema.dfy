/** Rows, records and failures of the maintenance tracker's item store. */
module Schema {

  datatype Option<T> = None | Some(value: T)

  /** The ways a store operation can fail. Each one is a panic or an
      unwrapped `None` in the Rust code, surfaced here as a value. */
  datatype DbError =
    | NoCategory(id: nat)          // get_category: no row has that id
    | NoEntries(itemId: nat)       // get_entry: the item has no entry
    | NoItem(id: nat)              // get_item: no row has that id
    | EmptyTable(table: string)    // get_autoincremented_id: the query returned no row
    | UnknownTable(table: string)  // get_autoincremented_id: the name is not one of the three tables
    | InvalidTableName             // title_taken: neither the category nor the item table
    | MissingDetails               // insert_entry / insert_item: `item.details` is None
    | TitleExists(title: string)   // the add handlers: an active record already has the title

  datatype Result<T> = Ok(value: T) | Err(error: DbError)

  /** The table names of the schema. */
  const CategoryTable: string := "category"
  const EntryTable: string := "entry"
  const ItemTable: string := "item"

  /** The five versioned columns of an entry: cost, note, status, visible, removed. */
  datatype ItemDetails = ItemDetails(
    cost: Option<int>,
    note: Option<string>,
    status: Option<int>,
    visible: Option<bool>,
    removed: bool)

  /** The default details `ItemDetails::new()`: nothing recorded, not removed. */
  const NewDetails: ItemDetails := ItemDetails(None, None, None, None, false)

  /** A stored row of each table; the database assigns `id`. */
  datatype CategoryRow = CategoryRow(id: nat, title: string, removed: bool)
  datatype ItemRow = ItemRow(id: nat, categoryId: nat, title: string)
  datatype EntryRow = EntryRow(id: nat, itemId: Option<nat>, details: ItemDetails)

  /** The records the store hands to and takes from its callers. */
  datatype Category = Category(id: Option<nat>, title: string, removed: bool)
  datatype Item = Item(id: Option<nat>, categoryId: nat, title: string, details: Option<ItemDetails>)
  datatype Entry = Entry(id: Option<nat>, itemId: Option<nat>, details: ItemDetails)

  /** The contents of the three tables at one moment. */
  datatype Db = Db(categories: seq<CategoryRow>, items: seq<ItemRow>, entries: seq<EntryRow>)
}
