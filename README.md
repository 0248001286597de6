# GrocerEase service core in Dafny

GrocerEase is a desktop grocery planner. Its screens call a handful of services:

- **pantry**: the `pantry_items` table, with validated add and update, delete, and the full, low-stock and expiring-soon lists;
- **trips**: shopping trips, and trip items whose line total is price times quantity, with a per-trip subtotal;
- **price book**: stores, plus an append-only log of timestamped prices per (store, item);
- **inventory**: two implementations of one interface, an in-memory list of mutable item objects and a SQLite table;
- **Money**: turns free text into integer cents and cents into an `NT$` string.

This project models those services and proves what they promise.

How the model is built:

- Each SQLite service is a class whose fields are its tables: a `seq` of rows in insertion order and the next AUTOINCREMENT id.
- Queries are functions that read the object.
- INSERT, UPDATE and DELETE are methods. Their postconditions tie the new table to a pure function of the old one: an append, `Table.Update` or `Table.Delete`.
- Lemmas about those pure functions carry the properties: read-back after each mutation, invariants kept, and subtotals and latest prices before and after a change.
- The in-memory inventory keeps real item objects. Its `update` is a loop that finds the first item with the id and changes its fields in place.
- Java `null` is `Option`, and a thrown exception is a `Failure` kind in a `Result` or `Outcome`.
- Java `int` is `Int32`, with `getInt` and `(int)` truncation written out as `Wrap32`.
- `ORDER BY` on text is a sorted permutation under SQLite's BINARY order (`Text.LexLe`).

Files, one module each:

| file | module |
|---|---|
| `common.dfy` | `Common` |
| `text.dfy` | `Text` |
| `sorting.dfy` | `Sorting` |
| `table.dfy` | `Table` |
| `money.dfy` | `Money` |
| `pantry.dfy` | `Pantry` |
| `trips.dfy` | `Trips` |
| `price_book.dfy` | `PriceBook` |
| `inventory_item.dfy` | `Inventory` |
| `inventory_memory.dfy` | `MemoryInventory` |
| `inventory_sqlite.dfy` | `SqliteInventory` |

Inputs taken as parameters:

- The clock is a parameter. `now` is the `Instant.now()` text, `today` is `LocalDate.now()` as a day number, and `limit` is the text of today plus `days` in `expiringSoon`.
- The state of the database file is the object's fields. Every service starts from empty tables.

## Model

| member | source | states |
|---|---|---|
| Common.Wrap32 | src/service/SqliteTripService.java:171 | `getInt` of a 64-bit value: equal to the value when it fits in an `int`, and congruent to it modulo 2^32 always |
| Common.Wrap32OfSum | src/service/SqliteTripService.java:171 | truncating one term before a sum truncates to the same `int` as truncating the sum |
| Text.Trim | src/service/SqlitePantryService.java:131 | `String.trim`: the result is a contiguous slice of the input with no leading or trailing character `<= ' '`; it is empty exactly when every character is trimmable, and it is the input when that is already trimmed |
| Text.TrimIdempotent | src/service/SqlitePantryService.java:199-203 | trimming twice is trimming once |
| Text.EmptyToNull | src/service/SqlitePantryService.java:199-203 | `emptyToNull`: null exactly for null or all-trimmable text; otherwise the trimmed, non-empty text |
| Text.LexLeReflexive | src/service/SqlitePantryService.java:89 | SQLite's text order compares every text as `<=` itself |
| Text.LexLeTotal | src/service/SqlitePantryService.java:89 | any two texts are ordered one way or the other |
| Text.LexLeTransitive | src/service/SqlitePantryService.java:89 | the text order is transitive |
| Text.LexLeAntisymmetric | src/service/SqlitePantryService.java:89 | texts ordered both ways are equal, so `ORDER BY` keys tie only on equal text |
| Sorting.SortBy | src/service/SqlitePantryService.java:27 | `ORDER BY key`: the result is sorted by the key and is a permutation of the input |
| Table.Lookup | src/service/SqlitePantryService.java:158 | `WHERE id=?`: no result exactly when no row has the id; a result is the columns of a row with that id |
| Table.Filter | src/service/SqlitePantryService.java:56 | `WHERE cond`: exactly the rows satisfying the condition, and ascending ids stay ascending |
| Table.Update | src/service/SqlitePantryService.java:157-158 | `UPDATE ... WHERE id=?`: same length and ids; the rows with the id get the new columns and every other row is unchanged |
| Table.Delete | src/service/SqlitePantryService.java:184 | `DELETE ... WHERE id=?`: exactly the rows without the id remain |
| Table.LookupAfterInsert | src/service/SqlitePantryService.java:125-142 | an insert with the next AUTOINCREMENT id keeps the table well formed; the new id reads back as the inserted columns and every other id reads as before |
| Table.LookupAfterUpdate | src/service/SqlitePantryService.java:157-173 | after an update by id, that id reads as the new columns and every other id reads as before |
| Table.UpdateWellFormed | src/service/SqlitePantryService.java:157-158 | an update by id keeps ids ascending and below the next id |
| Table.LookupAfterDelete | src/service/SqlitePantryService.java:184-190 | after a delete by id no row has that id, and every other id reads as before |
| Table.DeleteAbsent | src/service/SqliteTripService.java:150-155 | deleting an id no row has changes nothing |
| Table.DeleteCount | src/service/SqlitePantryService.java:189-190 | a delete removes one row if the id was present and none otherwise, and keeps the table well formed |
| Money.Strip | src/util/Money.java:15 | `replaceAll("[^0-9.]", "")`: only digits and dots remain; every kept character of the input remains |
| Money.StripAppend | src/util/Money.java:15 | the whitelist works character by character: stripping distributes over concatenation |
| Money.StripKeepsWhitelisted | src/util/Money.java:15 | text of digits and dots comes through unchanged |
| Money.ParseCents | src/util/Money.java:13-19 | null or blank text gives 0, as does text that strips to nothing; otherwise NumberFormatException exactly when the stripped text is not a decimal (more than one dot or no digit); otherwise the stripped decimal times 100, rounded half up and cast to `int` |
| Money.ParseLikeStripped | src/util/Money.java:14-17 | any text parses like its stripped form |
| Money.ParseGrouped | src/util/Money.java:15 | an `NT$` prefix and a thousands comma are dropped: `NT$a,b` parses like `ab` for digit groups `a` and `b` |
| Money.ParsePrefixOnly | src/util/Money.java:16 | `NT$` strips to nothing and parses to 0 |
| Money.ParseIgnoresMinus | src/util/Money.java:15 | a leading minus is stripped, so `-t` parses like `t` |
| Money.ParseNonNegative | src/util/Money.java:15-18 | a parsed amount is never negative when its cents fit in an `int` |
| Money.ParseWholeUnits | src/util/Money.java:17-18 | a digit string `n` whose cents fit in an `int` parses to exactly `n * 100` |
| Money.ParseDecimal | src/util/Money.java:17-18 | text that is already a decimal parses to its rounded cents |
| Money.WholeCents | src/util/Money.java:17-18 | a whole number of units is not rounded: its cents are its value times 100 |
| Money.ParseTwoDots | src/util/Money.java:17 | three digit groups joined by two dots, as in `1.2.3`, are a NumberFormatException |
| Money.ParseDotsOnly | src/util/Money.java:17 | dots with no digit, as in `.`, are a NumberFormatException |
| Money.RoundExact | src/util/Money.java:18 | cents that are already whole are not changed by rounding |
| Money.NatToDigits | src/util/Money.java:23 | the decimal digits of a number: non-empty, all digits, and they read back as the number |
| Money.AmountText | src/util/Money.java:23 | `%.2f` of cents / 100: at least one unit digit, a dot, then exactly two digits |
| Money.FormatNTD | src/util/Money.java:22-24 | the output starts with `NT$`, has exactly one dot, and ends in exactly two digits after it |
| Money.TwoDecimalsShape | src/util/Money.java:23 | units, a dot and two digits form a decimal with two fraction digits whose digits are the units followed by the fraction |
| Money.StripFormatted | src/util/Money.java:15 | stripping a formatted amount drops `NT$` and the sign and keeps the amount text |
| Money.AmountTextValue | src/util/Money.java:23 | the printed amount is a decimal that denotes exactly the cents it was printed from |
| Money.FormatThenParse | src/util/Money.java:13-24 | round trip: `parseCents(formatNTD(c))` is `c` for non-negative `c` and `-c` for negative `c` |
| Pantry.BlankToNull | src/service/SqlitePantryService.java:135 | the expiry column is NULL exactly for null or blank text, and the text itself otherwise |
| Pantry.Columns | src/service/SqlitePantryService.java:131-137 | the bound columns: trimmed name, category and unit through `emptyToNull`, blank expiry as NULL, quantities as given, `updated_at` now; with non-negative quantities the row is normalised |
| Pantry.Clamped | src/service/SqlitePantryService.java:165-168 | `Math.max(0, q)` of both quantities: both non-negative, unchanged when already non-negative, nothing else changed |
| Pantry.Items | src/service/SqlitePantryService.java:34-45 | each row read back as one item, in row order |
| Pantry.ItemsOfFilter | src/service/SqlitePantryService.java:56 | the items of a `WHERE` are exactly the items of the rows satisfying it |
| Pantry.SqlitePantryService.constructor | src/app/DBMigrator.java:16-26 | the migrated table starts empty |
| Pantry.SqlitePantryService.ListAll | src/service/SqlitePantryService.java:26-52 | every row's item, sorted by name, a permutation of the table |
| Pantry.SqlitePantryService.LowStock | src/service/SqlitePantryService.java:55-81 | a row's item is listed exactly when `on_hand_qty <= min_qty`; sorted by name; a permutation of the selected rows |
| Pantry.SqlitePantryService.ExpiringSoon | src/service/SqlitePantryService.java:84-116 | a row's item is listed exactly when its expiry is not null and `<=` the limit as text; sorted by expiry; a permutation of the selected rows |
| Pantry.SqlitePantryService.Add | src/service/SqlitePantryService.java:119-150 | IllegalArgumentException exactly for a null item, a null or blank name or a negative quantity, with the table untouched; otherwise one row with a fresh id is appended and the caller's item comes back with only its id set |
| Pantry.SqlitePantryService.Update | src/service/SqlitePantryService.java:153-180 | IllegalArgumentException exactly for a null item, a null or non-positive id or a blank name; RuntimeException exactly when no row has the id; no other failure; either way the table is untouched; otherwise it succeeds, only that row gets the clamped, normalised columns and the item comes back unchanged |
| Pantry.SqlitePantryService.Delete | src/service/SqlitePantryService.java:183-196 | true exactly when a row had the id; that row is gone and the row count drops by one exactly then |
| Pantry.AddKeepsValid | src/service/SqlitePantryService.java:120-137 | an accepted add keeps every row normalised and the table well formed, and leaves every other id's row as it was |
| Pantry.UpdateKeepsValid | src/service/SqlitePantryService.java:163-170 | an update keeps every row normalised (quantities `>= 0`) whatever quantities it is given |
| Pantry.UpdateReadsBack | src/service/SqlitePantryService.java:157-173 | after an update of an existing id, that id reads back as the clamped columns and every other id as before |
| Trips.LineTotal | src/service/SqliteTripService.java:131 | `COALESCE(price, 0) * qty`: 0 without a price, non-negative for non-negative operands |
| Trips.Requantify | src/service/SqliteTripService.java:130-132 | the SET clause: new quantity, line total recomputed from the stored price, every other column unchanged |
| Trips.NewItemCols | src/service/SqliteTripService.java:96-104 | the inserted row: name untrimmed, unit through `emptyToNull`, quantity and price as given; for a positive quantity the row is consistent |
| Trips.ToItem | src/service/SqliteTripService.java:64-72 | a row read back: same id, trip, name, quantity and (possibly null) price; the line total is kept when it fits in an `int` |
| Trips.ListedExactly | src/service/SqliteTripService.java:55 | `WHERE trip_id=?`: a row's item is listed exactly when the row belongs to the trip, and every listed item is such a row's |
| Trips.ListedAscending | src/service/SqliteTripService.java:55 | `ORDER BY id`: listed ids are strictly ascending |
| Trips.NewTripCols | src/service/SqliteTripService.java:31-34 | the trip row: date and store as given, budget `max(0, b)`, null note as `""` |
| Trips.SqliteTripService.constructor | src/app/DBMigrator.java:29-48 | both migrated tables start empty |
| Trips.SqliteTripService.Create | src/service/SqliteTripService.java:25-51 | a null date violates NOT NULL: RuntimeException, nothing stored; otherwise one trip row is appended and the returned trip is exactly that row with its fresh id |
| Trips.SqliteTripService.ListItems | src/service/SqliteTripService.java:54-82 | exactly the trip's rows, read back, ascending by id |
| Trips.SqliteTripService.AddItem | src/service/SqliteTripService.java:85-124 | IllegalArgumentException exactly for `qty <= 0`; RuntimeException exactly for a null name; no other failure and nothing stored on either; otherwise it succeeds, one consistent row (exact line total) is appended and the returned item is that row read back, with the caller's raw unit |
| Trips.SqliteTripService.UpdateItemQty | src/service/SqliteTripService.java:127-146 | IllegalArgumentException exactly for `newQty <= 0`, with nothing changed; otherwise only the row with the id is re-quantified (a missing id changes nothing), and every row stays consistent |
| Trips.SqliteTripService.RemoveItem | src/service/SqliteTripService.java:149-161 | only the row with the id is deleted; no error when absent |
| Trips.SqliteTripService.ComputeSubtotalCents | src/service/SqliteTripService.java:164-179 | the sum of the trip's line totals when it fits in an `int`; 0 for a trip with no items |
| Trips.SubtotalOfNoItems | src/service/SqliteTripService.java:165 | `COALESCE(SUM(...), 0)` over a trip with no rows is 0 |
| Trips.SubtotalAppend | src/service/SqliteTripService.java:90-105 | a new item adds its line total to its own trip's subtotal and to no other |
| Trips.SubtotalOfFilter | src/service/SqliteTripService.java:165 | the subtotal is the sum over exactly the rows `listItems` returns |
| Trips.SubtotalAfterRemove | src/service/SqliteTripService.java:150-155 | removing a present item lowers its trip's subtotal by exactly its line total and leaves other trips' subtotals; an absent id changes nothing |
| Trips.SubtotalAfterRequantify | src/service/SqliteTripService.java:130-140 | re-quantifying a present item changes its trip's subtotal by new minus old line total and leaves other trips' subtotals |
| Trips.AddKeepsConsistent | src/service/SqliteTripService.java:86-88 | `addItem` keeps `planned_qty > 0` and `line_total = COALESCE(price,0) * planned_qty` on every row |
| Trips.RequantifyKeepsConsistent | src/service/SqliteTripService.java:128-132 | `updateItemQty` with a positive quantity keeps every row consistent |
| Trips.RemoveKeepsConsistent | src/service/SqliteTripService.java:150 | `removeItem` keeps every row consistent |
| Trips.RequantifySameQty | src/service/SqliteTripService.java:130-132 | on a consistent row, re-quantifying to its own quantity changes nothing |
| Trips.SubtotalOfConsistent | src/service/SqliteTripService.java:165 | on a consistent table a trip's subtotal is the sum of price times quantity over its items |
| Trips.JavaLineTotal | src/service/SqliteTripService.java:88 | Java `int` multiplication: equal to the exact product only when that fits in an `int` |
| Trips.JavaNewItemCols | src/service/SqliteTripService.java:88-104 | the row `addItem` inserts as written: the corrected row with the wrapped line total |
| Trips.JavaLineTotalOverflows | src/service/SqliteTripService.java:88 | price 100000 and quantity 100000 store 1410065408 instead of 10000000000, so the row is inconsistent and `updateItemQty` with the same quantity rewrites it |
| Trips.JavaRowReadsAlike | src/service/SqliteTripService.java:164-171 | the wrap does not show through `getInt`: the item read back and `computeSubtotalCents` are the same for the wrapped and the exact line total |
| PriceBook.Latest | src/service/SqlitePriceBookService.java:65-66 | `WHERE store_id=? AND item_name=? ORDER BY updated_at DESC LIMIT 1`: none exactly when nothing matches (a null name matches nothing); otherwise a matching entry of the table whose `updated_at` no match exceeds |
| PriceBook.SqlitePriceBookService.constructor | src/service/SqlitePriceBookService.java:16-18 | both tables start empty |
| PriceBook.StoresOf | src/service/SqlitePriceBookService.java:28-32 | each `stores` row read back as one store, in row order |
| PriceBook.SqlitePriceBookService.ListStores | src/service/SqlitePriceBookService.java:21-39 | sorted by name and a permutation of the stores read back from the rows: every store exactly once per row |
| PriceBook.SqlitePriceBookService.AddStore | src/service/SqlitePriceBookService.java:42-61 | IllegalArgumentException exactly for a null or blank name, with nothing stored; otherwise the trimmed name is stored under a fresh id and returned with it |
| PriceBook.SqlitePriceBookService.FindLatestPriceCents | src/service/SqlitePriceBookService.java:64-80 | empty exactly when no entry matches store and name; otherwise the price of a matching entry with the greatest `updated_at` |
| PriceBook.SqlitePriceBookService.UpsertPrice | src/service/SqlitePriceBookService.java:83-98 | IllegalArgumentException exactly for a negative price; otherwise one entry stamped now is appended; existing entries never change |
| PriceBook.LatestAfterUpsert | src/service/SqlitePriceBookService.java:65-93 | after an entry stamped later than all others, its own pair's latest price is the new one and every other pair's is unchanged |
| PriceBook.UpsertTouchesOnlyItsPair | src/service/SqlitePriceBookService.java:85-93 | whatever its stamp, an upsert either leaves a pair's latest entry or makes it the new entry of that same pair |
| Inventory.InventoryItem.constructor | src/model/InventoryItem.java:11-13 | the new item holds exactly the given id, name, quantity and expiry |
| Inventory.ValuesOf | src/model/InventoryItem.java:5-21 | the current state of each item, in list order |
| MemoryInventory.UpdateFirst | src/service/InMemoryInventoryService.java:27-29 | `update` on states: same length and ids |
| MemoryInventory.UpdateFirstAt | src/service/InMemoryInventoryService.java:28 | the first item with the id, and only it, gets the new name, quantity and expiry |
| MemoryInventory.UpdateFirstAbsent | src/service/InMemoryInventoryService.java:27-29 | an unknown id changes nothing |
| MemoryInventory.UpdateFirstDistinct | src/service/InMemoryInventoryService.java:27-29 | with distinct ids, every item with the id has the new state and every other item is unchanged |
| MemoryInventory.RemoveId | src/service/InMemoryInventoryService.java:30 | `removeIf`: no remaining item has the id; every item without it remains |
| MemoryInventory.RemoveIdAppend | src/service/InMemoryInventoryService.java:30 | `removeIf` keeps the order of what remains: it distributes over concatenation |
| MemoryInventory.RemoveIdAbsent | src/service/InMemoryInventoryService.java:30 | an unknown id removes nothing |
| MemoryInventory.RemoveIdKeepsFresh | src/service/InMemoryInventoryService.java:30 | `delete` keeps ids distinct and below the counter |
| MemoryInventory.InMemoryInventoryService.constructor | src/service/InMemoryInventoryService.java:19-23 | Milk/2, Bread/1 and Eggs/12 with ids 1000 to 1002, expiring in 5, 2 and 14 days; the counter is 1003 |
| MemoryInventory.InMemoryInventoryService.ListAll | src/service/InMemoryInventoryService.java:25 | the same items in the same order, as a value independent of `data` |
| MemoryInventory.InMemoryInventoryService.Add | src/service/InMemoryInventoryService.java:26 | one fresh item with the old counter as id is appended, nothing is validated, earlier items are unchanged, the counter goes up by one and ids stay fresh |
| MemoryInventory.InMemoryInventoryService.Update | src/service/InMemoryInventoryService.java:27-29 | the loop's effect is `UpdateFirst` on the item states; the list itself and the counter are unchanged |
| MemoryInventory.InMemoryInventoryService.Delete | src/service/InMemoryInventoryService.java:30 | the list becomes `removeIf` of the id; ids stay fresh and the counter is unchanged |
| SqliteInventory.RowValues | src/service/SqliteInventoryService.java:84-90 | each row read back as one item, in row order |
| SqliteInventory.Bound | src/service/SqliteInventoryService.java:103-105 | the bound values, or none exactly when the name or expiry would be NULL in a NOT NULL column |
| SqliteInventory.SqliteInventoryService.constructor | src/service/SqliteInventoryService.java:52-58 | the created table starts empty |
| SqliteInventory.SqliteInventoryService.ListAll | src/service/SqliteInventoryService.java:76-96 | every row in ascending id order with its name, quantity and expiry |
| SqliteInventory.SqliteInventoryService.Add | src/service/SqliteInventoryService.java:99-110 | IllegalStateException exactly for a null name or expiry, with nothing stored; otherwise one row with a fresh id, quantity unvalidated |
| SqliteInventory.SqliteInventoryService.Update | src/service/SqliteInventoryService.java:113-129 | IllegalArgumentException exactly when no row has the id; IllegalStateException exactly when it has one and the name or expiry is null; no other failure; otherwise it succeeds and only that row gets the new columns |
| SqliteInventory.SqliteInventoryService.Delete | src/service/SqliteInventoryService.java:132-145 | IllegalArgumentException exactly when no row has the id, with nothing changed; otherwise that row alone is removed |
| SqliteInventory.UpdateReadsBack | src/service/SqliteInventoryService.java:114-122 | after an update the id reads back as the new columns and every other id as before |
| SqliteInventory.DeleteReadsBack | src/service/SqliteInventoryService.java:133-141 | after a delete the id reads as absent, every other id as before, and there is one row fewer |

## Left out

- Swing windows, the launcher and the commented-out JDBC example are left out: they are display code or dead code.
- The service interfaces are signatures only and are left out.
- Schema creation, directory creation and connections are left out. The constructors start from empty tables, and nothing else writes to the tables.
- `stores` and `price_entries` are not created by `DBMigrator`. The model assumes they exist with an AUTOINCREMENT id and no constraints.
- The clock is left out. `Instant.now()` and `LocalDate.now()` are parameters.
- Printing stack traces is left out, and so are the messages of exceptions; only their kinds are kept.
- I/O failures of the database are left out.
- The `shared()` singleton and the atomicity of `AtomicInteger` are left out, and so is concurrency in general.
- Money.ParseCents: `Double.parseDouble` and `d * 100.0` are modelled on exact decimals. Binary rounding, as in `"1.005"` giving 100, and precision loss on long digit strings are not modelled.
- Money.ParseCents: when `Math.round` saturates at the `long` range, before the `(int)` cast, the model differs.
- Money.ParseCents: text that strips to a form `parseDouble` would also accept, such as one with an exponent or `Infinity`, cannot arise, because the whitelist removes letters.
- Money.FormatNTD: `String.format`'s locale and its rounding of `cents / 100.0` are not modelled. The model prints the exact two-decimal amount with an ASCII dot, and no grouping.
- Money.FormatThenParse: `Integer.MIN_VALUE` is excluded, because its absolute value does not fit in an `int`.
- Sorting.SortBy: the order among rows with equal sort keys is left open by SQLite. The model fixes one order, so the listing contracts state only sortedness and permutation.
- PriceBook.Latest: among entries with equal `updated_at`, SQLite may return any of them. The model returns the latest inserted.
- PriceBook.LatestAfterUpsert: requires the new timestamp to be later than every stored one as text. `Instant.toString` drops trailing zero fractions, so text order can differ from time order.
- Pantry.SqlitePantryService.Add: the generated id is assumed to fit in an `int`, as is every id read with `getInt`.
- MemoryInventory.InMemoryInventoryService.Add: requires the counter to be at most `Integer.MAX_VALUE`. The wrap of `AtomicInteger` after 2^31 additions is not modelled.
- SqliteInventory.SqliteInventoryService.ListAll: returns item values rather than new `InventoryItem` objects.
- SqliteInventory.SqliteInventoryService.ListAll: requires ids that fit in an `int`, and an `Add` past `Integer.MAX_VALUE` ids is not promised to keep that invariant.
- Trips.SqliteTripService.AddItem: the model stores the exact product as the line total, where the code as written stores the `int`-wrapped product (see Findings and `Trips.JavaNewItemCols`).
- Trips.SqliteTripService.ComputeSubtotalCents: SQLite raises an integer-overflow error when a `SUM` exceeds 64 bits. The model does not raise it, and its integers are unbounded.
- Trips.SqliteTripService.Create: store ids are not checked against `stores`. There is no foreign key, as in the schema.

## Findings

| source | as written | input that shows it | evidently intended | confidence | as-written member | corrected member |
|---|---|---|---|---|---|---|
| src/service/SqliteTripService.java:88 | `addItem` computes `expectedPriceCents * qty` in Java `int`, which wraps, and stores that in `line_total_cents`. `updateItemQty` computes the same product in SQLite's 64-bit arithmetic | price 100000 cents, quantity 100000: `addItem` stores 1410065408, while the product is 10000000000. The row then breaks `line_total = price * qty`: its raw column and any SQL arithmetic on it hold the wrong value until `updateItemQty` rewrites the row. The item read back and `computeSubtotalCents` are unaffected, because `getInt` truncates them to the same `int` either way | the line total is the exact product, as `updateItemQty` computes it, so every row stays consistent | not executed | Trips.JavaLineTotalOverflows | Trips.AddKeepsConsistent |
