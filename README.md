# tilecs component store, modelled in Dafny

tilecs keeps the components of a grid of tiles in a fixed number of slots.
Every component type owns one dense column with one cell per slot. A cell is
either absent or holds a value. The crate has two stores:

- the **closed** store that the `tiles!` macro generates (`src/lib.rs`). Its
  list of component types is fixed when it is built. It has per-cell
  operations (`add`, `remove`, `has`, `get`, `get_mut`, `take`, `transfer`), a
  per-column `clear`, and whole-slot operations that walk the declared type
  list (`delete`, `move_tile`, `clear_all`);
- the **open** store in `src/second.rs`. Types are `register`ed one at a time,
  and the store keeps the set of registered types next to its map of columns.
  It has `insert`, `remove`, `has` and `get`.

The model has four files:

- `storage.dfy` (module `Storage`) is the value-level specification. A store's
  state is a `map<Tag, seq<Option<V>>>` from a type's tag to its column. It
  defines one function per operation (`SetCell`, `Moved`/`TransferCell`,
  `ClearColumn`, `DeleteSlot`, `MoveSlot`, `ClearAll`, `Fresh`). Each function
  states in its contract which cells change and that every other cell stays as
  it was. The module also holds the lemmas relating these functions: moving a
  slot onto itself, idempotence, `clear_all` giving back the post-`new` state,
  and re-declaration discarding data.
- `closed_tiles.dfy` (module `ClosedTiles`) holds the class `Tiles`. It has a
  constant map from each declared tag to an `array<Option<V>>`. `Valid()`
  says that exactly the declared types have a column, that every column has
  `size` cells, and that distinct types have distinct arrays. Each mutating
  method states its new contents as a `Storage` function of the old contents
  (`Columns()`), and changes only the arrays it names in `modifies`. The
  fan-out methods loop over the declared types with the invariant
  `F(Columns(), types[i..]) == F(old(Columns()), types)`. The source's tests
  are client methods whose results are proved.
- `open_tiles.dfy` (module `OpenTiles`) holds the class `Tiles`, with
  `registered: set<Tag>` and `components: map<Tag, array<Option<V>>>`.
  `Valid()` adds `registered == components.Keys` to the invariants above.
- `fixtures.dfy` (module `Fixtures`) holds the `Kind` tag (`F64 | Str | I32`)
  and the `Component` payload that the test methods store.

Type identities (`TypeId`, the `anymap` keys) are a type parameter `Tag`.
Component values of every type share one type parameter `V`.

A Rust panic becomes a `requires` clause. This covers `unwrap()` on a type
with no column, `Vec` indexing out of range, and `take().unwrap()` on an
absent cell. The crate has no error values, so the model has none either.

Re-registering a type in the open store is modelled as the code behaves: the
registered set stays the same and the type's column is replaced by a new
all-absent one, so its stored values are lost. The code does not reject it or
leave it as a no-op.

## Model

| member | source | states |
|---|---|---|
| Storage.Empty | src/lib.rs:40-46 | a new column has exactly `size` cells, all absent |
| Storage.Fresh | src/lib.rs:38-48 | the storage built by `new` has a column for exactly the declared types, each of length `size` and all absent |
| Storage.SetCell | src/lib.rs:60-68 | writing one cell sets that cell to the given value; the key set, every column length and every other cell (other slots, other types) stay the same |
| Storage.Moved | src/lib.rs:113-117 | after a transfer the target cell holds the old source cell (absent or present); the source is absent when it differs from the target; every other cell is unchanged |
| Storage.TransferCell | src/lib.rs:113-117 | `transfer::<T>` changes only T's column, as `Moved` describes; other columns and the key set are unchanged |
| Storage.ClearColumn | src/lib.rs:86-91 | `clear::<T>` makes every cell of T's column absent and keeps its length; other columns are unchanged |
| Storage.DeleteSlot | src/lib.rs:75-77 | `delete(tile)` makes the slot absent in every listed column; every other cell and every column length are unchanged |
| Storage.MoveSlot | src/lib.rs:107-111 | `move_tile` leaves unlisted columns as they were; with distinct types, each listed column is the `Moved` image of the old one |
| Storage.ClearAll | src/lib.rs:79-84 | `clear_all` makes every cell of every listed column absent; unlisted columns and all lengths are unchanged |
| Storage.MovedOntoItself | src/lib.rs:113-117 | `transfer(s, s)` leaves the column exactly as it was |
| Storage.MoveOverwritesTarget | src/lib.rs:107-117 | after a value at the target and another at the source, `move_tile` leaves the source's value at the target (the target's earlier value is lost) and the source absent |
| Storage.RemoveIdempotent | src/lib.rs:65-68 | removing a component twice equals removing it once |
| Storage.DeleteSlotIdempotent | src/lib.rs:75-77 | deleting a slot twice equals deleting it once |
| Storage.ClearAllIsFresh | src/lib.rs:79-84 | on storage whose columns are exactly the declared types with `size` cells each, `clear_all` gives exactly the state `new` builds |
| Storage.RedeclareDiscards | src/second.rs:29-38 | re-installing a type's column after a write gives the same columns as re-installing alone: the written value is gone |
| ClosedTiles.Tiles.constructor | src/lib.rs:24-36 | `new(size)` keeps `size` and the type list, establishes the invariant, and every declared column is a new array of `size` absent cells |
| ClosedTiles.Tiles.NewColumn | src/lib.rs:40-46 | the push loop yields a new array of `size` cells, all absent |
| ClosedTiles.Tiles.CreateComponentStorage | src/lib.rs:38-48 | one new all-absent column of `size` cells per declared type, keyed by exactly those types, with distinct arrays for distinct types |
| ClosedTiles.Tiles.GetComponents | src/lib.rs:50-58 | a declared type's column is the array in the map, of length `size`, holding that type's contents |
| ClosedTiles.Tiles.Add | src/lib.rs:60-63 | the cell becomes `Some(v)` whatever it held; nothing else in the store changes |
| ClosedTiles.Tiles.Remove | src/lib.rs:65-68 | the cell becomes absent; nothing else in the store changes |
| ClosedTiles.Tiles.Has | src/lib.rs:70-73 | `has` is true exactly when `get` returns a value |
| ClosedTiles.Tiles.Get | src/lib.rs:93-96 | `get` returns the cell's current contents |
| ClosedTiles.Tiles.GetMut | src/lib.rs:98-101 | writing through `get_mut` replaces a present value and does nothing to an absent cell; it reports which case applied |
| ClosedTiles.Tiles.Len | src/lib.rs:103-105 | `len` is the slot count given to `new`, and equals the length of every declared column |
| ClosedTiles.Tiles.Take | src/lib.rs:119-122 | needs a present cell; returns its value and leaves the cell absent, the rest unchanged |
| ClosedTiles.Tiles.Transfer | src/lib.rs:113-117 | the store's new contents are `TransferCell` of the old ones |
| ClosedTiles.Tiles.MoveTile | src/lib.rs:107-111 | the store's new contents are `MoveSlot` over the declared types |
| ClosedTiles.Tiles.Delete | src/lib.rs:75-77 | the store's new contents are `DeleteSlot` over the declared types |
| ClosedTiles.Tiles.Clear | src/lib.rs:86-91 | the cell loop leaves the store's contents equal to `ClearColumn` of the old ones |
| ClosedTiles.Tiles.ClearAll | src/lib.rs:79-84 | the new contents are `ClearAll` over the declared types, which equals the state right after `new` |
| ClosedTiles.InsertComponentAndGet | src/lib.rs:138-145 | in a 100-slot store, `get::<String>(11)` after `add(11, "Hello")` returns `"Hello"` |
| ClosedTiles.CheckHasAfterInsertAndRemove | src/lib.rs:147-157 | in a 97-slot store, `has::<i32>(7)` is false, then true after `add`, then false after `remove` |
| ClosedTiles.DoesNotHaveComponent | src/lib.rs:159-165 | a new one-slot store has no `f64`, `i32` or `String` component at slot 0 |
| ClosedTiles.TakeEmptiesCell | src/lib.rs:119-122 | `take` after `add` returns the added value and `has` is then false |
| ClosedTiles.MoveTileOverwrites | src/lib.rs:107-117 | after `move_tile(3, 4)` slot 4 holds slot 3's `i32` and slot 3 has none; slot 4's earlier `i32` is lost, and its `String` is wiped because slot 3 had none |
| OpenTiles.Tiles.constructor | src/second.rs:13-19 | `new(size)` keeps `size`, with an empty registered set and no columns |
| OpenTiles.Tiles.GetComponents | src/second.rs:21-27 | a registered type's column is the array in the map, of length `size`, holding that type's contents |
| OpenTiles.Tiles.Register | src/second.rs:29-38 | the tag joins the registered set (unchanged if already there); its column becomes a new array of `size` absent cells, replacing any earlier one; every other type keeps its array and its contents; the registered set still equals the column keys |
| OpenTiles.Tiles.Get | src/second.rs:40-43 | `get` returns the cell's current contents |
| OpenTiles.Tiles.Insert | src/second.rs:45-48 | the cell becomes `Some(v)` whatever it held; nothing else changes |
| OpenTiles.Tiles.Remove | src/second.rs:50-53 | the cell becomes absent; nothing else changes |
| OpenTiles.Tiles.Has | src/second.rs:55-58 | `has` is true exactly when `get` returns a value |
| OpenTiles.InsertComponentAndGet | src/second.rs:74-82 | after registering `String`, `insert(11, "Hello")` makes `get::<String>(11)` return `"Hello"` |
| OpenTiles.CheckHasAfterInsertAndRemove | src/second.rs:84-95 | after registering `i32` in a 97-slot store, `has(7)` is false, true after `insert`, false after `remove` |
| OpenTiles.RegisterAgainDiscards | src/second.rs:29-38 | registering `i32` again after an insert leaves the registered set the same and the inserted component gone |

## Left out

- `Entity`, `entities` and `entity_lookup` (src/lib.rs:6-10, 19-20, 25-29): they are built in `new` but never read or updated. The model drops them; they would only hold `entities[i] = {handle: i, generation: 0}`.
- `Tiles::clear` in src/second.rs:60-65 does not compile: it uses an undefined `k` and binds a map lookup to a `u32`. It has no behaviour to model.
- `anymap`, `TypeId` and `Any` downcasting are replaced by a `Tag`-keyed map. All component types share one value type `V`, so columns are not typed per component.
- The `macro_rules!` expansion is modelled as one class over an arbitrary list of types. The constructor requires the list to be distinct. With a repeated type, Rust's `AnyMap` would keep one column, `move_tile` would transfer that column twice, and a moved value would be lost. That case is not modelled.
- `get` and `get_mut` return Rust references. The model returns the cell's `Option<V>`, and `GetMut` takes the value the caller writes through the reference. Borrowing and lifetimes are not modelled.
- Panics are preconditions, not error results: an undeclared or unregistered type, a slot `>= size`, and `take` on an absent cell. The crate has no error values and does not reject a second registration; the model follows the code.
- `usize` overflow and allocation failure in `Vec::with_capacity` are not modelled; sizes are unbounded `nat`.
