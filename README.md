# Keyed record store with a patch overlay, and the sort-direction store

This project models, in Dafny, the state core of a small React table demo.

**The record store** (`createDataStore(idKey)`). It holds three pieces of state:

- `data`: the base rows.
- `dataIdIndex`: a map from each row's stringified id to its position.
- `patchById`: a map from an id to an accumulated partial record.

`setData(rows)` replaces the rows and rebuilds the index with a left fold. When
an id appears twice, the later position wins. The overlay is kept.
`setPartial(id, value)` spreads `value` over the overlay entry of `id`.
`getRow` resolves the effective row of an id. It is absent when the index does
not hold the id. Otherwise it is the base row with the patch spread on top.
Two projections are built on `getRow`: pick some fields of a row, and read one
field. The third lists the id field of each base row straight from `data`.

The function `createDataStore` appears twice in the source, with identical
bodies: `src/utils.ts:9-81` (an exported arrow function) and
`src/SimpleEditableTable.tsx:10-82` (a local function declaration). It is modelled once,
in module `DataStore`, and the table below cites both copies. Module
`EditableTable` models the demo rows and the patch that the Update button sends.

**The sort store** (`useSortStore`). It keeps one `{t: column, dir}` entry per
table. `setIt` overwrites that entry. `getColumn` returns the recorded
direction only for the recorded column, and `'none'` otherwise.

Layout:

- `records.dfy` (`Records`): records as `map<string, Value>`. Spread is map
  union with the right side winning. lodash `pick` is map restriction. `String()`
  covers strings, booleans and integers below 1e21 in magnitude.
- `data_store.dfy` (`DataStore`): the state, the index fold and its reference
  definition, `GetRow`, the projections and the two state updates. It also holds
  the class `Store`, whose methods apply the updates to its three fields, and the
  properties.
- `editable_table.dfy` (`EditableTable`): the demo rows, the Update-button patch
  and the scenarios built on them.
- `sort_store.dfy` (`SortStore`): the class `Sorts` with `SetIt`, `GetColumn`
  and the `useSort` hook.

The zustand `set(state => newState)` callbacks are pure functions of the state.
So `setData` and `setPartial` are modelled twice: as pure functions `Replaced` and
`Patched` on a `State` value, and as methods of `Store` that update the three
fields in place. Each method's postcondition is `Snapshot() == Replaced(...)` or
`Snapshot() == Patched(...)` of the old snapshot. The properties are proved
about the pure functions.

## Model

| member | source | states |
|---|---|---|
| `Records.Merge` | src/utils.ts:22 | `{...base, ...patch}` has the keys of both. Every patch field wins, and every other base field passes through unchanged. |
| `Records.Pick` | src/utils.ts:54 | `pick(row, keys)` holds exactly the listed keys that the row has, with the row's values. |
| `Records.Stringify` | src/utils.ts:34 | `String(v)`: a string is its own text, a boolean is `"true"` or `"false"`, and a number prints with a leading `-` exactly when it is negative. |
| `Records.Decimal` | src/utils.ts:34 | The digits of a number for `String()`: a non-empty string of decimal digits with no leading zero (a leading `0` is the whole text `"0"`), which read back left to right (`DigitsValue`) give the number itself. |
| `Records.NumberText` | src/utils.ts:34 | `String(n)` of a number: after a `-` exactly when `n` is negative, a string of digits whose value read back is the magnitude of `n`; `String(0)` is `"0"`, the same key as the string id `"0"`. |
| `Records.NumbersPrintApart` | src/utils.ts:34 | Two numbers with the same `String()` text are equal, so distinct numeric ids get distinct index keys; no number prints as `"true"` or `"false"`. |
| `Records.MergeTwice` | src/utils.ts:41 | Spreading `p` and then `q` over a record is the same as spreading `{...p, ...q}` once. |
| `Records.MergeEmpty` | src/utils.ts:21-22 | Spreading the `{}` fallback over a row leaves the row as it was. |
| `DataStore.IdOf` | src/utils.ts:34 | `String(row[idKey])`: a string id is its own key, and a row without the id field is keyed `"undefined"`. |
| `DataStore.IndexFrom` | src/utils.ts:33-36 | The `reduce` from position `i`: it keeps every key of the accumulator and indexes the id of every row from `i` on. |
| `DataStore.IndexFromPositions` | src/utils.ts:33-36 | Every entry of the fold is the accumulator's, or a position at or after `i` of a row with that id. Every row from `i` on has its id stored at its own position or a later one. |
| `DataStore.StepTracksLast` | src/utils.ts:34 | One step `{...acc, [id_i]: i}` turns the last position of an id below `i` into its last position below `i + 1`. |
| `DataStore.BuildIndex` | src/SimpleEditableTable.tsx:34-37 | The index from `{}`: every entry points inside the rows at a row with that id. Every row's id is indexed at its own position or a later one, so the last duplicate wins. `BuildIndexIsLastPosition` also ties it to `LastPosition`. |
| `DataStore.LastPosition` | src/utils.ts:33-36 | Reference for the index: the last position below `n` whose row has the id, or absent exactly when no such row exists. |
| `DataStore.IndexFromTracksLast` | src/utils.ts:33-36 | Continuing the `reduce` from position `i`, with an accumulator that holds the last position below `i`, ends with the last position overall. |
| `DataStore.BuildIndexIsLastPosition` | src/SimpleEditableTable.tsx:34-37 | The index built from `{}` maps each id to the last position of a row with that id, and holds no other id. |
| `DataStore.IndexLastWins` | src/utils.ts:33-36 | An id is indexed iff some row has it. Its entry points inside the rows, at a row with that id, and no later row has the id. |
| `DataStore.PatchOf` | src/utils.ts:21 | `patchById[id]`, falling back to `{}`: the overlay entry of the id, or the empty record when there is none. |
| `DataStore.GetRow` | src/utils.ts:18-23 | Absent iff the index has no in-range entry for the id, whatever the overlay holds. Otherwise the keys are base plus patch, patch fields win, and other fields come from the base. |
| `DataStore.PickRow` | src/utils.ts:50-55 | Absent iff `getRow` is absent. Otherwise exactly the requested keys that the effective row has, with its values. |
| `DataStore.Field` | src/utils.ts:65-69 | Absent iff the row is absent or lacks the key. Otherwise the effective row's value for the key. |
| `DataStore.Ids` | src/utils.ts:72 | The id field of each base row, in row order, one entry per row. |
| `DataStore.Initial` | src/utils.ts:26-28 | The state before any `setData`: no rows and no patches, so no id resolves. |
| `DataStore.Replaced` | src/utils.ts:29-37 | `setData`'s update: the new rows, the overlay unchanged, and the index rebuilt with every id at its last position in the new rows. |
| `DataStore.Patched` | src/utils.ts:38-43 | `setPartial`'s update: the entry for `id` becomes the old entry (or `{}`) with `value` spread on top. Rows, index and every other overlay entry are unchanged. |
| `DataStore.Store.constructor` | src/utils.ts:25-28 | The store starts with no rows, no index and no patches, so no id resolves. |
| `DataStore.Store.SetData` | src/SimpleEditableTable.tsx:30-38 | The new fields are `Replaced` of the old ones, and the index again reflects exactly the rows. |
| `DataStore.Store.SetPartial` | src/SimpleEditableTable.tsx:39-44 | The new fields are `Patched` of the old ones. The store stays consistent, and no other id's effective row changes. |
| `DataStore.NothingResolvesBeforeLoad` | src/utils.ts:18-28 | With no rows loaded, no id resolves and every field projection of every id is absent, even when patches exist. |
| `DataStore.ResolvesToLastRow` | src/SimpleEditableTable.tsx:19-38 | In an indexed state an id resolves iff some row has it. It then resolves to the last such row with its patch spread on top. |
| `DataStore.ListedIdsResolve` | src/SimpleEditableTable.tsx:20-73 | In an indexed state, every id that the `useIds` list (line 73) shows resolves through `getRow` (lines 20-24) to a row. |
| `DataStore.ValidStoreResolves` | src/utils.ts:18-37 | In a store whose index matches its rows, an id resolves iff one of its rows has it, to the last such row with its patch on top, and every row's id resolves. |
| `DataStore.ReplacementKeepsOverlay` | src/utils.ts:29-37 | After `setData`, every patched field of an id that has a row in the new data still shows through the field projection. |
| `DataStore.PatchedRowIsMerged` | src/utils.ts:18-43 | After `setPartial(id, v)`, the effective row of `id` is the previous effective row with `v` spread on top. It stays absent if it was absent. |
| `DataStore.PatchWithCurrentValues` | src/utils.ts:18-43 | A patch whose fields already hold those values leaves the effective row equal. |
| `DataStore.PatchesAccumulate` | src/SimpleEditableTable.tsx:39-44 | Two `setPartial` calls on one id give the same state as one call with `{...v1, ...v2}`. |
| `DataStore.PatchIsolation` | src/SimpleEditableTable.tsx:19-44 | Patching one id leaves the effective row, the row projection and the field projection of every other id equal. |
| `DataStore.PatchKeepsIds` | src/utils.ts:72 | `setPartial` never changes the id list, even for an id that has no row. |
| `DataStore.DuplicateIdLastWins` | src/utils.ts:33-36 | After loading `[{id:'x',v:1},{id:'x',v:2}]`, `'x'` resolves to `{id:'x',v:2}`. |
| `DataStore.PatchPrecedenceExample` | src/utils.ts:21-41 | Base `{id:'y',a:1,b:2}` with patch `{b:3}` resolves to `{id:'y',a:1,b:3}`. A further patch `{a:5}` gives `{id:'y',a:5,b:3}`. |
| `EditableTable.DemoRows` | src/SimpleEditableTable.tsx:84-87 | The two demo rows: each has the id field, a numeric `value` and a boolean `another`, and their ids are `'one'` and `'two'`. |
| `EditableTable.UpdatePatch` | src/SimpleEditableTable.tsx:121-127 | The click patch is `{value: value+1, another: !another}`, read from the picked row. When the row is absent it uses the fallback `{value:1, another:false}`, giving `{value:2, another:true}`. |
| `EditableTable.EffectiveRowTyped` | src/SimpleEditableTable.tsx:11-24 | When the rows and patches are well typed (`value` a number, `another` a boolean), every effective row is too. |
| `EditableTable.ClickOnPresentRow` | src/SimpleEditableTable.tsx:121-127 | After one click on a present row, the effective `value` is exactly one more and `another` is flipped. Every other field is unchanged. |
| `EditableTable.ClickOnAbsentRow` | src/SimpleEditableTable.tsx:121-127 | A click on an absent row stores the fallback patch `{value:2, another:true}` in the overlay, and the row stays absent. |
| `EditableTable.DemoIds` | src/SimpleEditableTable.tsx:73-87 | After loading the demo rows the id list is `['one','two']`. A patch on the unloaded id `'three'` does not add it. |
| `EditableTable.DemoPatchOne` | src/SimpleEditableTable.tsx:19-71 | On the demo rows, the `['value']` row projection of `'one'` goes from `{value:1}` to `{value:2}` after `setPartial('one', {value:2})`. Every row and field projection of `'two'` stays equal. |
| `SortStore.Sorts.constructor` | src/App.tsx:46-48 | The sort state starts empty, so `getColumn` is `'none'` for every table and column. |
| `SortStore.Sorts.GetColumn` | src/App.tsx:51-54 | Returns the recorded direction when the column is the table's recorded column, and `'none'` otherwise. It only reads state. |
| `SortStore.Sorts.SetIt` | src/App.tsx:49-50 | Overwrites the table's entry. Afterwards `getColumn(t, c)` is `d`, every other column of `t` is `'none'`, and every other table reads as before. When the entry is already there, nothing changes (idempotent). |
| `SortStore.Sorts.UseSort` | src/App.tsx:31-37 | The hook's `dir` is `getColumn(table, column)`. It is not `'none'` only when the table's entry is exactly `{t: column, dir}`. |
| `SortStore.Sorts.SetVia` | src/App.tsx:38 | `useSort(t, c).set(d)` is `setIt(t, c, d)`, after which the hook for `(t, c)` shows `d`. |
| `SortStore.OneSortedColumn` | src/App.tsx:50-53 | At most one column of a table carries a direction. |

## Left out

- The zustand subscription machinery is left out: `create`, `set` listeners, and the `useShallow` comparison that suppresses re-delivery. "A projection is not re-delivered" is stated as "the projection's value is equal" (`PatchIsolation`, `PatchWithCurrentValues`, `PatchKeepsIds`).
- React components, `useEffect`, `setTimeout`/`clearTimeout` and `console.log` are left out. They are rendering and timing plumbing. This includes the User Data input's `setPartial(rowId, {userData: ...})`, which is an ordinary `setPartial` call.
- The `setPartial` function that the hooks return next to their value is left out. It is the same operation as `Store.SetPartial`.
- Numbers are integers (`Num(int)`). Floating point, `NaN`, and `String()` of non-integral numbers or of numbers of magnitude 1e21 or more (exponent notation) are not modelled.
- Record fields always hold a value. A `Partial` patch whose field is explicitly `undefined` would spread `undefined` over the base field. That case is not modelled.
- Ids are strings and rows are maps. JavaScript prototype keys (`__proto__`, `constructor`), lodash `pick` of inherited keys, and `String()` of objects are not modelled. A present row is always truthy.
- `Store.SetData` and `Ids` require every row to carry the id field. The TypeScript row type guarantees this. A row without it would be indexed under `"undefined"`, and `IdOf` models that.
- The literal types that limit tables to `this_table`/`another_table`, and columns to each table's names, are not modelled. The sort store accepts any strings, which is more general.
- The static demo data in `src/App.tsx:104-118` and the type helpers `ElementType`/`ArrayElement` are left out. They have no behaviour.
- Duplicate ids are not treated as an error. The code resolves them silently, with the last position winning, and the model follows the code.
