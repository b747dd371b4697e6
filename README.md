# DataTable engine, modelled in Dafny

This project models the in-memory engine of the `DataTable` React component
(`src/components/DataTable.tsx`). The engine is generic over the row type `T`.
It reads a row only through two accessors: `rowId` gives `row.id`, and `cell`
gives `row[field]`, or `None` when that value is `null` or `undefined`.

The model has four parts:

- **Display order** (`sortedData`). With no active sort key, the rows are
  returned as they are. Otherwise a copy is sorted by one field.
  - Absent values go last in both directions.
  - When both values are numbers, they compare numerically.
  - Anything else compares by its string form.
  - `Array.prototype.sort` must be stable (ECMA-262, section 23.1.3.30).
    The model sorts with a stable insertion sort, and
    `SortRowsIsTheStableSort` proves that, in a column of one kind, any
    arrangement that is in order and keeps equal keys in input order is the
    one this sort computes.
- **Sort state** (`toggleSort`). The state is the pair (`sortKey`,
  `sortDir`). The model proves it behaves as the three-state header machine:
  unsorted, ascending by a field, descending by a field.
- **Row selection** (`toggleSelectRow`). It flips one id in the set of
  selected ids, then reports the rows of the current `data` whose id is in
  the new set, in data order.
- **Select-all** (`toggleSelectAll`), the header checkbox and the row
  checkboxes.

Modules:

- `Wrappers`: `Option`.
- `Seqs`: `Filter`, which models `Array.prototype.filter`.
- `Comparator`: cell values, the comparator, `String(n)`, and string order.
- `Ordering`: the sort and its properties.
- `SortState`: `toggleSort` and the header machine.
- `Selection`: the selection set, the callback payloads and the checkbox
  states.
- `Engine`: the class `TableEngine<T>`, whose fields `sortKey`, `sortDir` and
  `selected` are the component's state. Its methods are the three click
  handlers and the display order. The `data` prop is passed to each call,
  and the payload that `onRowSelect` would get is returned.
- `Scenarios`: the engine's functions, proved on the demo page's sample rows
  (`src/App.tsx`).

Modelling choices:

- A present value is `Num(n)` for a JavaScript number, or `Str(s)` for any
  other value, where `s` is the text `String(v)` gives.
- Numbers are integers. The comparator's `va - vb` is integer subtraction.
- `localeCompare` is replaced by code-point lexicographic order (`StrCompare`,
  three-way). It is proved to agree with an independent definition,
  `LexLe`.
- A mixed comparison, a number against a string, compares `String(n)` with
  the string, as the source does. `IntToString` gives the decimal form.
- `if (!sortKey)` treats any falsy key as "no key", so the empty field name
  `""` also leaves the rows unsorted. `SortActive` models this.
- The declared type of `sortDir` allows `null`. So the model's `Dir` has a
  third value, `Unset`, and the comparator treats it as the descending branch
  does. `Reachable` / `TableEngine.Valid` prove it never occurs, so the
  `else setSortDir('asc')` branch at line 61 is dead.
- The payload of `toggleSelectRow` is filtered from `data` in its input
  order, not from the sorted display order, as line 75 does.

Three behaviours of the code that a reader may not expect, all kept by the model:

- The select-all test at line 82 compares sizes (`prev.size ===
  data.length`), not sets. So a stale selection `{1}` over the rows
  `[{id: 2}]` is cleared rather than replaced (`StaleSelectionCleared`).
- The two tests are the same when the selection holds only current ids and
  the ids are unique (`SizeTestIsSetEquality`).
- With a duplicated id and a selection of current ids only, a select-all
  never clears and the header never shows checked (`DuplicateIdsNeverClear`).
  A stale selection can still clear it: `{7, 8, 9}` over ids `[1, 1, 2]` has
  the row count as its size.

## Model

| member | source | states |
|---|---|---|
| `Comparator.IntToString` | src/components/DataTable.tsx:46-47 | `String(n)` of an integer: a leading `-` exactly for negatives, then a numeral of digits only, with no leading zero, whose value is the magnitude (`-0` is not produced) |
| `Comparator.CanonicalUnique` | src/components/DataTable.tsx:46-47 | a numeral of digits without leading zeros is the only one for its value, so the digits `String(n)` yields are determined by `n` |
| `Comparator.NatToStringValue` | src/components/DataTable.tsx:46-47 | the decimal digits produced for `n` denote `n` |
| `Comparator.StrCompareIsLex` | src/components/DataTable.tsx:46-47 | the three-way string comparison says "not after" exactly when the first string is lexicographically at most the second (prefix, or smaller at the first difference) |
| `Comparator.StrCompareAntisym` | src/components/DataTable.tsx:46-47 | swapping the two strings negates the result |
| `Comparator.StrCompareZero` | src/components/DataTable.tsx:46-47 | the string comparison is zero exactly for equal strings |
| `Comparator.StrCompareTrans` | src/components/DataTable.tsx:46-47 | the string order is transitive |
| `Comparator.CompareValues` | src/components/DataTable.tsx:34-48 | the comparator: an absent value sorts after a present one in both directions; its full meaning is `CompareMeaning` |
| `Comparator.AsString` | src/components/DataTable.tsx:46-47 | `String(v)`: a number's decimal form (`IntToString`), any other value's own text; it feeds the string comparison, whose meaning is `StrCompareIsLex` |
| `Comparator.StrCompare` | src/components/DataTable.tsx:46-47 | the stand-in for `localeCompare`: a three-way result in -1..1; its order is `StrCompareIsLex`, `StrCompareAntisym`, `StrCompareZero` and `StrCompareTrans` |
| `Comparator.CompareMeaning` | src/components/DataTable.tsx:34-48 | comparator result `<= 0` iff the reference order `Before` holds: an absent value follows every present one and ties with another absent one; present values rise when ascending and fall otherwise; numbers numerically, other pairs by string form |
| `Comparator.CompareAntisym` | src/components/DataTable.tsx:34-48 | swapping the rows flips the sign of the comparator and keeps zero as zero |
| `Comparator.CompareDirections` | src/components/DataTable.tsx:38-47 | between present values descending is the negation of ascending; with an absent value the direction does not matter (absent is last both ways) |
| `Comparator.CompareZeroIffSame` | src/components/DataTable.tsx:38-47 | in a column of one kind, the comparator ties exactly equal values, two absent values included |
| `Comparator.CompareReflexive` | src/components/DataTable.tsx:38-47 | every value ties with itself |
| `Comparator.CompareTrans` | src/components/DataTable.tsx:38-47 | in a column of one kind the comparator's "not after" is transitive |
| `Comparator.MixedKindsCycle` | src/components/DataTable.tsx:42-47 | a column mixing numbers and strings can have an ordering cycle (9 < 10 < "5" < 9), so its comparator can be inconsistent |
| `Ordering.SortActive` | src/components/DataTable.tsx:32 | `if (!sortKey)`: sorting happens only for a present, non-empty field name; `NoKeyKeepsOrder` shows both inactive cases |
| `Ordering.SortRows` | src/components/DataTable.tsx:33-49 | the sorted copy of the rows; its meaning is `SortPermutation`, `SortNullsLast`, `SortSorted`, `SortStable` and `SortRowsIsTheStableSort` |
| `Ordering.SortedData` | src/components/DataTable.tsx:31-50 | `sortedData`: the rows as given when no key is active, else the sorted copy; what it promises is stated by `Engine.TableEngine.DisplayOrder` |
| `Ordering.SortPermutation` | src/components/DataTable.tsx:33-34 | the sorted copy holds exactly the input rows, each as often |
| `Ordering.SortNullsLast` | src/components/DataTable.tsx:38-40 | for every column and direction, each row with an absent value comes after every row with a present one |
| `Ordering.SortSorted` | src/components/DataTable.tsx:34-48 | in a column of one kind no two rows of the output are out of comparator order |
| `Ordering.SortOrdered` | src/components/DataTable.tsx:34-48 | in a column of one kind, ascending output has present values non-decreasing, descending non-increasing, absent ones last |
| `Ordering.SortStable` | src/components/DataTable.tsx:34-48 | in a column of one kind, the rows with any given key value appear in the output in their input order, in both directions |
| `Ordering.SortRowsIsTheStableSort` | src/components/DataTable.tsx:33-34 | in a column of one kind, any arrangement that is in comparator order and keeps every key's rows in input order equals the modelled sort |
| `SortState.NextSort` | src/components/DataTable.tsx:52-66 | the click transition on (`sortKey`, `sortDir`); `NextSortRefinesHeader` proves it keeps the state reachable and matches the header machine |
| `SortState.InitialReachable` | src/components/DataTable.tsx:26-27 | the initial state (no key, ascending) is reachable and stands for "unsorted" |
| `SortState.NextSortRefinesHeader` | src/components/DataTable.tsx:52-66 | every click keeps the state reachable and moves it exactly as the header machine's transitions say |
| `SortState.NullDirectionBranchDead` | src/components/DataTable.tsx:61 | in a reachable state a click on the active column never finds a direction other than asc or desc |
| `SortState.NonSortableNoOp` | src/components/DataTable.tsx:53 | a click on a column that is not sortable leaves the state unchanged |
| `SortState.OtherColumnStartsAscending` | src/components/DataTable.tsx:62-65 | a click on a sortable column other than the active one gives (that field, asc) |
| `SortState.ActiveColumnCycles` | src/components/DataTable.tsx:55-60 | on the active field, (f, asc) becomes (f, desc) and (f, desc) becomes (none, asc) |
| `SortState.ClickCycle` | src/components/DataTable.tsx:52-66 | from the initial state three clicks on a sortable column give ascending, descending, initial; a fourth gives ascending again |
| `SortState.PeriodThree` | src/components/DataTable.tsx:52-66 | after any click on a sortable column, three more clicks on it return to the same state |
| `Selection.Flip` | src/components/DataTable.tsx:70-72 | the clicked id changes membership and every other id keeps its membership |
| `Seqs.Filter` | src/components/DataTable.tsx:75 | `Array.prototype.filter`: never longer than its input; `FilterMembers` gives exactly the elements that pass, `FilterConcat` keeps their order |
| `Selection.SelectedRows` | src/components/DataTable.tsx:75 | the `onRowSelect` payload; `SelectedRowsMembers`, `SelectedRowsNone` and `SelectedRowsAll` state what it holds |
| `Selection.SelectedRowsMembers` | src/components/DataTable.tsx:75 | the payload holds only rows of the current data whose id is selected, and every such row |
| `Selection.SelectedRowsNone` | src/components/DataTable.tsx:83 | with nothing selected the payload is empty |
| `Selection.SelectedRowsAll` | src/components/DataTable.tsx:86-87 | with all ids of the data selected the payload is the whole data, in order |
| `Selection.IdsOf` | src/components/DataTable.tsx:86 | the id set contains every row's id and has no more elements than there are rows |
| `Selection.IdsOfExcludes` | src/components/DataTable.tsx:86 | an id that no row has is not in the id set |
| `Selection.IdsOfSize` | src/components/DataTable.tsx:86 | the id set has one element per row exactly when the ids are unique |
| `Selection.SelectAllNext` | src/components/DataTable.tsx:82-88 | the selection after select-all; `SizeTestIsSetEquality`, `SelectAllTwiceClears` and `DuplicateIdsNeverClear` say when it clears |
| `Selection.HeaderChecked` | src/components/DataTable.tsx:102 | the header checkbox; `HeaderMeansEveryRow` proves it means "every row is checked" for current, unique ids |
| `Selection.RowChecked` | src/components/DataTable.tsx:144 | a row's checkbox and highlight (also line 154); `HeaderMeansEveryRow` relates it to the header |
| `Selection.SizeTestIsSetEquality` | src/components/DataTable.tsx:82 | for a selection of current ids over unique ids, the size test is equivalent to set equality with the current ids |
| `Selection.HeaderMeansEveryRow` | src/components/DataTable.tsx:102 | under the same conditions the header checkbox is checked iff there are rows and every row's checkbox is checked |
| `Selection.SelectAllTwiceClears` | src/components/DataTable.tsx:80-90 | from an empty selection over non-empty unique-id data, select-all selects every id (header checked) and a second call clears |
| `Selection.DuplicateIdsNeverClear` | src/components/DataTable.tsx:82-102 | with a duplicated id and a selection of current ids only, select-all selects every id and the header checkbox is unchecked |
| `Engine.TableEngine.constructor` | src/components/DataTable.tsx:26-28 | the engine starts with no key, ascending, nothing selected |
| `Engine.TableEngine.DisplayOrder` | src/components/DataTable.tsx:31-50 | no active key: the rows as given; always a permutation of them; absent values last; in a column of one kind, comparator order and stable |
| `Engine.TableEngine.ToggleSort` | src/components/DataTable.tsx:52-66 | the new state is the click's transition of the old one, stays reachable, and follows the header machine |
| `Engine.TableEngine.ToggleSelectRow` | src/components/DataTable.tsx:68-78 | the selection becomes the old one with the id flipped; the payload is the current rows whose id is in the new set, in data order |
| `Engine.TableEngine.ToggleSelectAll` | src/components/DataTable.tsx:80-90 | selection size equal to the row count: cleared with payload `[]`; otherwise exactly the ids of the data with payload the whole data |
| `Scenarios.SortByAgeAscending` | src/App.tsx:7-11 | the sample rows sorted by age ascending come out as ids 3, 1, 2 |
| `Scenarios.SortByAgeDescending` | src/App.tsx:7-11 | sorted by age descending they come out as ids 2, 1, 3 |
| `Scenarios.NoKeyKeepsOrder` | src/components/DataTable.tsx:32 | with no key, or the falsy key `""`, the sample keeps the order 1, 2, 3 |
| `Scenarios.AgeHeaderClicks` | src/components/DataTable.tsx:52-66 | three clicks on the age header display ascending, descending, then the input order |
| `Scenarios.SelectAllSample` | src/components/DataTable.tsx:80-90 | select-all on the sample selects ids 1, 2, 3, and a second call clears |
| `Scenarios.SelectAllAfterFilter` | src/components/DataTable.tsx:82-88 | a selection {1, 2} over the filtered rows [id 2] becomes {2} |
| `Scenarios.StaleSelectionCleared` | src/components/DataTable.tsx:82-84 | a selection {1} over rows [id 2] is not their id set, yet select-all clears it |
| `Scenarios.ToggleAbsentRow` | src/components/DataTable.tsx:75 | toggling an id that no current row has reports an empty payload |

## Left out

- Rendering is not modelled: JSX markup, CSS classes, ARIA attributes, the loading and "no data" placeholders, and the sort arrow (lines 92-171). The cell text `String(row[field] ?? '')` at line 162 is not modelled either; an absent value would render as the empty string.
- React specifics are not modelled: `useState` updater functions, batching, and `useMemo`. The state is plain fields updated synchronously. `toggleSort` reads the state before it sets anything, so the synchronous model behaves the same.
- `onRowSelect` is optional (`?.`). The model always returns the payload, whether or not a callback is set.
- `localeCompare` is ICU locale collation, which is not visible here. It is replaced by code-point lexicographic order, which is a total order.
- Only integer numbers are modelled. IEEE floating point (fractions, NaN, infinities, `-0`) is not. `IntToString` does not produce the exponent form that `String(n)` gives for very large magnitudes.
- Numeric property keys (`keyof T` can be a number, and `0` is falsy) are not modelled. Field names are strings.
- `Array.prototype.sort` runs in place on the copy `[...data]`. The model computes the sorted copy as a value, so the caller's rows cannot change. That the sort happens in place, and any aliasing, are not modelled.
- Ordering.SortSorted: comparator order is proved only when the column holds one kind of present value. That is a sufficient condition for a consistent comparator, not a necessary one. A column mixing numbers and strings can have an inconsistent comparator (`MixedKindsCycle`), and then ECMA-262 leaves the sort order implementation-defined. Some mixed columns still have a consistent comparator, for example `5` beside `"5"` (they tie both ways), or ids `1` and `"a"`. There ECMA-262 still requires a sorted, stable result, and the model proves neither. Permutation holds for every column, as ECMA-262 requires. Nulls-last also holds for every column in the model (`SortNullsLast`), but for a mixed column that is a property of the modelled insertion sort, not a promise the program makes.
- Ordering.SortOrdered: it needs a column of one kind, for the same reason, so mixed columns whose comparator is consistent are not covered.
- Ordering.SortStable: it needs a column of one kind, for the same reason, so mixed columns whose comparator is consistent are not covered.
- Ordering.SortRowsIsTheStableSort: it needs a column of one kind, for the same reason, so mixed columns whose comparator is consistent are not covered.
- Engine.TableEngine.DisplayOrder: sortedness and stability are stated only for a column of one kind, for the same reason, so mixed columns whose comparator is consistent are not covered.
- src/components/InputField.tsx is not part of this model. It is presentational: class strings, a random id, a forged change event, and a two-state password toggle.
- src/App.tsx is not part of this model, apart from its sample rows. Its load delay and name filter run outside the engine.
- The story files are not part of this model. They are static fixtures.
