# Inventory table: a verified model

This project models the inventory dashboard's table component and its data source in Dafny.

- **Data source** (`lib/data.ts`). `generateItems(count)` builds records with ids `1..count`, names `"Item <id>"`, and a type and status taken from the 0-based index. `getItemById(id)` rebuilds one record, or returns null outside `1..50000`.
- **Derived view** (`filteredItems` in `components/InventoryTable.tsx`). It keeps the records whose lower-cased name contains the lower-cased search text. Unless the status filter is `"all"`, it then keeps only that status. Finally it sorts a copy by one column, ascending or descending, with a stable sort.
- **Sort toggle** (`handleSort`). Clicking the current column flips the direction. Clicking another column sorts ascending by it.
- **Debounced refresh**. Every new `filteredItems` clears the previous timer, shows the loading state and arms a new timer. When the timer fires, that `filteredItems` becomes `displayItems` and loading ends. Teardown clears the timer.
- **Body render decision**. A skeleton while loading, else "No results found." for an empty result, else the virtualized list. The list is given `count = displayItems.length` and a row estimate of 50.

Files:

- `types.dfy`: the record type.
- `text.dfy`: the string built-ins the table uses: ASCII `toLowerCase`, `includes`, and `<` on strings.
- `data.dfy`: the generator and the lookup.
- `sorting.dfy`: `Array.prototype.sort` with a comparator function, as a stable insertion sort.
- `pipeline.dfy`: the derived view and its comparator.
- `table.dfy`: the sort toggle, the render decision, and the class `InventoryTable`. This class holds the component's state and models React's re-render and timer as explicit method calls.

The model is written as values, so the table never changes an `items` array. The sort works on its own copy, as `[...result].sort(...)` does.

Time is explicit:

- a setter runs the effect when it really changes a dependency of `filteredItems`; setting the same value makes React skip the render, and the model does the same;
- `SetItems` is a render of the parent with a new `items` array, which always runs the effect again;
- `Fire` is the moment the armed timer goes off;
- `RunEffect` called once after the constructor is the mount effect: the constructor models only the first render (not loading, no timer armed), and the class leaves that first call to its client;
- `Unmount` is teardown.

A ghost log `commits` records every value a timer wrote to `displayItems`.

## Model

| member | source | states |
|---|---|---|
| Types.StatusText | Assignment_3/dashboard-application/src/lib/types.ts:5 | a status is written "Active" or "Inactive", and "Active" exactly for `Active` |
| Text.Lower | Assignment_3/dashboard-application/src/components/InventoryTable.tsx:26 | lower-casing keeps the length, maps each character, and leaves no upper-case ASCII letter |
| Text.Includes | Assignment_3/dashboard-application/src/components/InventoryTable.tsx:26 | `s.includes(t)` holds exactly when `t` occurs at some position of `s`; the empty text occurs in every string |
| Text.StrLessIsLex | Assignment_3/dashboard-application/src/components/InventoryTable.tsx:37-38 | string `<` is lexicographic order: a proper prefix, or a smaller character at the first difference |
| Text.StrLessTransitive | Assignment_3/dashboard-application/src/components/InventoryTable.tsx:37-38 | string `<` is transitive |
| Text.StrLessTotal | Assignment_3/dashboard-application/src/components/InventoryTable.tsx:37-38 | of two different strings, one is `<` the other |
| Data.NatToString | Assignment_3/dashboard-application/src/lib/data.ts:6 | the numeral in a name is a non-empty string of decimal digits with no leading zero |
| Data.DecimalRoundTrip | Assignment_3/dashboard-application/src/lib/data.ts:6 | reading the numeral back gives the number, so different ids give different names |
| Data.GenerateItems | Assignment_3/dashboard-application/src/lib/data.ts:3-11 | length `count`, or 0 for a negative count; element `i` has id `i + 1`, name "Item " + `(i + 1)` and timestamp `now(i)`; type "Asset" exactly when `i` is even, else "Certificate"; status Inactive exactly when `i % 3 == 0` |
| Data.GeneratedIdsAscending | Assignment_3/dashboard-application/src/lib/data.ts:5-6 | generated ids are strictly ascending and generated names are pairwise different |
| Data.GetItemById | Assignment_3/dashboard-application/src/lib/data.ts:13-23 | null exactly when `id < 1` or `id > 50000` (so 50001 gives null); otherwise a record with that id and name "Item " + id, type "Asset" exactly when `id` is even and "Certificate" exactly when it is odd, status Inactive exactly when `id % 3 == 0` |
| Data.LookupDisagreesWithList | Assignment_3/dashboard-application/src/lib/data.ts:7-20 | for `1 <= k <= count` and `k <= 50000`, the lookup and the list agree on id and name, never on type, and on status only when `k % 3 == 2` |
| Data.FirstRecordDisagrees | Assignment_3/dashboard-application/src/lib/data.ts:7-20 | record 1 is Asset/Inactive in the list but Certificate/Active from the lookup |
| Data.GetItemByIdCorrected | Assignment_3/dashboard-application/src/lib/data.ts:13-23 | the lookup with the list's rule: the same null cases, and a record with the requested id and name |
| Data.CorrectedLookupAgreesWithList | Assignment_3/dashboard-application/src/lib/data.ts:3-11 | for `1 <= k <= count` and `k <= 50000`, the corrected lookup of `k` is exactly element `k - 1` of the list, given the same timestamp |
| Pipeline.Field | Assignment_3/dashboard-application/src/components/InventoryTable.tsx:34-35 | `item[sortKey]` is a number for `id` and a string for every other column |
| Pipeline.Compare | Assignment_3/dashboard-application/src/components/InventoryTable.tsx:33-40 | the comparator returns only -1, 0 or 1 |
| Pipeline.CompareZeroIffEqualKeys | Assignment_3/dashboard-application/src/components/InventoryTable.tsx:37-39 | the comparator returns 0 exactly when the two sort fields are equal, in either direction |
| Pipeline.CompareAntisymmetric | Assignment_3/dashboard-application/src/components/InventoryTable.tsx:37-38 | swapping the arguments negates the result |
| Pipeline.CompareTransitive | Assignment_3/dashboard-application/src/components/InventoryTable.tsx:33-40 | "may come before" is transitive, so the comparator is consistent, as `sort` requires |
| Pipeline.SortedMeansMonotone | Assignment_3/dashboard-application/src/components/InventoryTable.tsx:37-38 | sorted "asc" means non-decreasing in the field; sorted "desc" means non-increasing |
| Pipeline.CompareConsistent | Assignment_3/dashboard-application/src/components/InventoryTable.tsx:33-40 | the comparator handed to `sort` is consistent: swapping the arguments negates it, and "may come before" is transitive |
| Sorting.Insert | Assignment_3/dashboard-application/src/components/InventoryTable.tsx:33 | inserting one element adds exactly one element |
| Sorting.InsertSorted | Assignment_3/dashboard-application/src/components/InventoryTable.tsx:33 | with a consistent comparator, inserting into a sorted sequence keeps it sorted |
| Sorting.InsertPermutes | Assignment_3/dashboard-application/src/components/InventoryTable.tsx:33 | inserting adds exactly that element to the multiset |
| Sorting.InsertStable | Assignment_3/dashboard-application/src/components/InventoryTable.tsx:33 | inserting puts the element behind the elements tied with it, and moves no tie class out of order |
| Sorting.SortCorrect | Assignment_3/dashboard-application/src/components/InventoryTable.tsx:33 | with a consistent comparator, the sort's result is ordered, is a permutation of its input, and is stable: for every element, the elements tied with it keep their input order |
| Sorting.SortOfSortedIsIdentity | Assignment_3/dashboard-application/src/components/InventoryTable.tsx:33 | sorting a sequence that is already ordered returns it unchanged |
| Pipeline.TiesAreSameKey | Assignment_3/dashboard-application/src/components/InventoryTable.tsx:37-39 | the records the comparator ties with `y` are exactly the records with `y`'s value in the sort field |
| Pipeline.SortByKeyCorrect | Assignment_3/dashboard-application/src/components/InventoryTable.tsx:33-40 | sorting by a column is ordered by that column, is a permutation, and for every field value keeps the records with that value in their input order |
| Pipeline.SearchStep | Assignment_3/dashboard-application/src/components/InventoryTable.tsx:25-27 | the search step is no longer than its input, and every kept record's lower-cased name contains the lower-cased search text |
| Pipeline.StatusStep | Assignment_3/dashboard-application/src/components/InventoryTable.tsx:29-31 | the status step is no longer than its input, and with a filter other than "all" every kept record has exactly that status |
| Pipeline.SelectedExactly | Assignment_3/dashboard-application/src/components/InventoryTable.tsx:25-31 | a record is selected exactly when it is in `items` and passes both tests, and it is selected as often as it occurs in `items` |
| Pipeline.SelectedCount | Assignment_3/dashboard-application/src/components/InventoryTable.tsx:25-31 | a record occurs in the selection as often as in `items` when it passes both tests, and not at all otherwise |
| Pipeline.SelectedShorter | Assignment_3/dashboard-application/src/components/InventoryTable.tsx:25-31 | the selection is no longer than `items` |
| Pipeline.StepsSelect | Assignment_3/dashboard-application/src/components/InventoryTable.tsx:25-31 | the two filter calls give exactly the order-preserving subsequence of `items` that passes both tests |
| Pipeline.FilteredItemsCorrect | Assignment_3/dashboard-application/src/components/InventoryTable.tsx:24-43 | `filteredItems` is no longer than `items`; each of its records is in `items` and passes both tests; it is a permutation of that subsequence; it is ordered by the sort key; records with equal keys keep their order in `items` |
| Pipeline.EmptySearchKeepsAll | Assignment_3/dashboard-application/src/components/InventoryTable.tsx:25-27 | an empty search text keeps every record, in order |
| Pipeline.AllStatusKeepsAll | Assignment_3/dashboard-application/src/components/InventoryTable.tsx:29-31 | with "all" the status step drops nothing |
| Pipeline.NoFilterIsPermutation | Assignment_3/dashboard-application/src/components/InventoryTable.tsx:24-43 | with no search text and status "all", the view is a reordering of all of `items` |
| Pipeline.ActiveByIdDescending | Assignment_3/dashboard-application/src/components/InventoryTable.tsx:24-43 | ids 1, 2, 3 with statuses Active, Inactive, Active, filtered to "Active" and sorted by id descending, give ids 3 then 1 |
| Table.NextSort | Assignment_3/dashboard-application/src/components/InventoryTable.tsx:45-52 | the key becomes the clicked column; the same column flips the direction; another column sorts ascending |
| Table.NextSortTwiceRestores | Assignment_3/dashboard-application/src/components/InventoryTable.tsx:45-52 | clicking the current column twice restores the sort state |
| Table.NextSortOtherTwice | Assignment_3/dashboard-application/src/components/InventoryTable.tsx:45-52 | clicking another column twice sorts descending by it |
| Table.Render | Assignment_3/dashboard-application/src/components/InventoryTable.tsx:122-127 | skeleton exactly while loading; the empty message exactly when not loading and nothing to show; otherwise the list, with virtualizer count `displayItems.length` and estimate 50 |
| Table.EmptyResultShowsMessage | Assignment_3/dashboard-application/src/components/InventoryTable.tsx:122-125 | an empty committed result shows the message, not the skeleton |
| Table.DefaultViewOfGeneratedList | Assignment_3/dashboard-application/src/components/InventoryTable.tsx:15-20 | for a generated list, the initial view state's `filteredItems` is the list itself, so the first commit shows the rows of the first render |
| Table.InventoryTable.constructor | Assignment_3/dashboard-application/src/components/InventoryTable.tsx:15-20 | initial state: empty search text, status "all", sort by id ascending, not loading, `displayItems == items`, no timer armed |
| Table.InventoryTable.RunEffect | Assignment_3/dashboard-application/src/components/InventoryTable.tsx:55-64 | the old timer is cleared; loading is set; a timer is armed holding the current `filteredItems` |
| Table.InventoryTable.SetFilter | Assignment_3/dashboard-application/src/components/InventoryTable.tsx:15 | a new search text is stored and re-arms the timer with the new `filteredItems`, dropping the earlier pending commit; the same text changes nothing; `displayItems` is untouched |
| Table.InventoryTable.SetStatusFilter | Assignment_3/dashboard-application/src/components/InventoryTable.tsx:16 | the same for the status filter |
| Table.InventoryTable.HandleSort | Assignment_3/dashboard-application/src/components/InventoryTable.tsx:45-52 | the sort state becomes `NextSort` of the old one, and the timer is always re-armed |
| Table.InventoryTable.SetItems | Assignment_3/dashboard-application/src/components/InventoryTable.tsx:43-64 | a new `items` prop from the parent re-runs the memo and the effect: the prop is stored, loading is set and the timer re-armed with the new prop's `filteredItems`; `displayItems` keeps its value until that timer commits |
| Table.InventoryTable.Fire | Assignment_3/dashboard-application/src/components/InventoryTable.tsx:58-61 | an armed timer commits the latest `filteredItems` into `displayItems`, clears loading and disarms; this is the only place `displayItems` is written; with no timer armed nothing changes |
| Table.InventoryTable.Unmount | Assignment_3/dashboard-application/src/components/InventoryTable.tsx:63 | teardown clears the pending timer, so no commit can follow |
| Table.InventoryTable.View | Assignment_3/dashboard-application/src/components/InventoryTable.tsx:122-127 | on a mounted table the skeleton shows exactly while a timer is armed, "No results found." exactly when none is armed and the committed result is empty, and otherwise the list over every committed row with estimate 50 |
| Table.InventoryTable.RowAt | Assignment_3/dashboard-application/src/components/InventoryTable.tsx:134-135 | an index below the virtualizer's count picks a displayed record |
| Table.TypeTwiceThenWait | Assignment_3/dashboard-application/src/components/InventoryTable.tsx:55-64 | two quick edits followed by the timer produce exactly one commit, and it holds the second edit's result |
| Table.NewItemsThenWait | Assignment_3/dashboard-application/src/components/InventoryTable.tsx:43-64 | a new prop followed by the timer gives one more commit, holding the new prop's view under the unchanged filter and sort state |
| Table.ActiveByIdDescendingScenario | Assignment_3/dashboard-application/src/components/InventoryTable.tsx:24-64 | mounting over the three sample records, choosing "Active", clicking the id header and waiting shows ids 3 and 1 as a list of two rows |

The class invariant `InventoryTable.Valid` is what every method keeps. It says:

- a pending commit always holds the `filteredItems` of the current view state;
- while mounted, loading is shown exactly while a commit is pending;
- after teardown nothing is pending;
- `displayItems` is the last committed result, or the prop before the first commit.

So only the last `filteredItems` of a burst of changes is ever written to `displayItems`.

Where the code and the system's design differ, the model follows the code:

- The design computes the result when the commit happens. The code captures `filteredItems` when the timer is armed. The invariant shows the two coincide, because every change re-arms the timer.
- The design's lookup reports "not found" for an id the list does not hold. The code's guard is the fixed range `1..50000`, whatever the list's length.

## Left out

- JSX, CSS, ARIA markup, `Filters.tsx`, `TableRow.tsx`, `TableSkeleton.tsx`, `layout.tsx` and `page.tsx` are left out. They are presentation or routing. `TableRow.tsx` shows `lastUpdated` through `formatDate`, and that display formatting is not modelled.
- The detail page's parsing of its path parameter (`Number(...)`, the NaN check) is not part of this model. The lookup takes an integer.
- GetItemById: JavaScript numbers are modelled as integers. A fractional id such as 1.5 passes the source's range guard, but the model cannot express it.
- GenerateItems: a non-integer `count` is not modelled. A negative count gives an empty list, as `Array.from` clamps the length. A count of 2^32 or more makes the source throw a RangeError, because `Array.from` cannot build an array that long; the model returns the list instead.
- `new Date().toISOString()` is an input. The generator takes `now(i)`, the timestamp read for element `i`. The lookup takes one timestamp string.
- Text.Lower: only ASCII letters are lower-cased. JavaScript's `toLowerCase` maps all of Unicode.
- Text.StrLess: it compares Dafny characters, which are Unicode scalar values. JavaScript compares UTF-16 code units, and the two orders differ only for characters outside the Basic Multilingual Plane.
- Sorting.Sort: the engine's own sort algorithm is not modelled. An insertion sort stands in, proved to have the properties the language standard requires of `Array.prototype.sort`: stable, ordered by a consistent comparator, and a permutation.
- `@tanstack/react-virtual` internals are left out: overscan, measured sizes, `getTotalSize` and `getVirtualItems`. The model keeps only what the call site fixes: the count, the estimate of 50, and the assumption that every rendered index is below the count, which is the precondition of `RowAt`.
- The 400 ms delay and real timer scheduling are left out. `Fire` stands for the timer going off, whenever that is.
- InventoryTable.SetItems: React compares props by reference, so the parent passing the same array object again changes nothing. The model has no array identity, so every `SetItems` call stands for a new array and re-arms the timer, even when its contents are equal.
- React's batching, memoization and effect scheduling are replaced by explicit method calls. A setter that changes its value runs the effect once; `useMemo` becomes the function `Derived`.

## Findings

| source | as written | input that shows it | evidently intended | confidence | as-written member | corrected member |
|---|---|---|---|---|---|---|
| Assignment_3/dashboard-application/src/lib/data.ts:19-20 | the lookup picks type and status from `id % 2` and `id % 3`; the list picks them from the 0-based index `i = id - 1` | id 1: the list holds Asset/Inactive, the lookup returns Certificate/Active | the lookup returns the record the list holds at that id, so it applies the list's rule to `id - 1` | high, not executed | Data.FirstRecordDisagrees | Data.CorrectedLookupAgreesWithList |

The lemma `Data.LookupDisagreesWithList` states the whole of the disagreement. Type never agrees. Status agrees only for ids with `id % 3 == 2`.

`Data.GetItemByIdCorrected` is the corrected lookup. Its only caller, the detail page, is not part of this model.
