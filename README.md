# Sorting and trimming utilities, and three revisions of a sortable table

A Dafny model of the computational core of a JavaScript coursework
repository:

- `trimSymbols(string, size)` cuts every run of identical consecutive
  symbols down to at most `size` symbols (`trim_symbols.dfy`);
- `sortStrings(arr, param)` returns a copy of an array of strings sorted by
  a base-sensitivity locale comparison, with ties broken by the `<`
  operator on strings (`sort_strings.dfy`);
- `SortableTable`, three revisions of a table component over rows of
  field values:
  - the first sorts in place by a field, numerically or with the locale
    comparison (`sortable_table_v1.dfy`);
  - the second picks the comparator by the column's `sortType` and re-sorts
    on header clicks (`sortable_table_v2.dfy`);
  - the third loads pages of rows from a server, sorts either on the client
    or on the server, and fetches further pages on scrolling
    (`sortable_table_v3.dfy`).

Shared parts:

- `sorting.dfy` models `Array.prototype.sort(compare)`, which is required
  to be stable, as the insertion sort `SortBy`. For a comparator that is a
  total preorder on the elements, its result is sorted, and elements that
  compare equal keep their input order (`SortByStable`). Any sorted
  permutation that keeps that order equals `SortBy`'s result
  (`SortByIsTheStableSort`), so every conforming engine agrees with it.
- `collation.dfy` leaves `String.prototype.localeCompare` abstract. It is a
  parameter `loc`, and `IsCollation` states what is assumed of it: a total
  preorder that may equate distinct strings. The same file defines the
  `<` operator on strings.
- `rows.dfy` holds rows (maps from field names to numbers or strings), the
  numeric and collation comparators, and the lookup of the first header
  cell with a given id.
- `wrappers.dfy` holds `Option`, `Result` and `Outcome`.

Throwing is modelled as a `Failure`/`Fail` result:

- `UnknownOrder` for `new Error("Unknown order: ...")`;
- `UnknownSortType` for the `default:` branch of the client comparator;
- `TypeError` for a property read on `undefined`.

The tables' header cells are a fixed-size `array` of `data-order`
attributes, and the methods write those cells in place.

`trimSymbols` is specified on the run-length form of a string, `Runs`.
`Trimmed(s, Some(n))` expands the runs after cutting each one to
`Kept(length, n)` symbols. The method `TrimSymbols` keeps the single pass
of the source, with its counter of identical neighbours. Its loop invariant
describes the counter position by position (`Streak`, `Counter`,
`Survivors`), and `SurvivorsMatchRuns` connects that to the run-length
specification.

### Behaviour of the code worth knowing

- The scroll handler of the third revision advances `start` by a page
  *before* it fetches.
- `loadData(id, order, start, count)` is called with `start + count` as its
  `count`, so the window requested at offset `start` is
  `[start, 2 * start + count)`; consecutive scroll windows overlap once
  `start` exceeds a page.
- A failed fetch is swallowed and reads as an empty page. An empty
  scrolled-in page (failed or not) sets `hasLoaded`; an empty first load or
  server sort does not, it only marks the table empty. Nothing resets the
  flag; a new sort leaves it set. A partial page does not set it.
- Scrolled-in pages are appended to the rendered body only; `data` keeps
  the rows of the last full load.
- An answer is never matched to the request it belongs to: `CompleteLoad`
  and `CompleteScroll` accept any result at any time, so a late answer to an
  earlier request is applied like any other.
- `sortOnClient` returns a sorted copy that the click handler discards:
  under local sorting the rows are never reordered.
- The `loading` field is never read; the guard uses `isLoading`, which
  starts as `undefined`.
- The second revision sorts inside the constructor. A table built without
  rows has no body element, so that construction always throws; the first
  revision throws from `sort` in the same situation.

## Model

| member | source | states |
|---|---|---|
| `Sorting.SortBy` | 02-javascript-data-types/1-sort-strings/index.js:28 | `Array.prototype.sort` returns a permutation of its input, of the same length |
| `Sorting.SortBySorted` | 02-javascript-data-types/1-sort-strings/index.js:28 | with a comparator that is a total preorder on the elements, every pair of the result is in order |
| `Sorting.SortByKeepsOrdered` | 06-events-practice/1-sortable-table-v2/index.js:195-207 | an input whose neighbours are already in order is returned unchanged |
| `Sorting.SortByStable` | 05-dom-document-loading/2-sortable-table-v1/index.js:164-173 | the elements that compare equal to any given element come out in their input order |
| `Sorting.StablePermutationUnique` | 06-events-practice/1-sortable-table-v2/index.js:195-207 | two sorted permutations of the same elements, each keeping the same order among tied elements, are equal under an antisymmetric comparator |
| `Sorting.SortByIsTheStableSort` | 07-async-code-fetch-api-part-1/2-sortable-table-v3/index.js:210-225 | any permutation of the input that is sorted by a consistent comparator and keeps tied elements in input order is `SortBy`'s result |
| `Sorting.SortByIdempotent` | 02-javascript-data-types/1-sort-strings/index.js:28 | sorting a sorted result again changes nothing |
| `Sorting.SortedPermutationUnique` | 02-javascript-data-types/1-sort-strings/index.js:28 | two sorted permutations of the same elements are equal when the comparator answers zero only for equal elements |
| `Sorting.ScaledPreorder` | 05-dom-document-loading/2-sortable-table-v1/index.js:164-173 | multiplying a consistent comparator by the direction 1 or -1 keeps it consistent |
| `Collation.CodeUnitLessTrichotomy` | 02-javascript-data-types/1-sort-strings/index.js:19-25 | for the string `<`, exactly one of `a < b`, `a == b`, `b < a` holds |
| `Collation.CodeUnitLessTransitive` | 02-javascript-data-types/1-sort-strings/index.js:19-25 | the string `<` is transitive |
| `Collation.ReversedIsCollation` | 02-javascript-data-types/1-sort-strings/index.js:11-14 | the locale comparison with swapped operands (the "desc" branch) is again a collation |
| `Collation.CodeUnitLess` | 02-javascript-data-types/1-sort-strings/index.js:19-25 | the string `<`: lexicographic by character, a proper prefix before any extension of it; `CodeUnitLessTrichotomy` and `CodeUnitLessTransitive` make it a strict total order |
| `SortStrings.SortStrings` | 02-javascript-data-types/1-sort-strings/index.js:7-29 | the result is a permutation of `arr` |
| `SortStrings.Primary` | 02-javascript-data-types/1-sort-strings/index.js:11-14 | for a collation, the locale comparison in the requested direction: zero exactly when the locale equates the strings, negative when `a` comes first, or last for "desc" |
| `SortStrings.CompareByLocaleAndCase` | 02-javascript-data-types/1-sort-strings/index.js:8-27 | the locale comparison decides whenever it is non-zero; for strings it equates, the answer is 0 exactly for identical strings and negative exactly when `a < b` |
| `SortStrings.CompareZeroIffEqual` | 02-javascript-data-types/1-sort-strings/index.js:8-27 | `sortByLocaleAndCase` answers 0 exactly for identical strings |
| `SortStrings.CompareAntisymmetric` | 02-javascript-data-types/1-sort-strings/index.js:8-27 | swapping the operands flips the sign of the answer, in either direction |
| `SortStrings.CompareTransitive` | 02-javascript-data-types/1-sort-strings/index.js:8-27 | "answers at most 0" is transitive |
| `SortStrings.ComparatorConsistent` | 02-javascript-data-types/1-sort-strings/index.js:8-27 | the comparator is a total preorder that separates distinct strings |
| `SortStrings.SortStringsOrdered` | 02-javascript-data-types/1-sort-strings/index.js:7-29 | the result is in locale order, reversed for "desc"; strings the locale equates are in ascending `<` order |
| `SortStrings.SortStringsUnique` | 02-javascript-data-types/1-sort-strings/index.js:7-29 | any permutation of `arr` sorted by the comparator is the result, so the output does not depend on the engine |
| `SortStrings.TiesIgnoreDirection` | 02-javascript-data-types/1-sort-strings/index.js:16-26 | distinct strings the locale equates come out in the same order for "asc" and "desc", so "desc" is not the reverse of "asc" |
| `TrimSymbols.LeadingRunSpec` | 03-objects-arrays-intro-to-testing/3-trim-symbols/index.js:20-25 | the first run is a maximal block of copies of the first symbol |
| `TrimSymbols.RunsRoundTrip` | 03-objects-arrays-intro-to-testing/3-trim-symbols/index.js:18-33 | expanding the run-length form gives the string back, and its runs are non-empty with differing neighbours |
| `TrimSymbols.ExpandRoundTrip` | 03-objects-arrays-intro-to-testing/3-trim-symbols/index.js:18-33 | the run-length form of the string of a maximal run sequence is that sequence |
| `TrimSymbols.SurvivorsMatchRuns` | 03-objects-arrays-intro-to-testing/3-trim-symbols/index.js:16-33 | the one-pass counter keeps, of each maximal run, `min(length, size)` symbols (none for `size <= 0`) |
| `TrimSymbols.TrimSymbols` | 03-objects-arrays-intro-to-testing/3-trim-symbols/index.js:7-36 | the result is the specification `Trimmed(s, size)`: "" for an empty string or size 0, the string itself without a size, each run cut to `size` otherwise |
| `TrimSymbols.TrimmedIsSubsequence` | 03-objects-arrays-intro-to-testing/3-trim-symbols/index.js:26-28 | the result only deletes symbols of the input, keeping their order, and is never longer |
| `TrimSymbols.TrimmedNonPositive` | 03-objects-arrays-intro-to-testing/3-trim-symbols/index.js:26-28 | a size of 0 or less yields "" |
| `TrimSymbols.TrimmedRuns` | 03-objects-arrays-intro-to-testing/3-trim-symbols/index.js:18-33 | with a positive size, the runs of the result are the runs of the input, same symbols and order, each cut to `size` |
| `TrimSymbols.TrimmedRunsBounded` | 03-objects-arrays-intro-to-testing/3-trim-symbols/index.js:18-33 | no run of the result is longer than `size` |
| `TrimSymbols.TrimmedUnchanged` | 03-objects-arrays-intro-to-testing/3-trim-symbols/index.js:18-33 | the string comes back unchanged exactly when none of its runs is longer than `size` |
| `TrimSymbols.TrimmedIdempotent` | 03-objects-arrays-intro-to-testing/3-trim-symbols/index.js:7-36 | trimming the result again with the same size changes nothing |
| `Rows.Direction` | 05-dom-document-loading/2-sortable-table-v1/index.js:153-162 | "asc" maps to 1, "desc" to -1, and every other order is unknown |
| `Rows.FirstIndex` | 05-dom-document-loading/2-sortable-table-v1/index.js:177-179 | `find` returns the first element with the id, and nothing exactly when the id is absent |
| `Rows.NumberCompare` | 05-dom-document-loading/2-sortable-table-v1/index.js:165-167 | a definition without a contract of its own, also used for the second and third revisions' "number" columns: `NumberComparePreorder`, `NumberSortedMeans` and `DescendingFlipsSign` characterise it |
| `Rows.TextCompare` | 05-dom-document-loading/2-sortable-table-v1/index.js:168-171 | a definition without a contract of its own, also used for the second and third revisions' collation columns: `TextComparePreorder`, `TextSortedMeans` and `DescendingFlipsSign` characterise it |
| `Rows.NumberComparePreorder` | 05-dom-document-loading/2-sortable-table-v1/index.js:165-166 | `direction * (a - b)` is a consistent comparator in either direction |
| `Rows.TextComparePreorder` | 05-dom-document-loading/2-sortable-table-v1/index.js:167-171 | `direction * localeCompare` is a consistent comparator in either direction |
| `Rows.NumberSortedMeans` | 06-events-practice/1-sortable-table-v2/index.js:196-197 | sorted by the number comparator iff the numbers ascend for "asc" and descend for "desc" |
| `Rows.TextSortedMeans` | 06-events-practice/1-sortable-table-v2/index.js:201-205 | sorted by the collation comparator iff in collation order, reversed for "desc" |
| `Rows.DescendingFlipsSign` | 05-dom-document-loading/2-sortable-table-v1/index.js:164-173 | "desc" negates the comparison of "asc", numerically and by collation |
| `Rows.ConstantComparatorKeepsOrder` | 06-events-practice/1-sortable-table-v2/index.js:199-200 | a comparator answering one non-positive constant leaves the rows in their order; for the constant 0 this is what every stable sort does |
| `SortableTableV1.ValueCompareOnColumn` | 05-dom-document-loading/2-sortable-table-v1/index.js:164-173 | on an all-number column the comparator subtracts; on an all-string column it collates |
| `SortableTableV1.ValueCompare` | 05-dom-document-loading/2-sortable-table-v1/index.js:164-173 | a definition without a contract of its own: `ValueCompareOnColumn`, `ValueComparePreorder`, `ValueSortedMeans` and `DescendingNegatesAscending` characterise it |
| `SortableTableV1.ValueComparePreorder` | 05-dom-document-loading/2-sortable-table-v1/index.js:164-173 | on rows `sort` accepts, the comparator is consistent |
| `SortableTableV1.ValueSortedMeans` | 05-dom-document-loading/2-sortable-table-v1/index.js:164-173 | sorted by the comparator means in numeric or collation order, as the column's kind says |
| `SortableTableV1.DescendingNegatesAscending` | 05-dom-document-loading/2-sortable-table-v1/index.js:164-173 | "desc" negates the answer of "asc" |
| `SortableTableV1.Table.constructor` | 05-dom-document-loading/2-sortable-table-v1/index.js:5-9 | stores the rows unsorted; header orders start empty; there is a body element iff there are rows |
| `SortableTableV1.Table.Update` | 05-dom-document-loading/2-sortable-table-v1/index.js:183-186 | replaces the rows, keeping the table's invariant, then throws when the table has no body |
| `SortableTableV1.Table.Sort` | 05-dom-document-loading/2-sortable-table-v1/index.js:152-181 | an unknown order throws before anything changes; otherwise the rows become their stable sorted permutation, which is in order for a collation, and only the first header cell with id `field` gets the order; a missing body or cell throws after the rows are replaced |
| `Rows.Ids` | 06-events-practice/1-sortable-table-v2/index.js:166-168 | the ids of the header configuration, in order (used by the second and third revisions) |
| `SortableTableV2.SortTypeComparePreorder` | 06-events-practice/1-sortable-table-v2/index.js:195-207 | the comparator of "number", of any other name, and of a function answering 0, is consistent |
| `SortableTableV2.SortTypeCompare` | 06-events-practice/1-sortable-table-v2/index.js:195-207 | a definition without a contract of its own: `SortTypeComparePreorder` and `FunctionSortKeepsOrder` characterise it, and `Rows.NumberSortedMeans` and `Rows.TextSortedMeans` say what sorted by it means |
| `SortableTableV2.FunctionSortKeepsOrder` | 06-events-practice/1-sortable-table-v2/index.js:199-200 | a `sortType` function whose answer times the direction is at most 0 leaves the rows in their order; for a product of 0 this is what every stable sort does |
| `SortableTableV2.NextSorted` | 06-events-practice/1-sortable-table-v2/index.js:6-13 | the clicked field becomes the sorted field; its order is "asc" exactly when it was already sorted "desc", and "desc" otherwise |
| `SortableTableV2.ClickTwice` | 06-events-practice/1-sortable-table-v2/index.js:6-13 | two clicks on the sorted field restore its order |
| `SortableTableV2.Marked` | 06-events-practice/1-sortable-table-v2/index.js:211-217 | after a sort exactly the sorted field's header cell shows the order |
| `SortableTableV2.Table.Init` | 06-events-practice/1-sortable-table-v2/index.js:18-33 | stores configuration, rows and sort state; header orders start empty; there is a body element iff there are rows |
| `SortableTableV2.Table.Update` | 06-events-practice/1-sortable-table-v2/index.js:220-223 | replaces the rows, keeping the table's invariant, then throws when the table has no body |
| `SortableTableV2.Table.MarkHeader` | 06-events-practice/1-sortable-table-v2/index.js:211-217 | clears every header cell, then sets the order on one |
| `SortableTableV2.Table.Sort` | 06-events-practice/1-sortable-table-v2/index.js:179-218 | an unknown order or a field without a column throws with nothing changed; otherwise the rows become their stable sort by the column's comparator, sorted whenever that comparator is consistent, and exactly the field's header cell is marked |
| `SortableTableV2.Table.OnPointerDown` | 06-events-practice/1-sortable-table-v2/index.js:6-16 | steps the sort state by `NextSorted`, then sorts by it; the order it sorts with is never unknown |
| `SortableTableV2.Create` | 06-events-practice/1-sortable-table-v2/index.js:18-36 | construction fails exactly for an unknown order, a field without a column, or no rows; otherwise the new table has the given columns and a body, its rows are sorted and exactly the sorted cell is marked |
| `SortableTableV3.ToggleOrder` | 07-async-code-fetch-api-part-1/2-sortable-table-v3/index.js:17-24 | "asc" and "desc" swap, and any other order has no toggle |
| `SortableTableV3.ToggleInvolution` | 07-async-code-fetch-api-part-1/2-sortable-table-v3/index.js:17-24 | toggling twice gives the order back |
| `SortableTableV3.OrderText` | 07-async-code-fetch-api-part-1/2-sortable-table-v3/index.js:28-31 | the text written for a toggled order toggles again exactly when the order was "asc" or "desc" |
| `SortableTableV3.FirstSortable` | 07-async-code-fetch-api-part-1/2-sortable-table-v3/index.js:84 | the first sortable column, and nothing exactly when no column is sortable |
| `SortableTableV3.DefaultSorted` | 07-async-code-fetch-api-part-1/2-sortable-table-v3/index.js:83-86 | the default sort is the first sortable column ascending; without one it throws |
| `SortableTableV3.DefaultSortedHeadersAsc` | 07-async-code-fetch-api-part-1/2-sortable-table-v3/index.js:105-106 | under the default sort every header cell starts with "asc" |
| `SortableTableV3.HeaderOrder` | 07-async-code-fetch-api-part-1/2-sortable-table-v3/index.js:106 | a definition without a contract of its own: `DefaultSortedHeadersAsc`, `Table.Init` and `Create` characterise it |
| `SortableTableV3.LoadQuery` | 07-async-code-fetch-api-part-1/2-sortable-table-v3/index.js:185-190 | `_end - _start` is the `count` argument |
| `SortableTableV3.LoadResult` | 07-async-code-fetch-api-part-1/2-sortable-table-v3/index.js:192-200 | a failed fetch resolves to no rows |
| `SortableTableV3.CallerWindow` | 07-async-code-fetch-api-part-1/2-sortable-table-v3/index.js:62-67 | the callers' window at offset `start` ends at `2 * start + count` |
| `SortableTableV3.ScrollWindowsOverlap` | 07-async-code-fetch-api-part-1/2-sortable-table-v3/index.js:61-67 | from the second scroll on, each page's window begins inside the previous page's window |
| `SortableTableV3.ClientDirection` | 07-async-code-fetch-api-part-1/2-sortable-table-v3/index.js:208 | the direction is 1 exactly for "asc" and -1 for every other order |
| `SortableTableV3.SortOnClient` | 07-async-code-fetch-api-part-1/2-sortable-table-v3/index.js:203-223 | fails exactly for an id without a column, or an unknown sort type with at least two rows; otherwise the result is a permutation of the rows |
| `SortableTableV3.ClientComparePreorder` | 07-async-code-fetch-api-part-1/2-sortable-table-v3/index.js:210-222 | "number" and "string" comparators are consistent, and so is "custom" when `customSorting` is |
| `SortableTableV3.ClientCompare` | 07-async-code-fetch-api-part-1/2-sortable-table-v3/index.js:210-222 | a definition without a contract of its own: `ClientComparePreorder` and `SortOnClientSorted` characterise it |
| `SortableTableV3.SortOnClientSorted` | 07-async-code-fetch-api-part-1/2-sortable-table-v3/index.js:203-223 | a successful client sort is in the column's order whenever its comparator is consistent |
| `SortableTableV3.Table.Init` | 07-async-code-fetch-api-part-1/2-sortable-table-v3/index.js:80-97 | header cells get `HeaderOrder`; rows empty, `start` 0, not loading; exactly the first page is requested |
| `SortableTableV3.Table.Update` | 07-async-code-fetch-api-part-1/2-sortable-table-v3/index.js:231-238 | non-empty rows are rendered; empty rows mark the table empty and leave the old body; the table's invariant is kept |
| `SortableTableV3.Table.CompleteLoad` | 07-async-code-fetch-api-part-1/2-sortable-table-v3/index.js:254-260 | the loaded rows (none for a failed fetch) replace `data`, then `update` runs |
| `SortableTableV3.Table.OnSortClick` | 07-async-code-fetch-api-part-1/2-sortable-table-v3/index.js:14-48 | a click outside a sortable column does nothing; otherwise the cell's order is toggled and becomes the sort, `start` resets to 0, the server is asked for the first page or the client sort runs and its result is dropped, and the cell shows the new order unless the client sort threw |
| `SortableTableV3.Table.BeginScroll` | 07-async-code-fetch-api-part-1/2-sortable-table-v3/index.js:50-67 | nothing happens when all is loaded, a page is loading, or the bottom is not reached; otherwise loading starts, `start` advances by a page, and the page at the new `start` is requested |
| `SortableTableV3.Table.CompleteScroll` | 07-async-code-fetch-api-part-1/2-sortable-table-v3/index.js:68-77 | loading ends; a non-empty page is appended to the body only, and an empty or failed one sets `hasLoaded` |
| `SortableTableV3.Create` | 07-async-code-fetch-api-part-1/2-sortable-table-v3/index.js:80-97 | construction fails exactly when no `sorted` is given and no column is sortable; otherwise the new table has the given columns and mode, every header cell shows its `HeaderOrder` for the chosen sort, the rows and body are empty, `start` is 0, nothing is loading or fully loaded, and exactly the first ten rows sorted as chosen are requested |

## Left out

- DOM rendering is not modelled: templates, arrows, images, the "loading" CSS class, event listener registration, `remove` and `destroy`. The rendered body is a sequence of rows, and header cells are their `data-order` values.
- The geometry of the scroll test (`getBoundingClientRect().bottom < clientHeight`) is the parameter `nearBottom`.
- `fetchJson` and the backend URL are not modelled. A fetch is the query it sends, recorded in `requests`, plus a later result passed in as `FetchResult`.
- The interleaving of asynchronous continuations is not modelled beyond that split. In particular, an old request's late answer overwriting a newer one is possible in the code, and the model allows it, but no lemma states it.
- `String.prototype.localeCompare` and its locales and options are abstract (`loc`, assumed a total preorder by `IsCollation`). Each call site's options are only a different `loc`.
- A string is a sequence of Dafny `char`s. `trimSymbols` iterates code points (`Array.from`), and the `<` of `sortStrings` compares UTF-16 code units; the two orders differ only for characters outside the Basic Multilingual Plane, which the model does not distinguish.
- Numbers are mathematical integers: row values, `size` and the `sortType` function's answer. Floating point, `NaN` and non-integer sizes are not modelled.
- Each table method receives and stores rows by value. The aliasing of the caller's array, which `this.data.sort` reorders in place in the first two revisions, is not modelled. Neither is the aliasing of the caller's `sorted` object, which the click handlers mutate.
- Custom header `template` functions in the first and second revisions' configurations are not modelled; every header cell is taken to carry its column id.
- The `subElements.arrow` append in the third revision's click handler is not modelled.
- `Sorting.SortBy`: for a comparator that is not a total preorder on the elements, `Array.prototype.sort` is implementation-defined. The model then promises only a permutation, and stable insertion is one conforming choice. The order `SortBy` then produces is the model's own choice and need not match an engine's: for a comparator answering one non-zero constant, V8 returns the reverse of `SortBy`'s order. With a negative constant, V8 reverses the rows and `SortBy` keeps them; with a positive constant it is the other way round. `SortableTableV2.Table.Sort` inherits this for a `sortType` function.
- `Rows.ConstantComparatorKeepsOrder`: for a negative constant the comparator is inconsistent, so the order is engine-defined; "keeps the rows" holds of `SortBy` only, and V8 reverses them. Only the constant 0 fixes the input order for every engine.
- `SortableTableV2.FunctionSortKeepsOrder`: the same as above when `direction * result` is negative; only a product of 0 keeps the rows in every engine.
- `Sorting.SortByKeepsOrdered`: for an inconsistent comparator that never answers positive (a negative constant) the lemma describes `SortBy` only; an engine may order such an input differently.
- `SortableTableV1.Table.Sort`: requires the column to hold only numbers or only strings when there are two or more rows. On a mixed column, which pairs get compared depends on the engine, and a number's missing `localeCompare` throws.
- `SortableTableV2.Table.Sort`: requires `CanSort`: "number" columns hold numbers and collated columns hold strings.
- `SortableTableV2.Table.OnPointerDown`: requires `CanSort` for the order the click produces, as for `Sort`.
- `SortableTableV2.Create`: requires the rows to be sortable by the chosen column, as for `Sort`.
- `SortableTableV2.SortTypeCompare`: a `sortType` function is called with no arguments, so it is modelled by the constant it returns. A function with side effects or varying answers is not modelled.
- `SortableTableV3.SortOnClient`: requires `CanSortOnClient` ("number" columns hold numbers, "string" columns hold strings). A "custom" column without `customSorting` is not modelled.
- `SortableTableV3.Table.OnSortClick`: requires a click on a sortable column in local mode, the only click that reaches a client sort, to satisfy `CanSortOnClient`, as above.
- `SortableTableV3.Table.BeginScroll`: requires a table sorted on the server, because the scroll listener is only registered in that mode.
- An order inherited from `Object.prototype` (for example "toString" looked up in `directions` or `orders`) is treated as unknown.
