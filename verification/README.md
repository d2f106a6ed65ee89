# Record manager core, modelled in Dafny

The repository is a single React component (`src/App.jsx`) that manages a
list of records (name, email, password, hobby) kept in the browser's local
storage. Around its markup sits a small sequential core, which this project
models and proves things about:

- **the query pipeline** that runs on every render: filter the stored list by
  a case-insensitive search term, sort it on one column with a direction, cut
  it into pages of three rows, and count the pages;
- **the event handlers**: submit (append or write back an edited record),
  edit, delete, header click (sort), search, and the Previous and Next
  buttons. These update the component's state and the stored copy.

Layout, one module per file:

| file | module | contents |
|---|---|---|
| records.dfy | `Records` | `Record`, the empty form, `SortField`, `SortOrder`, `Option`, `ItemsPerPage`, `Key` |
| text.dfy | `Text` | `Includes` (`String.prototype.includes`), the laws of a consistent comparator |
| sorting.dfy | `Sorting` | the comparator of the sort call and a stable insertion sort |
| pagination.dfy | `Pagination` | `Array.prototype.slice`, the page window, `Math.ceil` page count, Previous/Next steps |
| query.dfy | `Query` | the search filter and `View`, the whole derivation |
| store.dfy | `Store` | removal of one position (`filter` on the index) |
| app.dfy | `AppState` | class `App`: the component's state fields, the stored copy, one method per handler |

The pipeline is written as functions and lemmas, as it is in the source (one
expression per stage). The handlers are methods of class `App`, whose fields
are the component's `useState` variables (`data`, `formData`, `editIndex`,
`searchTerm`, `sortField`, `sortOrder`, `currentPage`) plus `stored`, the
`userData` entry of local storage. Each handler is one atomic transition.

The browser's `toLowerCase` and `localeCompare` are not modelled: they are
function values given to the model (`lower`, `localeCompare`). Every result
about sorting assumes only that `localeCompare` is a consistent comparator
(`Text.ConsistentComparator`): swapping the arguments flips the sign, and
"not after" is transitive. `Array.prototype.sort` is a stable sort, so the
model is a stable insertion sort. `Sorting.SortIsUnique` shows that any
stable sort with this comparator gives the same list.

The model follows the code as written, including these quirks:

- the page count is 0 when nothing matches, so the footer reads "Page 1 of
  0" (`Pagination.PageCount`);
- the current page is never clamped: a delete can leave it past the last
  page, which then shows no rows (`Pagination.RemovingLastRowEmptiesItsPage`),
  and with nothing to show Next stays enabled on page 1
  (`Pagination.NextOnEmptyListLeavesRange`);
- the row buttons pass the row's position on the current page, and the
  handlers use it as a position in the unsorted, unfiltered stored list
  (`AppState.RowIndexIsNotStoredIndex`). Both quirks show in one run of the
  handlers: with four records, Next, then Delete on page 2's only row
  removes the first stored record and leaves an empty page 2 of 1
  (`AppState.DeleteLeavesPageUnclamped`);
- in edit mode, submit writes the old list plus the form to storage, not
  the edited list. When the edited position is inside the list, the stored
  copy then has one record more than `data` (`AppState.App.Submit`);
- loading reads the stored entry with `JSON.parse(...) || []`: an absent
  entry, or one holding a falsy JSON value (`null`, `false`, `0`, `""`),
  reads as the empty list; malformed content throws.

## Model

| member | source | states |
|---|---|---|
| Text.Includes | src/App.jsx:65-67 | `hay.includes(needle)` is true exactly when `needle` occurs at some position of `hay` |
| Text.TiesAreEquivalence | src/App.jsx:72 | for a consistent `localeCompare`, comparing equal is reflexive, symmetric and transitive |
| Query.Filter | src/App.jsx:64-68 | the filtered list holds each matching record as often as the stored list does, and no non-matching record; it is no longer than the stored list |
| Query.FilterKeepsOrder | src/App.jsx:64-68 | the filtered list is a subsequence of the stored list (stored order kept) |
| Query.EmptySearchKeepsAll | src/App.jsx:64-68 | a search term that lower-cases to the empty string keeps the whole list, in order |
| Sorting.Insert | src/App.jsx:70-73 | inserting adds exactly one copy of the record to the list |
| Sorting.Sort | src/App.jsx:70-73 | the sorted list is a permutation of the filtered list |
| Sorting.CompareLaws | src/App.jsx:71-72 | the comparator `localeCompare(...) * order` is total and transitive in both directions, and zero exactly on ties |
| Sorting.InsertOrdered | src/App.jsx:70-73 | inserting into an ordered list keeps it ordered |
| Sorting.SortOrdered | src/App.jsx:70-73 | the sorted list is ordered by the comparator |
| Sorting.SortedByColumn | src/App.jsx:70-73 | the sorted list is a permutation of its input, non-decreasing on the column under `localeCompare` when ascending and non-increasing when descending |
| Sorting.InsertTiedWith | src/App.jsx:70-73 | an inserted record goes in front of the records it ties with and leaves the order of the others |
| Sorting.SortStable | src/App.jsx:70-73 | records that tie on the sort column keep their filtered order |
| Sorting.OrderedStableUnique | src/App.jsx:70-73 | two ordered lists with the same tie classes in the same order are equal |
| Sorting.SortIsUnique | src/App.jsx:70-73 | any ordered list whose tie classes appear in input order equals the model's sort: every stable sort gives the same rows |
| Pagination.Slice | src/App.jsx:77 | `slice(start, end)` with `0 <= start <= end` is the part of the list between the two clamped positions |
| Pagination.SliceConcat | src/App.jsx:77 | for `0 <= a <= b <= c`, `slice(a, b)` followed by `slice(b, c)` is `slice(a, c)`: adjacent windows lose and repeat nothing |
| Pagination.PageItems | src/App.jsx:75-77 | the current page holds at most 3 rows; for page `p >= 1` it is `sorted[(p-1)*3 .. min(p*3, n)]`, or empty past the end |
| Pagination.PageCount | src/App.jsx:79 | `ceil(n/3)`: 0 exactly for an empty list, otherwise `(pages-1)*3 < n <= pages*3` |
| Pagination.PagesThroughIsPrefix | src/App.jsx:75-77 | pages 1 to `k` together are the first `min(3k, n)` rows |
| Pagination.PagesReassemble | src/App.jsx:75-79 | pages 1 to the page count together give back the whole sorted list |
| Pagination.PageNonEmptyIffInRange | src/App.jsx:75-79 | a page from 1 on has rows exactly when it is at most the page count |
| Pagination.PageOfRow | src/App.jsx:75-79 | row `i` of the sorted list is row `i % 3` of page `i / 3 + 1`, which is within the page count |
| Pagination.PreviousPage | src/App.jsx:137 | Previous stays put exactly on page 1 and otherwise goes back exactly one page; pages stay positive |
| Pagination.NextPage | src/App.jsx:139 | Next stays put exactly when the page equals the page count and otherwise goes on exactly one page; pages stay positive, and a page within 1..page count stays within it |
| Pagination.NextOnEmptyListLeavesRange | src/App.jsx:139 | with nothing to show, Next moves from any page to the next, which shows no rows |
| Pagination.RemovingLastRowEmptiesItsPage | src/App.jsx:44-48 | removing the only row of the last page leaves that page past the page count, with no rows |
| Query.View | src/App.jsx:64-79 | the rendered page has at most 3 rows, no more than the stored list; each row is a stored record matching the search; the page count is 0 exactly when no stored record matches |
| Store.WithoutIndex | src/App.jsx:45 | filtering out position `i` removes exactly that element when `i` is in range (others keep their order) and changes nothing otherwise |
| AppState.SortStep | src/App.jsx:50-57 | a header click makes the clicked column current; the same column flips the direction, another column starts ascending |
| AppState.SortTwiceRestores | src/App.jsx:50-57 | two clicks on the current column restore column and direction |
| AppState.SortTwiceOnNewColumn | src/App.jsx:50-57 | two clicks on another column leave it current and descending |
| AppState.AllTiedIsSorted | src/App.jsx:70-73 | a list whose records all tie on the sort column (`localeCompare` gives 0) is returned unchanged by the sort |
| AppState.FullListPageCount | src/App.jsx:64-79 | with a search term that lower-cases to empty, the page count is that of the whole stored list |
| AppState.ShortListSecondPageEmpty | src/App.jsx:64-79 | when the stored list fits on one page, page 2 shows no rows |
| AppState.ThreeRecordsOnPageTwo | src/App.jsx:64-79 | three stored records and a term that lower-cases to empty: one page, and page 2 shows no rows |
| AppState.OpenSecondPage | src/App.jsx:139 | a fresh component over four stored records is, after one Next, on page 2 of 2 with the list, search and sort unchanged |
| AppState.DeleteLeavesPageUnclamped | src/App.jsx:44-48 | from page 2 of four records, Delete on that page's only row (page row 0) removes the first stored record, leaves the page at 2 while the page count drops to 1, and no rows are shown |
| AppState.RowIndexIsNotStoredIndex | src/App.jsx:122-129 | with four tied records and an empty search, page 2 shows only the fourth record while its row index 0 names the first stored record |
| AppState.App.constructor | src/App.jsx:5-18 | the initial state: stored list loaded, empty form, no edit, empty search, sort by name ascending, page 1 |
| AppState.App.Submit | src/App.jsx:25-37 | appends the form, or writes it at the edited position (length unchanged) and clears the edit; clears the form; stores old list plus form in both modes |
| AppState.App.Edit | src/App.jsx:39-42 | loads the record at the given position into the form and remembers the position |
| AppState.App.Delete | src/App.jsx:44-48 | removes the given position if it exists, otherwise changes nothing; the stored copy equals the new list; the page is not changed |
| AppState.App.Sort | src/App.jsx:50-57 | the column and direction become `SortStep` of the old ones |
| AppState.App.Search | src/App.jsx:59-62 | sets the search term and goes back to page 1 |
| AppState.App.Previous | src/App.jsx:137 | the page becomes `PreviousPage` of the old page |
| AppState.App.Next | src/App.jsx:139 | the page becomes `NextPage` of the old page and the current page count |

## Left out

- Rendering, Bootstrap styling and the event objects (src/App.jsx:81-142): no behaviour beyond the handlers.
- `handleInputChange` (src/App.jsx:20-23): it only copies one input's value into the form; the model takes `formData` as it stands at submit.
- Local storage and JSON: the loaded list is a constructor argument; JSON encoding, the `|| []` fallback for an absent or falsy entry, and `JSON.parse` throwing on malformed content are not modelled.
- The locale rules of `localeCompare` and the Unicode rules of `toLowerCase`: both are parameters; sorting results assume a consistent comparator. With an inconsistent one, `Array.prototype.sort` gives an engine-defined order, which is not modelled.
- React's asynchronous state batching and re-render scheduling: each handler is one atomic transition.
- AppState.App.Submit: requires the edited position to be at most the list length. It can exceed it when deletes follow an edit, and JavaScript then writes past the end of the array, leaving holes; holes are not modelled.
- AppState.App.Edit: requires the row to be a position of the stored list. A larger one makes the form `undefined` and the next render fail. The buttons only pass rows of the current page, and `Query.View` shows that the page never has more rows than the stored list.
