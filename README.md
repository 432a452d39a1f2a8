# 3D model gallery: catalog query pipeline

This project is a Dafny model of the gallery page's catalog pipeline in `gallery.js`. The catalog `app.models` is a list of model records. The page does three things with it:

- **Filter** (`filterModels`): keep the entries whose lower-cased name or description contains the lower-cased search box value, and whose category equals the selected category. An empty category selects every category.
- **Sort** (`sortModels`): copy the whole catalog and sort the copy by one of four keys: `name-asc`, `name-desc`, `date-new` or `date-old`. Any other key leaves the copy in catalog order.
- **Render** (`displayFilteredModels`): clear the grid. Then show the "No models found" placeholder for an empty list, or append one card per entry, in order.

Modules:

- `Text` (text.dfy): ASCII models of `toLowerCase` and `includes`.
- `Filtering` (filtering.dfy): `Array.prototype.filter` and the subsequence relation.
- `StableSort` (stable_sort.dfy): `Array.prototype.sort` as a stable insertion sort, done in place on an array.
- `Gallery` (gallery.dfy): the model record, the filter predicate, the four comparators, the rendered grid, and the classes `Grid` (the `modelsGrid` element) and `App` (the catalog array plus the grid), whose methods are the three functions of `gallery.js`.

Library services are parameters:

- `localeCompare` is a function `(string, string) -> int`. Lemmas about name order require it to be `Consistent`: "compare(a, b) <= 0" must be total and transitive.
- `new Date(date)` is a function `parseDate: string -> int` giving a timestamp.
- The DOM input values (search box, category select, sort select) are method parameters.

The sort result is defined as the result of insertion sort (`InsertionSort`). `StableSortUnique` proves that, for a consistent comparator, every sorted and stable arrangement of the catalog equals that result. So the model does not depend on which stable algorithm the browser uses. "Ties" are pairs where neither element compares strictly before the other (`Tie`). Stability is stated as: filtering the result to one tie class gives the same list as filtering the catalog to that class.

## Model

| member | source | states |
|---|---|---|
| `Text.Lower` | gallery.js:27 | `toLowerCase` keeps the length and lower-cases each character in place (ASCII letters only) |
| `Text.LowerIdempotent` | gallery.js:27 | lower-casing an already lower-cased search term changes nothing |
| `Text.LowerHasNoUpper` | gallery.js:31-32 | a lower-cased name or description contains no upper-case ASCII letter |
| `Text.ContainsIff` | gallery.js:31-32 | `includes` holds exactly when the term occurs at some position of the string |
| `Text.ContainsEmpty` | gallery.js:31-32 | every string includes the empty term |
| `Text.ContainsSelf` | gallery.js:31-32 | every string includes itself |
| `Filtering.Filter` | gallery.js:30-35 | `filter` never returns more elements than its input |
| `Filtering.FilterSatisfies` | gallery.js:30-35 | every kept element satisfies the predicate |
| `Filtering.FilterMembership` | gallery.js:30-35 | a value is kept if and only if it is in the input and satisfies the predicate |
| `Filtering.FilterCount` | gallery.js:30-35 | a kept value occurs as often as in the input; a rejected one never occurs |
| `Filtering.FilterIsSubsequence` | gallery.js:30 | the result is an order-preserving subsequence of the input |
| `Filtering.FilterAppend` | gallery.js:30 | filtering a concatenation is the concatenation of the filtered parts |
| `Filtering.FilterKeepsAll` | gallery.js:30-35 | when every element satisfies the predicate, the input comes back unchanged |
| `Gallery.FilterViewExact` | gallery.js:26-35 | the filtered list holds exactly the catalog entries that match the lower-cased term and the category, each as often as in the catalog, in catalog order |
| `Gallery.EmptyQueryKeepsCatalog` | gallery.js:31-33 | an empty search and an empty category return the whole catalog unchanged |
| `Gallery.SearchFindsNameInAnyCase` | gallery.js:27-34 | a term occurring in the name in any letter case selects the entry, under no category or its own category |
| `Gallery.CaseVariantOfNameMatches` | gallery.js:27-31 | a term differing from the name only in letter case selects the entry |
| `Gallery.CategoryIsCaseSensitive` | gallery.js:28-33 | a category differing only in case ("vehicles" against "Vehicles") rejects the entry, although both lower-case alike |
| `StableSort.InsertCount` | gallery.js:46 | one insertion step adds exactly the inserted element |
| `StableSort.SortPermutes` | gallery.js:42-56 | the sorted copy is a permutation of the catalog, of the same length |
| `StableSort.InsertSorted` | gallery.js:46 | inserting into a sorted prefix keeps it sorted under a consistent comparator |
| `StableSort.SortSorted` | gallery.js:45-56 | the result is non-decreasing under a consistent comparator |
| `StableSort.TiesInterchangeable` | gallery.js:45-56 | two elements that tie with the same element are in either order consistent with the comparator |
| `StableSort.InsertKeepsTies` | gallery.js:46 | an insertion step keeps each tie class in order and puts the inserted element after its ties |
| `StableSort.SortStable` | gallery.js:45-56 | elements that tie keep their catalog order |
| `StableSort.HeadIsLeast` | gallery.js:45-56 | the first element of a sorted list compares before or equal to every element |
| `StableSort.HeadsAgree` | gallery.js:45-56 | two sorted, stable arrangements of the same elements start with the same element |
| `StableSort.StableArrangementUnique` | gallery.js:45-56 | two sorted arrangements of the same elements that agree within every tie class are equal |
| `StableSort.StableSortUnique` | gallery.js:45-56 | any sorted, stable permutation of the input equals `InsertionSort` |
| `StableSort.InsertSplit` | gallery.js:46 | insertion places the element right after the last element that may precede it |
| `StableSort.InsertLast` | gallery.js:46 | one pass of the sort turns the array prefix into `Insert` of the old prefix and last element, leaving later elements alone |
| `StableSort.SortInPlace` | gallery.js:45-56 | the in-place sort leaves the array equal to `InsertionSort` of its old contents |
| `Gallery.ComparatorsConsistent` | gallery.js:44-57 | the two date comparators are always consistent; the two name comparators are consistent when `localeCompare` is |
| `Gallery.SortViewPermutes` | gallery.js:42-59 | for every key, the shown list is a permutation of the full catalog |
| `Gallery.UnknownKeyKeepsOrder` | gallery.js:44-57 | with a key the `switch` does not list, the shown list is the catalog in its original order |
| `Gallery.NameAscOrdered` | gallery.js:45-47 | `name-asc` shows names non-decreasing under `localeCompare` |
| `Gallery.NameDescOrdered` | gallery.js:48-50 | `name-desc` shows names non-increasing under `localeCompare` |
| `Gallery.DateNewOrdered` | gallery.js:51-53 | `date-new` shows timestamps non-increasing (newest first) |
| `Gallery.DateOldOrdered` | gallery.js:54-56 | `date-old` shows timestamps non-decreasing (oldest first) |
| `Gallery.SortViewStable` | gallery.js:44-57 | for every key, entries that tie keep catalog order |
| `Gallery.SortViewIsTheStableSort` | gallery.js:44-57 | any sorted, stable permutation of the catalog under the key's comparator is the list shown |
| `Gallery.RenderEmpty` | gallery.js:66-69 | an empty list renders exactly one element, the placeholder |
| `Gallery.CardsInOrder` | gallery.js:71-91 | the appended cards are one per entry, the i-th card built from the i-th entry |
| `Gallery.RenderOneCardPerModel` | gallery.js:66-91 | a non-empty list renders one card per entry, in order, and no placeholder |
| `Gallery.App.DisplayFilteredModels` | gallery.js:62-92 | after the call the grid holds exactly the rendered list; earlier children are gone |
| `Gallery.App.FilterModels` | gallery.js:26-38 | the grid shows the rendered filter result for the search value and category |
| `Gallery.App.SortModels` | gallery.js:40-60 | the catalog array is unchanged; the grid shows the rendered sort of the whole catalog, whatever the active filter |

## Left out

- `viewer.js`: scene, camera, renderer, lights and controls setup; the render loop; resize handling; the UI control handlers; the camera fit, which uses floating point; model loading through the external loader; wireframe and helper toggles. All of these are configuration of, or calls into, the external 3D library and the DOM.
- `tools.js`: the button-to-panel wiring. It only calls external panel functions.
- Event registration in `gallery.js` (lines 2-24) and the `getElementById` lookups. The input values become method parameters.
- The card's HTML template and `toLocaleString` number formatting (gallery.js:74-89). A card is a record of the values the template shows. The vertex and face counts are kept as raw integers.
- The model record's asset URL: `gallery.js` does not read it.
- `Text.Lower`: models `toLowerCase` on ASCII letters only. Unicode case mapping is not modelled.
- `Gallery.NameAscOrdered`, `Gallery.NameDescOrdered`, `Gallery.SortViewStable`, `Gallery.SortViewIsTheStableSort`: these assume a consistent `localeCompare`. The real locale collation is not modelled.
- `Gallery.App.SortModels`: `new Date(..)` is the parameter `parseDate`, which returns an integer. An invalid date gives NaN in the browser and makes the comparator inconsistent; that case is not modelled.
- `StableSort.SortInPlace`: for an inconsistent comparator the browser's order is implementation-defined. The model still yields the insertion-sort order in that case.
