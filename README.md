# Client data table — verified model of the data-view pipeline

The modelled system is a browser data table. It loads a list of client records, shows
them ten to a page, and lets the user search, sort by a column, move between pages and
export the records as CSV. This project models the in-memory part of that pipeline in
`script.js` and proves its properties:

- the page state (`allClients`, `currentPage`, `currentSortColumn`, `currentSortOrder`);
- the search filter, which narrows `allClients` in place;
- the header sort: a sort-state toggle, then a stable comparator sort;
- the visible slice, the pagination bar and the pagination click handler;
- the CSV text of `convertToCsv`.

Modules, one per component:

| file | module | what it holds |
|---|---|---|
| `wrappers.dfy` | `Wrappers` | `Option`, `Result` |
| `text.dfy` | `Text` | ASCII `toLowerCase`, `includes`, string `<`, integer `toString` |
| `delimited.dfy` | `Delimited` | `join` with a one-character separator, and splitting it back |
| `clients.dfy` | `Clients` | the record, its fields, `client[column]` and `<` on those values |
| `filter.dfy` | `Filter` | the search predicate and `allClients.filter` |
| `sorting.dfy` | `Sorting` | sort state, comparator, stable sort |
| `pagination.dfy` | `Pagination` | page slice, page count, controls, navigation |
| `csv.dfy` | `Csv` | `convertToCsv` |
| `data_view.dfy` | `DataView` | class `ClientTable`: the module-level state and its handlers |

`ClientTable` is a class because the script updates its globals in place. Its ghost
field `loaded` remembers the last loaded collection. `Valid()` states that the working
collection is a sub-multiset of `loaded`. Search and sort both keep that true.

The pure parts are functions, with lemmas about them. `renderPagination` builds its
output in a loop, so it is a method with a loop (`Pagination.RenderPagination`). That
method is proved equal to the function `Pagination.Controls`, and the lemmas describe
`Controls`.

Where the intended design of the table and `script.js` disagree, the model follows the code:

- A search filters the current `allClients`, not the loaded records (script.js:106).
  Searches compound. Clearing the box does not bring records back: `Filter.FilterEmptyQuery`
  shows that the empty query keeps the narrowed list as it is. `Filter.FilterNarrowing`
  shows that typing more characters gives the same result as a fresh search of the
  earlier list.
- A search does not reset `currentPage` to 1. The page can end up beyond the last page
  and show nothing (`Pagination.StrandedPage`).
- The Next click is not clamped in the handler (script.js:78-80). It only cannot be
  clicked on the last page, because the Next control is not drawn there.
- A numbered page is taken as long as `parseInt` gives a number other than 0. That
  includes negative numbers, although the bar only draws 1..totalPages.

`Array.prototype.sort` must be stable. `Sorting.SortBy` is an insertion sort, and
`Sorting.SortByCharacterized` proves it is the only sorted, stable rearrangement. So any
stable algorithm with this comparator gives the same result.

## Model

| member | source | states |
|---|---|---|
| `DataView.ClientTable.constructor` | script.js:1-5 | Initial state: no records, page 1, sort column `''`, ascending. |
| `DataView.ClientTable.Load` | script.js:17 | A successful load replaces `allClients`; the page and sort state stay. |
| `DataView.ClientTable.FilterData` | script.js:98-108 | `allClients` becomes the filter of its previous value, not of the loaded data. Page and sort state are unchanged, and the collection stays drawn from the loaded records. |
| `DataView.ClientTable.Sort` | script.js:110-135 | The sort state is toggled, then `allClients` becomes the stable sort of its previous value by the column with the new order. The page is unchanged, and the collection stays drawn from the loaded records. |
| `DataView.ClientTable.HandlePagination` | script.js:68-83 | Only `currentPage` changes, and it changes to `NextPage` of the click. |
| `DataView.ClientTable.UpdateTable` | script.js:45-51 | The rows shown are the current page's slice, and the bar is `Controls` for the collection's length and the current page. |
| `Text.IncludesIff` | script.js:100-104 | `includes` holds exactly when the query occurs at some position of the text. |
| `Text.IncludesTransitive` | script.js:100-104 | A text containing q also contains every substring of q. |
| `Text.LexTotal` | script.js:122-123 | String `<` is total: of two different strings, one is less. |
| `Text.LexTransitive` | script.js:122-123 | String `<` is transitive. |
| `Text.DecimalRoundTrip` | script.js:100 | The decimal text of an id reads back as that id. |
| `Text.LowerDecimal` | script.js:100 | Lower-casing an id's decimal text changes nothing. |
| `Clients.FieldNamed` | script.js:122-123 | A column name designates the field of that name and no other; other names designate none. |
| `Clients.KeyOf` | script.js:122-123 | `client[column]` is a number for `id`, a string for the other fields and undefined for any other name. |
| `Clients.LessTotal` | script.js:122-123 | Two values of one column that are not ordered either way are equal. |
| `Filter.MatchesIff` | script.js:99-105 | A record matches exactly when the lower-cased query occurs in some lower-cased field, the id taken as decimal text. |
| `Filter.MatchesIgnoresCase` | script.js:100-104 | Queries equal after lower-casing select the same records. |
| `Filter.FilterClients` | script.js:99-105 | The result is no longer than the input, and every record in it is from the input and matches. |
| `Filter.FilterSpec` | script.js:99-105 | The result is an order-preserving subsequence of the input. It holds every matching record exactly as often as the input does, and nothing else. |
| `Filter.FilterEmptyQuery` | script.js:99-106 | The empty query leaves the collection unchanged. |
| `Filter.FilterIdempotent` | script.js:99-106 | Filtering twice with one query equals filtering once. |
| `Filter.FilterTwice` | script.js:99-106 | Two successive searches keep the same records in either order. |
| `Filter.FilterNarrowing` | script.js:99-106 | When the new query contains the previous one, filtering the narrowed list equals filtering the earlier list directly. |
| `Filter.BostonEitherCase` | script.js:99-106 | The query `BOS` selects a record whose city is `Boston` and one whose city is `boston`. |
| `Sorting.Toggle` | script.js:114-119 | The column clicked becomes current. Its order flips if it was already current, and starts ascending otherwise. |
| `Sorting.ToggleTwice` | script.js:114-119 | Two clicks on the current column restore its order; two clicks on a new column give descending. |
| `Sorting.CompareConsistent` | script.js:121-125 | The comparator is antisymmetric, and it returns 0 exactly for equal keys. |
| `Sorting.NotBeforeTransitive` | script.js:121-125 | "Not placed before" is transitive, so the comparator is a strict weak order. |
| `Sorting.SortBy` | script.js:121-125 | The sorted collection is a permutation of the input. |
| `Sorting.SortBySorted` | script.js:121-125 | The result is non-decreasing (asc) or non-increasing (desc) in the column. |
| `Sorting.SortByStable` | script.js:121-125 | For every key, the records with that key keep their input order. |
| `Sorting.SortedUnique` | script.js:121-125 | Two sorted sequences that agree key by key are equal. |
| `Sorting.SortByCharacterized` | script.js:121-125 | Any sorted sequence that keeps each key's records in input order is SortBy's result. |
| `Sorting.DescIsReversedAsc` | script.js:114-125 | With distinct keys, sorting descending gives the exact reverse of sorting the same records ascending. |
| `Sorting.SecondClickReverses` | script.js:114-132 | The second click on a column sorts the list the first click left ascending; with distinct keys the result is the exact reverse of the first click's result. |
| `Pagination.PageItems` | script.js:46-48 | For page p >= 1 the slice is the records from (p-1)*10 on, `min(10, max(0, n-(p-1)*10))` of them. It is empty exactly when (p-1)*10 >= n. Page 0 shows nothing. A negative page counts back from the end, as `slice` does with negative bounds: the records from n+(p-1)*10 to n+p*10, clipped at 0. |
| `Pagination.TotalPages` | script.js:56 | The page count is the least number of 10-record pages that hold n records; it is 0 for n = 0. |
| `Pagination.PagesCover` | script.js:45-56 | Pages 1..totalPages in order make up the whole collection. |
| `Pagination.RenderPagination` | script.js:53-66 | The loop appends exactly `Controls(totalItems, currentPage)`. |
| `Pagination.ControlsShape` | script.js:56-65 | Previous is present (and first) iff currentPage > 1, and Next (last) iff currentPage < totalPages. The numbered links are 1..totalPages ascending. A link is active iff it is the current page, and one is active iff the page is in range. |
| `Pagination.NoControlsWhenEmpty` | script.js:56-65 | With no records there are no numbered links; a current page above 1, which a search matching nothing keeps, still draws a lone Previous, and a negative page a lone Next. |
| `Pagination.NavigationCases` | script.js:68-83 | A truthy page number is taken. Previous decrements only above page 1. Next increments, unclamped. Any other click leaves the page unchanged. |
| `Pagination.NavigationStaysInRange` | script.js:57-83 | A click on a drawn control lands on page 1 or later, and never past the last page unless the page was already past it. A numbered link always lands within range. |
| `Pagination.PageLinkShowsRecords` | script.js:45-83 | A numbered link always leads to a non-empty page. |
| `Pagination.StrandedPage` | script.js:45-65 | A current page beyond the last shows no records, no Next control and no active link. |
| `Pagination.TwentyFiveRecords` | script.js:45-65 | With 25 records there are 3 pages. Page 1 shows the first ten and has no Prev control; page 3 shows the last five and has no Next control. Page -1 shows records 6 to 15. |
| `Csv.ConvertToCsv` | script.js:172-178 | Empty input is an error (no first record for `Object.keys`); any other input gives text. |
| `Csv.HeaderText` | script.js:173-175 | The header line is `id,name,mobile,email,city`. |
| `Csv.CsvLines` | script.js:172-178 | With no line break inside a value, the text splits at `\n` into exactly 1 + n lines: the header, then each record's line in order. |
| `Csv.RowSplit` | script.js:174 | Values are quoted but commas are not escaped. A record's line splits at commas into 5 pieces plus one per comma inside its values, and into its five quoted values when there are none. |
| `Csv.CommaInName` | script.js:174 | A record named `A,B` gives a line that splits at commas into six pieces, not five. |

## Left out

- `fetch_data` (script.js:7-23): the network request, JSON parsing and the error message are I/O. Only the assignment of a successful load is modelled, as `ClientTable.Load`.
- `displayData` and `viewClientDetails` (script.js:25-43, 85-96): HTML templating, DOM writes and the detail panel.
- `toggleColumn` (script.js:137-150), and the header class and `data-order` updates inside `sort` (script.js:127-130, 134): presentation only.
- `exportDataToCsv` (script.js:160-170): the Blob, URL and download link. Only `convertToCsv` is modelled.
- Event-listener wiring and the start-up call (script.js:152-158).
- The DOM event objects are replaced by their relevant parts: the clicked column name for `sort`, the query string for `filterData`, and for a pagination click whether it hit an anchor, the parsed `data-page` and the parent's id.
- `toLowerCase` is modelled on ASCII letters only; other Unicode case mappings are not.
- `parseInt` is abstracted to an optional integer: `None` stands for NaN.
- Number `toString` is modelled for integer ids in plain decimal. Exponent notation (magnitude at least 10^21) and fractional ids are not modelled.
- String `<` compares characters by code point, which agrees with JavaScript's UTF-16 code-unit order inside the Basic Multilingual Plane only.
- Clients.FieldNamed: treats every column name other than the five fields as undefined; inherited properties such as `constructor` are not modelled.
- Clients.Less: comparing a number with a string does not arise within one column and is modelled as false.
- Csv.Names: the header and the order of each row's cells come from `Object.keys(data[0])`, the property order of the first record; the model assumes every record declares its properties as `id, name, mobile, email, city`.
- `Array.prototype.slice` is modelled for integer bounds; the page arithmetic only produces integers.
