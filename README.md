# ReferenceTable: a verified model

The reference report of the documentation site is one React component,
`ReferenceTable`. It shows a tab bar (AZURE, AWS, GCP), loads the JSON rows
behind the selected tab, filters them by a free-text search over every field,
and pages the result 20 rows at a time with Previous/Next buttons.

This project models that component's logic in Dafny:

- `Text` (text.dfy): ASCII lower-casing (`toLowerCase`) and substring search
  (`includes`), with `includes` proved equal to "occurs at some position".
- `Filter` (filter.dfy): the search filter. An empty query keeps the dataset
  as it is. A non-empty query keeps exactly the rows with a field whose
  lower-cased text includes the lower-cased query, in their original order.
- `Pagination` (pagination.dfy): `totalPages` as the integer ceiling of the
  row count over 20, `slice` with JavaScript's index rules, the rows of one
  page, and the proof that pages 1 to `totalPages` put back together give
  the filtered rows.
- `ReferenceReport` (reference_report.dfy): the tabs and `FILE_MAP`, the
  Previous/Next handlers, and the class `ReferenceTable` with the four state
  variables as fields. It has one method per transition: load, tab click,
  search edit, Previous and Next. Three client methods state the
  component's scenarios as verified assertions: paging through 45 rows, a
  query that matches nothing, and a switch to a tab that has no file.

Two behaviours of the code differ from what the pager's labels suggest, and
the model keeps both:

- `totalPages` is 0 when no row passes the filter, so the pager reads
  "Page 1 of 0", not "Page 1 of 1" (`NoMatchScenario`).
- A failed load empties the rows but keeps the search text and the page.
  After a switch from page 3 to a tab with no file, the table is on page 3
  of 0 (`UnmappedTabScenario`). So "the page is within
  [1, max(totalPages, 1)]" does not hold in every state. The invariant the
  code does keep (`ReferenceTable.Valid`) is weaker. The page is always at
  least 1. It is within that range unless a failed load has emptied the rows.

## Model

| member | source | states |
|---|---|---|
| `Text.LowerChar` | src/components/reports/reference-report.js:35 | one character of `toLowerCase`: an upper-case ASCII letter becomes its lower-case letter (code point + 32), every other character is kept, and the result is never an upper-case letter |
| `Text.Lower` | src/components/reports/reference-report.js:35 | lower-casing keeps the length and lower-cases each character on its own; the result has no upper-case letter |
| `Text.LowerIdempotent` | src/components/reports/reference-report.js:35 | lower-casing twice is the same as lower-casing once |
| `Text.Includes` | src/components/reports/reference-report.js:40 | `includes`: true when the query is a prefix of the text, and only possible when the query is no longer than the text |
| `Text.OccurrenceIncluded` | src/components/reports/reference-report.js:40 | `includes` finds the query wherever it occurs in the text |
| `Text.IncludedOccurrence` | src/components/reports/reference-report.js:40 | when `includes` answers true, the query occurs at some position of the text, and the lemma returns that position |
| `Text.IncludesIff` | src/components/reports/reference-report.js:40 | `includes` is true exactly when the query occurs at some position (both directions) |
| `Filter.FieldMatches` | src/components/reports/reference-report.js:40 | the test on one field value: its lower-cased text includes the (lower-cased) query, which then fits inside the value |
| `Filter.FieldMatchesIff` | src/components/reports/reference-report.js:40 | a field matches exactly when the query occurs at some position of the field's lower-cased text (both directions) |
| `Filter.RowMatches` | src/components/reports/reference-report.js:39-41 | the `.some` over a row's field values: some field matches, which is the same as the first field matching or one of the remaining fields matching, and an empty row never matches |
| `Filter.FilterRows` | src/components/reports/reference-report.js:38-42 | the filter returns at most as many rows as it was given, and every row it returns comes from the dataset and matches the query |
| `Filter.FilteredData` | src/components/reports/reference-report.js:35-44 | an empty query gives the dataset unchanged; a non-empty query gives rows of the dataset, each with a field whose lower-cased text includes the lower-cased query |
| `Filter.FilterRowsSelects` | src/components/reports/reference-report.js:38-42 | the filtered rows are the dataset's rows at a strictly increasing list of positions, and a position is in that list exactly when its row matches (sound, complete and order-preserving) |
| `Filter.FilterRowsComplete` | src/components/reports/reference-report.js:38-42 | every row of the dataset that matches the query is among the filtered rows |
| `Filter.FilterRowsIdempotent` | src/components/reports/reference-report.js:38-42 | filtering the filtered rows again with the same query changes nothing |
| `Filter.FilteredDataMembership` | src/components/reports/reference-report.js:35-43 | with a non-empty query, a dataset row is in filteredData exactly when one of its fields, lower-cased, includes the lower-cased query |
| `Pagination.TotalPages` | src/components/reports/reference-report.js:47 | the page count is the ceiling of rows/20: enough 20-row pages for every row, one fewer would not be enough, and it is 0 exactly when there are no rows |
| `Pagination.SliceIndex` | src/components/reports/reference-report.js:48-51 | a slice index is clamped into [0, length] and an index already in range is kept |
| `Pagination.Slice` | src/components/reports/reference-report.js:48-51 | for non-negative bounds, `slice` is the subsequence between the bounds, each clipped to the length; an empty range gives no elements |
| `Pagination.PageRows` | src/components/reports/reference-report.js:48-51 | page p (p >= 1) is rows [(p-1)*20, p*20) clipped to the length, has at most 20 rows, is empty when (p-1)*20 is past the end, and is non-empty exactly when p <= totalPages |
| `Pagination.PagesPrefix` | src/components/reports/reference-report.js:48-51 | pages 1 to k, concatenated, are the first min(20k, length) rows |
| `Pagination.PagesCoverAll` | src/components/reports/reference-report.js:47-51 | pages 1 to totalPages, concatenated, are exactly the filtered rows |
| `ReferenceReport.FileFor` | src/components/reports/reference-report.js:6-8 | FILE_MAP: a tab has a data file exactly when it is AZURE, and that file is azure-reference.json |
| `ReferenceReport.LoadSucceeds` | src/components/reports/reference-report.js:20-28 | the try block completes exactly when the tab is AZURE and the import resolves; every other case takes the catch path |
| `ReferenceReport.PreviousPage` | src/components/reports/reference-report.js:106 | the Previous handler never gives a page below 1 and goes back exactly one page from any page above 1 |
| `ReferenceReport.NextPage` | src/components/reports/reference-report.js:116 | the Next handler never gives a page beyond totalPages and goes on exactly one page from any page below it |
| `ReferenceReport.NextNeedsGuard` | src/components/reports/reference-report.js:116-117 | from any page of at least 1, the Next handler gives a page of at least 1 exactly when totalPages is at least 1; with no pages it would go below page 1, so the disabled guard is needed |
| `ReferenceReport.ReferenceTable.FilteredData` | src/components/reports/reference-report.js:34-45 | the table's filteredData is no longer than its data and equals it when the search text is empty |
| `ReferenceReport.ReferenceTable.TotalPages` | src/components/reports/reference-report.js:47 | the table's page count is 0 exactly when no row passes the filter, and there are enough 20-row pages for every filtered row |
| `ReferenceReport.ReferenceTable.CurrentRows` | src/components/reports/reference-report.js:48-51 | on a page of at least 1 the current rows are at most 20, and there are some exactly when the page is at most totalPages |
| `ReferenceReport.ReferenceTable.PreviousDisabled` | src/components/reports/reference-report.js:107 | Previous is disabled (page == 1) exactly when, on a page of at least 1, its handler would leave the page unchanged |
| `ReferenceReport.ReferenceTable.NextDisabled` | src/components/reports/reference-report.js:117 | Next is disabled (page >= totalPages) exactly when its handler would not move the page forward; when enabled the handler goes exactly one page on |
| `ReferenceReport.ReferenceTable.constructor` | src/components/reports/reference-report.js:11-15 | the initial state is tab AZURE, no rows, empty search text and page 1 |
| `ReferenceReport.ReferenceTable.Load` | src/components/reports/reference-report.js:19-29 | a successful load of a tab that has a file replaces the rows, clears the search text and goes to page 1; any other load, including every tab missing from FILE_MAP, empties the rows and changes nothing else |
| `ReferenceReport.ReferenceTable.SelectTab` | src/components/reports/reference-report.js:18-32 | a tab click selects the tab; a different tab triggers a load with the outcomes of `Load`, and the tab already selected changes nothing else |
| `ReferenceReport.ReferenceTable.EditSearch` | src/components/reports/reference-report.js:75-78 | editing the search box sets the search text and goes to page 1; the tab and the rows are unchanged |
| `ReferenceReport.ReferenceTable.ClickPrevious` | src/components/reports/reference-report.js:105-107 | Previous gives max(page-1, 1): one page back from any page above 1, and page 1 stays where it is, so its disabled guard never matters; nothing else changes |
| `ReferenceReport.ReferenceTable.ClickNext` | src/components/reports/reference-report.js:115-117 | Next does nothing when disabled (page >= totalPages) and otherwise goes one page on, never beyond totalPages; nothing else changes |

## Left out

- Rendering: the JSX, the CSS modules and `clsx` class choice, the
  alternating row style and the column headers taken from the first row's
  keys. None of it changes the state.
- The dynamic `import()` of the JSON file and `console.error`. The outcome
  of the import is a parameter of `Load`: the rows, or `None` when the
  import rejects.
- Asynchrony and the order of React effects and state updates. Each
  transition is applied at once. `filteredData` is a function of the rows
  and the search text, not a separate piece of state that an effect updates
  later. Overlapping loads are not modelled, because the component has no
  protection against them.
- Rows are sequences of field values that are already text. Field names, the
  `toString` of numbers, and null values (on which line 40 would throw) are
  not modelled.
- Text.Lower: lower-cases ASCII letters only, because the Unicode case
  mapping of `toLowerCase` is not modelled.
