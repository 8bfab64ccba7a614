# Table helpers and the TableView export holder

This project models the part of the administrative web application's grid
views that the repository itself implements. Grouping, sorting, expansion,
paging and the filter plumbing are done by the `react-table` library, so they
are not modelled. What is modelled:

- the table component's own helpers (`src/components/ReactTable/Table.js`):
  - the `text` filter type, a case-insensitive "starts with" predicate that
    keeps rows whose cell is `undefined`;
  - the `autoRemove` rule of the fuzzy filter;
  - the mapping of an empty input box to `undefined`;
  - the option list of the select filter;
  - the min/max scan of the slider and number-range filters;
  - the updaters of the two number-range bounds;
  - the `roundedMedian` aggregator, which gives the rounded midpoint
    `(min + max) / 2` and not a median;
  - the conversion of the 1-based "go to page" box to a page index;
- the `TableView` component (`src/components/TableView/TableView.jsx`), as a
  class. It keeps the rows the table last reported after filtering and the
  CSV header labels. An export request either hands both to the CSV exporter
  or shows the "Unable to export empty datasets" notice.

`SelectColumnFilter`, `SliderColumnFilter`, `NumberRangeColumnFilter`,
`GlobalFilter` (Table.js:28-52) and `roundedMedian` are defined in `Table.js`
but never used: nothing in the file refers to them, and it exports only
`Table` (Table.js:543). They are modelled as written.

Files:

- `Values.dfy` (module `Values`): JavaScript cell values (`Value`), a row's
  `values` as a map from column id to value, the grid library's rows
  (`TableRow`: id, original record, `values`), and the language operations the helpers use:
  property lookup, truthiness, `||`, `String(...)`, `toLowerCase()`.
- `ReactTable.dfy` (module `ReactTable`): the helpers of `Table.js`. The
  `text` filter is a recursive function, because `Array.filter` with a pure
  predicate is a pure computation. The option list, the min/max scan and
  `roundedMedian` update variables in a `forEach` loop, so they are methods
  with loops. Each is proved against a specification function (`Distinct`,
  `Least`/`Greatest`, `Midpoint`), and the properties are proved as lemmas
  about those functions.
- `TableView.dfy` (module `TableView`): class `TableView`. Its `data` field is
  reassigned by `HandleFilter`, and its `headers` field is set by the
  constructor. `Valid()` ties `headers` to the construction-time columns.

A row whose cell is `undefined` passes every `text` filter, whatever the
filter value (Table.js:287-291).

## Model

| member | source | states |
|---|---|---|
| `Values.Cell` | src/components/ReactTable/Table.js:286 | `row.values[id]` is `undefined` exactly when the property is missing or holds `undefined`; otherwise it is the stored value |
| `Values.Truthy` | src/components/ReactTable/Table.js:210 | a value is truthy exactly when it is not one of `""`, `0`, `false`, `null`, `undefined` |
| `Values.Or` | src/components/ReactTable/Table.js:66 | JavaScript's logical or is one of its operands, truthy exactly when either operand is, the left one whenever that is truthy and the right one otherwise (also at lines 43 and 95) |
| `Values.ToStr` | src/components/ReactTable/Table.js:288-290 | `String(v)` of a string is the string itself; of an integer, its decimal digits with no leading zero (after `-` when negative), which read back as the integer; booleans give "true" or "false", null gives "null" and undefined gives "undefined" |
| `Values.Lower` | src/components/ReactTable/Table.js:289-290 | `toLowerCase()` keeps the length and maps every character on its own |
| `Values.LowerKeepsPrefix` | src/components/ReactTable/Table.js:288-290 | for the modelled character-by-character `Lower`: if `b` is a prefix of `a`, `Lower(b)` is a prefix of `Lower(a)` |
| `ReactTable.TextKeeps` | src/components/ReactTable/Table.js:286-291 | a row passes exactly when its cell is `undefined`, or when the cell's string form is at least as long as the filter's and agrees with it, character by character after lower-casing, on the filter's length |
| `ReactTable.TextFilter` | src/components/ReactTable/Table.js:284-292 | a row is in the result exactly when it is in the input and its cell is `undefined` or its lower-cased string form starts with the lower-cased filter string; the result is never longer than the input |
| `ReactTable.TextFilterAppend` | src/components/ReactTable/Table.js:285-292 | filtering works row by row and keeps relative order: filtering `a + b` gives the filtered `a` followed by the filtered `b` |
| `ReactTable.TextFilterMultiplicity` | src/components/ReactTable/Table.js:285-292 | a row the predicate keeps occurs in the result as often as in the input; any other row does not occur at all |
| `ReactTable.TextFilterIdempotent` | src/components/ReactTable/Table.js:284-292 | filtering the result again with the same value changes nothing |
| `ReactTable.TextFilterEmptyKeepsAll` | src/components/ReactTable/Table.js:284-292 | the empty filter string keeps every row, in order |
| `ReactTable.KeepsNarrows` | src/components/ReactTable/Table.js:286-291 | a row kept by a filter is kept by every filter whose lower-cased form is a prefix of its own |
| `ReactTable.TextFilterNarrows` | src/components/ReactTable/Table.js:284-292 | filtering by a longer filter equals first filtering by a shorter one (a prefix after lower-casing) and then by the longer one |
| `ReactTable.TextFilterShrinks` | src/components/ReactTable/Table.js:285-292 | the result is a sub-multiset of the input rows |
| `ReactTable.TextFilterExtendedString` | src/components/ReactTable/Table.js:284-292 | extending the filter string never brings rows back: the rows kept are a sub-multiset of those kept by the shorter string |
| `ReactTable.FuzzyAutoRemove` | src/components/ReactTable/Table.js:210 | the fuzzy filter is removed exactly when its value is falsy: `""`, `0`, `false`, `null` or `undefined` |
| `ReactTable.FilterFromInput` | src/components/ReactTable/Table.js:66 | the filter value is `undefined` exactly when the input box is empty, and otherwise the box's text; the global (line 43) and select (line 95) inputs do the same |
| `ReactTable.FilterFromInputRemoved` | src/components/ReactTable/Table.js:43-95 | under the fuzzy filter's `autoRemove` rule (line 210), a filter value taken from an input box is removed exactly when the box is empty |
| `ReactTable.Distinct` | src/components/ReactTable/Table.js:81-87 | the values of an insertion-ordered `Set` built from a sequence are the values of the sequence, each exactly once |
| `ReactTable.DistinctFirstSeen` | src/components/ReactTable/Table.js:81-87 | those values are ordered by the position of their first appearance in the sequence |
| `ReactTable.SelectOptions` | src/components/ReactTable/Table.js:81-87 | the select options contain every row's column value and nothing else, each once, in first-seen order |
| `ReactTable.Min` | src/components/ReactTable/Table.js:121 | `Math.min` of two numbers is one of them and no greater than either (also at lines 154 and 259) |
| `ReactTable.Max` | src/components/ReactTable/Table.js:122 | `Math.max` of two numbers is one of them and no less than either (also at lines 155 and 260) |
| `ReactTable.ColumnRange` | src/components/ReactTable/Table.js:117-125 | no rows give `[0, 0]`; otherwise both bounds occur in the column and every value lies between them, so they are the column's least and greatest values (the number-range filter at lines 150-158 runs the same code) |
| `ReactTable.EditMin` | src/components/ReactTable/Table.js:172-175 | editing the "Min" box sets element 0 to the typed number (or `undefined` for an empty box) and keeps the old element 1 (`undefined` when no filter was set) |
| `ReactTable.EditMax` | src/components/ReactTable/Table.js:190-193 | editing the "Max" box sets element 1 to the typed number (or `undefined` for an empty box) and keeps the old element 0 |
| `ReactTable.EditsCommute` | src/components/ReactTable/Table.js:172-193 | editing both boxes in either order gives exactly the two typed bounds |
| `ReactTable.EditMinLastWins` | src/components/ReactTable/Table.js:172-175 | of two edits of the "Min" box, only the last one matters |
| `ReactTable.EditMaxLastWins` | src/components/ReactTable/Table.js:190-193 | of two edits of the "Max" box, only the last one matters |
| `ReactTable.RoundHalf` | src/components/ReactTable/Table.js:263 | `Math.round(sum / 2)` is the integer `r` with `2r - 1 <= sum < 2r + 1`, so halves round up |
| `ReactTable.RoundedMedian` | src/components/ReactTable/Table.js:254-264 | no leaves give 0; otherwise the result is `Math.round((min + max) / 2)` over the least and the greatest leaf |
| `ReactTable.MidpointBetween` | src/components/ReactTable/Table.js:254-264 | the aggregate lies between the least and the greatest leaf |
| `ReactTable.MidpointSingle` | src/components/ReactTable/Table.js:254-264 | a single leaf `v` aggregates to `v` |
| `ReactTable.MidpointPermutation` | src/components/ReactTable/Table.js:254-264 | the aggregate does not depend on the order of the leaves |
| `ReactTable.MidpointExamples` | src/components/ReactTable/Table.js:254-264 | worked instances, kept as documentation: leaves 10 and 30 give 20; leaves 1 and 2 give 2; leaves -2 and -1 give -1 |
| `ReactTable.GotoPageIndex` | src/components/ReactTable/Table.js:378 | an empty box goes to page index 0; a typed number `n` goes to index `n - 1` |
| `ReactTable.DisplayedPage` | src/components/ReactTable/Table.js:376 | the box shows a page number of at least 1, and typing that number back goes to the same page index |
| `TableView.HeadersForDownload` | src/components/TableView/TableView.jsx:23-28 | one header per column, equal to that column's `Header`, in column order |
| `TableView.FilteredValues` | src/components/TableView/TableView.jsx:34-36 | one `values` record per reported row, same length, same order |
| `TableView.TableView.constructor` | src/components/TableView/TableView.jsx:11-18 | `data` is the given data, or empty when none is given; `headers` are the column labels, one per column |
| `TableView.TableView.HandleFilter` | src/components/TableView/TableView.jsx:30-32 | `data` becomes the projection of the reported rows; `headers` are unchanged and still the column labels |
| `TableView.TableView.GetCurrentDataState` | src/components/TableView/TableView.jsx:38-40 | returns the current `data` and changes nothing |
| `TableView.TableView.HandleExport` | src/components/TableView/TableView.jsx:46-59 | empty `data` gives only the "Unable to export empty datasets" notice; otherwise exactly the current `data` is exported with the stored `headers` and labels shown |
| `TableView.FilterThenExport` | src/components/TableView/TableView.jsx:30-59 | after a filter report the view holds the reported rows' `values` with its headers unchanged, and the export that follows writes exactly those rows under the column labels, or gives the notice when no rows were reported |

## Left out

- The `react-table` hooks (`useTable`, `useFilters`, `useGlobalFilter`, `useGroupBy`, `useExpanded`, `useSortBy`, `usePagination`): grouping, sorting, expansion, page slicing, page counts, and when filters are applied or removed all happen in that library, which is not part of this model.
- `fuzzyTextFilterFn`'s matching: it calls `match-sorter`, which is not part of this model. Only its `autoRemove` rule is modelled.
- CSV serialisation (`ExportToCsv`), the file name and title (`slugify` of the title) and the `toast` notice. An export is modelled as a value carrying the headers, the rows and the labels flag, or carrying the notice text.
- Rendering: JSX, CSS classes, `truncateCellValue`, the slider's own `setFilter(parseInt(...))` and "Off" button, the page-size selector, and the `console.log` calls around `onFilter`.
- `onFilter` is called on every render of the table with the grid's current rows. The model takes those rows as the argument of `HandleFilter`. Which rows the library reports is not modelled.
- `Values.Lower`: maps only the ASCII letters A-Z, because JavaScript's full Unicode case mapping is not modelled. `LowerKeepsPrefix`, `KeepsNarrows`, `TextFilterNarrows` and `TextFilterExtendedString` therefore hold for this `Lower` but not for non-ASCII text in JavaScript: `toLowerCase` applies the context-sensitive final-sigma rule, so `"ΑΣ"` lowers to `"ας"` but `"ΑΣΑ"` to `"ασα"`, and a cell `"ΑΣΑ"` is kept by the filter `"Α"`, dropped by `"ΑΣ"` and kept again by `"ΑΣΑ"`.
- `Values.ToStr`: cells hold integers only. Fractions are not modelled, nor integers beyond 2^53, nor the exponent form `String` uses from 1e21 on (`"1e+21"`).
- `ReactTable.Min`, `ReactTable.Max`: take integers only. `NaN`, `-0` and the conversion of arguments that are not numbers are not modelled.
- `ReactTable.ColumnRange`: requires every cell of the column to be a number. `Math.min`/`Math.max` first convert other cells to numbers: `null` and `""` become 0, booleans 0 or 1, numeric strings such as `"7"` their number, while `undefined` and other strings give `NaN`. None of these conversions is modelled.
- `ReactTable.RoundedMedian`: takes integer leaves only. The same conversions apply to other leaves and are not modelled; neither are fractional leaves or numbers beyond 2^53, because floating point is not modelled.
- `ReactTable.EditMin`, `ReactTable.EditMax` and `ReactTable.GotoPageIndex` take the box content already parsed (an empty box, or an integer). `parseInt`/`Number` on free text are not modelled.
- `TableView.TableView.HandleFilter`: `handleFilter` is `async`. Its body contains no `await`, so the assignment takes place during the call, as modelled. The `|| []` fallback is never taken, because `map` always returns an array.
- `TableView.HeadersForDownload`: a column's `Header` is taken to be a string. Render-function headers, missing headers and nested column groups are not modelled.
- The page components, the validation schemas and the other UI components hold no table logic and are not part of this model.
