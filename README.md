# Employee list: derived view and controls

A Dafny model of the employee list component of a small employee-directory
web client. The component is handed the owner's list of employee records.
It keeps four state cells: the search term, the department filter, the sort
configuration and the current page. On every render it derives the view:

1. it sorts a copy of the list with a one-column comparator, when a column
   is active;
2. it keeps the records that match the search term and the department filter;
3. it cuts the result into pages of three records and shows the current page;
4. it offers, as filter options, the distinct departments of the whole list.

Clicks on column headers, the Previous/Next buttons and the page-number
buttons update the state cells.

Modules, one per step of the pipeline:

- `Text` — string order (`<` on strings), ASCII lower-casing and `includes`.
- `Employees` — the record, the nine sortable columns, a column's value and
  its order.
- `Sorting` — the comparator and a stable sort of a copy of the list.
- `Filtering` — the search and department filter.
- `Departments` — the department options, built with the `indexOf` idiom.
- `Pagination` — JavaScript `slice`, `Math.ceil` and the Previous/Next
  disabled conditions.
- `SortHeader` — the header-click state machine and the sort arrow.
- `EmployeeList` — the whole derived view, and the class
  `EmployeeListState` holding the four state cells and their event handlers.

The derived view is modelled as functions with lemmas about them, and the
state cells as a class whose methods overwrite its fields. The source has no
loops of its own: its sort, filter, map and slice are calls into the
language's library, and they are modelled as recursive functions.

The engine's sort is required to be stable. `Sorting.StableSortUnique`
shows that a stable sort of a list under a given comparator is unique, so
the insertion sort used here returns the same sequence as any stable sort.

In two places the model follows the code rather than the evidently intended
behaviour:

- The page count is `ceil(n / 3)`, which is 0 for an empty filtered list.
  There is no minimum of one page and no clamping of the current page.
  So on an empty list, or past the last page, Next stays enabled and the
  page shown is empty (`Pagination.PastLastPage`).
- The phone number is searched verbatim (case-sensitive). Only the name and
  the email are compared lower-cased.

## Model

| member | source | states |
|---|---|---|
| `Text.StrLess` | src/components/EmployeeList.tsx:46-49 | `a < b` on strings: the first differing character decides, and a proper prefix is smaller; its properties are stated by the four lemmas below and by `Employees.KeyLessStrictTotalOrder` |
| `Text.StrLessIrreflexive` | src/components/EmployeeList.tsx:46-49 | no string is less than itself |
| `Text.StrLessAsymmetric` | src/components/EmployeeList.tsx:46-49 | if `a < b` then not `b < a` |
| `Text.StrLessTransitive` | src/components/EmployeeList.tsx:46-49 | `a < b` and `b < c` give `a < c` |
| `Text.StrLessTotal` | src/components/EmployeeList.tsx:46-49 | of two different strings one is less than the other |
| `Text.LowerChar` | src/components/EmployeeList.tsx:59-60 | lower-cases one character: an upper-case ASCII letter becomes the lower-case letter at the same place in the alphabet, every other character is left unchanged, and the result is never an upper-case ASCII letter |
| `Text.ToLowerCase` | src/components/EmployeeList.tsx:59-60 | `toLowerCase` keeps the length and lower-cases each character in place |
| `Text.Includes` | src/components/EmployeeList.tsx:59-61 | `includes`: the needle occurs at some position of the string; `Text.IncludesEmpty` and `Filtering.SearchAlice` state its behaviour |
| `Employees.KeyOf` | src/components/EmployeeList.tsx:45-46 | `a[key]`: a column's value is a number exactly for the salary column and text for the other eight columns |
| `Employees.KeyLess` | src/components/EmployeeList.tsx:46-49 | `a[key] < b[key]` (and, swapped, `>`): salaries compare numerically and text columns by `Text.StrLess`; the case that puts a number before text never applies to two values of one column, since `Employees.KeyOf` gives one form per column, and only makes the relation total; `Employees.KeyLessStrictTotalOrder` states its properties |
| `Employees.KeyLessStrictTotalOrder` | src/components/EmployeeList.tsx:46-50 | the `<` used on one column's values is irreflexive, asymmetric, transitive and total, for text and for salaries |
| `Sorting.Compare` | src/components/EmployeeList.tsx:43-54 | the comparator returns -1, 0 or 1; it returns 0 exactly when no sort is active or both records have the same value in the column; it is negative exactly when the first record's value is smaller (ascending) or larger (descending) |
| `Sorting.CompareConsistent` | src/components/EmployeeList.tsx:43-54 | the comparator is consistent: `cmp(a,b) == -cmp(b,a)`, and "not after" and "tie" are both transitive |
| `Sorting.StableSort` | src/components/EmployeeList.tsx:43 | the sorted copy is a permutation of the employee list |
| `Sorting.StableSortSorted` | src/components/EmployeeList.tsx:43-54 | in the sorted copy no record is placed after a later record that the comparator puts first |
| `Sorting.StableSortKeepsTies` | src/components/EmployeeList.tsx:43-54 | stability: for every record, the records that tie with it appear in the sorted copy in their original relative order |
| `Sorting.StableSortIsStableSort` | src/components/EmployeeList.tsx:43-54 | the sorted copy is ordered, a permutation of the input, and keeps every group of ties in input order |
| `Sorting.StableSortUnique` | src/components/EmployeeList.tsx:43 | any sequence that is a stable sort of the list under the comparator equals the model's sorted copy |
| `Sorting.StableSortUnsorted` | src/components/EmployeeList.tsx:44-53 | with no active sort the comparator always returns 0, and the sorted copy is the input in its original order |
| `Sorting.StableSortByColumn` | src/components/EmployeeList.tsx:45-51 | sorting ascending leaves the column values non-decreasing; sorting descending leaves them non-increasing |
| `Filtering.MatchesSearch` | src/components/EmployeeList.tsx:58-61 | the search test: the lowered term occurs in the lowered name or the lowered email, or the term occurs verbatim in the phone; `Filtering.FilterEmployees` and `Filtering.SearchAlice` state what it keeps |
| `Filtering.MatchesDepartment` | src/components/EmployeeList.tsx:62 | an empty department filter passes every record, and otherwise the department must be equal; `Filtering.FilterEmptyKeepsAll` states the empty case |
| `Filtering.Keep` | src/components/EmployeeList.tsx:63 | a record is kept when it passes both tests; `Filtering.FilterEmployees` states that the filter keeps exactly these records |
| `Filtering.FilterEmployees` | src/components/EmployeeList.tsx:57-64 | every kept record matches the search (lowered name or email contains the lowered term, or phone contains the term) and the department filter (empty, or equal); each matching record is kept exactly as many times as it occurs, and no other record is kept |
| `Filtering.FilterIsSubsequence` | src/components/EmployeeList.tsx:57 | the filtered list is a subsequence of the sorted list: the order is kept |
| `Filtering.SubsequenceSorted` | src/components/EmployeeList.tsx:57 | filtering a list that is in the comparator's order leaves the kept records in that order |
| `Filtering.FilterEmptyKeepsAll` | src/components/EmployeeList.tsx:58-63 | an empty search term and an empty department filter keep every record, in order |
| `Filtering.FilterNoneKept` | src/components/EmployeeList.tsx:57-64 | a list in which no record matches filters to the empty list |
| `Filtering.SearchAlice` | src/components/EmployeeList.tsx:58-61 | the search is case-insensitive on names: "alice" keeps exactly the record named "Alice Smith" when the list holds it once, at any position, and no other record matches |
| `Text.IncludesEmpty` | src/components/EmployeeList.tsx:59-61 | `includes("")` holds for every string, so an empty search term matches every record |
| `Departments.DepartmentsOf` | src/components/EmployeeList.tsx:67-68 | `map` to the department: one entry per employee, in the list's order, holding that employee's department |
| `Departments.FirstSeenFrom` | src/components/EmployeeList.tsx:69 | the `indexOf === index` filter from a position on; `Departments.FirstSeenFromMembers` and `Departments.FirstSeenFromOrdered` state what it keeps and in which order |
| `Departments.UniqueDepartments` | src/components/EmployeeList.tsx:67-69 | the department options; `Departments.UniqueDepartmentsSpec` states that they are the distinct departments of the list in first-seen order |
| `Departments.IndexOf` | src/components/EmployeeList.tsx:69 | `indexOf` returns -1 exactly when the value is absent; otherwise it returns the value's position, and the value does not occur before it |
| `Departments.FirstSeenFromMembers` | src/components/EmployeeList.tsx:69 | from a given position on, the `indexOf === index` filter keeps exactly the values whose first occurrence is at or after that position |
| `Departments.FirstSeenFromOrdered` | src/components/EmployeeList.tsx:69 | the values the `indexOf === index` filter keeps come in increasing order of first occurrence |
| `Departments.UniqueDepartmentsSpec` | src/components/EmployeeList.tsx:67-69 | the department options are exactly the departments of the unfiltered list; each appears once; they are in order of first occurrence |
| `Pagination.TotalPages` | src/components/EmployeeList.tsx:72 | the page count is the least number of pages of three that hold the filtered list, i.e. `ceil(n/3)` |
| `Pagination.TotalPagesZero` | src/components/EmployeeList.tsx:72 | the page count is 0 exactly when the filtered list is empty |
| `Pagination.RelativeIndex` | src/components/EmployeeList.tsx:75 | `slice` counts a negative index back from the end and clamps every index into `0..length` |
| `Pagination.Slice` | src/components/EmployeeList.tsx:75 | `slice(start, end)`: the run of the list between the two clamped indices, as long as their difference, or empty when the end does not come after the start; every element is an element of the list |
| `Pagination.PageRows` | src/components/EmployeeList.tsx:73-75 | the rows of a page, for any page number, are at most three records of the filtered list; `Pagination.PageWindow` gives the exact window |
| `Pagination.PageWindow` | src/components/EmployeeList.tsx:73-75 | for a page `p >= 1`, the rows are `filtered[min(3(p-1), n) .. min(3p, n)]`; there are at most 3 of them; they are empty exactly when `p` is past the page count |
| `Pagination.PageZeroEmpty` | src/components/EmployeeList.tsx:73-75 | page 0 (`slice(-3, 0)`) is empty |
| `Pagination.PagesUpToPrefix` | src/components/EmployeeList.tsx:72-75 | pages 1 to `k`, concatenated, are the first `min(3k, n)` filtered records |
| `Pagination.PagesCoverList` | src/components/EmployeeList.tsx:72-75 | pages 1 to the page count, concatenated, give back the filtered list |
| `Pagination.RecordOnItsPage` | src/components/EmployeeList.tsx:72-75 | the record at position `k` of the filtered list is on page `k/3 + 1`, and that page is between 1 and the page count |
| `Pagination.PreviousDisabled` | src/components/EmployeeList.tsx:175 | Previous is disabled on page 1; `EmployeeList.DeriveView` states it as an iff on the view |
| `Pagination.NextDisabled` | src/components/EmployeeList.tsx:197 | Next is disabled when the page equals the page count; `EmployeeList.DeriveView` and `Pagination.PastLastPage` state it |
| `Pagination.PastLastPage` | src/components/EmployeeList.tsx:72-75 | past the last page, which covers every page of an empty list, the page is empty and Next (`currentPage === totalPages`, line 197) stays enabled |
| `Pagination.SevenRecords` | src/components/EmployeeList.tsx:72-75 | seven records make three pages; page 1 holds records 1-3 and page 3 holds record 7 alone |
| `SortHeader.NextSortConfig` | src/components/EmployeeList.tsx:34-40 | after a click on column `k` the key is `k`; the direction flips exactly when the previous state sorted by `k`; otherwise it is ascending |
| `SortHeader.TwoClicks` | src/components/EmployeeList.tsx:34-40 | two clicks on the active column restore the sort state; two clicks on another column leave it sorted descending |
| `SortHeader.SortArrow` | src/components/EmployeeList.tsx:80-85 | the arrow is non-empty exactly for the active column: " ↑" when ascending, " ↓" when descending, and "" for every other column |
| `SortHeader.ArrowAfterClick` | src/components/EmployeeList.tsx:80-85 | after a click on column `k` only `k`'s header carries an arrow, pointing the new direction |
| `EmployeeList.Filtered` | src/components/EmployeeList.tsx:43-64 | the filtered list holds each record of the employee list that passes the search and the department filter, as often as the list does, and no other record; it is no longer than the list |
| `EmployeeList.DeriveView` | src/components/EmployeeList.tsx:72-77 | the view's page count is `ceil(filtered/3)`; Previous is disabled exactly on page 1; Next is disabled exactly when the page equals the page count |
| `EmployeeList.ViewRowsSound` | src/components/EmployeeList.tsx:43-75 | every row shown is a record of the employee list that matches the search and the department filter; a page shows at most 3 rows, for any page number |
| `EmployeeList.FilteredMember` | src/components/EmployeeList.tsx:43-64 | a record is in the filtered list exactly when it is in the employee list and passes the search and the department filter |
| `EmployeeList.FilteredSorted` | src/components/EmployeeList.tsx:43-64 | the filtered list is in the comparator's order |
| `EmployeeList.PageRowsSorted` | src/components/EmployeeList.tsx:75 | a page of a list in the comparator's order is in that order |
| `EmployeeList.ViewRowsOrdered` | src/components/EmployeeList.tsx:43-75 | the rows shown on any page are in the comparator's order |
| `EmployeeList.ViewRowsComplete` | src/components/EmployeeList.tsx:43-75 | every record that matches the search and the filter is shown on some page between 1 and the page count |
| `EmployeeList.ViewInitialOrder` | src/components/EmployeeList.tsx:43-75 | with no sort, no search and no filter, page `p` is the window of the employee list itself, in the given order |
| `EmployeeList.SevenEmployees` | src/components/EmployeeList.tsx:43-75 | seven employees with no sort, search or filter make three pages; page 1 shows the first three employees and page 3 shows the seventh alone |
| `EmployeeList.EmployeeListState.constructor` | src/components/EmployeeList.tsx:17-20 | the initial state has an empty search term and filter, no sort, and page 1 |
| `EmployeeList.EmployeeListState.View` | src/components/EmployeeList.tsx:72-75 | the view of the current state shows at most three rows, each a record of the list that passes the current search and department filter |
| `EmployeeList.EmployeeListState.HandleSearch` | src/components/EmployeeList.tsx:24-26 | typing replaces the search term and changes no other cell; the page is not reset |
| `EmployeeList.EmployeeListState.HandleFilter` | src/components/EmployeeList.tsx:29-31 | choosing a department replaces the filter and changes no other cell |
| `EmployeeList.EmployeeListState.HandleSort` | src/components/EmployeeList.tsx:34-40 | a header click sets the sort state to `NextSortConfig` of the old one and changes no other cell |
| `EmployeeList.EmployeeListState.Paginate` | src/components/EmployeeList.tsx:77 | `paginate(x)` sets the page to `x` with no bounds check |
| `EmployeeList.EmployeeListState.ClickPrevious` | src/components/EmployeeList.tsx:173-179 | Previous does nothing on page 1 and otherwise goes back one page; the page stays at least 1 |
| `EmployeeList.EmployeeListState.ClickNext` | src/components/EmployeeList.tsx:195-201 | Next does nothing when the page equals the page count and otherwise goes forward one page, past the last page too; the page stays at least 1 |
| `EmployeeList.EmployeeListState.ClickPageNumber` | src/components/EmployeeList.tsx:180-194 | the button of page `index + 1`, one per page, sets that page |
| `EmployeeList.EmployeeListState.ClickDelete` | src/components/EmployeeList.tsx:152-157 | Delete in a row emits that row's id, which is the id of a record of the employee list |

## Left out

- src/components/AddEmployee.tsx is not part of this model. It is form binding through `setState`, a submit that calls the owner and navigates, an id taken from the wall clock, and required-field checks done by the browser.
- The owner that holds the employee list and applies a deletion is not part of this model. Delete is modelled only as emitting the row's id.
- The Employee type file is not part of this model. The record has the ten fields the add form initialises.
- Rendering, styling, the "No employees found" row and the router links (New, Edit) are presentation and are not modelled.
- `Text.LowerChar`: lower-cases only ASCII letters, not full Unicode case mapping.
- `Text.StrLess` orders strings by Dafny characters (Unicode scalar values), while JavaScript compares UTF-16 code units. The two orders differ only between characters above U+FFFF and characters in U+E000–U+FFFF.
- `Employees.Employee`: `salary` is an integer compared numerically. At run time the add form can store it as a string. Comparisons between values of mixed runtime types, and fractional salaries, are not modelled. The comparator is modelled as a total order per column.
- `Sorting.StableSort`: the engine's own sort algorithm is not modelled. An insertion sort stands in for it, and `Sorting.StableSortUnique` shows that any stable sort gives the same result.
- The copy `[...employees]` is modelled by value semantics: the input sequence cannot change. Aliasing of the props array is not modelled.
- `Pagination.TotalPages`: `Math.ceil` works on a floating-point quotient. The model uses exact integer arithmetic, which agrees for lists shorter than 2^53.
- Negative page numbers cannot be reached through the controls (`EmployeeListState.Valid`). `Pagination.PageRows` still follows `slice` for them and bounds them like any page (at most three records of the filtered list), but no lemma gives their exact window beyond page 0.
- React's batching of state updates and its re-render timing are not modelled. Each handler updates its cell at once, and the view is a function of the state.
