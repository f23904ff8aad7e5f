# UsersList — a Dafny model of the admin table component

The component `UsersList` shows a list of user records (`id`, `name`, `email`,
`role`) as a table. The table has a name search, pages of ten rows, a
multi-row selection with a "select all" header checkbox, per-row delete, "delete
selected", and editing of one row's name and email at a time. All of this is
client-side state: the records are fetched once and every change after that
lives only in memory.

The model has four modules:

- `Seqs` (seqs.dfy): JavaScript's `Array.prototype.filter` (`Filter`) and
  `Array.prototype.slice` (`ArraySlice`), with the facts the transitions need.
  Filtering keeps exactly the accepted elements (`FilterMembership`), each as
  often as it occurred (`FilterCount`), in their original order
  (`FilterIsSubseq`). Negative slice bounds count back from the end
  (`SliceNegativeStart`, `SliceNegativeEnd`).
- `JsString` (js_string.dfy): `trim` (the ECMAScript WhiteSpace and
  LineTerminator set), `toLowerCase` (ASCII letters only) and `includes`.
  `TrimStart` and `TrimEnd` are characterised by their contracts, and
  `Includes` is proved equal to "occurs at some index" (`IncludesIff`).
- `UserList` (user_list.dfy) has two parts.
  - Each handler's new value as a pure function over sequences: `FilteredUsers`,
    `VisibleRows`, `TotalPages`, `WithoutId`, `WithoutIds`, `SaveEdits`,
    `ToggleRow`, `SelectAll`. Lemmas state what each of these means.
  - The class `UsersList`. It has one field per `useState` hook and one method per
    handler and input setter. Each method states the complete new state and
    keeps the invariant `Valid()`: record ids are unique and no id is selected
    twice.
- `UserListScenarios` (scenarios.dfy): worked cases. They cover a case-insensitive
  search, an untrimmed search text, 25 records on 3 pages, edit-then-save,
  select-all on exactly ten rows, and deleting an absent id.

Some behaviours of the code worth noting:

- The number of pages is computed from all records, not from the filtered ones.
  So a page the pager offers can be empty during a search
  (`PagesPastTheFilteredRowsAreEmpty`).
- The selection is not kept inside the filtered records. Changing the search
  leaves it as it is.
- `editingUserId` can name a record that has since been deleted. Deleting does
  not touch the draft.
- Toggling a row twice restores the selected *set*, but not always the same
  sequence. A deselected-then-reselected id moves to the end
  (`ToggleRowTwiceReorders`).

The select-all test `selectedRows.length === itemPerPage` is modelled as
written. With exactly ten filtered records, a second select-all clears the
selection (`SelectAllTwiceClearsAtPageSize`). With any other number, it selects
the same ids again (`SelectAllTwiceStaysOtherwise`).

## Model

| member | source | states |
|---|---|---|
| `Seqs.Filter` | src/Components/UserList.jsx:41 | the filter result is no longer than its input, and each element it keeps was in the input and satisfies the callback |
| `Seqs.FilterMembership` | src/Components/UserList.jsx:89 | a value is in the filter result exactly when it is in the input and the callback accepts it |
| `Seqs.FilterCount` | src/Components/UserList.jsx:89 | each accepted value keeps its number of occurrences; each rejected value has none |
| `Seqs.FilterConcat` | src/Components/UserList.jsx:94-97 | filtering a concatenation is the concatenation of the filtered parts, so survivors keep their relative order |
| `Seqs.FilterKeepsAll` | src/Components/UserList.jsx:95 | when the callback accepts every element, the result equals the input |
| `Seqs.FilterIsSubseq` | src/Components/UserList.jsx:94-97 | the result is an order-preserving subsequence of the input |
| `Seqs.FilterNoDup` | src/Components/UserList.jsx:82 | filtering a duplicate-free sequence gives a duplicate-free sequence |
| `Seqs.ArraySlice` | src/Components/UserList.jsx:140-141 | `slice(start, end)` has at most `end - start` elements and is empty when start is at or past the end; for a non-negative start, element k is input element start + k; for `0 <= start <= end`, the length is the clamped end minus the clamped start |
| `Seqs.SliceNegativeStart` | src/Components/UserList.jsx:141 | a negative start is the same as `length + start`, or 0 when that is still negative |
| `Seqs.SliceNegativeEnd` | src/Components/UserList.jsx:141 | a negative end is the same as `length + end`; when that is still negative the slice is empty |
| `JsString.TrimStart` | src/Components/UserList.jsx:95 | the result is the suffix left after removing the longest prefix of trimmable characters |
| `JsString.TrimEnd` | src/Components/UserList.jsx:95 | the result is the prefix left after removing the longest suffix of trimmable characters |
| `JsString.Trim` | src/Components/UserList.jsx:95 | `trim` is `TrimEnd` after `TrimStart`; what that leaves is stated by their contracts and by `TrimEmptyIffBlank` |
| `JsString.TrimEmptyIffBlank` | src/Components/UserList.jsx:95 | `searchName.trim()` is empty exactly when every character is whitespace or a line terminator |
| `JsString.ToLowerCase` | src/Components/UserList.jsx:96 | the result has the input's length and no capital ASCII letter; each character is kept or is a capital replaced by its small letter |
| `JsString.Includes` | src/Components/UserList.jsx:96 | `includes`: a needle at the start, or in the rest of the string; its meaning is stated by `IncludesIff` |
| `JsString.IncludesIff` | src/Components/UserList.jsx:96 | `includes` holds exactly when the needle occurs at some index of the string |
| `JsString.IncludesFirstChar` | src/Components/UserList.jsx:96 | a string that includes a non-empty needle contains the needle's first character |
| `JsString.NotIncludedWithoutFirstChar` | src/Components/UserList.jsx:96 | a non-empty needle whose first character is absent from the string is not included |
| `UserList.MatchesSearch` | src/Components/UserList.jsx:95-96 | a record passes the search filter exactly when the search text is blank or its lowered name contains the lowered search text at some index |
| `UserList.FilteredUsers` | src/Components/UserList.jsx:94-97 | `filteredUsers`; its meaning is stated by `BlankSearchKeepsAll` and `FilteredUsersSpec` |
| `UserList.BlankSearchKeepsAll` | src/Components/UserList.jsx:94-95 | an empty or all-whitespace search makes the filtered records equal all records |
| `UserList.FilteredUsersSpec` | src/Components/UserList.jsx:94-97 | with any other search, the filtered records are an order-preserving subsequence of the records; a record is kept exactly when its lowered name contains the lowered, untrimmed search text, and then as often as it occurs |
| `UserList.VisibleRows` | src/Components/UserList.jsx:140-141 | at most 10 rows are shown. There are none when the page start is at or past the end. For a non-negative page, row k is filtered record page*10+k. A page that starts inside the list shows 10 rows, or all remaining rows when fewer than 10 are left |
| `UserList.TotalPages` | src/Components/UserList.jsx:19 | the page count is the least number of 10-row pages that hold all records: `ceil(users.length / 10)` |
| `UserList.PagesPastTheFilteredRowsAreEmpty` | src/Components/UserList.jsx:18-19 | a page below the unfiltered page count whose start is past the filtered records shows no rows |
| `UserList.Ids` | src/Components/UserList.jsx:76 | the id list has one entry per record, in order: entry i is record i's id |
| `UserList.UniqueIdsIffNoDupIds` | src/Components/UserList.jsx:76 | records have unique ids exactly when their id list has no duplicate |
| `UserList.IdsMembership` | src/Components/UserList.jsx:76 | an id is in the id list exactly when some record carries it |
| `UserList.FilterKeepsIdsUnique` | src/Components/UserList.jsx:41 | removing records by any test keeps the ids unique |
| `UserList.WithoutId` | src/Components/UserList.jsx:41 | the records `deleteUser` keeps; its meaning is stated by `WithoutIdSpec` |
| `UserList.WithoutIdSpec` | src/Components/UserList.jsx:40-44 | `deleteUser` keeps exactly the records whose id differs, with multiplicity and in order; an absent id leaves the records unchanged |
| `UserList.WithoutIds` | src/Components/UserList.jsx:89 | the records `deleteSelectedRows` keeps; its meaning is stated by `WithoutIdsSpec` |
| `UserList.WithoutIdsSpec` | src/Components/UserList.jsx:88-92 | `deleteSelectedRows` keeps exactly the records whose id is not selected, with multiplicity and in order |
| `UserList.SaveEdits` | src/Components/UserList.jsx:53-58 | the length and every id and role are kept; records with the edited id get the draft name and email; all other records are unchanged |
| `UserList.SaveEditsKeepsIds` | src/Components/UserList.jsx:53-58 | saving leaves the id list, and so the uniqueness of ids, unchanged |
| `UserList.SaveEditsAbsentId` | src/Components/UserList.jsx:53-58 | saving for an id that no record carries changes nothing |
| `UserList.ToggleRow` | src/Components/UserList.jsx:81-85 | the selection `toggleRowSelection` assigns; its meaning is stated by `ToggleRowElems`, `ToggleRowNoDup` and the two-toggle lemmas |
| `UserList.ToggleRowElems` | src/Components/UserList.jsx:80-86 | as a set, toggling removes a selected id or adds an unselected one, and nothing else |
| `UserList.ToggleRowNoDup` | src/Components/UserList.jsx:80-86 | toggling never introduces a duplicate id into the selection |
| `UserList.ToggleRowTwiceSameSet` | src/Components/UserList.jsx:80-86 | toggling the same id twice restores the selected set |
| `UserList.ToggleRowTwiceFromAbsent` | src/Components/UserList.jsx:80-86 | selecting an unselected id and then deselecting it restores the exact selection sequence |
| `UserList.ToggleRowTwiceReorders` | src/Components/UserList.jsx:82-84 | deselecting then reselecting id 1 in [1, 2] gives [2, 1]: order is not restored |
| `UserList.SelectAll` | src/Components/UserList.jsx:73-77 | the selection `toggleSelectAll` assigns; its meaning is stated by `SelectAllSelectsEveryFilteredRecord` and the two select-all lemmas |
| `UserList.SelectAllSelectsEveryFilteredRecord` | src/Components/UserList.jsx:72-78 | when the selection size is not 10, select-all selects every filtered record's id across all pages, and only those |
| `UserList.SelectAllTwiceClearsAtPageSize` | src/Components/UserList.jsx:72-78 | with exactly 10 filtered records, a second select-all clears the selection |
| `UserList.SelectAllTwiceStaysOtherwise` | src/Components/UserList.jsx:72-78 | with any other number of filtered records, a second select-all selects the same ids again instead of clearing |
| `UserList.SelectAllNoDup` | src/Components/UserList.jsx:76 | with unique record ids, select-all produces a duplicate-free selection |
| `UserList.SliceOfNegativePage` | src/Components/UserList.jsx:140-141 | on a negative page index, every shown row is still a filtered record |
| `UserList.UsersList.constructor` | src/Components/UserList.jsx:10-16 | starts with no records, empty search, page 0, no selection and no draft |
| `UserList.UsersList.Filtered` | src/Components/UserList.jsx:94-97 | the current `filteredUsers`, that is `FilteredUsers` of the current records and search text |
| `UserList.UsersList.Visible` | src/Components/UserList.jsx:140-141 | the table body has at most 10 rows, each a record that matches the current search |
| `UserList.UsersList.SelectAllChecked` | src/Components/UserList.jsx:131 | the header checkbox is checked exactly when 10 ids are selected, whatever the number of filtered records |
| `UserList.UsersList.LoadUsers` | src/Components/UserList.jsx:32-34 | a successful load replaces the records and leaves all other state unchanged |
| `UserList.UsersList.PageChange` | src/Components/UserList.jsx:21-23 | the page becomes the requested index with no clamping, and all other state is unchanged |
| `UserList.UsersList.SetSearchName` | src/Components/UserList.jsx:115 | the search text becomes the input value; the page and all other state are unchanged |
| `UserList.UsersList.DeleteUser` | src/Components/UserList.jsx:40-44 | the records become `WithoutId`, the selection becomes empty, and search, page and draft are unchanged |
| `UserList.UsersList.EditUserDetails` | src/Components/UserList.jsx:46-50 | sets the edited id and both drafts, replacing any earlier draft; records, search, page and selection are unchanged |
| `UserList.UsersList.SetEditedName` | src/Components/UserList.jsx:149 | the draft name becomes the input value, and all other state is unchanged |
| `UserList.UsersList.SetEditedEmail` | src/Components/UserList.jsx:156 | the draft email becomes the input value, and all other state is unchanged |
| `UserList.UsersList.SaveEditedDetails` | src/Components/UserList.jsx:52-64 | the records become `SaveEdits` of the current drafts, the edited id becomes null, both drafts become "", and search, page and selection are unchanged |
| `UserList.UsersList.CancelEdit` | src/Components/UserList.jsx:66-70 | the edited id becomes null and both drafts become "", and the records are unchanged |
| `UserList.UsersList.ToggleSelectAll` | src/Components/UserList.jsx:72-78 | the selection becomes `SelectAll` of the old selection and the filtered records, and the selection stays duplicate-free |
| `UserList.UsersList.ToggleRowSelection` | src/Components/UserList.jsx:80-86 | the selection becomes `ToggleRow` of the old selection, and stays duplicate-free |
| `UserList.UsersList.DeleteSelectedRows` | src/Components/UserList.jsx:88-92 | the records become `WithoutIds` of the old selection, the selection becomes empty, and record ids stay unique |
| `UserListScenarios.SearchIsCaseInsensitive` | src/Components/UserList.jsx:94-97 | searching "an" over Ann and Ben keeps only Ann |
| `UserListScenarios.SearchTextIsNotTrimmed` | src/Components/UserList.jsx:96 | the search " an" does not match "Ann", because the text is trimmed only for the blank test |
| `UserListScenarios.TwentyFiveRecords` | src/Components/UserList.jsx:17-19 | 25 records make 3 pages, and page index 2 shows records 21 to 25 |

## Left out

- The fetch in `getUsersDetails` and its `useEffect` mount hook are network I/O. The model keeps only the successful result, as `LoadUsers`. A failed load logs to the console and changes no state, so it is not modelled.
- UserList.UsersList.LoadUsers: requires the loaded records to have unique ids. The code does not check this, but the record source assigns unique ids, and the selection invariant depends on it.
- Every `UsersList` method requires `Valid()`. The constructor establishes it and every method preserves it, so every reachable state satisfies it.
- All JSX rendering, the CSS, the icons and the status-line strings are presentation only. Rendering is modelled only as the rows it draws (`Visible`) and the header checkbox state (`SelectAllChecked`).
- The internals of `ReactPaginate` (page ranges, ellipses, Prev/Next) are a foreign library. The model keeps only that it calls `pageChange` with an index. That index may be any integer, and the slice follows JavaScript's rules for negative indices.
- JsString.ToLower: lowers only the ASCII letters A–Z, not the full Unicode case mapping of `toLowerCase`.
- JavaScript strings are UTF-16 code units; the model's strings are sequences of Unicode scalar values.
- The trim set follows ECMAScript's WhiteSpace and LineTerminator, with the space separators of current Unicode; later Unicode versions are not tracked.
- React's batching of state updates is not modelled. Each handler is taken to run to completion on the state of the last render. With one handler per event, that is the same thing.
- src/App.js only mounts the component inside an error boundary. It has no logic to model.
