/** The `UsersList` table component: a list of user records with a name search,
    fixed-size pages, a multi-row selection and a one-row edit draft. The values
    each handler assigns are the functions below; the class `UsersList` holds the
    component's state and applies them. */
module UserList {
  import opened Seqs
  import opened JsString

  datatype User = User(id: int, name: string, email: string, role: string)

  /** `null` in the source's `editingUserId`. */
  datatype Option<T> = None | Some(value: T)

  /** Rows per page (`itemPerPage`). */
  const ItemPerPage: nat := 10

  /* ---------------- search ---------------- */

  /** The filter callback: a blank search keeps every record; otherwise the lowered
      name must contain the lowered, untrimmed search text. */
  predicate MatchesSearch(searchName: string, u: User)
    ensures MatchesSearch(searchName, u) <==>
              IsBlank(searchName) || exists i :: OccursAt(ToLowerCase(u.name), ToLowerCase(searchName), i)
  {
    TrimEmptyIffBlank(searchName);
    IncludesIff(ToLowerCase(u.name), ToLowerCase(searchName));
    Trim(searchName) == [] || Includes(ToLowerCase(u.name), ToLowerCase(searchName))
  }

  function SearchKeeper(searchName: string): User -> bool {
    (u: User) => MatchesSearch(searchName, u)
  }

  /** `filteredUsers`. */
  function FilteredUsers(users: seq<User>, searchName: string): seq<User> {
    Filter(users, SearchKeeper(searchName))
  }

  /** A blank search (empty or only whitespace) shows every record, in order. */
  lemma {:induction false} BlankSearchKeepsAll(users: seq<User>, searchName: string)
    requires IsBlank(searchName)
    ensures FilteredUsers(users, searchName) == users
  {
    TrimEmptyIffBlank(searchName);
    FilterKeepsAll(users, SearchKeeper(searchName));
  }

  /** Otherwise the filtered records are the order-preserving subsequence of the
      records whose lowered name contains the lowered search text at some position,
      each kept as often as it occurs. */
  lemma {:induction false} FilteredUsersSpec(users: seq<User>, searchName: string)
    requires !IsBlank(searchName)
    ensures IsSubseq(FilteredUsers(users, searchName), users)
    ensures forall u :: u in FilteredUsers(users, searchName) <==>
              u in users && exists i :: OccursAt(ToLowerCase(u.name), ToLowerCase(searchName), i)
    ensures forall u :: multiset(FilteredUsers(users, searchName))[u] ==
              if exists i :: OccursAt(ToLowerCase(u.name), ToLowerCase(searchName), i)
              then multiset(users)[u] else 0
  {
    TrimEmptyIffBlank(searchName);
    FilterIsSubseq(users, SearchKeeper(searchName));
    forall u
      ensures u in FilteredUsers(users, searchName) <==>
              u in users && exists i :: OccursAt(ToLowerCase(u.name), ToLowerCase(searchName), i)
    {
      FilterMembership(users, SearchKeeper(searchName), u);
      IncludesIff(ToLowerCase(u.name), ToLowerCase(searchName));
    }
    forall u
      ensures multiset(FilteredUsers(users, searchName))[u] ==
              if exists i :: OccursAt(ToLowerCase(u.name), ToLowerCase(searchName), i)
              then multiset(users)[u] else 0
    {
      FilterCount(users, SearchKeeper(searchName), u);
      IncludesIff(ToLowerCase(u.name), ToLowerCase(searchName));
    }
  }

  /* ---------------- pagination ---------------- */

  /** The rows on page `pageCount`: `filteredUsers.slice(pageVisited, pageVisited + itemPerPage)`. */
  function VisibleRows(filtered: seq<User>, pageCount: int): (r: seq<User>)
    ensures |r| <= ItemPerPage
    ensures |filtered| <= pageCount * ItemPerPage ==> r == []
    ensures 0 <= pageCount ==>
              forall k :: 0 <= k < |r| ==>
                pageCount * ItemPerPage + k < |filtered| && r[k] == filtered[pageCount * ItemPerPage + k]
    ensures 0 <= pageCount * ItemPerPage < |filtered| ==>
              |r| == if |filtered| - pageCount * ItemPerPage < ItemPerPage
                     then |filtered| - pageCount * ItemPerPage else ItemPerPage
  {
    var pageVisited := pageCount * ItemPerPage;
    ArraySlice(filtered, pageVisited, pageVisited + ItemPerPage)
  }

  /** `totalPages = Math.ceil(users.length / itemPerPage)`: the fewest pages of
      `ItemPerPage` rows that hold every record. */
  function TotalPages(users: seq<User>): (r: nat)
    ensures |users| <= r * ItemPerPage
    ensures 0 < r ==> (r - 1) * ItemPerPage < |users|
  {
    (|users| + ItemPerPage - 1) / ItemPerPage
  }

  /** The page count is taken from all records, not the filtered ones: a page the
      pager offers can hold no row at all once a search narrows the list. */
  lemma PagesPastTheFilteredRowsAreEmpty(users: seq<User>, searchName: string, pageCount: int)
    requires |FilteredUsers(users, searchName)| <= pageCount * ItemPerPage < |users|
    ensures 0 <= pageCount < TotalPages(users)
    ensures VisibleRows(FilteredUsers(users, searchName), pageCount) == []
  {
  }

  /* ---------------- ids ---------------- */

  /** `users.map((user) => user.id)`. */
  function Ids(users: seq<User>): (r: seq<int>)
    ensures |r| == |users|
    ensures forall i :: 0 <= i < |users| ==> r[i] == users[i].id
  {
    if users == [] then [] else [users[0].id] + Ids(users[1..])
  }

  /** No two records share an id. */
  predicate UniqueIds(users: seq<User>) {
    forall i, j :: 0 <= i < j < |users| ==> users[i].id != users[j].id
  }

  lemma UniqueIdsIffNoDupIds(users: seq<User>)
    ensures UniqueIds(users) <==> NoDup(Ids(users))
  {
  }

  /** An id is listed exactly when some record carries it. */
  lemma IdsMembership(users: seq<User>, id: int)
    ensures id in Ids(users) <==> exists u :: u in users && u.id == id
  {
    if id in Ids(users) {
      var i :| 0 <= i < |users| && Ids(users)[i] == id;
      assert users[i] in users;
    }
  }

  /** Removing records never creates a shared id. */
  lemma {:induction false} FilterKeepsIdsUnique(users: seq<User>, keep: User -> bool)
    requires UniqueIds(users)
    ensures UniqueIds(Filter(users, keep))
  {
    if users != [] {
      var rest := Filter(users[1..], keep);
      FilterKeepsIdsUnique(users[1..], keep);
      if keep(users[0]) {
        var r := [users[0]] + rest;
        forall i, j | 0 <= i < j < |r| ensures r[i].id != r[j].id {
          if i == 0 {
            assert r[j] == rest[j - 1];
            assert rest[j - 1] in users[1..];
            var k :| 0 <= k < |users[1..]| && users[1..][k] == rest[j - 1];
            assert users[k + 1] == r[j];
          }
        }
      }
    }
  }

  /* ---------------- deletion ---------------- */

  function OtherThan(id: int): User -> bool {
    (u: User) => u.id != id
  }

  /** `users.filter((user) => user.id !== selectedUser)`. */
  function WithoutId(users: seq<User>, id: int): seq<User> {
    Filter(users, OtherThan(id))
  }

  /** Deleting removes exactly the records carrying `id`, keeps the rest in order,
      and leaves the list as it was when no record carries `id`. */
  lemma {:induction false} WithoutIdSpec(users: seq<User>, id: int)
    ensures IsSubseq(WithoutId(users, id), users)
    ensures forall u :: u in WithoutId(users, id) <==> u in users && u.id != id
    ensures forall u :: multiset(WithoutId(users, id))[u] == if u.id == id then 0 else multiset(users)[u]
    ensures (forall u :: u in users ==> u.id != id) ==> WithoutId(users, id) == users
  {
    FilterIsSubseq(users, OtherThan(id));
    forall u ensures u in WithoutId(users, id) <==> u in users && u.id != id {
      FilterMembership(users, OtherThan(id), u);
    }
    forall u ensures multiset(WithoutId(users, id))[u] == if u.id == id then 0 else multiset(users)[u] {
      FilterCount(users, OtherThan(id), u);
    }
    if forall u :: u in users ==> u.id != id {
      FilterKeepsAll(users, OtherThan(id));
    }
  }

  function NotSelected(selectedRows: seq<int>): User -> bool {
    (u: User) => u.id !in selectedRows
  }

  /** `users.filter((user) => !selectedRows.includes(user.id))`. */
  function WithoutIds(users: seq<User>, selectedRows: seq<int>): seq<User> {
    Filter(users, NotSelected(selectedRows))
  }

  /** Deleting the selection removes exactly the records whose id is selected and
      keeps the others, in order. */
  lemma {:induction false} WithoutIdsSpec(users: seq<User>, selectedRows: seq<int>)
    ensures IsSubseq(WithoutIds(users, selectedRows), users)
    ensures forall u :: u in WithoutIds(users, selectedRows) <==> u in users && u.id !in selectedRows
    ensures forall u :: multiset(WithoutIds(users, selectedRows))[u] ==
              if u.id in selectedRows then 0 else multiset(users)[u]
  {
    FilterIsSubseq(users, NotSelected(selectedRows));
    forall u ensures u in WithoutIds(users, selectedRows) <==> u in users && u.id !in selectedRows {
      FilterMembership(users, NotSelected(selectedRows), u);
    }
    forall u ensures multiset(WithoutIds(users, selectedRows))[u] ==
                     if u.id in selectedRows then 0 else multiset(users)[u] {
      FilterCount(users, NotSelected(selectedRows), u);
    }
  }

  /* ---------------- editing ---------------- */

  /** The `users.map` of `saveEditedDetails`: each record carrying `id` takes the
      draft name and email; every other record, and every id and role, is kept. */
  function SaveEdits(users: seq<User>, id: int, editedName: string, editedEmail: string): (r: seq<User>)
    ensures |r| == |users|
    ensures forall i :: 0 <= i < |users| ==>
              r[i].id == users[i].id && r[i].role == users[i].role
              && (users[i].id == id ==> r[i].name == editedName && r[i].email == editedEmail)
              && (users[i].id != id ==> r[i] == users[i])
  {
    if users == [] then []
    else
      var u := users[0];
      [if u.id == id then u.(name := editedName, email := editedEmail) else u]
      + SaveEdits(users[1..], id, editedName, editedEmail)
  }

  /** Saving leaves the ids, and so their uniqueness, as they were. */
  lemma SaveEditsKeepsIds(users: seq<User>, id: int, editedName: string, editedEmail: string)
    ensures Ids(SaveEdits(users, id, editedName, editedEmail)) == Ids(users)
    ensures UniqueIds(users) ==> UniqueIds(SaveEdits(users, id, editedName, editedEmail))
  {
    var r := SaveEdits(users, id, editedName, editedEmail);
    assert forall i :: 0 <= i < |r| ==> Ids(r)[i] == Ids(users)[i];
  }

  /** Saving for an id no record carries changes nothing. */
  lemma SaveEditsAbsentId(users: seq<User>, id: int, editedName: string, editedEmail: string)
    requires forall u :: u in users ==> u.id != id
    ensures SaveEdits(users, id, editedName, editedEmail) == users
  {
  }

  /* ---------------- selection ---------------- */

  function Not(id: int): int -> bool {
    (x: int) => x != id
  }

  /** The value `toggleRowSelection` assigns: drop every occurrence of a present id,
      append an absent one. */
  function ToggleRow(selectedRows: seq<int>, id: int): seq<int> {
    if id in selectedRows then Filter(selectedRows, Not(id)) else selectedRows + [id]
  }

  /** As a set, a toggle adds or removes exactly `id`. */
  lemma {:induction false} ToggleRowElems(selectedRows: seq<int>, id: int)
    ensures Elems(ToggleRow(selectedRows, id)) ==
              if id in selectedRows then Elems(selectedRows) - {id} else Elems(selectedRows) + {id}
  {
    if id in selectedRows {
      forall x ensures x in Filter(selectedRows, Not(id)) <==> x in selectedRows && x != id {
        FilterMembership(selectedRows, Not(id), x);
      }
    }
  }

  /** A toggle never introduces a duplicate. */
  lemma {:induction false} ToggleRowNoDup(selectedRows: seq<int>, id: int)
    requires NoDup(selectedRows)
    ensures NoDup(ToggleRow(selectedRows, id))
  {
    if id in selectedRows {
      FilterNoDup(selectedRows, Not(id));
    }
  }

  /** Toggling twice restores the selected set. */
  lemma {:induction false} ToggleRowTwiceSameSet(selectedRows: seq<int>, id: int)
    ensures Elems(ToggleRow(ToggleRow(selectedRows, id), id)) == Elems(selectedRows)
  {
    ToggleRowElems(selectedRows, id);
    ToggleRowElems(ToggleRow(selectedRows, id), id);
  }

  /** Selecting an unselected id and deselecting it again restores the exact sequence. */
  lemma {:induction false} ToggleRowTwiceFromAbsent(selectedRows: seq<int>, id: int)
    requires id !in selectedRows
    ensures ToggleRow(ToggleRow(selectedRows, id), id) == selectedRows
  {
    FilterConcat(selectedRows, [id], Not(id));
    FilterKeepsAll(selectedRows, Not(id));
    assert Filter([id], Not(id)) == [];
  }

  /** Deselecting and reselecting moves the id to the end: the order is not restored. */
  lemma ToggleRowTwiceReorders()
    ensures ToggleRow(ToggleRow([1, 2], 1), 1) == [2, 1]
  {
    assert Filter([1, 2], Not(1)) == [2];
  }

  /** The value `toggleSelectAll` assigns: clear when exactly `ItemPerPage` ids are
      selected, otherwise select the id of every filtered record on every page. */
  function SelectAll(selectedRows: seq<int>, filtered: seq<User>): seq<int> {
    if |selectedRows| == ItemPerPage then [] else Ids(filtered)
  }

  /** Select-all selects every filtered record, across all pages, and nothing else. */
  lemma SelectAllSelectsEveryFilteredRecord(selectedRows: seq<int>, filtered: seq<User>)
    requires |selectedRows| != ItemPerPage
    ensures |SelectAll(selectedRows, filtered)| == |filtered|
    ensures forall u :: u in filtered ==> u.id in SelectAll(selectedRows, filtered)
    ensures forall id :: id in SelectAll(selectedRows, filtered) ==> exists u :: u in filtered && u.id == id
  {
    forall id | id in SelectAll(selectedRows, filtered)
      ensures exists u :: u in filtered && u.id == id
    {
      IdsMembership(filtered, id);
    }
    forall u | u in filtered ensures u.id in Ids(filtered) {
      IdsMembership(filtered, u.id);
    }
  }

  /** With exactly `ItemPerPage` filtered records, select-all followed by select-all
      clears the selection. */
  lemma SelectAllTwiceClearsAtPageSize(selectedRows: seq<int>, filtered: seq<User>)
    requires |selectedRows| != ItemPerPage && |filtered| == ItemPerPage
    ensures SelectAll(SelectAll(selectedRows, filtered), filtered) == []
  {
  }

  /** With any other number of filtered records the second select-all does not clear:
      it selects the same ids again. */
  lemma SelectAllTwiceStaysOtherwise(selectedRows: seq<int>, filtered: seq<User>)
    requires |selectedRows| != ItemPerPage && |filtered| != ItemPerPage
    ensures SelectAll(SelectAll(selectedRows, filtered), filtered) == Ids(filtered)
  {
  }

  /** Select-all keeps the selection duplicate-free when the record ids are unique. */
  lemma SelectAllNoDup(selectedRows: seq<int>, filtered: seq<User>)
    requires UniqueIds(filtered)
    ensures NoDup(SelectAll(selectedRows, filtered))
  {
  }

  /* ---------------- the component ---------------- */

  /** The component's state, one field per `useState` hook. */
  class UsersList {
    var users: seq<User>
    var searchName: string
    var pageCount: int
    var selectedRows: seq<int>
    var editingUserId: Option<int>
    var editedName: string
    var editedEmail: string

    /** Record ids are unique and no id is selected twice. */
    ghost predicate Valid()
      reads this
    {
      UniqueIds(users) && NoDup(selectedRows)
    }

    /** The initial values of the hooks. */
    constructor ()
      ensures Valid()
      ensures users == [] && searchName == "" && pageCount == 0 && selectedRows == []
      ensures editingUserId == None && editedName == "" && editedEmail == ""
    {
      users, searchName, pageCount, selectedRows := [], "", 0, [];
      editingUserId, editedName, editedEmail := None, "", "";
    }

    function Filtered(): seq<User>
      reads this
    {
      FilteredUsers(users, searchName)
    }

    /** The table body: at most one page of filtered records. */
    function Visible(): (r: seq<User>)
      reads this
      ensures |r| <= ItemPerPage
      ensures forall u :: u in r ==> u in users && MatchesSearch(searchName, u)
    {
      var r := VisibleRows(Filtered(), pageCount);
      assert forall u :: u in r ==> u in Filtered() by {
        forall u | u in r ensures u in Filtered() {
          var k :| 0 <= k < |r| && r[k] == u;
          if 0 <= pageCount {
            assert u == Filtered()[pageCount * ItemPerPage + k];
          } else {
            SliceOfNegativePage(Filtered(), pageCount, k);
          }
        }
      }
      r
    }

    /** The header checkbox is checked when exactly `ItemPerPage` ids are selected. */
    function SelectAllChecked(): (b: bool)
      reads this
    {
      |selectedRows| == ItemPerPage
    }

    /** The successful load: the fetched array replaces the records. */
    method LoadUsers(data: seq<User>)
      requires Valid() && UniqueIds(data)
      modifies this
      ensures Valid()
      ensures users == data
      ensures searchName == old(searchName) && pageCount == old(pageCount)
      ensures selectedRows == old(selectedRows) && editingUserId == old(editingUserId)
      ensures editedName == old(editedName) && editedEmail == old(editedEmail)
    {
      users := data;
    }

    /** `pageChange`: the pager's index becomes the page, unchecked. */
    method PageChange(selected: int)
      requires Valid()
      modifies this
      ensures Valid()
      ensures pageCount == selected
      ensures users == old(users) && searchName == old(searchName)
      ensures selectedRows == old(selectedRows) && editingUserId == old(editingUserId)
      ensures editedName == old(editedName) && editedEmail == old(editedEmail)
    {
      pageCount := selected;
    }

    /** The search box's `onChange`. The page is not reset. */
    method SetSearchName(value: string)
      requires Valid()
      modifies this
      ensures Valid()
      ensures searchName == value
      ensures users == old(users) && pageCount == old(pageCount)
      ensures selectedRows == old(selectedRows) && editingUserId == old(editingUserId)
      ensures editedName == old(editedName) && editedEmail == old(editedEmail)
    {
      searchName := value;
    }

    /** `deleteUser`: drop the records carrying `selectedUser`, clear the whole selection. */
    method DeleteUser(selectedUser: int)
      requires Valid()
      modifies this
      ensures Valid()
      ensures users == WithoutId(old(users), selectedUser)
      ensures selectedRows == []
      ensures searchName == old(searchName) && pageCount == old(pageCount)
      ensures editingUserId == old(editingUserId)
      ensures editedName == old(editedName) && editedEmail == old(editedEmail)
    {
      FilterKeepsIdsUnique(users, OtherThan(selectedUser));
      users := WithoutId(users, selectedUser);
      selectedRows := [];
    }

    /** `editUserDetails`: open the draft for `userId`, abandoning any other draft. */
    method EditUserDetails(userId: int, name: string, email: string)
      requires Valid()
      modifies this
      ensures Valid()
      ensures editingUserId == Some(userId) && editedName == name && editedEmail == email
      ensures users == old(users) && searchName == old(searchName) && pageCount == old(pageCount)
      ensures selectedRows == old(selectedRows)
    {
      editingUserId := Some(userId);
      editedName := name;
      editedEmail := email;
    }

    /** The name field's `onChange` while a row is being edited. */
    method SetEditedName(value: string)
      requires Valid()
      modifies this
      ensures Valid()
      ensures editedName == value
      ensures users == old(users) && searchName == old(searchName) && pageCount == old(pageCount)
      ensures selectedRows == old(selectedRows) && editingUserId == old(editingUserId)
      ensures editedEmail == old(editedEmail)
    {
      editedName := value;
    }

    /** The email field's `onChange` while a row is being edited. */
    method SetEditedEmail(value: string)
      requires Valid()
      modifies this
      ensures Valid()
      ensures editedEmail == value
      ensures users == old(users) && searchName == old(searchName) && pageCount == old(pageCount)
      ensures selectedRows == old(selectedRows) && editingUserId == old(editingUserId)
      ensures editedName == old(editedName)
    {
      editedEmail := value;
    }

    /** `saveEditedDetails`: write the draft into the records carrying `userId`, close the draft. */
    method SaveEditedDetails(userId: int)
      requires Valid()
      modifies this
      ensures Valid()
      ensures users == SaveEdits(old(users), userId, old(editedName), old(editedEmail))
      ensures editingUserId == None && editedName == "" && editedEmail == ""
      ensures searchName == old(searchName) && pageCount == old(pageCount)
      ensures selectedRows == old(selectedRows)
    {
      SaveEditsKeepsIds(users, userId, editedName, editedEmail);
      users := SaveEdits(users, userId, editedName, editedEmail);
      editingUserId := None;
      editedName := "";
      editedEmail := "";
    }

    /** `cancelEdit`: close the draft; the records are untouched. */
    method CancelEdit()
      requires Valid()
      modifies this
      ensures Valid()
      ensures editingUserId == None && editedName == "" && editedEmail == ""
      ensures users == old(users) && searchName == old(searchName) && pageCount == old(pageCount)
      ensures selectedRows == old(selectedRows)
    {
      editingUserId := None;
      editedName := "";
      editedEmail := "";
    }

    /** `toggleSelectAll`. */
    method ToggleSelectAll()
      requires Valid()
      modifies this
      ensures Valid()
      ensures selectedRows == SelectAll(old(selectedRows), FilteredUsers(old(users), old(searchName)))
      ensures users == old(users) && searchName == old(searchName) && pageCount == old(pageCount)
      ensures editingUserId == old(editingUserId)
      ensures editedName == old(editedName) && editedEmail == old(editedEmail)
    {
      FilterKeepsIdsUnique(users, SearchKeeper(searchName));
      SelectAllNoDup(selectedRows, Filtered());
      selectedRows := SelectAll(selectedRows, Filtered());
    }

    /** `toggleRowSelection`. */
    method ToggleRowSelection(userId: int)
      requires Valid()
      modifies this
      ensures Valid()
      ensures selectedRows == ToggleRow(old(selectedRows), userId)
      ensures users == old(users) && searchName == old(searchName) && pageCount == old(pageCount)
      ensures editingUserId == old(editingUserId)
      ensures editedName == old(editedName) && editedEmail == old(editedEmail)
    {
      ToggleRowNoDup(selectedRows, userId);
      selectedRows := ToggleRow(selectedRows, userId);
    }

    /** `deleteSelectedRows`: drop every selected record, clear the selection. */
    method DeleteSelectedRows()
      requires Valid()
      modifies this
      ensures Valid()
      ensures users == WithoutIds(old(users), old(selectedRows))
      ensures selectedRows == []
      ensures searchName == old(searchName) && pageCount == old(pageCount)
      ensures editingUserId == old(editingUserId)
      ensures editedName == old(editedName) && editedEmail == old(editedEmail)
    {
      FilterKeepsIdsUnique(users, NotSelected(selectedRows));
      users := WithoutIds(users, selectedRows);
      selectedRows := [];
    }
  }

  /** On a negative page the rows shown are still rows of the filtered list. */
  lemma SliceOfNegativePage(filtered: seq<User>, pageCount: int, k: int)
    requires pageCount < 0 && 0 <= k < |VisibleRows(filtered, pageCount)|
    ensures VisibleRows(filtered, pageCount)[k] in filtered
  {
    var start := pageCount * ItemPerPage;
    var lo := SliceIndex(start, |filtered|);
    var hi := SliceIndex(start + ItemPerPage, |filtered|);
    assert VisibleRows(filtered, pageCount) == filtered[lo..hi];
    assert filtered[lo..hi][k] == filtered[lo + k];
  }
}
