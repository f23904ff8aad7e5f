/** Worked cases of the component's behaviour, each proved from the model's contracts. */
module UserListScenarios {
  import opened Seqs
  import opened JsString
  import opened UserList

  /** Searching "an" matches "Ann" regardless of case and excludes "Ben". */
  lemma SearchIsCaseInsensitive(ann: User, ben: User)
    requires ann.name == "Ann" && ben.name == "Ben"
    ensures FilteredUsers([ann, ben], "an") == [ann]
  {
    AnMatchesAnn(ann);
    AnMissesBen(ben);
    FilterKeepsFirstOfTwo(ann, ben, SearchKeeper("an"));
  }

  /** The search text is not trimmed before matching: " an" does not match "Ann". */
  lemma SearchTextIsNotTrimmed(ann: User)
    requires ann.name == "Ann"
    ensures FilteredUsers([ann], " an") == []
  {
    SpacedAnMissesAnn(ann);
    FilterDropsOnly(ann, SearchKeeper(" an"));
  }

  lemma FilterKeepsFirstOfTwo(a: User, b: User, keep: User -> bool)
    requires keep(a) && !keep(b)
    ensures Filter([a, b], keep) == [a]
  {
    assert [a, b][1..] == [b] && [b][1..] == [];
  }

  lemma FilterDropsOnly(a: User, keep: User -> bool)
    requires !keep(a)
    ensures Filter([a], keep) == []
  {
    assert [a][1..] == [];
  }

  lemma AnMatchesAnn(u: User)
    requires u.name == "Ann"
    ensures MatchesSearch("an", u)
  {
    LowerAnn();
    assert StartsWith("ann", "an");
  }

  lemma AnMissesBen(u: User)
    requires u.name == "Ben"
    ensures !MatchesSearch("an", u)
  {
    NotBlank("an", 0);
    LowerBen();
    NeedlesNotIncluded();
  }

  lemma SpacedAnMissesAnn(u: User)
    requires u.name == "Ann"
    ensures !MatchesSearch(" an", u)
  {
    NotBlank(" an", 1);
    LowerAnn();
    NeedlesNotIncluded();
  }

  lemma LowerAnn()
    ensures ToLowerCase("Ann") == "ann" && ToLowerCase("an") == "an" && ToLowerCase(" an") == " an"
  {
  }

  lemma LowerBen()
    ensures ToLowerCase("Ben") == "ben" && ToLowerCase("an") == "an"
  {
  }

  /** Neither needle's first character occurs in the lowered name it is searched in. */
  lemma NeedlesNotIncluded()
    ensures !Includes("ben", "an") && !Includes("ann", " an")
  {
    NotIncludedWithoutFirstChar("ben", "an");
    NotIncludedWithoutFirstChar("ann", " an");
  }

  /** A search text holding a letter is not blank. */
  lemma NotBlank(searchName: string, i: int)
    requires 0 <= i < |searchName| && 'a' <= searchName[i] <= 'z'
    ensures Trim(searchName) != []
  {
    TrimEmptyIffBlank(searchName);
    assert !IsTrimmable(searchName[i]);
  }

  /** 25 records with an empty search make 3 pages, and the third shows records 21 to 25. */
  lemma TwentyFiveRecords(users: seq<User>)
    requires |users| == 25
    ensures TotalPages(users) == 3
    ensures VisibleRows(FilteredUsers(users, ""), 2) == users[20..25]
  {
    BlankSearchKeepsAll(users, "");
  }

  /** Editing record 1 and saving after changing the draft name renames it and closes the draft. */
  method EditThenSave()
  {
    var view := new UsersList();
    view.LoadUsers([User(1, "Ann", "a@x.com", "member"), User(2, "Ben", "b@x.com", "admin")]);
    view.EditUserDetails(1, "Ann", "a@x.com");
    view.SetEditedName("Anna");
    view.SaveEditedDetails(1);
    assert view.users[0] == User(1, "Anna", "a@x.com", "member");
    assert view.users[1] == User(2, "Ben", "b@x.com", "admin");
    assert view.editingUserId == None;
  }

  /** With exactly ten filtered records the header checkbox selects all ten, then clears. */
  method SelectAllTenThenClear(ten: seq<User>)
    requires |ten| == ItemPerPage && UniqueIds(ten)
  {
    var view := new UsersList();
    view.LoadUsers(ten);
    view.ToggleSelectAll();
    BlankSearchKeepsAll(ten, "");
    assert view.selectedRows == Ids(ten) && |view.selectedRows| == 10;
    assert view.SelectAllChecked();
    view.ToggleSelectAll();
    assert view.selectedRows == [];
  }

  /** Deleting an id no record carries keeps the records and still clears the selection. */
  method DeleteAbsentId(users: seq<User>, id: int)
    requires UniqueIds(users) && forall u :: u in users ==> u.id != id
  {
    var view := new UsersList();
    view.LoadUsers(users);
    view.ToggleRowSelection(id);
    view.DeleteUser(id);
    WithoutIdSpec(users, id);
    assert view.users == users && view.selectedRows == [];
  }
}
