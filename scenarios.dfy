/**
 * Client scenarios: request sequences whose outcomes follow from the
 * handlers' contracts alone.
 */
module Scenarios {
  import opened Wrappers
  import opened Views
  import Models

  function AcceptUser(f: UserFields): bool { true }
  function AcceptGroup(f: GroupFields): bool { true }
  function Hash(raw: string): string { "pbkdf2$" + raw }

  /** A group given catalog permission 4 lists it by its label. */
  method GroupGetsViewPermission() {
    var store := new Store(CatalogRows(), false);
    Models.CatalogCodenamesDistinct();
    var created := store.CreateGroup(GroupRequest(Some("QA"), None), AcceptGroup);
    assert created == Ok(GroupBody(1, "QA", []));
    var updated := store.UpdateGroup(1, GroupRequest(None, Some([4])), AcceptGroup);
    assert CatalogRows()[3].name == Models.Catalog[3].1;
    assert store.permissions[4] == CatalogRows()[3];
    assert FirstMissing(store.permissions, [4]).None?;
    assert NameList(store.permissions, PermissionName, [4]) == ["查看测试用例"];
    assert updated == Ok(GroupBody(1, "QA", ["查看测试用例"]));
    assert store.groupPermissions[1] == {4};
  }

  /** A store with groups A, B, C (ids 1 to 3) and user "ann" (id 1) in group A. */
  method ThreeGroupsOneUser() returns (store: Store)
    ensures fresh(store) && store.Valid()
    ensures store.groups == map[1 := Group("A"), 2 := Group("B"), 3 := Group("C")]
    ensures store.users == map[1 := User("ann", Hash("pw"))]
    ensures store.userGroups == map[1 := {1}]
  {
    store := new Store([], false);
    var a := store.CreateGroup(GroupRequest(Some("A"), None), AcceptGroup);
    assert store.groups == map[1 := Group("A")] && store.nextGroupId == 2;
    var b := store.CreateGroup(GroupRequest(Some("B"), None), AcceptGroup);
    assert store.groups == map[1 := Group("A"), 2 := Group("B")] && store.nextGroupId == 3;
    var c := store.CreateGroup(GroupRequest(Some("C"), None), AcceptGroup);
    assert store.groups == map[1 := Group("A"), 2 := Group("B"), 3 := Group("C")];
    assert FirstMissing(store.groups, [1]).None?;
    var user := store.CreateUser(UserRequest(Some("ann"), Some("pw"), Some([1])), Hash, AcceptUser);
    assert Elements([1]) == {1};
  }

  /** Listing groups replaces the memberships; the response repeats a repeated id. */
  method MembershipReplaced() {
    var store := ThreeGroupsOneUser();
    var moved := store.UpdateUser(1, UserRequest(None, None, Some([3, 2, 3])), Hash, AcceptUser);
    assert FirstMissing(store.groups, [3, 2, 3]).None?;
    var names := NameList(store.groups, GroupName, [3, 2, 3]);
    assert names[0] == "C" && names[1] == "B" && names[2] == "C";
    assert names == ["C", "B", "C"];
    assert moved == Ok(UserBody(1, "ann", Hash("pw"), ["C", "B", "C"]));
    assert store.userGroups[1] == {2, 3};
  }

  /** An empty list is no request to change the memberships, and no password keeps the old one. */
  method EmptyListKeepsMembership() {
    var store := ThreeGroupsOneUser();
    var same := store.UpdateUser(1, UserRequest(None, None, Some([])), Hash, AcceptUser);
    assert store.userGroups[1] == {1};
    assert store.users[1].password == Hash("pw");
  }

  /** A group id that does not resolve fails the update after the scalar fields were saved. */
  method FailedLookupKeepsScalarUpdate() {
    var store := ThreeGroupsOneUser();
    var failed := store.UpdateUser(1, UserRequest(Some("bob"), Some("new"), Some([2, 9])), Hash, AcceptUser);
    assert FirstMissing(store.groups, [2, 9]) == Some(9);
    assert failed == Err(GroupDoesNotExist(9));
    assert store.users[1] == User("bob", Hash("new"));
    assert store.userGroups[1] == {1};
  }

  /** A project brings one group of its name; a second project of that name keeps its row but gets no group. */
  method ProjectBootstrap() {
    var store := new Store([], true);
    var alpha := store.CreateProject(ProjectRequest(Some("Alpha"), Some(0), Some(0)), 10);
    assert alpha == Ok(ProjectBody(1, Models.Project("Alpha", 10, 10)));
    assert store.groups == map[1 := Group("Alpha")];
    assert store.groupPermissions[1] == {};

    var again := store.CreateProject(ProjectRequest(Some("Alpha"), Some(0), Some(0)), 11);
    assert NameTaken(map[1 := Group("Alpha")], "Alpha");
    assert again == Err(IntegrityError);
    assert 2 in store.projects && store.groups == map[1 := Group("Alpha")];

    var unnamed := store.CreateProject(ProjectRequest(Some(""), Some(0), Some(0)), 12);
    assert unnamed == Err(ValidationError);
  }

  /** With unique group names, neither a second group nor a rename may take a name in use. */
  method DuplicateGroupNameRejected() {
    var store := new Store([], true);
    var a := store.CreateGroup(GroupRequest(Some("A"), None), AcceptGroup);
    var b := store.CreateGroup(GroupRequest(Some("B"), None), AcceptGroup);
    assert store.groups == map[1 := Group("A"), 2 := Group("B")];
    assert store.groups[1].name == "A";
    assert NameTaken(store.groups, "A");
    var again := store.CreateGroup(GroupRequest(Some("A"), None), AcceptGroup);
    assert again == Err(ValidationError) && store.groups == map[1 := Group("A"), 2 := Group("B")];
    var renamed := store.UpdateGroup(2, GroupRequest(Some("A"), None), AcceptGroup);
    assert (map[1 := Group("A"), 2 := Group("B")] - {2})[1] == Group("A");
    assert renamed == Err(ValidationError) && store.groups[2] == Group("B");
    var kept := store.UpdateGroup(2, GroupRequest(Some("B"), None), AcceptGroup);
    assert !NameTaken(map[1 := Group("A"), 2 := Group("B")] - {2}, "B");
    assert kept.Ok? && store.groups[2] == Group("B");
  }
}
