/**
 * The request handlers of the permission app over an in-memory store:
 * user, group, permission and project tables keyed by autoincrement id,
 * and the two many-to-many associations user -> groups and
 * group -> permissions.
 */
module Views {
  import opened Wrappers
  import Models

  /** The content type under which this system's own permissions are registered. */
  const PermissionContentType: int := 8

  datatype User = User(username: string, password: string)
  datatype Group = Group(name: string)
  datatype Permission = Permission(name: string, codename: string, contentType: int)

  function GroupName(g: Group): string { g.name }
  function PermissionName(p: Permission): string { p.name }

  /**
   * The ways a handler fails. `MissingPassword` is the key lookup of the
   * password on user creation; `GroupDoesNotExist` and
   * `PermissionDoesNotExist` carry the first id that did not resolve;
   * `IntegrityError` is a storage constraint rejecting a row.
   */
  datatype Error =
    | MissingPassword
    | ValidationError
    | NotFound
    | GroupDoesNotExist(groupId: int)
    | PermissionDoesNotExist(permissionId: int)
    | IntegrityError

  /** Request bodies; `None` is a field the request does not carry. */
  datatype UserRequest = UserRequest(username: Option<string>, password: Option<string>, groups: Option<seq<int>>)
  datatype GroupRequest = GroupRequest(name: Option<string>, permissions: Option<seq<int>>)
  datatype ProjectRequest = ProjectRequest(name: Option<string>, createTime: Option<nat>, updateTime: Option<nat>)

  /** The scalar fields a user or group serializer validates and saves. */
  datatype UserFields = UserFields(username: Option<string>, password: Option<string>)
  datatype GroupFields = GroupFields(name: Option<string>)

  /** Response bodies, with associations expanded into names. */
  datatype UserBody = UserBody(id: int, username: string, password: string, groups: seq<string>)
  datatype GroupBody = GroupBody(id: int, name: string, permissions: seq<string>)
  datatype ProjectBody = ProjectBody(id: int, project: Models.Project)

  /** Truthiness of an optional list: present and not empty. */
  predicate Truthy(ids: Option<seq<int>>) {
    ids.Some? && ids.value != []
  }

  /** The set of distinct ids a list mentions. */
  function Elements(ids: seq<int>): set<int> {
    set i | i in ids
  }

  predicate Distinct(ids: seq<int>) {
    forall i, j :: 0 <= i < j < |ids| ==> ids[i] != ids[j]
  }

  /**
   * A list of `n` ids that resolve gives `n` names but stores only the
   * distinct ids: as many as the list has entries exactly when none repeats.
   */
  lemma {:induction false} ElementsCount(ids: seq<int>)
    ensures |Elements(ids)| <= |ids|
    ensures |Elements(ids)| == |ids| <==> Distinct(ids)
  {
    if ids != [] {
      var rest := ids[1..];
      ElementsCount(rest);
      assert Elements(ids) == {ids[0]} + Elements(rest);
      if ids[0] in rest {
        assert Elements(ids) == Elements(rest);
        var k :| 0 <= k < |rest| && rest[k] == ids[0];
        assert ids[0] == ids[k + 1];
      } else {
        assert |Elements(ids)| == |Elements(rest)| + 1;
        if Distinct(rest) {
          forall i, j | 0 <= i < j < |ids| ensures ids[i] != ids[j] {
            if i > 0 { assert ids[i] == rest[i - 1] && ids[j] == rest[j - 1]; }
            else { assert ids[j] == rest[j - 1]; }
          }
        } else {
          var i, j :| 0 <= i < j < |rest| && rest[i] == rest[j];
          assert ids[i + 1] == ids[j + 1];
        }
      }
    }
  }

  /**
   * The first id of `ids`, in request order, that has no row in `table`,
   * or `None` when every id resolves.
   */
  function FirstMissing<R>(table: map<int, R>, ids: seq<int>): (r: Option<int>)
    ensures r.None? <==> forall i :: 0 <= i < |ids| ==> ids[i] in table
    ensures r.Some? ==> exists k :: 0 <= k < |ids| && ids[k] == r.value && ids[k] !in table &&
                                    forall j :: 0 <= j < k ==> ids[j] in table
  {
    if ids == [] then None
    else if ids[0] !in table then Some(ids[0])
    else
      var r := FirstMissing(table, ids[1..]);
      assert r.Some? ==> exists k :: 1 <= k < |ids| && ids[k] == r.value && ids[k] !in table &&
                                     forall j :: 0 <= j < k ==> ids[j] in table by {
        if r.Some? {
          var k :| 0 <= k < |ids| - 1 && ids[1..][k] == r.value && ids[1..][k] !in table &&
                   forall j :: 0 <= j < k ==> ids[1..][j] in table;
          assert ids[k + 1] == r.value;
          forall j | 0 <= j < k + 1 ensures ids[j] in table {
            if j > 0 { assert ids[j] == ids[1..][j - 1]; }
          }
        }
      }
      assert r.None? ==> forall i :: 0 <= i < |ids| ==> ids[i] in table by {
        if r.None? {
          forall i | 0 <= i < |ids| ensures ids[i] in table {
            if i > 0 { assert ids[i] == ids[1..][i - 1]; }
          }
        }
      }
      r
  }

  /** The names of the rows `ids` resolve to, in the order of `ids`, repeats included. */
  function NameList<R>(table: map<int, R>, nameOf: R -> string, ids: seq<int>): (names: seq<string>)
    requires forall i :: 0 <= i < |ids| ==> ids[i] in table
    ensures |names| == |ids|
    ensures forall i :: 0 <= i < |ids| ==> names[i] == nameOf(table[ids[i]])
  {
    if ids == [] then []
    else NameList(table, nameOf, ids[..|ids| - 1]) + [nameOf(table[ids[|ids| - 1]])]
  }

  /**
   * `names` lists the names of the rows in `ids`, one per id, in some
   * order: the order of an unordered query.
   */
  ghost predicate ListsNames<R>(names: seq<string>, table: map<int, R>, nameOf: R -> string, ids: set<int>)
    requires ids <= table.Keys
  {
    exists order: seq<int> :: Distinct(order) && Elements(order) == ids &&
      (forall i :: 0 <= i < |order| ==> order[i] in table) &&
      names == NameList(table, nameOf, order)
  }

  /**
   * The ids in `keys` between 1 and `top`, from the largest down: the
   * ordering by descending id of every listing.
   */
  function Descending(keys: set<int>, top: int): (r: seq<int>)
    ensures StrictlyDescending(r)
    ensures forall x :: x in r <==> x in keys && 1 <= x <= top
    decreases top
  {
    if top < 1 then []
    else
      var rest := Descending(keys, top - 1);
      assert forall j :: 0 <= j < |rest| ==> rest[j] < top by {
        forall j | 0 <= j < |rest| ensures rest[j] < top {
          assert rest[j] in rest;
        }
      }
      if top in keys then
        var r := [top] + rest;
        assert forall j :: 1 <= j < |r| ==> r[j] == rest[j - 1];
        r
      else rest
  }

  /** Each id is larger than every id after it. */
  predicate StrictlyDescending(ids: seq<int>) {
    forall i, j :: 0 <= i < j < |ids| ==> ids[i] > ids[j]
  }

  /**
   * Resolves each id, in request order, to its row's name. Fails with the
   * first id that has no row; no later id is looked at.
   */
  method Resolve<R>(table: map<int, R>, nameOf: R -> string, ids: seq<int>) returns (r: Result<seq<string>, int>)
    ensures FirstMissing(table, ids).Some? ==> r == Err(FirstMissing(table, ids).value)
    ensures FirstMissing(table, ids).None? ==> r == Ok(NameList(table, nameOf, ids))
  {
    var names: seq<string> := [];
    var i := 0;
    while i < |ids|
      invariant 0 <= i <= |ids|
      invariant forall j :: 0 <= j < i ==> ids[j] in table
      invariant names == NameList(table, nameOf, ids[..i])
    {
      if ids[i] !in table {
        return Err(ids[i]);
      }
      assert ids[..i + 1][..i] == ids[..i];
      names := names + [nameOf(table[ids[i]])];
      i := i + 1;
    }
    assert ids[..i] == ids;
    return Ok(names);
  }

  /** Naming a list with one more id in front names that id in front. */
  lemma NameListCons<R>(table: map<int, R>, nameOf: R -> string, id: int, ids: seq<int>)
    requires id in table && forall i :: 0 <= i < |ids| ==> ids[i] in table
    ensures NameList(table, nameOf, [id] + ids) == [nameOf(table[id])] + NameList(table, nameOf, ids)
  {
    var lhs := NameList(table, nameOf, [id] + ids);
    var rhs := [nameOf(table[id])] + NameList(table, nameOf, ids);
    assert forall i :: 0 <= i < |ids| ==> ([id] + ids)[i + 1] == ids[i];
    assert forall i :: 0 <= i < |lhs| ==> lhs[i] == rhs[i];
  }

  /** The ids of `ids` from the largest down witness that their names are listed, one per id. */
  lemma DescendingListsNames<R>(table: map<int, R>, nameOf: R -> string, ids: set<int>, top: int)
    requires ids <= table.Keys
    requires forall x :: x in ids ==> 1 <= x <= top
    ensures |Descending(ids, top)| == |ids|
    ensures ListsNames(NameList(table, nameOf, Descending(ids, top)), table, nameOf, ids)
  {
    var order := Descending(ids, top);
    forall x ensures x in Elements(order) <==> x in ids {
      assert x in Elements(order) <==> x in order;
    }
    assert Elements(order) == ids;
    assert Distinct(order);
    ElementsCount(order);
  }

  /**
   * The names of the rows in `ids`, collected one row at a time. The query
   * promises no order; walking the ids up to `top` fixes one.
   */
  method NamesOfSet<R>(table: map<int, R>, nameOf: R -> string, ids: set<int>, top: int) returns (names: seq<string>)
    requires ids <= table.Keys
    requires forall x :: x in ids ==> 1 <= x <= top
    ensures |names| == |ids|
    ensures ListsNames(names, table, nameOf, ids)
  {
    names := [];
    var k := 1;
    while k <= top
      invariant 1 <= k <= if top < 1 then 1 else top + 1
      invariant names == NameList(table, nameOf, Descending(ids, k - 1))
    {
      if k in ids {
        NameListCons(table, nameOf, k, Descending(ids, k - 1));
        names := [nameOf(table[k])] + names;
      }
      k := k + 1;
    }
    DescendingListsNames(table, nameOf, ids, k - 1);
  }

  /** The password the user serializer receives on update: hashed only when a non-empty one is supplied. */
  function UpdatePassword(raw: Option<string>, makePassword: string -> string): Option<string> {
    if raw.Some? && raw.value != "" then Some(makePassword(raw.value)) else raw
  }

  /** The fields the user serializer receives on update. */
  function UpdateFields(req: UserRequest, makePassword: string -> string): UserFields {
    UserFields(req.username, UpdatePassword(req.password, makePassword))
  }

  /**
   * Whether user creation gets past validation: the password key is
   * present, and the serializer, given the username and the hash of the
   * raw password, finds the username present and accepts the fields.
   */
  predicate CreateAccepted(req: UserRequest, makePassword: string -> string, isValid: UserFields -> bool) {
    req.password.Some? && req.username.Some? &&
    isValid(UserFields(req.username, Some(makePassword(req.password.value))))
  }

  /** A partial update: supplied fields replace the stored ones, the rest stay. */
  function ApplyUserFields(u: User, f: UserFields): User {
    User(f.username.GetOr(u.username), f.password.GetOr(u.password))
  }

  function ApplyGroupFields(g: Group, f: GroupFields): Group {
    Group(f.name.GetOr(g.name))
  }

  /**
   * The project serializer's verdict: the name is required, not blank and
   * at most 128 characters, and both timestamp fields must be present
   * (their values are then replaced by the clock when the row is saved).
   * Gives the name to save.
   */
  function ValidateProject(req: ProjectRequest): (r: Result<string, Error>)
    ensures r.Ok? <==> req.name.Some? && 0 < |req.name.value| <= Models.MaxNameLength &&
                       req.createTime.Some? && req.updateTime.Some?
    ensures r.Ok? ==> r.value == req.name.value
    ensures r.Err? ==> r.error == ValidationError
  {
    if req.name.None? || req.createTime.None? || req.updateTime.None? then Err(ValidationError)
    else if !Models.ValidName(req.name.value) then Err(ValidationError)
    else Ok(req.name.value)
  }

  /** Whether some group already carries `name`. */
  predicate NameTaken(groups: map<int, Group>, name: string) {
    exists g :: g in groups && groups[g].name == name
  }

  /** No two groups carry the same name. */
  predicate UniqueNames(groups: map<int, Group>) {
    forall g, h :: g in groups && h in groups && g != h ==> groups[g].name != groups[h].name
  }

  predicate IdsBelow<R>(table: map<int, R>, next: int) {
    forall id :: id in table ==> 0 < id < next
  }

  /** Inserting a row under the table's counter keeps every id below the advanced counter. */
  lemma InsertBelow<R>(table: map<int, R>, next: int, row: R)
    requires IdsBelow(table, next) && 0 < next
    ensures IdsBelow(table[next := row], next + 1)
    ensures next !in table
  {
  }

  /** `rows` stored under the ids 1, 2, ..., |rows|, as a fresh table numbers them. */
  function Numbered<R>(rows: seq<R>): (table: map<int, R>)
    ensures forall id :: id in table <==> 1 <= id <= |rows|
    ensures forall i :: 0 <= i < |rows| ==> table[i + 1] == rows[i]
  {
    if rows == [] then map[]
    else Numbered(rows[..|rows| - 1])[|rows| := rows[|rows| - 1]]
  }

  /** The catalog of the PermissionList model as permission rows of this system's content type. */
  function CatalogRows(): (rows: seq<Permission>)
    ensures |rows| == |Models.Catalog|
    ensures forall i :: 0 <= i < |rows| ==>
      rows[i].codename == Models.Catalog[i].0 && rows[i].name == Models.Catalog[i].1 &&
      rows[i].contentType == PermissionContentType
  {
    seq(|Models.Catalog|, i requires 0 <= i < |Models.Catalog| =>
      Permission(Models.Catalog[i].1, Models.Catalog[i].0, PermissionContentType))
  }

  class Store {
    var users: map<int, User>
    var groups: map<int, Group>
    var permissions: map<int, Permission>
    var projects: map<int, Models.Project>
    /** user id -> ids of the groups the user belongs to */
    var userGroups: map<int, set<int>>
    /** group id -> ids of the permissions the group holds */
    var groupPermissions: map<int, set<int>>
    /** The id each table gives its next row. */
    var nextUserId: int
    var nextGroupId: int
    var nextPermissionId: int
    var nextProjectId: int
    /** Whether the storage rejects a second group with a name already in use. */
    const uniqueGroupNames: bool

    /**
     * Ids are below their table's counter, associations only link existing
     * rows, every project has a valid name, and group names are distinct
     * when the storage demands it.
     */
    ghost predicate Valid()
      reads this
    {
      && 0 < nextUserId && 0 < nextGroupId && 0 < nextPermissionId && 0 < nextProjectId
      && IdsBelow(users, nextUserId) && IdsBelow(groups, nextGroupId)
      && IdsBelow(permissions, nextPermissionId) && IdsBelow(projects, nextProjectId)
      && userGroups.Keys == users.Keys
      && (forall u :: u in userGroups ==> userGroups[u] <= groups.Keys)
      && groupPermissions.Keys == groups.Keys
      && (forall g :: g in groupPermissions ==> groupPermissions[g] <= permissions.Keys)
      && (forall p :: p in projects ==> Models.ValidName(projects[p].name))
      && (uniqueGroupNames ==> UniqueNames(groups))
    }

    /** An empty store whose permission table holds `seed` under ids 1, 2, ... */
    constructor (seed: seq<Permission>, uniqueGroupNames: bool)
      ensures Valid()
      ensures users == map[] && groups == map[] && projects == map[]
      ensures userGroups == map[] && groupPermissions == map[]
      ensures permissions == Numbered(seed)
      ensures this.uniqueGroupNames == uniqueGroupNames
      ensures nextUserId == 1 && nextGroupId == 1 && nextProjectId == 1 && nextPermissionId == |seed| + 1
    {
      users, groups, projects := map[], map[], map[];
      userGroups, groupPermissions := map[], map[];
      permissions := Numbered(seed);
      nextUserId, nextGroupId, nextPermissionId, nextProjectId := 1, 1, |seed| + 1, 1;
      this.uniqueGroupNames := uniqueGroupNames;
    }

    /** Every user, most recently created first. */
    function ListUsers(): (ids: seq<int>)
      reads this
      requires Valid()
      ensures StrictlyDescending(ids)
      ensures forall id :: id in ids <==> id in users
    {
      Descending(users.Keys, nextUserId - 1)
    }

    /** Every group, most recently created first. */
    function ListGroups(): (ids: seq<int>)
      reads this
      requires Valid()
      ensures StrictlyDescending(ids)
      ensures forall id :: id in ids <==> id in groups
    {
      Descending(groups.Keys, nextGroupId - 1)
    }

    /** Every project, most recently created first. */
    function ListProjects(): (ids: seq<int>)
      reads this
      requires Valid()
      ensures StrictlyDescending(ids)
      ensures forall id :: id in ids <==> id in projects
    {
      Descending(projects.Keys, nextProjectId - 1)
    }

    /** The permissions of this system's own content type, most recently created first. */
    function ListPermissions(): (ids: seq<int>)
      reads this
      requires Valid()
      ensures StrictlyDescending(ids)
      ensures forall id :: id in ids <==> id in permissions && permissions[id].contentType == PermissionContentType
    {
      var own := set id | id in permissions && permissions[id].contentType == PermissionContentType;
      Descending(own, nextPermissionId - 1)
    }

    /** The names of the groups user `uid` belongs to, in no particular order. */
    method GetGroups(uid: int) returns (names: seq<string>)
      requires Valid() && uid in users
      ensures |names| == |userGroups[uid]|
      ensures ListsNames(names, groups, GroupName, userGroups[uid])
    {
      names := NamesOfSet(groups, GroupName, userGroups[uid], nextGroupId - 1);
    }

    /** The names of the permissions group `gid` holds, in no particular order. */
    method GetPermissions(gid: int) returns (names: seq<string>)
      requires Valid() && gid in groups
      ensures |names| == |groupPermissions[gid]|
      ensures ListsNames(names, permissions, PermissionName, groupPermissions[gid])
    {
      names := NamesOfSet(permissions, PermissionName, groupPermissions[gid], nextPermissionId - 1);
    }

    /**
     * Replaces the groups of user `uid` by the groups `ids` lists. Every id
     * is looked up first, in request order; only when all resolve are the
     * user's groups cleared and then set, so a failed lookup leaves them as
     * they were. Gives the names of the listed groups, in request order.
     */
    method ReplaceUserGroups(uid: int, ids: seq<int>) returns (r: Result<seq<string>, Error>)
      requires Valid() && uid in users
      modifies this`userGroups
      ensures Valid()
      ensures FirstMissing(groups, ids).Some? ==>
        userGroups == old(userGroups) && r == Err(GroupDoesNotExist(FirstMissing(groups, ids).value))
      ensures FirstMissing(groups, ids).None? ==>
        userGroups == old(userGroups)[uid := Elements(ids)] && r == Ok(NameList(groups, GroupName, ids))
    {
      var resolved := Resolve(groups, GroupName, ids);
      if resolved.Err? {
        return Err(GroupDoesNotExist(resolved.error));
      }
      userGroups := userGroups[uid := {}];
      userGroups := userGroups[uid := Elements(ids)];
      return Ok(resolved.value);
    }

    /**
     * Replaces the permissions of group `gid` by the permissions `ids`
     * lists, looked up in the whole permission table: the same
     * lookup-then-clear-then-set as for a user's groups.
     */
    method ReplaceGroupPermissions(gid: int, ids: seq<int>) returns (r: Result<seq<string>, Error>)
      requires Valid() && gid in groups
      modifies this`groupPermissions
      ensures Valid()
      ensures FirstMissing(permissions, ids).Some? ==>
        groupPermissions == old(groupPermissions) &&
        r == Err(PermissionDoesNotExist(FirstMissing(permissions, ids).value))
      ensures FirstMissing(permissions, ids).None? ==>
        groupPermissions == old(groupPermissions)[gid := Elements(ids)] &&
        r == Ok(NameList(permissions, PermissionName, ids))
    {
      var resolved := Resolve(permissions, PermissionName, ids);
      if resolved.Err? {
        return Err(PermissionDoesNotExist(resolved.error));
      }
      groupPermissions := groupPermissions[gid := {}];
      groupPermissions := groupPermissions[gid := Elements(ids)];
      return Ok(resolved.value);
    }

    /**
     * Creates a user with a hashed password, then, if a non-empty `groups`
     * list is supplied, resolves it and sets the user's groups to it. A
     * group id that does not resolve fails the request after the user has
     * been saved, with no groups.
     */
    method CreateUser(req: UserRequest, makePassword: string -> string, isValid: UserFields -> bool)
      returns (r: Result<UserBody, Error>)
      requires Valid()
      modifies this`users, this`userGroups, this`nextUserId
      ensures Valid()
      // the password key is read before anything is validated or saved
      ensures req.password.None? ==>
        r == Err(MissingPassword) && users == old(users) && userGroups == old(userGroups) &&
        nextUserId == old(nextUserId)
      ensures req.password.Some? && !CreateAccepted(req, makePassword, isValid) ==>
        r == Err(ValidationError) && users == old(users) && userGroups == old(userGroups) &&
        nextUserId == old(nextUserId)
      // the user is saved, with the hash of the raw password, before any group is looked up
      ensures CreateAccepted(req, makePassword, isValid) ==>
        users == old(users)[old(nextUserId) := User(req.username.value, makePassword(req.password.value))] &&
        nextUserId == old(nextUserId) + 1
      ensures CreateAccepted(req, makePassword, isValid) && !Truthy(req.groups) ==>
        userGroups == old(userGroups)[old(nextUserId) := {}] &&
        r == Ok(UserBody(old(nextUserId), req.username.value, makePassword(req.password.value), []))
      ensures CreateAccepted(req, makePassword, isValid) && Truthy(req.groups) &&
              FirstMissing(groups, req.groups.value).Some? ==>
        userGroups == old(userGroups)[old(nextUserId) := {}] &&
        r == Err(GroupDoesNotExist(FirstMissing(groups, req.groups.value).value))
      ensures CreateAccepted(req, makePassword, isValid) && Truthy(req.groups) &&
              FirstMissing(groups, req.groups.value).None? ==>
        userGroups == old(userGroups)[old(nextUserId) := Elements(req.groups.value)] &&
        r == Ok(UserBody(old(nextUserId), req.username.value, makePassword(req.password.value),
                         NameList(groups, GroupName, req.groups.value)))
    {
      if req.password.None? {
        return Err(MissingPassword);
      }
      var fields := UserFields(req.username, Some(makePassword(req.password.value)));
      if !(fields.username.Some? && isValid(fields)) {
        return Err(ValidationError);
      }
      var id := nextUserId;
      var user := User(fields.username.value, fields.password.value);
      InsertBelow(users, id, user);
      users := users[id := user];
      userGroups := userGroups[id := {}];
      nextUserId := nextUserId + 1;
      // a freshly created user belongs to no group yet
      var body := UserBody(id, user.username, user.password, []);
      if Truthy(req.groups) {
        var names := ReplaceUserGroups(id, req.groups.value);
        if names.Err? {
          return Err(names.error);
        }
        body := body.(groups := names.value);
      }
      return Ok(body);
    }

    /**
     * Partially updates user `uid`. A non-empty password is hashed first;
     * the scalar fields are saved; then, if a non-empty `groups` list is
     * supplied and every id resolves, the user's groups are cleared and set
     * to exactly those groups. An id that does not resolve fails the request
     * with the scalar update kept and the groups untouched.
     */
    method UpdateUser(uid: int, req: UserRequest, makePassword: string -> string, isValid: UserFields -> bool)
      returns (r: Result<UserBody, Error>)
      requires Valid()
      modifies this`users, this`userGroups
      ensures Valid()
      ensures uid !in old(users) ==>
        r == Err(NotFound) && users == old(users) && userGroups == old(userGroups)
      ensures uid in old(users) && !isValid(UpdateFields(req, makePassword)) ==>
        r == Err(ValidationError) && users == old(users) && userGroups == old(userGroups)
      // the scalar fields are saved before any group is looked up, so they stay saved on every later failure
      ensures uid in old(users) && isValid(UpdateFields(req, makePassword)) ==>
        users == old(users)[uid := ApplyUserFields(old(users)[uid], UpdateFields(req, makePassword))]
      // an absent or empty `groups` list leaves the memberships alone
      ensures uid in old(users) && isValid(UpdateFields(req, makePassword)) && !Truthy(req.groups) ==>
        userGroups == old(userGroups) && r.Ok? &&
        r.value == UserBody(uid, users[uid].username, users[uid].password, r.value.groups) &&
        ListsNames(r.value.groups, groups, GroupName, userGroups[uid])
      ensures uid in old(users) && isValid(UpdateFields(req, makePassword)) && Truthy(req.groups) &&
              FirstMissing(groups, req.groups.value).Some? ==>
        userGroups == old(userGroups) &&
        r == Err(GroupDoesNotExist(FirstMissing(groups, req.groups.value).value))
      // clear-then-set: the memberships become exactly the listed groups, whatever they were
      ensures uid in old(users) && isValid(UpdateFields(req, makePassword)) && Truthy(req.groups) &&
              FirstMissing(groups, req.groups.value).None? ==>
        userGroups == old(userGroups)[uid := Elements(req.groups.value)] &&
        r == Ok(UserBody(uid, users[uid].username, users[uid].password,
                         NameList(groups, GroupName, req.groups.value)))
      // the stored password changes only when one is supplied, to its hash when it is non-empty
      ensures uid in old(users) && isValid(UpdateFields(req, makePassword)) ==>
        users[uid].password ==
          if req.password.None? then old(users)[uid].password
          else if req.password.value == "" then ""
          else makePassword(req.password.value)
    {
      var fields := UpdateFields(req, makePassword);
      if uid !in users {
        return Err(NotFound);
      }
      if !isValid(fields) {
        return Err(ValidationError);
      }
      users := users[uid := ApplyUserFields(users[uid], fields)];
      var names := GetGroups(uid);
      if Truthy(req.groups) {
        var replaced := ReplaceUserGroups(uid, req.groups.value);
        if replaced.Err? {
          return Err(replaced.error);
        }
        names := replaced.value;
      }
      return Ok(UserBody(uid, users[uid].username, users[uid].password, names));
    }

    /**
     * Whether group creation gets past validation: the name is present,
     * the serializer accepts it, and, when group names are unique, no group
     * carries it yet.
     */
    predicate CreateGroupAccepted(groups: map<int, Group>, req: GroupRequest, isValid: GroupFields -> bool) {
      req.name.Some? && isValid(GroupFields(req.name)) &&
      !(uniqueGroupNames && NameTaken(groups, req.name.value))
    }

    /**
     * Whether an update of group `gid` gets past validation: the serializer
     * accepts the fields, and, when group names are unique, a supplied name
     * is carried by no other group.
     */
    predicate UpdateGroupAccepted(groups: map<int, Group>, gid: int, req: GroupRequest, isValid: GroupFields -> bool) {
      isValid(GroupFields(req.name)) &&
      !(uniqueGroupNames && req.name.Some? && NameTaken(groups - {gid}, req.name.value))
    }

    /**
     * Creates a group, then, if a non-empty `permissions` list is supplied,
     * resolves it against the whole permission table and sets the group's
     * permissions to it. A permission id that does not resolve fails the
     * request after the group has been saved, with no permissions. When
     * group names are unique, a name already in use fails validation.
     */
    method CreateGroup(req: GroupRequest, isValid: GroupFields -> bool)
      returns (r: Result<GroupBody, Error>)
      requires Valid()
      modifies this`groups, this`groupPermissions, this`nextGroupId
      ensures Valid()
      ensures !CreateGroupAccepted(old(groups), req, isValid) ==>
        r == Err(ValidationError) && groups == old(groups) && groupPermissions == old(groupPermissions) &&
        nextGroupId == old(nextGroupId)
      // the group is saved before any permission is looked up
      ensures CreateGroupAccepted(old(groups), req, isValid) ==>
        groups == old(groups)[old(nextGroupId) := Group(req.name.value)] &&
        nextGroupId == old(nextGroupId) + 1
      ensures CreateGroupAccepted(old(groups), req, isValid) && !Truthy(req.permissions) ==>
        groupPermissions == old(groupPermissions)[old(nextGroupId) := {}] &&
        r == Ok(GroupBody(old(nextGroupId), req.name.value, []))
      ensures CreateGroupAccepted(old(groups), req, isValid) && Truthy(req.permissions) &&
              FirstMissing(permissions, req.permissions.value).Some? ==>
        groupPermissions == old(groupPermissions)[old(nextGroupId) := {}] &&
        r == Err(PermissionDoesNotExist(FirstMissing(permissions, req.permissions.value).value))
      ensures CreateGroupAccepted(old(groups), req, isValid) && Truthy(req.permissions) &&
              FirstMissing(permissions, req.permissions.value).None? ==>
        groupPermissions == old(groupPermissions)[old(nextGroupId) := Elements(req.permissions.value)] &&
        r == Ok(GroupBody(old(nextGroupId), req.name.value,
                          NameList(permissions, PermissionName, req.permissions.value)))
    {
      var fields := GroupFields(req.name);
      if !(fields.name.Some? && isValid(fields)) || (uniqueGroupNames && NameTaken(groups, fields.name.value)) {
        return Err(ValidationError);
      }
      var id := nextGroupId;
      InsertBelow(groups, id, Group(fields.name.value));
      groups := groups[id := Group(fields.name.value)];
      groupPermissions := groupPermissions[id := {}];
      nextGroupId := nextGroupId + 1;
      // a freshly created group holds no permission yet
      var body := GroupBody(id, fields.name.value, []);
      if Truthy(req.permissions) {
        var names := ReplaceGroupPermissions(id, req.permissions.value);
        if names.Err? {
          return Err(names.error);
        }
        body := body.(permissions := names.value);
      }
      return Ok(body);
    }

    /**
     * Partially updates group `gid`; then, if a non-empty `permissions` list
     * is supplied and every id resolves, the group's permissions are
     * cleared and set to exactly those permissions. An id that does not
     * resolve fails the request with the name update kept and the
     * permissions untouched. When group names are unique, renaming to a name
     * another group carries fails validation.
     */
    method UpdateGroup(gid: int, req: GroupRequest, isValid: GroupFields -> bool)
      returns (r: Result<GroupBody, Error>)
      requires Valid()
      modifies this`groups, this`groupPermissions
      ensures Valid()
      ensures gid !in old(groups) ==>
        r == Err(NotFound) && groups == old(groups) && groupPermissions == old(groupPermissions)
      ensures gid in old(groups) && !UpdateGroupAccepted(old(groups), gid, req, isValid) ==>
        r == Err(ValidationError) && groups == old(groups) && groupPermissions == old(groupPermissions)
      // the name is saved before any permission is looked up
      ensures gid in old(groups) && UpdateGroupAccepted(old(groups), gid, req, isValid) ==>
        groups == old(groups)[gid := ApplyGroupFields(old(groups)[gid], GroupFields(req.name))]
      // an absent or empty `permissions` list leaves the group's permissions alone
      ensures gid in old(groups) && UpdateGroupAccepted(old(groups), gid, req, isValid) && !Truthy(req.permissions) ==>
        groupPermissions == old(groupPermissions) && r.Ok? &&
        r.value == GroupBody(gid, groups[gid].name, r.value.permissions) &&
        ListsNames(r.value.permissions, permissions, PermissionName, groupPermissions[gid])
      ensures gid in old(groups) && UpdateGroupAccepted(old(groups), gid, req, isValid) && Truthy(req.permissions) &&
              FirstMissing(permissions, req.permissions.value).Some? ==>
        groupPermissions == old(groupPermissions) &&
        r == Err(PermissionDoesNotExist(FirstMissing(permissions, req.permissions.value).value))
      // clear-then-set: the permissions become exactly the listed ones, whatever they were
      ensures gid in old(groups) && UpdateGroupAccepted(old(groups), gid, req, isValid) && Truthy(req.permissions) &&
              FirstMissing(permissions, req.permissions.value).None? ==>
        groupPermissions == old(groupPermissions)[gid := Elements(req.permissions.value)] &&
        r == Ok(GroupBody(gid, groups[gid].name, NameList(permissions, PermissionName, req.permissions.value)))
    {
      if gid !in groups {
        return Err(NotFound);
      }
      var fields := GroupFields(req.name);
      if !isValid(fields) || (uniqueGroupNames && fields.name.Some? && NameTaken(groups - {gid}, fields.name.value)) {
        return Err(ValidationError);
      }
      var before := groups;
      groups := groups[gid := ApplyGroupFields(groups[gid], fields)];
      if uniqueGroupNames {
        forall g, h | g in groups && h in groups && g != h ensures groups[g].name != groups[h].name {
          if fields.name.Some? && (g == gid || h == gid) {
            var other := if g == gid then h else g;
            assert other in before - {gid};
          }
        }
      }
      var names := GetPermissions(gid);
      if Truthy(req.permissions) {
        var replaced := ReplaceGroupPermissions(gid, req.permissions.value);
        if replaced.Err? {
          return Err(replaced.error);
        }
        names := replaced.value;
      }
      return Ok(GroupBody(gid, groups[gid].name, names));
    }

    /**
     * Creates a project at clock reading `now`, then a group with the
     * project's name and no permissions. When group names must be unique
     * and the name is taken, the group insert fails and the project stays
     * saved.
     */
    method CreateProject(req: ProjectRequest, now: nat) returns (r: Result<ProjectBody, Error>)
      requires Valid()
      modifies this`projects, this`nextProjectId, this`groups, this`groupPermissions, this`nextGroupId
      ensures Valid()
      ensures !ValidateProject(req).Ok? ==>
        r == Err(ValidationError) && projects == old(projects) && groups == old(groups) &&
        groupPermissions == old(groupPermissions) &&
        nextProjectId == old(nextProjectId) && nextGroupId == old(nextGroupId)
      // the project is saved, created and updated at `now`, before the group is inserted
      ensures ValidateProject(req).Ok? ==>
        projects == old(projects)[old(nextProjectId) := Models.Create(req.name.value, now)] &&
        nextProjectId == old(nextProjectId) + 1
      ensures ValidateProject(req).Ok? && uniqueGroupNames && NameTaken(old(groups), req.name.value) ==>
        r == Err(IntegrityError) && groups == old(groups) &&
        groupPermissions == old(groupPermissions) && nextGroupId == old(nextGroupId)
      // exactly one new group, named after the project, holding no permission
      ensures ValidateProject(req).Ok? && !(uniqueGroupNames && NameTaken(old(groups), req.name.value)) ==>
        groups == old(groups)[old(nextGroupId) := Group(req.name.value)] &&
        groupPermissions == old(groupPermissions)[old(nextGroupId) := {}] &&
        nextGroupId == old(nextGroupId) + 1 &&
        r == Ok(ProjectBody(old(nextProjectId), Models.Create(req.name.value, now)))
      ensures uniqueGroupNames && r.Ok? ==>
        forall g :: g in groups && groups[g].name == req.name.value ==> g == old(nextGroupId)
    {
      var name := ValidateProject(req);
      if name.Err? {
        return Err(name.error);
      }
      var pid := nextProjectId;
      var project := Models.Create(name.value, now);
      InsertBelow(projects, pid, project);
      projects := projects[pid := project];
      nextProjectId := nextProjectId + 1;
      if uniqueGroupNames && NameTaken(groups, project.name) {
        return Err(IntegrityError);
      }
      var gid := nextGroupId;
      InsertBelow(groups, gid, Group(project.name));
      groups := groups[gid := Group(project.name)];
      groupPermissions := groupPermissions[gid := {}];
      nextGroupId := nextGroupId + 1;
      return Ok(ProjectBody(pid, project));
    }
  }
}
