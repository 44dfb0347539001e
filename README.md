# Permission assignment graph of a role-based access control backend

This project models the core of a small role-based access control (RBAC)
management backend. Administrators manage four kinds of records:

- Users, each with a username and a password. The create and update
  handlers hash a supplied non-empty password before saving it.
- Groups, which act as roles.
- Permissions, each a (codename, label) pair for one controllable action.
- Projects.

Two associations link them: a user belongs to groups, and a group holds
permissions. The model covers how the request handlers change that graph:

- creating and updating users and groups, including replacing their
  associations;
- creating a project, which also creates a group with the project's name;
- the listings, which are ordered by descending id.

It also models the declarative Project record and the fixed permission catalog.

Files:

- `wrappers.dfy`: `Option` and `Result`.
- `models.dfy` (module `Models`, pure): the Project record and its name rule
  (present, not blank, at most 128 characters). `Create` and `Save` give the
  field and timestamp rules. The first save sets both times to the clock.
  A later save writes the name and creation time the request assigns, keeps
  the rest, and sets the update time to the clock. Also the eight-entry
  permission catalog.
- `views.dfy` (module `Views`, imperative): class `Store` holds
  - the user, group, permission and project tables (maps keyed by
    autoincrement id);
  - the two associations, user id → set of group ids and group id → set of
    permission ids;
  - one id counter per table.

  `Store.Valid()` is the store invariant:
  - every id is below its table's counter;
  - associations only link rows that exist;
  - every stored project has a valid name;
  - when group names are unique, no two groups share a name.

  Each handler is a method with a `modifies` frame over exactly the fields
  it changes. Its postconditions give the new state and the response for
  every outcome: success, validation error, unknown id, and failed lookup.
  Looking up ids (`Resolve`), turning a set of associated rows into names
  (`NamesOfSet`) and the handlers themselves are loops or state changes in
  the source. They are methods proved against the functions `FirstMissing`,
  `NameList` and `Descending`.
- `scenarios.dfy` (module `Scenarios`): client methods. They derive concrete
  outcomes from the handler contracts alone:
  - an update replaces the memberships;
  - an empty list changes nothing;
  - a failed lookup keeps the scalar update;
  - the project bootstrap, including its failure when group names are unique;
  - a group given catalog permission 4 lists its label.

External collaborators are parameters:

- The password hash is a parameter `makePassword: string -> string` of each
  user handler. A salted hash differs between calls, so it is given per call.
- The serializer's field validation for users and groups is an abstract
  predicate `isValid`. The required-field checks the code relies on are
  concrete.
- The clock is a natural-number reading `now`.
- Whether group names are unique is a constructor flag, `uniqueGroupNames`.
  When set, the group serializer rejects a name another group carries
  (creation and rename alike), and the direct group insert of project
  creation fails with an integrity error.

The code decides these edge cases as follows:

- An explicit empty `groups` / `permissions` list does NOT clear the
  association. The guard is a truthiness test, so an empty list is the same as
  an absent field (permission/views.py:94, 146).
- An unresolvable association id fails with the row type's `DoesNotExist`
  (`GroupDoesNotExist`, `PermissionDoesNotExist`, carrying the first such id
  in request order). This is distinct from the `NotFound` that an unknown
  entity id gives (permission/views.py:98, 150 against 87, 139).
- Permission ids in a group request are resolved against the whole permission
  table, not only the content type 8 that the listing shows
  (permission/views.py:123, 150 against 161).
- On update, a password that is present but empty is not hashed. It reaches
  the serializer as "" (permission/views.py:85-86). The abstract validator
  decides whether it is accepted, and if it is accepted, "" is stored.
- The project serializer declares `create_time` and `update_time` as plain
  date-time fields, so both must be present in a create request
  (permission/views.py:45-46). The values sent are then replaced by the clock
  when the row is first saved (permission/models.py:9-10).

## Model

| member | source | states |
|---|---|---|
| `Views.Store.CreateUser` | permission/views.py:58-76 | A missing password key fails before anything is saved. Otherwise the serializer sees the hash of the raw password (hashed unconditionally). An accepted user is saved under the next id with that hash and no groups, before any group is looked up. A non-empty `groups` list whose ids all resolve sets the memberships to exactly those groups, and the response lists their names in request order. A non-resolving id fails with that id and leaves the user saved with no groups. An absent or empty list leaves the user with no groups. |
| `Views.Store.UpdateUser` | permission/views.py:84-106 | An unknown id gives NotFound. A rejected request changes nothing. Otherwise the scalar fields are saved first. With an absent or empty `groups` list the memberships are untouched and the response lists the current group names. With a list whose ids all resolve, the memberships become exactly those groups, whatever they were before, and the response lists the names in request order with repeats. If some id does not resolve, the request fails with the first such id, the memberships are unchanged and the scalar update stays. The password is replaced by `makePassword(raw)` only for a non-empty raw value, and is left as it was when absent. |
| `Views.Store.CreateGroup` | permission/views.py:114-129 | A missing or rejected name, or with unique names one already in use, fails validation with nothing saved. Otherwise the group is saved under the next id with no permissions before any permission is looked up. Then the same three outcomes as user creation apply to the group's permissions, resolved against the whole permission table. |
| `Views.Store.UpdateGroup` | permission/views.py:137-156 | NotFound as for users. A rejected request, or with unique names a new name another group carries, fails validation and changes nothing. The name is saved first. Then the permissions are handled clear-then-set: untouched when the list is absent or empty, exactly the listed permissions when every id resolves (names in request order), unchanged with the first bad id reported otherwise. |
| `Views.Store.CreateProject` | permission/views.py:176-183 | A rejected request changes nothing. An accepted project is saved under the next id with both timestamps equal to `now`. Then exactly one new group is added: it has the project's name and no permissions, and no other group or association changes. When group names are unique and the name is taken, the request fails with IntegrityError and the project stays stored. On success with unique names, the new group is the only group with that name. |
| `Views.Store.ReplaceUserGroups` | permission/views.py:96-105 | All ids are looked up before the clear. If one fails, the memberships are unchanged and the first missing id is reported. Otherwise the memberships become the set of listed ids and the names come back in request order. |
| `Views.Store.ReplaceGroupPermissions` | permission/views.py:148-155 | The same lookup-then-clear-then-set rule for a group's permissions. |
| `Views.Resolve` | permission/views.py:97-100 | The loop looks ids up in request order. It fails with exactly `FirstMissing` when some id has no row, and otherwise returns `NameList`: one name per id, in order. |
| `Views.FirstMissing` | permission/views.py:97-98 | None iff every id resolves. Otherwise it is an id with no row, and every id before it resolves. |
| `Views.NameList` | permission/views.py:95-100 | One name per requested id, in request order: entry i is the name of the row of id i. |
| `Views.ElementsCount` | permission/views.py:99-105 | The stored association is the deduplicated set. It has at most as many members as the request list has entries, and exactly as many iff no id repeats. |
| `Views.NamesOfSet` | permission/views.py:17-19 | The collecting loop returns one name per associated row, in some order: a witness ordering exists that lists each associated id once. |
| `Views.Store.GetGroups` | permission/views.py:16-20 | The names of exactly the groups the user belongs to, one per group, in no promised order. |
| `Views.Store.GetPermissions` | permission/views.py:30-34 | The names of exactly the permissions the group holds, one per permission. The order is left open (see "Left out"). |
| `Views.Descending` | permission/views.py:55 | Strictly descending, and containing exactly the keys between 1 and the bound. |
| `Views.Store.ListUsers` | permission/views.py:81 | Every user id, each once, in strictly descending order. |
| `Views.Store.ListGroups` | permission/views.py:111 | Every group id, each once, in strictly descending order. |
| `Views.Store.ListPermissions` | permission/views.py:161 | Exactly the permissions whose content type is 8, and no other, in strictly descending id order. |
| `Views.Store.ListProjects` | permission/views.py:173 | Every project id, each once, in strictly descending order. |
| `Views.ValidateProject` | permission/models.py:8 | A project request is accepted iff its name is present, non-empty and at most 128 characters and both timestamp fields are present. The accepted name is the requested one. Every rejection is a ValidationError. |
| `Views.CatalogRows` | permission/models.py:16-26 | The catalog as permission rows: one row per catalog entry with its codename and label, under content type 8. |
| `Models.LaterSaves` | permission/models.py:8-10 | After any series of later saves through the project serializer, the update time is the last save's clock reading. The name and the creation time are those the last save assigning them supplied. They are the original values when no save assigned them. |
| `Models.CreatedNotAfterUpdated` | permission/models.py:9-10 | With a clock that never goes backwards, and no save assigning a creation time later than its own clock reading, a created-then-saved project's creation time never exceeds its update time. |
| `Models.CatalogCodenamesDistinct` | permission/models.py:16-26 | The catalog has exactly eight entries with pairwise distinct codenames. |
| `Models.CatalogCoversActions` | permission/models.py:17-24 | For each of `test_case` and `env_config`, the catalog holds create, edit, delete and view, in that order. |

## Left out

- Retrieve and delete of every entity, create and update of permissions,
  and update of projects are the framework's generic views. They are not
  part of the shown handlers, so their behaviour, including cascades on
  delete, is not modelled as store operations. The store's constructor seeds
  the permission table instead. The field rule of a project update is
  modelled as `Models.Save`.
- PATCH on users and groups is the framework's stock partial update, not the
  overridden `put`. It would save a supplied password without hashing it and
  ignore `groups` / `permissions`. It is not modelled.
- Serializer mechanics are not modelled: response headers, status codes,
  caching of the serialized data, whitespace trimming of text fields and
  field-level error messages. User and group validation is an abstract
  predicate, and every rejection is a single `ValidationError`.
- User fields other than username and password (email, flags, dates) are not
  modelled.
- The internals of `make_password` and verifying a password against its hash
  are not modelled. The hash is an opaque function parameter.
- Date-time values and their text format are not modelled. Timestamps are
  natural-number clock readings.
- Transactions, row locking and concurrent requests are not modelled. Each
  handler runs to completion, with saves, lookups, clear and set in source
  order.
- Requests whose `groups` / `permissions` value is not a list of integers
  (Python type errors) are not modelled. The request types rule them out.
- `Views.Store.GetPermissions`: the related-permission query returns rows in
  the permission table's default ordering (content type, then codename). The
  model has no content-type labels and does not promise that order.
- `Models.CreatedNotAfterUpdated`: a project update may assign any creation
  time (permission/views.py:45). One later than the save's own clock reading
  leaves the project updated before it was created
  (`Models.AssignedFutureCreateTime`), so the lemma requires that no save
  does so, and the store invariant does not promise the ordering.
- `Views.Store.GetGroups`: the source query has no ordering. The model
  collects rows by walking ids, but its contract, like the source, promises
  no order.
- The two-entry catalog of permission/migrations/0002_permissionlist.py is
  superseded by the eight-entry catalog in permission/models.py and is not
  modelled.
