# Role administration: a Dafny model

This project models the role administration of the SA-Management back end:
the `RoleController` API actions (`index`, `show`, `store`, `update`, `destroy`,
`toggleStatus`, `getAvailablePermissions`) and the `RoleSeeder` that installs
the three default roles `admin_si`, `gestionnaire` and `consultant`.

The model's state has four parts:
- the `roles` table, a map from id to role row;
- the number of users assigned to each role, which is what `withCount('users')` and `canBeDeleted()` read;
- the auto-increment counter;
- the append-only audit log.

Module by module:

- `RoleModel` (role_model.dfy) holds the data:
  - `Role`, `Table`, and the request body `Input`, whose fields are `Absent`, `Null` or `Given`;
  - audit entries and the response envelope, reduced to a status code, a message tag and the data.
  - `Consistent` is what the database guarantees: one user count per row, ids below the counter, and unique names.
- `RoleActions` (role_actions.dfy) gives each mutating action as a function. It maps a table to an `Outcome`: the new table, the audit entries appended, and the response. It also holds the Laravel validation rules as `Violations`, and the lemmas that state what the actions promise.
- `RoleQueries` (role_queries.dfy) holds `index` and `show`.
- `Permissions` (permissions.dfy) holds the 14-entry permission catalogue.
- `Backend` (role_store.dfy) has the class `RoleStore`. Its methods update the fields in place, and each is proved to agree with the matching function.
- `RoleTable` (role_table.dfy) holds `updateOrCreate`, keyed on the role name.
- `RoleSeeder` (role_seeder.dfy) holds the seeder's loop and its lemmas: idempotence, seeded fields, and other rows untouched.

In these places the model follows the code's actual behaviour:
- `update`, `destroy` and `toggleStatus` call `findOrFail` inside a catch-all, so an unknown id answers 500, not 404. Only `show` answers 404.
- `update`'s guard looks only at the name. A body that keeps the name `admin_si` can set `is_active` to false on the protected role (`UpdateCanDeactivateProtected`), although `toggleStatus` refuses to do so.
- The route `/roles/active` does not filter: its `where('is_active', 1)` constrains a route parameter. `index` filters only when the request carries `is_active`.

## Model

| member | source | states |
|---|---|---|
| RoleModel.ContainsAt | backend/app/Http/Controllers/Api/Rolecontroller.php:29-31 | The recursive substring test used for `LIKE '%term%'` holds exactly when the term occurs at some position of the text |
| RoleTable.FindByName | backend/database/seeders/Roleseeder.php:56-57 | The lookup by name returns an id below the bound whose row has that name, or none exists below the bound |
| RoleTable.Lookup | backend/database/seeders/Roleseeder.php:56-57 | In a consistent table the lookup finds a row iff some row has the name, and then it is the only such row |
| RoleTable.Upsert | backend/database/seeders/Roleseeder.php:56-59 | `updateOrCreate` keeps the table consistent and never removes a row or changes a user count; rows with other names are unchanged; a row holding the name keeps its id and becomes the role; afterwards the role is in the table and is the only row with its name; a new row has no users |
| RoleActions.Admissible | backend/app/Http/Controllers/Api/Rolecontroller.php:124-131 | An admissible body fills the required name and display name, and no row other than the ignored one holds the name |
| RoleActions.Violations | backend/app/Http/Controllers/Api/Rolecontroller.php:78-89 | No rule fails iff the body is admissible; `NameRequired` iff the name is missing, null or blank; `NameTooLong` iff a filled name exceeds 255 chars; `NameTaken` iff a filled name is held by another row (the URL id excepted in `update`); `DisplayNameRequired` and `DisplayNameTooLong` likewise for the display name; `IsActiveNotBoolean` iff `is_active` is null; a failed `required` suppresses the name's other rules |
| RoleActions.Patched | backend/app/Http/Controllers/Api/Rolecontroller.php:153 | Mass assignment sets name and display name; description and permissions become the sent value, become null when null is sent, and are kept when not sent; `is_active` changes only when sent |
| RoleActions.NewRole | backend/app/Http/Controllers/Api/Rolecontroller.php:100 | A created row has the sent name and display name, the sent description and permissions or null, and the sent `is_active` or `true` |
| RoleActions.StoreStep | backend/app/Http/Controllers/Api/Rolecontroller.php:76-117 | `store` keeps the table consistent, answers 201 exactly when the body is admissible, and otherwise writes nothing |
| RoleActions.UpdateStep | backend/app/Http/Controllers/Api/Rolecontroller.php:122-170 | `update` keeps the table consistent, answers 200 exactly when the body is admissible, the id exists and the protected role keeps its name, otherwise writes nothing, and never changes user counts or the counter |
| RoleActions.DestroyStep | backend/app/Http/Controllers/Api/Rolecontroller.php:175-212 | `destroy` keeps the table consistent, answers 200 exactly when the id exists, is not `admin_si` and has no users, and otherwise writes nothing |
| RoleActions.ToggleStep | backend/app/Http/Controllers/Api/Rolecontroller.php:217-255 | `toggleStatus` keeps the table consistent and its ids, answers 200 exactly when the id exists and is not the active `admin_si`, and otherwise writes nothing |
| RoleActions.StoreAddsOneRole | backend/app/Http/Controllers/Api/Rolecontroller.php:99-108 | A successful `store` answers 201 with the new row, adds exactly one row under a previously unused id with the submitted fields and no users, leaves every other user count alone, advances the counter by one, and logs one `role_created` entry with no `before` and the new row as `after` |
| RoleActions.StoreSameNameTwice | backend/app/Http/Controllers/Api/Rolecontroller.php:79 | After a successful create, a second create with the same name, whatever its other fields, is answered 422 with `NameTaken`, leaving the table as the first left it and logging nothing |
| RoleActions.ValidationFailureWritesNothing | backend/app/Http/Controllers/Api/Rolecontroller.php:91-97 | A body that fails validation is answered 422 with its failed rules, before the id is looked up in `update`, with the table unchanged and nothing logged |
| RoleActions.UpdateMayKeepOwnName | backend/app/Http/Controllers/Api/Rolecontroller.php:125 | The uniqueness rule of `update` ignores the row being updated, so resubmitting its own name is not a violation |
| RoleActions.UpdateCannotRenameProtected | backend/app/Http/Controllers/Api/Rolecontroller.php:144-150 | Renaming `admin_si` is answered 403 with nothing written |
| RoleActions.UpdateCanDeactivateProtected | backend/app/Http/Controllers/Api/Rolecontroller.php:145-155 | The guard inspects only the name: an update of `admin_si` that keeps the name and sends `is_active = false` succeeds and deactivates it |
| RoleActions.UpdateLogsBeforeAndAfter | backend/app/Http/Controllers/Api/Rolecontroller.php:152-161 | A successful update changes only that row, to the body applied over it, logs one `role_updated` entry with the old and the new row, and answers 200 with the updated row |
| RoleActions.DestroyGuards | backend/app/Http/Controllers/Api/Rolecontroller.php:180-194 | `destroy` checks the protected name first (403) and the assigned users second (400); both leave the table and the log unchanged |
| RoleActions.DestroyRemovesOnlyThatRole | backend/app/Http/Controllers/Api/Rolecontroller.php:196-203 | A successful `destroy` logs one `role_deleted` entry with the whole old row and no `after`, removes the id and its user count, and leaves every other row, every other user count and the counter unchanged |
| RoleActions.ToggleFlips | backend/app/Http/Controllers/Api/Rolecontroller.php:230-246 | A successful toggle negates `is_active`, changes no other field, no other row, no user count and not the counter, logs `{is_active: old}` / `{is_active: new}` words its message after the new status, and answers with the updated row |
| RoleActions.ToggleKeepsProtectedActive | backend/app/Http/Controllers/Api/Rolecontroller.php:222-228 | Toggling the active `admin_si` is answered 403 with nothing written |
| RoleActions.ToggleTwiceRestores | backend/app/Http/Controllers/Api/Rolecontroller.php:230-233 | Two successful toggles of the same role give back the original table |
| RoleActions.ToggleTwiceOrdinary | backend/app/Http/Controllers/Api/Rolecontroller.php:223-233 | On a role other than `admin_si` both toggles of a pair succeed and restore the table |
| RoleActions.UnknownIdIsInternalError | backend/app/Http/Controllers/Api/Rolecontroller.php:205-211 | For an id that is not in the table, `destroy`, `toggleStatus` and a validated `update` answer 500 and write nothing |
| RoleActions.ProtectedRoleSurvives | backend/app/Http/Controllers/Api/Rolecontroller.php:180-186 | No action removes or renames a row named `admin_si`; `store` and `destroy` leave it as it was; `toggleStatus` never turns it off; only an `update` sending `is_active = false` does |
| RoleQueries.SearchTerm | backend/app/Http/Controllers/Api/Rolecontroller.php:27-29 | The searched term is the sent value; a null search becomes the empty term, which every text contains |
| RoleQueries.Matches | backend/app/Http/Controllers/Api/Rolecontroller.php:22-33 | A row passes iff `is_active` is not sent as null, equals the sent `is_active` when one is sent, and, when a search is sent, the term occurs at some position of the name, the display name or the non-null description |
| RoleQueries.Listing | backend/app/Http/Controllers/Api/Rolecontroller.php:19-35 | The listing holds exactly the matching rows below the bound, each with its row and user count, in strictly decreasing id order |
| RoleQueries.Index | backend/app/Http/Controllers/Api/Rolecontroller.php:16-40 | `index` answers 200 with exactly the rows that pass the `is_active` and search filters, each with its `users_count`, newest first |
| RoleQueries.Show | backend/app/Http/Controllers/Api/Rolecontroller.php:54-70 | `show` answers 200 with the row and its `users_count` iff the id exists, otherwise 404 |
| RoleQueries.StoredRoleIsShown | backend/app/Http/Controllers/Api/Rolecontroller.php:57 | After a successful `store`, `show` of the new id returns the submitted fields with `users_count` 0 |
| RoleQueries.DestroyedRoleIsNotFound | backend/app/Http/Controllers/Api/Rolecontroller.php:198 | After a successful `destroy`, `show` of that id answers 404 |
| RoleQueries.IndexWithoutFiltersListsAll | backend/app/Http/Controllers/Api/Rolecontroller.php:22-26 | Without `is_active` and `search`, `index` lists every role |
| Permissions.GetAvailablePermissions | backend/app/Http/Controllers/Api/Rolecontroller.php:260-283 | The catalogue is answered with 200; it has 14 entries with pairwise distinct keys, and its keys are exactly the permission keys |
| Backend.RoleStore.Store | backend/app/Http/Controllers/Api/Rolecontroller.php:76-117 | Keeps the store valid; the new table, the appended log entries and the response are those of `StoreStep` |
| Backend.RoleStore.Update | backend/app/Http/Controllers/Api/Rolecontroller.php:122-170 | Keeps the store valid; new table, appended entries and response are those of `UpdateStep` |
| Backend.RoleStore.Destroy | backend/app/Http/Controllers/Api/Rolecontroller.php:175-212 | Keeps the store valid; the new table, the appended log entries and the response are those of `DestroyStep` |
| Backend.RoleStore.ToggleStatus | backend/app/Http/Controllers/Api/Rolecontroller.php:217-255 | Keeps the store valid; the result is that of `ToggleStep` |
| Backend.RoleStore.UpdateOrCreate | backend/database/seeders/Roleseeder.php:56-59 | Keeps the store valid, leaves the log alone, and the new table is `Upsert` of the old |
| RoleSeeder.Seeds | backend/database/seeders/Roleseeder.php:15-53 | The seed list has three roles with distinct names, `admin_si` first, each active with a description and a permission list |
| RoleSeeder.UpsertAll | backend/database/seeders/Roleseeder.php:55-60 | Upserting a list of roles keeps the table consistent and never removes a row |
| RoleSeeder.SeedFor | backend/database/seeders/Roleseeder.php:55-60 | The winning seed for a name is a seed with that name, and there is none only when no seed has the name |
| RoleSeeder.SeedForIsLast | backend/database/seeders/Roleseeder.php:55-60 | The winning seed is the last seed with that name: no later seed carries it, so later upserts of a name overwrite earlier ones |
| RoleSeeder.UpsertAllKeepsCounts | backend/database/seeders/Roleseeder.php:55-60 | Upserting a list of roles never changes the user count of a row that was already there |
| RoleSeeder.UpsertAllOldRows | backend/database/seeders/Roleseeder.php:55-60 | A row that was already there ends up holding the last seed of its name, or stays as it was when no seed has its name |
| RoleSeeder.UpsertAllNewRows | backend/database/seeders/Roleseeder.php:55-60 | A row the upserts added has no users and holds the last seed of its name |
| RoleSeeder.UpsertKeepsInstalled | backend/database/seeders/Roleseeder.php:56-59 | `updateOrCreate` of one role leaves every row of another name as it was |
| RoleSeeder.UpsertAllWinners | backend/database/seeders/Roleseeder.php:55-60 | After the upserts, the last seed of every name is a row of the table |
| RoleSeeder.UpsertAllEffect | backend/database/seeders/Roleseeder.php:55-60 | After the loop, each existing row keeps its id and user count and holds the last seed of its name, or its old value if no seed has the name; a new row holds the last seed of its name and has no users; the last seed of every name is in the table |
| RoleSeeder.UpsertInstalled | backend/database/seeders/Roleseeder.php:56-59 | Upserting a role the table already holds changes nothing |
| RoleSeeder.UpsertAllInstalled | backend/database/seeders/Roleseeder.php:55-60 | Upserting roles the table already holds changes nothing |
| RoleSeeder.UpsertAllIdempotent | backend/database/seeders/Roleseeder.php:55-60 | Upserting distinctly named roles twice leaves the same table as upserting them once |
| RoleSeeder.UpsertEach | backend/database/seeders/Roleseeder.php:55-60 | The `foreach` loop leaves the table `UpsertAll` of the old one and writes no audit entry |
| RoleSeeder.Run | backend/database/seeders/Roleseeder.php:13-61 | `run` leaves the table `UpsertAll` of the old one over the three default roles and writes no audit entry |
| RoleSeeder.DefaultRolesSeeded | backend/database/seeders/Roleseeder.php:15-53 | After seeding, `admin_si`, `gestionnaire` and `consultant` are each in the table with exactly the seeded display name, description, permissions and `is_active = true`, and each is the only row with its name |
| RoleSeeder.SeedingKeepsOtherRoles | backend/database/seeders/Roleseeder.php:55-60 | Seeding keeps every existing id and its user count, and leaves rows whose names are not seeded as they were |
| RoleSeeder.SeedingIdempotent | backend/database/seeders/Roleseeder.php:55-60 | Running the seeder twice leaves the same table as running it once |
| RoleSeeder.SeededKeys | backend/database/seeders/Roleseeder.php:20-49 | Every permission granted by the seeder is in the permission key set |
| RoleSeeder.SeededPermissionsCatalogued | backend/database/seeders/Roleseeder.php:20-49 | Every permission granted by the seeder is the key of some entry that `getAvailablePermissions` answers |

## Left out

- HTTP routing, the `auth:sanctum` and `admin` middleware, and the JSON encoding. The envelope is reduced to a status code, a message tag and the data. The French message texts are replaced by tags, and the exception text echoed by the 500 responses is left out.
- The ORM and the database.
  - The persistence step of `store`, and the audit write of every action, cannot fail in the model. The 500 answers that such failures would produce are left out; only the unknown-id 500s are modelled.
  - The persistence steps of `update` (`$role->update`), `toggleStatus` (`$role->update`) and `destroy` (`$role->delete()`) cannot fail either. In the source such a failure is answered 500 by the catch-all. For `destroy` the `role_deleted` entry is already written at that point, so the log would hold an entry for a row that still exists; the model does not capture that state.
  - A role row is only ever what the controller or the seeder wrote.
- The `Role` and `AuditLog` classes are not part of this model.
  - `canBeDeleted()` is taken to mean "no user is assigned to the role".
  - `AuditLog::createLog` is taken to be an append to a sequence.
  - Snapshots are the whole row. Eloquent's `toArray()` after `create` would omit attributes filled by column defaults, and would include timestamps.
  - The column defaults on `create` are assumed: null description, null permissions and `is_active = true`.
  - Mass assignment is assumed to accept exactly the five attributes `name`, `display_name`, `description`, `permissions` and `is_active`.
- Request values are typed. The `string`, `array` and `boolean` rules can therefore fail only for a null `is_active`. String forms of booleans, such as `"1"` or `"true"`, are not modelled.
- SQL `LIKE` semantics.
  - The search is modelled as a plain, case-sensitive substring match. The database collation, which decides case sensitivity, is not modelled.
  - `%` and `_` inside the search term are not treated as wildcards.
  - The unique-name check and the name lookup compare names exactly.
- Timestamps. `created_at` is represented by the auto-increment id, so "newest first" is "highest id first", and `updated_at` is not modelled. Rows created within the same second have equal timestamps, and `orderBy('created_at', 'desc')` leaves their order unspecified. The model fixes a strict id order for them.
- Concurrent requests racing on the unique name. The model is sequential, and the unique index is part of `Consistent`.
- RoleQueries.Index: does not model a database error answered with 500, since the model's table cannot fail.
