/**
 * The data of the role-administration module: role records, the role table
 * with its per-role count of assigned users, request payloads, audit entries
 * and the response envelope that every controller action returns.
 */
module RoleModel {

  /** Auto-increment primary key of the `roles` table. It also stands for
      `created_at`: ids are handed out in creation order. */
  type RoleId = nat

  /** The protected system role. */
  const Protected: string := "admin_si"

  /** The `max:255` bound the validator puts on `name` and `display_name`. */
  const MaxLength: nat := 255

  /** Value of `is_active` when a create request does not carry it
      (the column default of the `roles` table). */
  const DefaultActive: bool := true

  datatype Option<+T> = None | Some(value: T)

  /** One field of a request body: missing, sent as null, or sent with a value. */
  datatype Field<+T> = Absent | Null | Given(value: T)

  datatype Role = Role(
    name: string,
    displayName: string,
    description: Option<string>,
    permissions: Option<seq<string>>,
    isActive: bool)

  /** The persisted state: role rows, the number of users referencing each
      role (what `withCount('users')` and `canBeDeleted()` look at) and the
      next id the table will hand out. */
  datatype Table = Table(
    roles: map<RoleId, Role>,
    userCounts: map<RoleId, nat>,
    nextId: RoleId)

  /** The unique index on `roles.name`. */
  ghost predicate NamesUnique(roles: map<RoleId, Role>) {
    forall a, b :: a in roles && b in roles && a != b ==> roles[a].name != roles[b].name
  }

  /** What the database guarantees of the table at all times. */
  ghost predicate Consistent(t: Table) {
    && t.roles.Keys == t.userCounts.Keys
    && (forall id :: id in t.roles ==> id < t.nextId)
    && NamesUnique(t.roles)
  }

  /** Body of `store` and `update`; only the five fillable attributes. */
  datatype Input = Input(
    name: Field<string>,
    displayName: Field<string>,
    description: Field<string>,
    permissions: Field<seq<string>>,
    isActive: Field<bool>)

  /** Query string of `index`. */
  datatype Filter = Filter(isActive: Field<bool>, search: Field<string>)

  datatype Action = RoleCreated | RoleUpdated | RoleDeleted | RoleStatusChanged

  /** What an audit entry records of a role: the whole row, or only its status. */
  datatype Snapshot = Full(id: RoleId, role: Role) | Status(isActive: bool)

  datatype AuditEntry = AuditEntry(
    action: Action,
    roleId: RoleId,
    before: Option<Snapshot>,
    after: Option<Snapshot>)

  /** Validation failures, one per failed rule. */
  datatype Violation =
    | NameRequired | NameTooLong | NameTaken
    | DisplayNameRequired | DisplayNameTooLong
    | IsActiveNotBoolean

  datatype Message =
    | NoMessage
    | NotFound
    | ValidationError(errors: set<Violation>)
    | CreatedOk
    | UpdatedOk
    | DeletedOk
    | Activated
    | Deactivated
    | CannotRenameProtected
    | CannotDeleteProtected
    | CannotDeactivateProtected
    | InUse
    | InternalError

  /** A role as `index` and `show` return it, with its `users_count`. */
  datatype Listed = Listed(id: RoleId, role: Role, usersCount: nat)

  datatype Payload =
    | NoData
    | One(id: RoleId, role: Role)
    | Counted(item: Listed)
    | Many(items: seq<Listed>)
    | Labels(catalogue: seq<(string, string)>)

  /** The JSON envelope, reduced to its status code, message and data. */
  datatype Response = Response(status: int, message: Message, data: Payload)

  /** What one controller action does: the table afterwards, the audit
      entries it appends, and its response. */
  datatype Outcome = Outcome(table: Table, entries: seq<AuditEntry>, response: Response)

  /** The characters PHP's `trim` removes. */
  predicate IsTrimmed(c: char) {
    c == ' ' || c == '\t' || c == '\n' || c == '\r' || c == '\0' || c == '\U{B}'
  }

  /** A string the `required` rule rejects once trimmed. */
  predicate IsBlank(s: string) {
    forall i :: 0 <= i < |s| ==> IsTrimmed(s[i])
  }

  /** `needle` occurs in `s` as a contiguous substring. */
  predicate Contains(s: string, needle: string)
    decreases |s|
  {
    needle <= s || (|s| > 0 && Contains(s[1..], needle))
  }

  /** `needle` occurs in `s` at some position: what `LIKE '%needle%'` asks. */
  ghost predicate OccursIn(s: string, needle: string) {
    exists i :: 0 <= i <= |s| - |needle| && needle <= s[i..]
  }

  lemma {:induction false} ContainsAt(s: string, needle: string)
    ensures Contains(s, needle) <==> OccursIn(s, needle)
    decreases |s|
  {
    assert s[0..] == s;
    if |s| > 0 {
      ContainsAt(s[1..], needle);
      forall i | 1 <= i <= |s| ensures s[1..][i - 1..] == s[i..] {}
      if Contains(s[1..], needle) {
        var i :| 0 <= i <= |s| - 1 - |needle| && needle <= s[1..][i..];
        assert needle <= s[i + 1..];
      }
    }
  }
}
