/**
 * The four mutating actions of the role controller (`store`, `update`,
 * `destroy`, `toggleStatus`) as functions from the table to an Outcome:
 * the table afterwards, the audit entries appended, and the response.
 * The class in role_store.dfy performs them in place and is proved to
 * agree with these functions; the lemmas here state what the actions promise.
 */
module RoleActions {
  import opened RoleModel

  // ---------------------------------------------------------------------
  // Validation
  // ---------------------------------------------------------------------

  /** The `required` rule on a string field: sent, not null, not blank. */
  predicate Filled(f: Field<string>) {
    f.Given? && !IsBlank(f.value)
  }

  /** The `unique:roles,name[,ignore]` rule: some other row holds the name. */
  predicate NameTakenBy(roles: map<RoleId, Role>, name: string, ignore: Option<RoleId>) {
    exists id :: id in roles && Some(id) != ignore && roles[id].name == name
  }

  /** The requirements on a request body, stated field by field. */
  ghost predicate Admissible(input: Input, roles: map<RoleId, Role>, ignore: Option<RoleId>)
    ensures Admissible(input, roles, ignore) ==>
      Filled(input.name) && Filled(input.displayName) && !NameTakenBy(roles, input.name.value, ignore)
  {
    && input.name.Given? && !IsBlank(input.name.value) && |input.name.value| <= MaxLength
    && (forall id :: id in roles && Some(id) != ignore ==> roles[id].name != input.name.value)
    && input.displayName.Given? && !IsBlank(input.displayName.value)
    && |input.displayName.value| <= MaxLength
    && !input.isActive.Null?
  }

  /** The failed rules of the validator for `store` (ignore = None) and
      `update` (ignore = the id in the URL). A failed `required` stops the
      remaining rules of that attribute; the other rules are all reported. */
  function Violations(input: Input, roles: map<RoleId, Role>, ignore: Option<RoleId>): (r: set<Violation>)
    ensures r == {} <==> Admissible(input, roles, ignore)
    ensures NameRequired in r <==> !Filled(input.name)
    ensures NameTaken in r <==> Filled(input.name) && NameTakenBy(roles, input.name.value, ignore)
    ensures NameRequired in r ==> NameTooLong !in r && NameTaken !in r
    ensures NameTooLong in r <==> Filled(input.name) && |input.name.value| > MaxLength
    ensures DisplayNameTooLong in r <==> Filled(input.displayName) && |input.displayName.value| > MaxLength
    ensures DisplayNameRequired in r <==> !Filled(input.displayName)
    ensures IsActiveNotBoolean in r <==> input.isActive.Null?
  {
    var name :=
      if !Filled(input.name) then {NameRequired}
      else ((if |input.name.value| > MaxLength then {NameTooLong} else {})
            + (if NameTakenBy(roles, input.name.value, ignore) then {NameTaken} else {}));
    var displayName :=
      if !Filled(input.displayName) then {DisplayNameRequired}
      else if |input.displayName.value| > MaxLength then {DisplayNameTooLong}
      else {};
    var isActive := if input.isActive.Null? then {IsActiveNotBoolean} else {};
    name + displayName + isActive
  }

  // ---------------------------------------------------------------------
  // Applying a request body to a row
  // ---------------------------------------------------------------------

  /** A nullable attribute after mass assignment: kept when not sent. */
  function Assign<T>(f: Field<T>, keep: Option<T>): (r: Option<T>)
    ensures f.Absent? ==> r == keep
    ensures f.Null? ==> r == None
    ensures f.Given? ==> r == Some(f.value)
  {
    match f
    case Absent => keep
    case Null => None
    case Given(v) => Some(v)
  }

  /** `$role->update($request->all())` on a validated body: name and display
      name are replaced, the other attributes only when they are sent. */
  function Patched(r: Role, input: Input): (p: Role)
    requires input.name.Given? && input.displayName.Given?
    ensures p.name == input.name.value && p.displayName == input.displayName.value
    ensures input.description.Absent? ==> p.description == r.description
    ensures input.permissions.Absent? ==> p.permissions == r.permissions
    ensures input.description.Given? ==> p.description == Some(input.description.value)
    ensures input.description.Null? ==> p.description == None
    ensures input.permissions.Given? ==> p.permissions == Some(input.permissions.value)
    ensures input.permissions.Null? ==> p.permissions == None
    ensures p.isActive == if input.isActive.Given? then input.isActive.value else r.isActive
  {
    Role(input.name.value, input.displayName.value,
         Assign(input.description, r.description),
         Assign(input.permissions, r.permissions),
         if input.isActive.Given? then input.isActive.value else r.isActive)
  }

  /** The row a fresh insert starts from, before the body is assigned. */
  const Blank: Role := Role("", "", None, None, DefaultActive)

  /** `Role::create($request->all())` on a validated body. */
  function NewRole(input: Input): (r: Role)
    requires input.name.Given? && input.displayName.Given?
    ensures r.name == input.name.value && r.displayName == input.displayName.value
    ensures r.description == if input.description.Given? then Some(input.description.value) else None
    ensures r.permissions == if input.permissions.Given? then Some(input.permissions.value) else None
    ensures r.isActive == if input.isActive.Given? then input.isActive.value else DefaultActive
  {
    Patched(Blank, input)
  }

  /** A rejected request: nothing is written. */
  function Rejected(t: Table, status: int, message: Message): (o: Outcome)
    ensures o.table == t && o.entries == [] && o.response.data == NoData
  {
    Outcome(t, [], Response(status, message, NoData))
  }

  // ---------------------------------------------------------------------
  // The actions
  // ---------------------------------------------------------------------

  /** `store`: validate, insert, log `role_created`, answer 201. */
  function StoreStep(t: Table, input: Input): (o: Outcome)
    ensures Consistent(t) ==> Consistent(o.table)
    ensures o.response.status == 201 <==> Admissible(input, t.roles, None)
    ensures o.response.status != 201 ==> o.table == t && o.entries == []
  {
    var errors := Violations(input, t.roles, None);
    if errors != {} then Rejected(t, 422, ValidationError(errors))
    else
      var id := t.nextId;
      var role := NewRole(input);
      Outcome(
        Table(t.roles[id := role], t.userCounts[id := 0], id + 1),
        [AuditEntry(RoleCreated, id, None, Some(Full(id, role)))],
        Response(201, CreatedOk, One(id, role)))
  }

  /** `update`: validate (the name may stay the row's own), look the row up
      (a missing id ends in the catch-all 500), refuse to rename the
      protected role, then apply the body and log `role_updated`. */
  function UpdateStep(t: Table, id: RoleId, input: Input): (o: Outcome)
    ensures Consistent(t) ==> Consistent(o.table)
    ensures o.response.status == 200 <==>
              Admissible(input, t.roles, Some(id)) && id in t.roles
              && (t.roles[id].name == Protected ==> input.name.value == Protected)
    ensures o.response.status != 200 ==> o.table == t && o.entries == []
    ensures o.table.userCounts == t.userCounts && o.table.nextId == t.nextId
  {
    var errors := Violations(input, t.roles, Some(id));
    if errors != {} then Rejected(t, 422, ValidationError(errors))
    else if id !in t.roles then Rejected(t, 500, InternalError)
    else if t.roles[id].name == Protected && input.name.value != Protected then
      Rejected(t, 403, CannotRenameProtected)
    else
      var was := t.roles[id];
      var now := Patched(was, input);
      Outcome(
        t.(roles := t.roles[id := now]),
        [AuditEntry(RoleUpdated, id, Some(Full(id, was)), Some(Full(id, now)))],
        Response(200, UpdatedOk, One(id, now)))
  }

  /** `destroy`: look the row up, refuse the protected role (403) and a role
      still assigned to users (400), log `role_deleted`, then delete. */
  function DestroyStep(t: Table, id: RoleId): (o: Outcome)
    ensures Consistent(t) ==> Consistent(o.table)
    ensures o.response.status == 200 <==>
              id in t.roles && id in t.userCounts
              && t.roles[id].name != Protected && t.userCounts[id] == 0
    ensures o.response.status != 200 ==> o.table == t && o.entries == []
  {
    if id !in t.roles || id !in t.userCounts then Rejected(t, 500, InternalError)
    else if t.roles[id].name == Protected then Rejected(t, 403, CannotDeleteProtected)
    else if t.userCounts[id] != 0 then Rejected(t, 400, InUse)
    else
      Outcome(
        Table(t.roles - {id}, t.userCounts - {id}, t.nextId),
        [AuditEntry(RoleDeleted, id, Some(Full(id, t.roles[id])), None)],
        Response(200, DeletedOk, NoData))
  }

  /** `toggleStatus`: look the row up, refuse to deactivate the protected
      role, otherwise flip `is_active` and log `role_status_changed`. */
  function ToggleStep(t: Table, id: RoleId): (o: Outcome)
    ensures Consistent(t) ==> Consistent(o.table)
    ensures o.response.status == 200 <==>
              id in t.roles && !(t.roles[id].name == Protected && t.roles[id].isActive)
    ensures o.response.status != 200 ==> o.table == t && o.entries == []
    ensures o.table.roles.Keys == t.roles.Keys
  {
    if id !in t.roles then Rejected(t, 500, InternalError)
    else if t.roles[id].name == Protected && t.roles[id].isActive then
      Rejected(t, 403, CannotDeactivateProtected)
    else
      var was := t.roles[id];
      var now := was.(isActive := !was.isActive);
      Outcome(
        t.(roles := t.roles[id := now]),
        [AuditEntry(RoleStatusChanged, id, Some(Status(was.isActive)), Some(Status(now.isActive)))],
        Response(200, if now.isActive then Activated else Deactivated, One(id, now)))
  }

  // ---------------------------------------------------------------------
  // What the actions promise
  // ---------------------------------------------------------------------

  /** A successful `store` adds exactly one row, under a fresh id, holding
      the submitted fields, and logs it with no `before`. */
  lemma StoreAddsOneRole(t: Table, input: Input)
    requires Consistent(t) && Admissible(input, t.roles, None)
    ensures var o := StoreStep(t, input);
      var id := t.nextId;
      && o.response == Response(201, CreatedOk, One(id, NewRole(input)))
      && id !in t.roles
      && o.table.roles == t.roles[id := NewRole(input)]
      && o.table.userCounts == t.userCounts[id := 0] && o.table.nextId == id + 1
      && o.entries == [AuditEntry(RoleCreated, id, None, Some(Full(id, NewRole(input))))]
  {
  }

  /** Of two creates with the same name, the second is refused with
      `NameTaken` and writes nothing, whatever its other fields. */
  lemma StoreSameNameTwice(t: Table, a: Input, b: Input)
    requires Consistent(t) && Admissible(a, t.roles, None) && b.name == a.name
    ensures var first := StoreStep(t, a);
      var second := StoreStep(first.table, b);
      && first.response.status == 201
      && second.response.status == 422
      && NameTaken in second.response.message.errors
      && second.table == first.table && second.entries == []
  {
    var first := StoreStep(t, a);
    assert first.table.roles[t.nextId].name == a.name.value;
  }

  /** A validation failure is answered 422 with the failed rules, before the
      id is even looked up, and writes nothing. */
  lemma ValidationFailureWritesNothing(t: Table, id: RoleId, input: Input)
    ensures !Admissible(input, t.roles, None) ==>
      StoreStep(t, input) == Rejected(t, 422, ValidationError(Violations(input, t.roles, None)))
    ensures !Admissible(input, t.roles, Some(id)) ==>
      UpdateStep(t, id, input) == Rejected(t, 422, ValidationError(Violations(input, t.roles, Some(id))))
  {
  }

  /** The uniqueness check of `update` does not count the row's own name. */
  lemma UpdateMayKeepOwnName(t: Table, id: RoleId, input: Input)
    requires Consistent(t) && id in t.roles
    requires input.name == Given(t.roles[id].name) && !IsBlank(t.roles[id].name)
    ensures NameTaken !in Violations(input, t.roles, Some(id))
  {
  }

  /** Renaming the protected role is refused with 403 and writes nothing. */
  lemma UpdateCannotRenameProtected(t: Table, id: RoleId, input: Input)
    requires id in t.roles && t.roles[id].name == Protected
    requires Admissible(input, t.roles, Some(id)) && input.name.value != Protected
    ensures UpdateStep(t, id, input) == Rejected(t, 403, CannotRenameProtected)
  {
  }

  /** The guard of `update` looks at the name only: the protected role can be
      deactivated through `update` by a body that keeps its name. */
  lemma UpdateCanDeactivateProtected(t: Table, id: RoleId, input: Input)
    requires id in t.roles && t.roles[id].name == Protected
    requires Admissible(input, t.roles, Some(id)) && input.name.value == Protected
    requires input.isActive == Given(false)
    ensures var o := UpdateStep(t, id, input);
      o.response.status == 200 && o.table.roles[id].name == Protected && !o.table.roles[id].isActive
  {
  }

  /** A successful `update` logs the old and the new row and changes no
      other row. */
  lemma UpdateLogsBeforeAndAfter(t: Table, id: RoleId, input: Input)
    requires UpdateStep(t, id, input).response.status == 200
    ensures var o := UpdateStep(t, id, input);
      && id in t.roles
      && o.table.roles == t.roles[id := Patched(t.roles[id], input)]
      && o.response == Response(200, UpdatedOk, One(id, Patched(t.roles[id], input)))
      && o.entries == [AuditEntry(RoleUpdated, id, Some(Full(id, t.roles[id])), Some(Full(id, o.table.roles[id])))]
  {
  }

  /** `destroy` refuses the protected role first and a role in use second;
      either way the table is untouched and nothing is logged. */
  lemma DestroyGuards(t: Table, id: RoleId)
    requires id in t.roles && id in t.userCounts
    ensures t.roles[id].name == Protected ==> DestroyStep(t, id) == Rejected(t, 403, CannotDeleteProtected)
    ensures t.roles[id].name != Protected && t.userCounts[id] > 0 ==>
      DestroyStep(t, id) == Rejected(t, 400, InUse)
  {
  }

  /** A successful `destroy` logs the whole old row with no `after`, removes
      the id, and leaves every other row as it was. */
  lemma DestroyRemovesOnlyThatRole(t: Table, id: RoleId)
    requires DestroyStep(t, id).response.status == 200
    ensures var o := DestroyStep(t, id);
      && id in t.roles && id !in o.table.roles
      && o.table.userCounts == t.userCounts - {id} && o.table.nextId == t.nextId
      && o.entries == [AuditEntry(RoleDeleted, id, Some(Full(id, t.roles[id])), None)]
      && (forall other :: other != id ==>
            (other in o.table.roles <==> other in t.roles)
            && (other in t.roles ==> o.table.roles[other] == t.roles[other]))
  {
  }

  /** A successful toggle flips `is_active`, logs the old and new status and
      words its message after the new one. */
  lemma ToggleFlips(t: Table, id: RoleId)
    requires ToggleStep(t, id).response.status == 200
    ensures var o := ToggleStep(t, id);
      && id in t.roles
      && o.table.roles == t.roles[id := t.roles[id].(isActive := !t.roles[id].isActive)]
      && o.table.userCounts == t.userCounts && o.table.nextId == t.nextId
      && o.entries == [AuditEntry(RoleStatusChanged, id, Some(Status(t.roles[id].isActive)),
                                  Some(Status(!t.roles[id].isActive)))]
      && o.response.message == (if t.roles[id].isActive then Deactivated else Activated)
      && o.response.data == One(id, t.roles[id].(isActive := !t.roles[id].isActive))
  {
  }

  /** The active protected role cannot be toggled off. */
  lemma ToggleKeepsProtectedActive(t: Table, id: RoleId)
    requires id in t.roles && t.roles[id].name == Protected && t.roles[id].isActive
    ensures ToggleStep(t, id) == Rejected(t, 403, CannotDeactivateProtected)
  {
  }

  /** Two successful toggles give back the table they started from. */
  lemma ToggleTwiceRestores(t: Table, id: RoleId)
    requires ToggleStep(t, id).response.status == 200
    requires ToggleStep(ToggleStep(t, id).table, id).response.status == 200
    ensures ToggleStep(ToggleStep(t, id).table, id).table == t
  {
    var was := t.roles[id];
    assert was.(isActive := !was.isActive).(isActive := was.isActive) == was;
    assert t.roles[id := was] == t.roles;
  }

  /** On an ordinary role both toggles of a pair succeed. */
  lemma ToggleTwiceOrdinary(t: Table, id: RoleId)
    requires id in t.roles && t.roles[id].name != Protected
    ensures ToggleStep(t, id).response.status == 200
    ensures ToggleStep(ToggleStep(t, id).table, id).response.status == 200
    ensures ToggleStep(ToggleStep(t, id).table, id).table == t
  {
    ToggleTwiceRestores(t, id);
  }

  /** An id that is not in the table: `update` (once validation passes),
      `destroy` and `toggleStatus` fall into the catch-all and answer 500,
      writing nothing. */
  lemma UnknownIdIsInternalError(t: Table, id: RoleId, input: Input)
    requires id !in t.roles
    ensures DestroyStep(t, id) == Rejected(t, 500, InternalError)
    ensures ToggleStep(t, id) == Rejected(t, 500, InternalError)
    ensures Admissible(input, t.roles, Some(id)) ==> UpdateStep(t, id, input) == Rejected(t, 500, InternalError)
  {
  }

  /** No action removes or renames a row named `admin_si`, and none turns an
      active `admin_si` off except an `update` that sends `is_active = false`. */
  lemma ProtectedRoleSurvives(t: Table, id: RoleId, target: RoleId, input: Input)
    requires Consistent(t) && id in t.roles && t.roles[id].name == Protected
    ensures var u := StoreStep(t, input).table; id in u.roles && u.roles[id] == t.roles[id]
    ensures var u := DestroyStep(t, target).table; id in u.roles && u.roles[id] == t.roles[id]
    ensures var u := ToggleStep(t, target).table;
      id in u.roles && u.roles[id].name == Protected && (t.roles[id].isActive ==> u.roles[id].isActive)
    ensures var u := UpdateStep(t, target, input).table;
      id in u.roles && u.roles[id].name == Protected
      && (t.roles[id].isActive && input.isActive != Given(false) ==> u.roles[id].isActive)
  {
    var o := UpdateStep(t, target, input);
    if o.response.status == 200 && target == id {
      assert input.name.value == Protected;
      assert o.table.roles[id] == Patched(t.roles[id], input);
    }
  }
}
