/**
 * The stateful side of the role controller: the `roles` table, the user
 * counts, the id counter and the audit log, updated in place by the
 * controller's mutating actions and by `updateOrCreate`. Each method is
 * proved to do what the matching function of RoleActions / RoleTable says.
 */
module Backend {
  import opened RoleModel
  import opened RoleActions
  import opened RoleTable

  class RoleStore {
    var roles: map<RoleId, Role>
    var userCounts: map<RoleId, nat>
    var nextId: RoleId
    /** `audit_logs`, append-only. */
    var log: seq<AuditEntry>

    /** The table as a value. */
    function State(): Table
      reads this
    {
      Table(roles, userCounts, nextId)
    }

    ghost predicate Valid()
      reads this
    {
      Consistent(State())
    }

    /** A store over an existing table, with an empty audit log. */
    constructor (t: Table)
      requires Consistent(t)
      ensures Valid() && State() == t && log == []
    {
      roles, userCounts, nextId := t.roles, t.userCounts, t.nextId;
      log := [];
    }

    method Store(input: Input) returns (res: Response)
      requires Valid()
      modifies this
      ensures Valid()
      ensures var o := StoreStep(old(State()), input);
        State() == o.table && log == old(log) + o.entries && res == o.response
    {
      var errors := Violations(input, roles, None);
      if errors != {} {
        return Response(422, ValidationError(errors), NoData);
      }
      var id := nextId;
      var role := NewRole(input);
      roles := roles[id := role];
      userCounts := userCounts[id := 0];
      nextId := nextId + 1;
      log := log + [AuditEntry(RoleCreated, id, None, Some(Full(id, role)))];
      res := Response(201, CreatedOk, One(id, role));
    }

    method Update(id: RoleId, input: Input) returns (res: Response)
      requires Valid()
      modifies this
      ensures Valid()
      ensures var o := UpdateStep(old(State()), id, input);
        State() == o.table && log == old(log) + o.entries && res == o.response
    {
      var errors := Violations(input, roles, Some(id));
      if errors != {} {
        return Response(422, ValidationError(errors), NoData);
      }
      if id !in roles {
        return Response(500, InternalError, NoData);
      }
      var was := roles[id];
      if was.name == Protected && input.name.value != Protected {
        return Response(403, CannotRenameProtected, NoData);
      }
      var now := Patched(was, input);
      roles := roles[id := now];
      log := log + [AuditEntry(RoleUpdated, id, Some(Full(id, was)), Some(Full(id, now)))];
      res := Response(200, UpdatedOk, One(id, now));
    }

    method Destroy(id: RoleId) returns (res: Response)
      requires Valid()
      modifies this
      ensures Valid()
      ensures var o := DestroyStep(old(State()), id);
        State() == o.table && log == old(log) + o.entries && res == o.response
    {
      if id !in roles {
        return Response(500, InternalError, NoData);
      }
      var role := roles[id];
      if role.name == Protected {
        return Response(403, CannotDeleteProtected, NoData);
      }
      if userCounts[id] != 0 {
        return Response(400, InUse, NoData);
      }
      // The entry is written while the row still exists.
      log := log + [AuditEntry(RoleDeleted, id, Some(Full(id, role)), None)];
      roles := roles - {id};
      userCounts := userCounts - {id};
      res := Response(200, DeletedOk, NoData);
    }

    method ToggleStatus(id: RoleId) returns (res: Response)
      requires Valid()
      modifies this
      ensures Valid()
      ensures var o := ToggleStep(old(State()), id);
        State() == o.table && log == old(log) + o.entries && res == o.response
    {
      if id !in roles {
        return Response(500, InternalError, NoData);
      }
      var role := roles[id];
      if role.name == Protected && role.isActive {
        return Response(403, CannotDeactivateProtected, NoData);
      }
      var oldStatus := role.isActive;
      roles := roles[id := role.(isActive := !oldStatus)];
      log := log + [AuditEntry(RoleStatusChanged, id, Some(Status(oldStatus)), Some(Status(!oldStatus)))];
      res := Response(200, if !oldStatus then Activated else Deactivated, One(id, roles[id]));
    }

    /** `Role::updateOrCreate(['name' => s.name], s)`; writes no audit entry. */
    method UpdateOrCreate(s: Role)
      requires Valid()
      modifies this
      ensures Valid()
      ensures State() == Upsert(old(State()), s) && log == old(log)
    {
      var found := Lookup(State(), s.name);
      match found
      case Some(id) =>
        roles := roles[id := s];
      case None =>
        roles := roles[nextId := s];
        userCounts := userCounts[nextId := 0];
        nextId := nextId + 1;
    }
  }
}
