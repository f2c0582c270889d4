/**
 * The two table operations the seeder relies on: looking a role up by name
 * (`Role::where('name', …)->first()`) and `updateOrCreate` keyed on the name.
 */
module RoleTable {
  import opened RoleModel

  /** The role named `name` among the ids below `n`, searching from the
      newest id down. */
  function FindByName(roles: map<RoleId, Role>, name: string, n: nat): (r: Option<RoleId>)
    ensures r.Some? ==> r.value < n && r.value in roles && roles[r.value].name == name
    ensures r.None? ==> forall id :: id < n && id in roles ==> roles[id].name != name
    decreases n
  {
    if n == 0 then None
    else if n - 1 in roles && roles[n - 1].name == name then Some(n - 1)
    else FindByName(roles, name, n - 1)
  }

  /** The lookup of a whole table: in a consistent table it finds the one
      row holding `name`, if there is one. */
  function Lookup(t: Table, name: string): (r: Option<RoleId>)
    requires Consistent(t)
    ensures r.Some? <==> exists id :: id in t.roles && t.roles[id].name == name
    ensures r.Some? ==> r.value in t.roles && t.roles[r.value].name == name
    ensures r.Some? ==> forall id :: id in t.roles && t.roles[id].name == name ==> id == r.value
  {
    FindByName(t.roles, name, t.nextId)
  }

  /** `Role::updateOrCreate(['name' => s.name], s)`: overwrite the row that
      has the name, keeping its id, or insert a new row with no users. */
  function Upsert(t: Table, s: Role): (u: Table)
    requires Consistent(t)
    ensures Consistent(u)
    ensures t.roles.Keys <= u.roles.Keys
    ensures forall id :: id in t.roles ==> u.userCounts[id] == t.userCounts[id]
    ensures forall id :: id in t.roles && t.roles[id].name != s.name ==> u.roles[id] == t.roles[id]
    ensures forall id :: id in t.roles && t.roles[id].name == s.name ==> u.roles[id] == s
    ensures forall id :: id in u.roles && u.roles[id].name == s.name ==> u.roles[id] == s
    ensures exists id :: id in u.roles && u.roles[id] == s
    ensures forall id :: id in u.roles && id !in t.roles ==> u.roles[id] == s && u.userCounts[id] == 0
  {
    match Lookup(t, s.name)
    case Some(id) => t.(roles := t.roles[id := s])
    case None =>
      var u := Table(t.roles[t.nextId := s], t.userCounts[t.nextId := 0], t.nextId + 1);
      assert u.roles[t.nextId] == s;
      u
  }
}
