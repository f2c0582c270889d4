/**
 * The read-only actions of the role controller: `index` (filter, search,
 * newest first), and `show`. `getAvailablePermissions` is in permissions.dfy.
 */
module RoleQueries {
  import opened RoleModel
  import opened RoleActions

  /** The term `search` stands for: the sent value, or for a null value
      the empty string, which every text contains. */
  function SearchTerm(f: Field<string>): (term: string)
    requires !f.Absent?
    ensures f.Given? ==> term == f.value
    ensures f.Null? ==> forall s :: Contains(s, term)
  {
    if f.Given? then f.value else ""
  }

  /** The `where` clauses of `index`. `where('is_active', null)` becomes
      `is_active IS NULL`, which no row satisfies; a null search matches
      every row. A null `description` matches no `LIKE`. */
  predicate Matches(r: Role, f: Filter)
    ensures Matches(r, f) <==>
      && !f.isActive.Null?
      && (f.isActive.Given? ==> r.isActive == f.isActive.value)
      && (f.search.Given? ==>
            || OccursIn(r.name, f.search.value)
            || OccursIn(r.displayName, f.search.value)
            || (r.description.Some? && OccursIn(r.description.value, f.search.value)))
  {
    var term := if f.search.Given? then f.search.value else "";
    ContainsAt(r.name, term);
    ContainsAt(r.displayName, term);
    ContainsAt(if r.description.Some? then r.description.value else "", term);
    && (match f.isActive
        case Absent => true
        case Null => false
        case Given(b) => r.isActive == b)
    && (f.search.Absent?
        || Contains(r.name, SearchTerm(f.search))
        || Contains(r.displayName, SearchTerm(f.search))
        || (r.description.Some? && Contains(r.description.value, SearchTerm(f.search))))
  }

  /** The matching rows among the ids below `n`, newest first. */
  function Listing(t: Table, f: Filter, n: nat): (r: seq<Listed>)
    requires t.roles.Keys <= t.userCounts.Keys
    ensures forall x :: x in r ==>
      && x.id < n && x.id in t.roles
      && x.role == t.roles[x.id] && x.usersCount == t.userCounts[x.id]
      && Matches(x.role, f)
    ensures forall id :: id < n && id in t.roles && Matches(t.roles[id], f) ==>
      Listed(id, t.roles[id], t.userCounts[id]) in r
    ensures forall j, k :: 0 <= j < k < |r| ==> r[j].id > r[k].id
    decreases n
  {
    if n == 0 then []
    else
      var rest := Listing(t, f, n - 1);
      if n - 1 in t.roles && Matches(t.roles[n - 1], f) then
        [Listed(n - 1, t.roles[n - 1], t.userCounts[n - 1])] + rest
      else rest
  }

  /** `index`: every role that passes the filters, with its `users_count`,
      ordered by creation time, newest first. */
  function Index(t: Table, f: Filter): (r: Response)
    requires Consistent(t)
    ensures r.status == 200 && r.data.Many?
    ensures forall x :: x in r.data.items <==>
      x.id in t.roles && x.role == t.roles[x.id] && x.usersCount == t.userCounts[x.id]
      && Matches(x.role, f)
    ensures forall j, k :: 0 <= j < k < |r.data.items| ==> r.data.items[j].id > r.data.items[k].id
  {
    Response(200, NoMessage, Many(Listing(t, f, t.nextId)))
  }

  /** `show`: the role with its `users_count`, or 404 for any failure. */
  function Show(t: Table, id: RoleId): (r: Response)
    requires Consistent(t)
    ensures r.status == 200 <==> id in t.roles
    ensures r.status == 200 ==> r.data == Counted(Listed(id, t.roles[id], t.userCounts[id]))
    ensures r.status != 200 ==> r == Response(404, NotFound, NoData)
  {
    if id in t.roles then Response(200, NoMessage, Counted(Listed(id, t.roles[id], t.userCounts[id])))
    else Response(404, NotFound, NoData)
  }

  /** A role created by `store` is shown with the submitted fields and no users. */
  lemma StoredRoleIsShown(t: Table, input: Input)
    requires Consistent(t) && Admissible(input, t.roles, None)
    ensures var o := StoreStep(t, input);
      Show(o.table, t.nextId) == Response(200, NoMessage, Counted(Listed(t.nextId, NewRole(input), 0)))
  {
  }

  /** A role removed by `destroy` is no longer found by `show`. */
  lemma DestroyedRoleIsNotFound(t: Table, id: RoleId)
    requires Consistent(t) && DestroyStep(t, id).response.status == 200
    ensures Show(DestroyStep(t, id).table, id) == Response(404, NotFound, NoData)
  {
  }

  /** Without filters `index` lists every role. */
  lemma IndexWithoutFiltersListsAll(t: Table)
    requires Consistent(t)
    ensures var items := Index(t, Filter(Absent, Absent)).data.items;
      forall id :: id in t.roles ==> Listed(id, t.roles[id], t.userCounts[id]) in items
  {
  }
}
