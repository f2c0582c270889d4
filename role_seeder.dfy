/**
 * The default-role seeder: three roles, each written with
 * `updateOrCreate` keyed on the role name.
 */
module RoleSeeder {
  import opened RoleModel
  import opened RoleTable
  import Permissions
  import Backend

  /** The three default roles, in the order the seeder writes them: the
      protected role first, all active, with distinct names. */
  function Seeds(): (ss: seq<Role>)
    ensures |ss| == 3 && ss[0].name == Protected && DistinctNames(ss)
    ensures forall s :: s in ss ==> s.isActive && s.description.Some? && s.permissions.Some?
  {
    [
      Role("admin_si", "Administrateur SI", Some("Super administrateur du système"),
           Some(["manage_users", "manage_roles", "manage_dictionaries", "view_audit_logs",
                 "access_admin_dashboard", "activate_users", "assign_roles", "reset_passwords"]),
           true),
      Role("gestionnaire", "Gestionnaire", Some("Gestionnaire des dossiers d'assistance"),
           Some(["view_dossiers", "create_dossiers", "edit_dossiers", "delete_dossiers"]),
           true),
      Role("consultant", "Consultant", Some("Consultation des dossiers uniquement"),
           Some(["view_dossiers"]),
           true)
    ]
  }

  /** The table after upserting each role of `ss` in turn. */
  function UpsertAll(t: Table, ss: seq<Role>): (u: Table)
    requires Consistent(t)
    ensures Consistent(u)
    ensures t.roles.Keys <= u.roles.Keys
    decreases |ss|
  {
    if ss == [] then t else Upsert(UpsertAll(t, ss[..|ss| - 1]), ss[|ss| - 1])
  }

  /** The last role of `ss` that carries `name`: the one that wins. */
  function SeedFor(ss: seq<Role>, name: string): (r: Option<Role>)
    ensures r.Some? ==> r.value in ss && r.value.name == name
    ensures r.None? ==> forall s :: s in ss ==> s.name != name
    decreases |ss|
  {
    if ss == [] then None
    else if ss[|ss| - 1].name == name then Some(ss[|ss| - 1])
    else SeedFor(ss[..|ss| - 1], name)
  }

  /** The seed `SeedFor` picks is the last one carrying the name. */
  lemma {:induction false} SeedForIsLast(ss: seq<Role>, name: string)
    requires SeedFor(ss, name).Some?
    ensures exists i ::
              && 0 <= i < |ss| && ss[i] == SeedFor(ss, name).value
              && forall j :: i < j < |ss| ==> ss[j].name != name
    decreases |ss|
  {
    var k := |ss| - 1;
    if ss[k].name == name {
      assert ss[k] == SeedFor(ss, name).value;
    } else {
      var front := ss[..k];
      SeedForIsLast(front, name);
      var i :| && 0 <= i < |front| && front[i] == SeedFor(front, name).value
               && forall j :: i < j < |front| ==> front[j].name != name;
      forall j | i < j < |ss| ensures ss[j].name != name {
        if j < k {
          assert ss[j] == front[j];
        }
      }
      assert ss[i] == SeedFor(ss, name).value;
    }
  }

  /** A row holding exactly `s`. */
  ghost predicate Installed(t: Table, s: Role) {
    exists id :: id in t.roles && t.roles[id] == s
  }

  predicate DistinctNames(ss: seq<Role>) {
    forall i, j :: 0 <= i < j < |ss| ==> ss[i].name != ss[j].name
  }

  /** Upserting never changes the user count of a row that was there. */
  lemma {:induction false} UpsertAllKeepsCounts(t: Table, ss: seq<Role>)
    requires Consistent(t)
    ensures var u := UpsertAll(t, ss);
      forall id :: id in t.roles ==> u.userCounts[id] == t.userCounts[id]
    decreases |ss|
  {
    if ss != [] {
      UpsertAllKeepsCounts(t, ss[..|ss| - 1]);
    }
  }

  /** A row that was there ends up as the last seed of its name, or as it
      was when no seed has its name. */
  lemma {:induction false} UpsertAllOldRows(t: Table, ss: seq<Role>)
    requires Consistent(t)
    ensures var u := UpsertAll(t, ss);
      forall id :: id in t.roles ==>
        u.roles[id] == (match SeedFor(ss, t.roles[id].name)
                        case Some(s) => s
                        case None => t.roles[id])
    decreases |ss|
  {
    if ss != [] {
      var front, s := ss[..|ss| - 1], ss[|ss| - 1];
      UpsertAllOldRows(t, front);
      var u := UpsertAll(t, front);
      forall id | id in t.roles
        ensures Upsert(u, s).roles[id] == (match SeedFor(ss, t.roles[id].name)
                                           case Some(x) => x
                                           case None => t.roles[id])
      {
        if t.roles[id].name != s.name {
          assert SeedFor(ss, t.roles[id].name) == SeedFor(front, t.roles[id].name);
        }
      }
    }
  }

  /** A row the upserts added has no users and holds the last seed of its name. */
  lemma {:induction false} UpsertAllNewRows(t: Table, ss: seq<Role>)
    requires Consistent(t)
    ensures var u := UpsertAll(t, ss);
      forall id :: id in u.roles && id !in t.roles ==>
        u.userCounts[id] == 0 && SeedFor(ss, u.roles[id].name) == Some(u.roles[id])
    decreases |ss|
  {
    if ss != [] {
      var front, s := ss[..|ss| - 1], ss[|ss| - 1];
      UpsertAllNewRows(t, front);
      var u := UpsertAll(t, front);
      var w := Upsert(u, s);
      forall id | id in w.roles && id !in t.roles
        ensures w.userCounts[id] == 0 && SeedFor(ss, w.roles[id].name) == Some(w.roles[id])
      {
        if id in u.roles && w.roles[id].name != s.name {
          assert w.roles[id] == u.roles[id];
        }
      }
    }
  }

  /** Upserting a role leaves installed every row of another name. */
  lemma UpsertKeepsInstalled(u: Table, s: Role, x: Role)
    requires Consistent(u) && Installed(u, x) && x.name != s.name
    ensures Installed(Upsert(u, s), x)
  {
    var id :| id in u.roles && u.roles[id] == x;
    assert Upsert(u, s).roles[id] == x;
  }

  /** The last seed of every name is in the table afterwards. */
  lemma {:induction false} UpsertAllWinners(t: Table, ss: seq<Role>)
    requires Consistent(t)
    ensures var u := UpsertAll(t, ss);
      forall s :: s in ss && SeedFor(ss, s.name) == Some(s) ==> Installed(u, s)
    decreases |ss|
  {
    if ss != [] {
      var front, s := ss[..|ss| - 1], ss[|ss| - 1];
      UpsertAllWinners(t, front);
      var u := UpsertAll(t, front);
      var w := Upsert(u, s);
      forall x | x in ss && SeedFor(ss, x.name) == Some(x)
        ensures Installed(w, x)
      {
        if x != s {
          assert x.name != s.name;
          assert SeedFor(front, x.name) == Some(x);
          UpsertKeepsInstalled(u, s, x);
        }
      }
    }
  }

  /** What upserting `ss` does to the table: an existing row keeps its id
      and its user count and ends up as the last seed of its name, or as it
      was when no seed has its name; every new row holds the last seed of
      its name; and the last seed of every name is in the table. */
  lemma UpsertAllEffect(t: Table, ss: seq<Role>)
    requires Consistent(t)
    ensures var u := UpsertAll(t, ss);
      && (forall id :: id in t.roles ==> u.userCounts[id] == t.userCounts[id])
      && (forall id :: id in t.roles ==>
            u.roles[id] == (match SeedFor(ss, t.roles[id].name)
                            case Some(s) => s
                            case None => t.roles[id]))
      && (forall id :: id in u.roles && id !in t.roles ==>
            u.userCounts[id] == 0 && SeedFor(ss, u.roles[id].name) == Some(u.roles[id]))
      && (forall s :: s in ss && SeedFor(ss, s.name) == Some(s) ==> Installed(u, s))
  {
    UpsertAllKeepsCounts(t, ss);
    UpsertAllOldRows(t, ss);
    UpsertAllNewRows(t, ss);
    UpsertAllWinners(t, ss);
  }

  /** With distinct names every seed wins for its own name. */
  lemma {:induction false} DistinctSeedFor(ss: seq<Role>)
    requires DistinctNames(ss)
    ensures forall s :: s in ss ==> SeedFor(ss, s.name) == Some(s)
    decreases |ss|
  {
    if ss != [] {
      var front := ss[..|ss| - 1];
      assert DistinctNames(front);
      DistinctSeedFor(front);
      forall s | s in ss ensures SeedFor(ss, s.name) == Some(s) {
        if s != ss[|ss| - 1] {
          assert s in front;
        }
      }
    }
  }

  /** Upserting a role the table already holds changes nothing. */
  lemma UpsertInstalled(t: Table, s: Role)
    requires Consistent(t) && Installed(t, s)
    ensures Upsert(t, s) == t
  {
    var id :| id in t.roles && t.roles[id] == s;
    assert Lookup(t, s.name) == Some(id);
    assert t.roles[id := s] == t.roles;
  }

  /** Upserting roles the table already holds changes nothing. */
  lemma {:induction false} UpsertAllInstalled(t: Table, ss: seq<Role>)
    requires Consistent(t)
    requires forall s :: s in ss ==> Installed(t, s)
    ensures UpsertAll(t, ss) == t
    decreases |ss|
  {
    if ss != [] {
      var front := ss[..|ss| - 1];
      assert forall s :: s in front ==> s in ss;
      UpsertAllInstalled(t, front);
      UpsertInstalled(t, ss[|ss| - 1]);
    }
  }

  /** Upserting a list of distinctly named roles twice is upserting it once. */
  lemma UpsertAllIdempotent(t: Table, ss: seq<Role>)
    requires Consistent(t) && DistinctNames(ss)
    ensures UpsertAll(UpsertAll(t, ss), ss) == UpsertAll(t, ss)
  {
    UpsertAllEffect(t, ss);
    DistinctSeedFor(ss);
    UpsertAllInstalled(UpsertAll(t, ss), ss);
  }

  /** The `foreach` of `run`: one `updateOrCreate` per role, in order. */
  method UpsertEach(db: Backend.RoleStore, ss: seq<Role>)
    requires db.Valid()
    modifies db
    ensures db.Valid()
    ensures db.State() == UpsertAll(old(db.State()), ss) && db.log == old(db.log)
  {
    ghost var start := db.State();
    for i := 0 to |ss|
      invariant db.Valid()
      invariant db.State() == UpsertAll(start, ss[..i])
      invariant db.log == old(db.log)
    {
      db.UpdateOrCreate(ss[i]);
      assert ss[..i + 1][..i] == ss[..i];
    }
    assert ss[..|ss|] == ss;
  }

  /** `run`: upsert the three default roles; no audit entry is written. */
  method Run(db: Backend.RoleStore)
    requires db.Valid()
    modifies db
    ensures db.Valid()
    ensures db.State() == UpsertAll(old(db.State()), Seeds()) && db.log == old(db.log)
  {
    UpsertEach(db, Seeds());
  }

  /** After seeding, each default role is in the table with exactly its
      seeded fields, and it is the only row with its name. */
  lemma DefaultRolesSeeded(t: Table)
    requires Consistent(t)
    ensures var u := UpsertAll(t, Seeds());
      && Installed(u, Seeds()[0]) && Installed(u, Seeds()[1]) && Installed(u, Seeds()[2])
      && (forall s, id :: s in Seeds() && id in u.roles && u.roles[id].name == s.name ==> u.roles[id] == s)
  {
    UpsertAllEffect(t, Seeds());
    DistinctSeedFor(Seeds());
    var u := UpsertAll(t, Seeds());
    forall s, id | s in Seeds() && id in u.roles && u.roles[id].name == s.name
      ensures u.roles[id] == s
    {
      var k :| k in u.roles && u.roles[k] == s;
      assert k == id;
    }
  }

  /** Seeding keeps every existing row, its id and its user count; rows
      whose names are not seeded are left as they were. */
  lemma SeedingKeepsOtherRoles(t: Table)
    requires Consistent(t)
    ensures var u := UpsertAll(t, Seeds());
      forall id :: id in t.roles ==>
        && id in u.roles && u.userCounts[id] == t.userCounts[id]
        && (t.roles[id].name !in {"admin_si", "gestionnaire", "consultant"} ==> u.roles[id] == t.roles[id])
  {
    UpsertAllEffect(t, Seeds());
    var u := UpsertAll(t, Seeds());
    forall id | id in t.roles && t.roles[id].name !in {"admin_si", "gestionnaire", "consultant"}
      ensures u.roles[id] == t.roles[id]
    {
      assert SeedFor(Seeds(), t.roles[id].name) == None;
    }
  }

  /** Running the seeder twice leaves the table as running it once. */
  lemma SeedingIdempotent(t: Table)
    requires Consistent(t)
    ensures UpsertAll(UpsertAll(t, Seeds()), Seeds()) == UpsertAll(t, Seeds())
  {
    UpsertAllIdempotent(t, Seeds());
  }

  /** Every permission the seeder grants is a key of the catalogue. */
  lemma SeededKeys()
    ensures forall s, p :: s in Seeds() && s.permissions.Some? && p in s.permissions.value ==>
      p in Permissions.Keys()
  {
    var keys := Permissions.Keys();
    var cat := Permissions.Catalogue;
    assert cat[0].0 in keys && cat[1].0 in keys && cat[2].0 in keys && cat[3].0 in keys;
    assert cat[4].0 in keys && cat[5].0 in keys && cat[6].0 in keys && cat[7].0 in keys;
    assert cat[8].0 in keys && cat[9].0 in keys && cat[10].0 in keys && cat[11].0 in keys;
  }

  /** Every permission the seeder grants is a key that
      `getAvailablePermissions` answers. */
  lemma SeededPermissionsCatalogued()
    ensures var cat := Permissions.GetAvailablePermissions().data.catalogue;
      forall s, p :: s in Seeds() && s.permissions.Some? && p in s.permissions.value ==>
        exists i :: 0 <= i < |cat| && cat[i].0 == p
  {
    SeededKeys();
    var r := Permissions.GetAvailablePermissions();
    forall s, p | s in Seeds() && s.permissions.Some? && p in s.permissions.value
      ensures exists i :: 0 <= i < |r.data.catalogue| && r.data.catalogue[i].0 == p
    {
      assert p in Permissions.Keys();
    }
  }
}
