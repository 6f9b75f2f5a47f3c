/** The start-up seeding routine: an empty `Users` table receives one demonstration
    user; a table that holds anything is left alone. */
module DbInitializer {
  import opened Wrappers
  import opened Domain
  import opened Repository

  /** The demonstration user, with the id and the clock reading the routine draws. */
  function SeedUser(id: Guid, now: DateTime): (u: User)
    ensures u.Id == id && u.IsActive && u.CreatedDate == now
    ensures u.FirstName == Some("John") && u.LastName == Some("Doe")
    ensures u.Email == Some("JohnDoe@gmail.com") && u.PasswordHash.None?
  {
    NewUser().(Id := id, FirstName := Some("John"), LastName := Some("Doe"),
               Email := Some("JohnDoe@gmail.com"), PasswordHash := None, CreatedDate := now)
  }

  /** The table after seeding `table`. */
  function Seeded(table: map<Guid, User>, id: Guid, now: DateTime): (r: map<Guid, User>)
    ensures table != map[] ==> r == table
    ensures table == map[] ==> r.Keys == {id} && r[id] == SeedUser(id, now)
  {
    if table != map[] then table else map[id := SeedUser(id, now)]
  }

  /** `Initialize`: leaves a non-empty table unchanged, otherwise inserts the
      demonstration user and saves. */
  method Initialize(repo: UserRepository, id: Guid, now: DateTime)
    requires repo.Valid()
    modifies repo
    ensures repo.Valid()
    ensures repo.users == Seeded(old(repo.users), id, now)
  {
    if repo.users != map[] {
      return;
    }
    var saved := repo.Add(SeedUser(id, now));
  }

  /** Seeding twice, with whatever id and clock the second run draws, leaves the
      table of the first run. */
  lemma SeedingIsIdempotent(table: map<Guid, User>, id1: Guid, now1: DateTime, id2: Guid, now2: DateTime)
    ensures Seeded(Seeded(table, id1, now1), id2, now2) == Seeded(table, id1, now1)
  {
    var once := Seeded(table, id1, now1);
    assert id1 in once || table != map[];
  }

  /** A seeded table satisfies the store invariant (rows under their own ids, no
      non-null email twice) and holds at least one user; when it was empty before,
      its one user is the active demonstration user. */
  lemma SeededTable(table: map<Guid, User>, id: Guid, now: DateTime)
    requires KeysMatch(table)
    requires forall a, b :: a in table && b in table && table[a].Email.Some? && table[a].Email == table[b].Email ==> a == b
    ensures var s := Seeded(table, id, now);
      && KeysMatch(s)
      && (forall a, b :: a in s && b in s && s[a].Email.Some? && s[a].Email == s[b].Email ==> a == b)
    ensures |Seeded(table, id, now)| >= 1
    ensures table == map[] ==> forall k :: k in Seeded(table, id, now) ==> Seeded(table, id, now)[k].IsActive
  {
    if table != map[] {
      var k :| k in table;
      assert k in Seeded(table, id, now);
    } else {
      assert Seeded(table, id, now).Keys == {id};
    }
  }
}
