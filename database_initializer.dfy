/**
 * Data/DatabaseInitializer.cs: at start-up, after the migrations, an admin
 * user is added when the Users table is empty.
 */
module DatabaseInitializer {
  import opened Models
  import opened Crypto
  import opened Data

  /** `new User { Username = "admin", Role = "Admin" }` before its hash is
      set: Id and PasswordHash still hold their defaults. */
  const AdminDraft: User := User(0, "admin", "", "Admin")

  const AdminPassword := "password"

  /** The admin record the hasher produces, stored under `id`. */
  function SeededAdmin(id: int, hasher: PasswordHasher): (u: User)
    ensures u.id == id && u.username == "admin" && u.role == "Admin"
    ensures u.passwordHash == hasher(AdminDraft, AdminPassword)
  {
    AdminDraft.(id := id, passwordHash := hasher(AdminDraft, AdminPassword))
  }

  /** The Users table after seeding with the next identity value `nextId`. */
  function SeedUsers(users: map<int, User>, nextId: int, hasher: PasswordHasher): (seeded: map<int, User>)
    ensures seeded != map[]
    ensures forall id :: id in users ==> id in seeded && seeded[id] == users[id]
    ensures seeded.Keys <= users.Keys + {nextId}
  {
    if users == map[] then
      var seeded := map[nextId := SeededAdmin(nextId, hasher)];
      assert nextId in seeded;
      seeded
    else
      users
  }

  /** An empty table receives exactly one user, the admin. */
  lemma SeedEmpty(nextId: int, hasher: PasswordHasher)
    ensures var after := SeedUsers(map[], nextId, hasher);
      && |after| == 1 && after.Keys == {nextId}
      && after[nextId].username == "admin" && after[nextId].role == "Admin"
      && after[nextId].passwordHash == hasher(AdminDraft, AdminPassword)
  {
  }

  /** A non-empty table is left alone, so seeding twice is seeding once,
      whatever hasher the second run would have used. */
  lemma SeedIdempotent(users: map<int, User>, nextId: int, nextId': int, h: PasswordHasher, h': PasswordHasher)
    ensures users != map[] ==> SeedUsers(users, nextId, h) == users
    ensures SeedUsers(SeedUsers(users, nextId, h), nextId', h') == SeedUsers(users, nextId, h)
  {
    assert nextId in SeedUsers(users, nextId, h) || users != map[];
  }

  /** The seeded admin passes the User annotations exactly when the hasher's
      output is a non-blank string of 64 characters. */
  lemma SeededAdminValidity(id: int, hasher: PasswordHasher)
    ensures UserValid(SeededAdmin(id, hasher)) <==> PasswordHashValid(hasher(AdminDraft, AdminPassword))
  {
    var u := SeededAdmin(id, hasher);
    assert u.username == "admin" && u.role == "Admin";
    assert UsernameValid(u.username) by {
      assert !Strings.IsWhiteSpace(u.username[0]);
    }
    assert RoleValid(u.role) by {
      assert !Strings.IsWhiteSpace(u.role[0]);
    }
  }

  /** StartAsync, without the migration step. */
  method StartAsync(db: AccountingContext, hasher: PasswordHasher)
    requires db.Valid()
    modifies db`users, db`nextUserId
    ensures db.Valid()
    ensures db.users == SeedUsers(old(db.users), old(db.nextUserId), hasher)
    ensures old(db.users) == map[] ==> db.nextUserId == old(db.nextUserId) + 1
    ensures old(db.users) != map[] ==> unchanged(db)
  {
    if db.users == map[] {
      var admin := SeededAdmin(db.nextUserId, hasher);
      db.users := db.users[admin.id := admin];
      db.nextUserId := db.nextUserId + 1;
    }
  }
}
