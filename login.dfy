/**
 * The POST /api/auth/login handler of Program.cs. It only reads the Users
 * table: blank input is refused, the user is found by exact username, the
 * stored PasswordHash is compared with the lowercase hex of SHA-256 of the
 * password's UTF-8 bytes, and on a match a token is issued with the user's
 * name and role, valid for one hour.
 */
module Login {
  import opened Wrappers
  import opened Strings
  import opened DateTimes
  import opened Models
  import opened Crypto
  import opened HexEncoding
  import opened Data
  import opened Http
  import DatabaseInitializer

  const CredentialsRequired := "Username and password are required"
  const InvalidCredentials := "Invalid username or password"

  /** The JSON body `{ username, password }`; either field may be null. */
  datatype LoginRequest = LoginRequest(username: Option<string>, password: Option<string>)

  predicate BlankRequest(login: LoginRequest) {
    IsNullOrWhiteSpace(login.username) || IsNullOrWhiteSpace(login.password)
  }

  /** The hash the handler computes for a password. */
  function PasswordDigest(p: Primitives, password: string): (h: string)
    ensures PasswordHashValid(h)
    ensures forall i :: 0 <= i < |h| ==> IsLowerHexDigit(h[i])
  {
    var d := p.sha256(p.utf8(password));
    DigestFitsPasswordHash(d);
    LowerHexDigits(d);
    LowerHex(d)
  }

  /** Some user has this exact username and the digest of this password as
      its PasswordHash. */
  predicate CredentialsMatch(users: map<int, User>, p: Primitives, name: string, password: string) {
    exists id :: id in users && users[id].username == name && users[id].passwordHash == PasswordDigest(p, password)
  }

  /** The token issued to `u` at `now`. */
  function TokenFor(p: Primitives, jwtKey: string, u: User, now: int): string {
    p.writeToken(TokenDescriptor(u.username, u.role, now + TicksPerHour), p.utf8(jwtKey))
  }

  /** The token carries the name and the role only: two users that agree
      on them get the same token, and neither the Id nor the stored hash
      reaches it. */
  lemma TokenClaims(p: Primitives, jwtKey: string, u: User, v: User, now: int)
    requires u.username == v.username && u.role == v.role
    ensures TokenFor(p, jwtKey, u, now) == TokenFor(p, jwtKey, v, now)
    ensures TokenFor(p, jwtKey, u, now) == TokenFor(p, jwtKey, u.(id := 0, passwordHash := ""), now)
  {
  }

  /** POST /api/auth/login at instant `now`, signing with `jwtKey`. Having
      no modifies clause, it changes no table on any path. */
  method Login(db: AccountingContext, login: LoginRequest, jwtKey: string, now: int, p: Primitives)
    returns (r: Response<string>)
    requires db.Valid()
    ensures r.Ok? || r == BadRequest(Some(CredentialsRequired)) || r == BadRequest(Some(InvalidCredentials))
    ensures BlankRequest(login) ==> r == BadRequest(Some(CredentialsRequired))
    ensures !BlankRequest(login) && !UsernameTaken(db.users, login.username.value) ==>
      r == BadRequest(Some(InvalidCredentials))
    ensures !BlankRequest(login) && UsernameTaken(db.users, login.username.value) ==>
      (!CredentialsMatch(db.users, p, login.username.value, login.password.value) ==>
        r == BadRequest(Some(InvalidCredentials)))
    ensures r.Ok? <==>
      !BlankRequest(login) && CredentialsMatch(db.users, p, login.username.value, login.password.value)
    ensures r.Ok? ==> exists id :: (id in db.users && db.users[id].username == login.username.value &&
      r.body == TokenFor(p, jwtKey, db.users[id], now))
  {
    if IsNullOrWhiteSpace(login.username) || IsNullOrWhiteSpace(login.password) {
      return BadRequest(Some(CredentialsRequired));
    }
    var name, password := login.username.value, login.password.value;
    if !exists id | id in db.users :: db.users[id].username == name {
      return BadRequest(Some(InvalidCredentials));
    }
    var id :| id in db.users && db.users[id].username == name;
    var user := db.users[id];
    var providedHash := ToLowerHex(p.sha256(p.utf8(password)));
    if user.passwordHash != providedHash {
      return BadRequest(Some(InvalidCredentials));
    }
    return Ok(TokenFor(p, jwtKey, user, now));
  }

  /** A stored hash that is not 64 characters long never matches, whatever
      the password: the digest's encoding always has 64. */
  lemma ShortOrLongHashNeverMatches(users: map<int, User>, p: Primitives, name: string, password: string)
    requires forall id :: id in users && users[id].username == name ==> |users[id].passwordHash| != 64
    ensures !CredentialsMatch(users, p, name, password)
  {
    DigestFitsPasswordHash(p.sha256(p.utf8(password)));
  }

  /** Right after seeding an empty table, "admin"/"password" logs in exactly
      when the password hasher's output for "password" equals the SHA-256
      hex digest of it; seeding and login use different hash functions, so
      nothing makes this hold. */
  lemma SeededAdminLogin(nextId: int, hasher: PasswordHasher, p: Primitives)
    ensures var users := DatabaseInitializer.SeedUsers(map[], nextId, hasher);
      CredentialsMatch(users, p, "admin", DatabaseInitializer.AdminPassword) <==>
      hasher(DatabaseInitializer.AdminDraft, DatabaseInitializer.AdminPassword) ==
        PasswordDigest(p, DatabaseInitializer.AdminPassword)
  {
    var users := DatabaseInitializer.SeedUsers(map[], nextId, hasher);
    assert users.Keys == {nextId};
  }
}
