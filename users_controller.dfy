/**
 * Controllers/UsersController.cs: the Users table endpoints. Usernames stay
 * unique because create and update refuse a name another user holds.
 */
module UsersController {
  import opened Wrappers
  import opened Strings
  import opened Models
  import opened Crypto
  import opened Data
  import opened Http

  const UsernameExists := "Username already exists"
  const MismatchedUserId := "Mismatched user id"

  /** The record PostUser stores: a non-blank PasswordHash field is replaced
      by the hasher's output for it, a blank one is kept as given. */
  function HashedForCreate(user: User, hasher: PasswordHasher): (stored: User)
    ensures stored.username == user.username && stored.role == user.role && stored.id == user.id
    ensures IsBlank(user.passwordHash) ==> stored.passwordHash == user.passwordHash
    ensures !IsBlank(user.passwordHash) ==> stored.passwordHash == hasher(user, user.passwordHash)
  {
    if IsBlank(user.passwordHash) then user
    else user.(passwordHash := hasher(user, user.passwordHash))
  }

  /** The tracked record after PutUser's assignments: Username and Role are
      copied first, so the hasher sees the record with them already set; the
      hash changes only when the supplied value is non-blank. */
  function UpdatedUser(existing: User, updated: User, hasher: PasswordHasher): (r: User)
    ensures r.id == existing.id && r.username == updated.username && r.role == updated.role
    ensures IsBlank(updated.passwordHash) ==> r.passwordHash == existing.passwordHash
    ensures !IsBlank(updated.passwordHash) ==>
      r.passwordHash == hasher(existing.(username := updated.username, role := updated.role), updated.passwordHash)
  {
    var renamed := existing.(username := updated.username, role := updated.role);
    if IsBlank(updated.passwordHash) then renamed
    else renamed.(passwordHash := hasher(renamed, updated.passwordHash))
  }

  /** A validated create always hashes: the PasswordHash annotation already
      rules out a blank field, so the blank branch is never taken after it. */
  lemma ValidCreateHashes(user: User, hasher: PasswordHasher)
    requires UserValid(user)
    ensures HashedForCreate(user, hasher).passwordHash == hasher(user, user.passwordHash)
  {
  }

  /** GET api/users/{id}. */
  method GetUser(db: AccountingContext, id: int) returns (r: Response<User>)
    ensures id in db.users ==> r == Ok(db.users[id])
    ensures id !in db.users ==> r == NotFound
  {
    if id !in db.users {
      return NotFound;
    }
    return Ok(db.users[id]);
  }

  /** POST api/users. The new row gets the next identity value. */
  method PostUser(db: AccountingContext, user: User, hasher: PasswordHasher) returns (r: Response<User>)
    requires db.Valid()
    modifies db`users, db`nextUserId
    ensures db.Valid()
    ensures !UserValid(user) ==> r == ValidationProblem && unchanged(db)
    ensures UserValid(user) && UsernameTaken(old(db.users), user.username) ==>
      r == Conflict(UsernameExists) && unchanged(db)
    ensures UserValid(user) && !UsernameTaken(old(db.users), user.username) ==>
      var stored := HashedForCreate(user, hasher).(id := old(db.nextUserId));
      && r == Created(stored.id, stored)
      && stored.id !in old(db.users)
      && db.users == old(db.users)[stored.id := stored]
      && |db.users| == |old(db.users)| + 1
      && db.nextUserId == old(db.nextUserId) + 1
  {
    if !UserValid(user) {
      return ValidationProblem;
    }
    if exists id | id in db.users :: db.users[id].username == user.username {
      return Conflict(UsernameExists);
    }
    var stored := HashedForCreate(user, hasher).(id := db.nextUserId);
    db.users := db.users[stored.id := stored];
    db.nextUserId := db.nextUserId + 1;
    return Created(stored.id, stored);
  }

  /** PUT api/users/{id}. */
  method PutUser(db: AccountingContext, id: int, updated: User, hasher: PasswordHasher) returns (r: Response<()>)
    requires db.Valid()
    modifies db`users
    ensures db.Valid()
    ensures id != updated.id ==> r == BadRequest(Some(MismatchedUserId)) && unchanged(db)
    ensures id == updated.id && !UserValid(updated) ==> r == ValidationProblem && unchanged(db)
    ensures id == updated.id && UserValid(updated) && id !in old(db.users) ==>
      r == NotFound && unchanged(db)
    ensures id == updated.id && UserValid(updated) && id in old(db.users) ==>
      (UsernameTakenByOther(old(db.users), updated.username, id) ==>
        r == Conflict(UsernameExists) && unchanged(db))
    ensures id == updated.id && UserValid(updated) && id in old(db.users) ==>
      (!UsernameTakenByOther(old(db.users), updated.username, id) ==>
        && r == NoContent
        && db.users == old(db.users)[id := UpdatedUser(old(db.users)[id], updated, hasher)])
  {
    if id != updated.id {
      return BadRequest(Some(MismatchedUserId));
    }
    if !UserValid(updated) {
      return ValidationProblem;
    }
    if id !in db.users {
      return NotFound;
    }
    var existing := db.users[id];
    if exists other | other in db.users :: db.users[other].username == updated.username && other != id {
      return Conflict(UsernameExists);
    }
    db.users := db.users[id := UpdatedUser(existing, updated, hasher)];
    return NoContent;
  }

  /** DELETE api/users/{id}. */
  method DeleteUser(db: AccountingContext, id: int) returns (r: Response<()>)
    requires db.Valid()
    modifies db`users
    ensures db.Valid()
    ensures id !in old(db.users) ==> r == NotFound && unchanged(db)
    ensures id in old(db.users) ==> r == NoContent && db.users == old(db.users) - {id}
  {
    if id !in db.users {
      return NotFound;
    }
    db.users := db.users - {id};
    return NoContent;
  }

  /** An update that keeps the user's own username never meets the
      Conflict branch, because usernames are unique. */
  lemma OwnUsernameNeverConflicts(users: map<int, User>, id: int, updated: User)
    requires id in users && UniqueUsernames(users)
    requires users[id].username == updated.username
    ensures !UsernameTakenByOther(users, updated.username, id)
  {
  }
}
