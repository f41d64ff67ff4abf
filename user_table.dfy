/** The queries the credential service runs against its table of users
    (Serverample/Services/AuthService.cs), as functions of the stored sequence,
    and what they guarantee. */
module UserTable {
  import opened Wrappers
  import opened Users
  import opened Passwords

  /** The registration and existence filter `u.Username == username || u.Email == email`. */
  predicate Matches(u: User, username: string, email: string)
  {
    u.Username == username || u.Email == email
  }

  /** Some stored user has this username or this email (`AnyAsync` / a non-null `FirstOrDefaultAsync`). */
  predicate AnyMatch(users: seq<User>, username: string, email: string)
  {
    exists i :: 0 <= i < |users| && Matches(users[i], username, email)
  }

  /** The login filter `u.Username == username && u.IsActive`. */
  predicate ActiveNamed(u: User, username: string)
  {
    u.Username == username && u.IsActive
  }

  /** `k` is the first position that passes the login filter. */
  predicate FirstActive(users: seq<User>, username: string, k: int)
  {
    && 0 <= k < |users| && ActiveNamed(users[k], username)
    && forall j :: 0 <= j < k ==> !ActiveNamed(users[j], username)
  }

  /** The position `FirstOrDefaultAsync` picks for a login, or None. */
  function FindActive(users: seq<User>, username: string): (r: Option<nat>)
    ensures r.Some? ==> FirstActive(users, username, r.value)
    ensures r.None? ==> forall i :: 0 <= i < |users| ==> !ActiveNamed(users[i], username)
  {
    if |users| == 0 then None
    else if ActiveNamed(users[0], username) then Some(0)
    else match FindActive(users[1..], username)
      case None => None
      case Some(k) => Some(k + 1)
  }

  /** What a login returns on a store that does not fail: the first active user
      with that name if the password verifies against its hash, null otherwise. */
  function LoginResult(digest: Digest, users: seq<User>, username: string, password: string): (r: Option<User>)
    ensures r.Some? <==> exists k :: FirstActive(users, username, k) && users[k].PasswordHash == HashPassword(digest, password)
    ensures r.Some? ==> exists k :: FirstActive(users, username, k) && r.value == users[k]
  {
    match FindActive(users, username)
    case None => None
    case Some(k) => if VerifyPassword(digest, password, users[k].PasswordHash) then Some(users[k]) else None
  }

  /** No two stored users share a username, and no two share an email. */
  predicate Unique(users: seq<User>)
  {
    forall i, j :: 0 <= i < j < |users| ==> users[i].Username != users[j].Username && users[i].Email != users[j].Email
  }

  /** The store's generated ids: positive, below the next id to hand out, increasing in insertion order. */
  predicate IdsAssigned(users: seq<User>, nextId: int)
  {
    && (forall i :: 0 <= i < |users| ==> 1 <= users[i].Id < nextId)
    && (forall i, j :: 0 <= i < j < |users| ==> users[i].Id < users[j].Id)
  }

  /** The record registration builds: the given name and email, the salted hash,
      the creation time, active, and the id the store assigns on save. */
  function Enrolled(digest: Digest, id: int, username: string, email: string, password: string, now: Timestamp): User
  {
    User(id, username, email, HashPassword(digest, password), now, true)
  }

  /** Appending a user that matches nobody by name or email keeps the table unique. */
  lemma AppendKeepsUnique(users: seq<User>, x: User)
    requires Unique(users)
    requires !AnyMatch(users, x.Username, x.Email)
    ensures Unique(users + [x])
  {
    var s := users + [x];
    forall i, j | 0 <= i < j < |s|
      ensures s[i].Username != s[j].Username && s[i].Email != s[j].Email
    {
      if j == |users| {
        assert !Matches(users[i], x.Username, x.Email);
      }
    }
  }

  /** Appending a user under the next id keeps the ids assigned and distinct. */
  lemma AppendKeepsIds(users: seq<User>, nextId: int, x: User)
    requires IdsAssigned(users, nextId)
    requires 1 <= nextId && x.Id == nextId
    ensures IdsAssigned(users + [x], nextId + 1)
  {
  }

  /** Ids identify users: in a table with assigned ids, equal ids mean the same position. */
  lemma IdsIdentify(users: seq<User>, nextId: int, i: int, j: int)
    requires IdsAssigned(users, nextId)
    requires 0 <= i < |users| && 0 <= j < |users| && users[i].Id == users[j].Id
    ensures i == j
  {
  }

  /** In a unique table, the only user with a given name is the one the login filter finds. */
  lemma UniqueFirstActive(users: seq<User>, username: string, k: int)
    requires Unique(users)
    requires 0 <= k < |users| && ActiveNamed(users[k], username)
    ensures FindActive(users, username) == Some(k)
  {
    match FindActive(users, username)
    case None =>
    case Some(j) =>
      assert users[j].Username == users[k].Username;
  }

  /** In a unique table a login succeeds exactly when some active user with that
      name has the hash of the given password. */
  lemma LoginInUniqueTable(digest: Digest, users: seq<User>, username: string, password: string)
    requires Unique(users)
    ensures LoginResult(digest, users, username, password).Some?
        <==> exists k :: 0 <= k < |users| && ActiveNamed(users[k], username) && users[k].PasswordHash == HashPassword(digest, password)
  {
    if k :| 0 <= k < |users| && ActiveNamed(users[k], username) && users[k].PasswordHash == HashPassword(digest, password) {
      UniqueFirstActive(users, username, k);
    }
  }

  /** A deactivated user never logs in, even with the right password, when names are unique. */
  lemma InactiveNeverLogsIn(digest: Digest, users: seq<User>, k: int, password: string)
    requires Unique(users)
    requires 0 <= k < |users| && !users[k].IsActive
    ensures LoginResult(digest, users, users[k].Username, password) == None
  {
  }

  /** After a registration that passed the uniqueness check, logging in with the
      same name and password returns exactly the new user. */
  lemma LoginAfterRegister(digest: Digest, users: seq<User>, id: int, username: string, email: string, password: string, now: Timestamp)
    requires !AnyMatch(users, username, email)
    ensures LoginResult(digest, users + [Enrolled(digest, id, username, email, password, now)], username, password)
         == Some(Enrolled(digest, id, username, email, password, now))
  {
    var x := Enrolled(digest, id, username, email, password, now);
    var s := users + [x];
    assert ActiveNamed(s[|users|], username);
  }

  /** After the same registration, with a collision-free digest, any other password is refused. */
  lemma WrongPasswordAfterRegister(digest: Digest, users: seq<User>, id: int, username: string, email: string, password: string, other: string, now: Timestamp)
    requires Injective(digest)
    requires !AnyMatch(users, username, email)
    requires other != password
    ensures LoginResult(digest, users + [Enrolled(digest, id, username, email, password, now)], username, other) == None
  {
    LoginAfterRegister(digest, users, id, username, email, password, now);
    VerifyIffSamePassword(digest, other, password);
  }
}
