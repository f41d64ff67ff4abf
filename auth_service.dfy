/** The credential service of Serverample/Services/AuthService.cs over an
    abstract user store: the table of users is a sequence the service appends
    to, and the store's id generation is a counter. A store exception is the
    `fault` argument of each call: the environment decides whether the
    database access of that call fails. */
module Auth {
  import opened Wrappers
  import opened Users
  import opened Passwords
  import opened UserTable

  class AuthService {
    /** The hash primitive the service was built with. */
    const digest: Digest
    /** The stored users, in insertion order. */
    var users: seq<User>
    /** The id the store assigns to the next saved user. */
    var nextId: int

    /** The store invariant: names and emails are unique, ids are assigned. */
    ghost predicate Valid()
      reads this
    {
      1 <= nextId && Unique(users) && IdsAssigned(users, nextId)
    }

    /** A service over an empty store. */
    constructor (digest: Digest)
      ensures Valid()
      ensures this.digest == digest && users == [] && nextId == 1
    {
      this.digest := digest;
      users := [];
      nextId := 1;
    }

    /** `RegisterUserAsync`: refuses when a stored user has the username or the
        email, otherwise saves a new active user with the salted hash. A store
        fault yields false and saves nothing. */
    method Register(username: string, email: string, password: string, now: Timestamp, fault: bool) returns (ok: bool)
      requires Valid()
      modifies this
      ensures Valid()
      ensures ok <==> !fault && !AnyMatch(old(users), username, email)
      ensures ok ==> users == old(users) + [Enrolled(digest, old(nextId), username, email, password, now)]
      ensures ok ==> nextId == old(nextId) + 1
      ensures !ok ==> users == old(users) && nextId == old(nextId)
      ensures ok ==> LoginResult(digest, users, username, password) == Some(users[|users| - 1])
    {
      if fault {
        return false;
      }
      if AnyMatch(users, username, email) {
        return false;
      }
      var passwordHash := HashPassword(digest, password);
      var user := User(nextId, username, email, passwordHash, now, true);
      AppendKeepsUnique(users, user);
      AppendKeepsIds(users, nextId, user);
      LoginAfterRegister(digest, users, nextId, username, email, password, now);
      users := users + [user];
      nextId := nextId + 1;
      ok := true;
    }

    /** `LoginUserAsync`: the first active user with this username, provided the
        password verifies against its stored hash; null otherwise and on a store fault. */
    method Login(username: string, password: string, fault: bool) returns (r: Option<User>)
      ensures fault ==> r == None
      ensures !fault ==> r == LoginResult(digest, users, username, password)
      ensures r.Some? ==> r.value in users && ActiveNamed(r.value, username)
      ensures r.Some? ==> r.value.PasswordHash == HashPassword(digest, password)
      ensures Valid() && !fault ==>
        (r.Some? <==> exists k :: 0 <= k < |users| && ActiveNamed(users[k], username) && users[k].PasswordHash == HashPassword(digest, password))
    {
      if Valid() {
        LoginInUniqueTable(digest, users, username, password);
      }
      if fault {
        return None;
      }
      var found := FindActive(users, username);
      if found.None? {
        return None;
      }
      var user := users[found.value];
      if VerifyPassword(digest, password, user.PasswordHash) {
        return Some(user);
      }
      return None;
    }

    /** `UserExistsAsync`: whether some stored user has the username or the email.
        It catches nothing, so a store fault reaches the caller. */
    method UserExists(username: string, email: string, fault: bool) returns (r: Outcome<bool>)
      ensures fault ==> r == Raised
      ensures !fault ==> r.Returned?
      ensures !fault ==> (r.value <==> exists i :: 0 <= i < |users| && (users[i].Username == username || users[i].Email == email))
    {
      if fault {
        return Raised;
      }
      return Returned(AnyMatch(users, username, email));
    }
  }

  /** A client of the service: one registration, two refused duplicates (same
      name, same email), one refused and one accepted login. */
  method AliceScenario(digest: Digest, now: Timestamp)
    returns (first: bool, sameName: bool, sameEmail: bool, emailTaken: Outcome<bool>, bad: Option<User>, good: Option<User>)
    requires Injective(digest)
    ensures first && !sameName && !sameEmail
    ensures emailTaken == Returned(true)
    ensures bad == None
    ensures good.Some? && good.value.Id == 1 && good.value.Username == "alice" && good.value.Email == "alice@example.com"
  {
    var service := new AuthService(digest);
    first := service.Register("alice", "alice@example.com", "S3cret!", now, false);
    assert service.users[0].Username == "alice";
    sameName := service.Register("alice", "other@example.com", "x", now, false);
    sameEmail := service.Register("bob", "alice@example.com", "y", now, false);
    emailTaken := service.UserExists("carol", "alice@example.com", false);
    WrongPasswordAfterRegister(digest, [], 1, "alice", "alice@example.com", "S3cret!", "wrong", now);
    bad := service.Login("alice", "wrong", false);
    good := service.Login("alice", "S3cret!", false);
  }
}
