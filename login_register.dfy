/** Registration and login. Both scan the whole user directory comparing usernames
    case-insensitively; neither loop stops early, so the LAST matching user is the one
    reported. Password hashing and checking are bcrypt calls outside this model: the
    digest of a new password arrives as a parameter and the check as a function. */
module LoginRegister {
  import opened Vault

  // ---------------------------------------------------------------------------
  // registerUser

  /** User `usr` holds `username` up to letter case. */
  predicate Clashes(usr: User, username: string) {
    SameName(usr.username, username)
  }

  /** The position of the last user whose username equals `username` up to case. */
  function LastClash(users: seq<User>, username: string): (r: Option<nat>)
    ensures r.None? <==> forall k :: 0 <= k < |users| ==> !Clashes(users[k], username)
    ensures r.Some? ==> r.value < |users| && Clashes(users[r.value], username)
    ensures r.Some? ==> forall m :: r.value < m < |users| ==> !Clashes(users[m], username)
  {
    if users == [] then None
    else if Clashes(users[|users| - 1], username) then Some(|users| - 1)
    else LastClash(users[..|users| - 1], username)
  }

  /** The registration scan: every user is compared and a later match overwrites an earlier one. */
  method FindTakenUsername(users: seq<User>, username: string) returns (usernameFound: bool, existingUsername: string)
    ensures usernameFound <==> LastClash(users, username).Some?
    ensures usernameFound ==> existingUsername == users[LastClash(users, username).value].username
  {
    usernameFound := false;
    existingUsername := "";
    for i := 0 to |users|
      invariant usernameFound <==> LastClash(users[..i], username).Some?
      invariant usernameFound ==> existingUsername == users[LastClash(users[..i], username).value].username
    {
      assert users[..i + 1][..i] == users[..i];
      if Lower(users[i].username) == Lower(username) {
        usernameFound := true;
        existingUsername := users[i].username;
      }
    }
    assert users[..|users|] == users;
  }

  /** A fresh user with the default role "normal", or the last clashing username. */
  function RegisterSpec(s: Store, username: string, digest: string): Reply
  {
    match LastClash(s.users, username)
    case Some(k) => Reply(Failed(UsernameTaken(s.users[k].username)), s)
    case None => Reply(Done, s.(users := s.users + [User(FreshId(s.users), username, digest, Normal)]))
  }

  method RegisterUser(db: Database, username: string, digest: string) returns (st: Status)
    modifies db
    ensures Reply(st, db.Snapshot()) == RegisterSpec(old(db.Snapshot()), username, digest)
  {
    var usernameFound, existingUsername := FindTakenUsername(db.users, username);
    if usernameFound {
      return Failed(UsernameTaken(existingUsername));
    }
    db.users := db.users + [User(FreshId(db.users), username, digest, Normal)];
    return Done;
  }

  // ---------------------------------------------------------------------------
  // loginUser

  /** The token payload: the matched user's id, stored username and role. */
  datatype Payload = Payload(id: Id, username: string, role: string)

  /** User `usr` matches a login attempt: same username up to case, and the password checks
      against the stored digest. */
  predicate Matches(usr: User, username: string, password: string, verify: (string, string) -> bool) {
    SameName(username, usr.username) && verify(password, usr.hash)
  }

  /** The payload of the last matching user, if any. */
  function LoginPayload(users: seq<User>, username: string, password: string, verify: (string, string) -> bool): (r: Option<Payload>)
    ensures r.None? <==> forall k :: 0 <= k < |users| ==> !Matches(users[k], username, password, verify)
    ensures r.Some? ==> exists k ::
      0 <= k < |users| && Matches(users[k], username, password, verify) &&
      r.value == Payload(users[k].id, users[k].username, users[k].role) &&
      forall m :: k < m < |users| ==> !Matches(users[m], username, password, verify)
  {
    if users == [] then None
    else
      var last := users[|users| - 1];
      if Matches(last, username, password, verify) then Some(Payload(last.id, last.username, last.role))
      else LoginPayload(users[..|users| - 1], username, password, verify)
  }

  /** The login scan: every user is checked, a later match overwrites the payload, and an
      empty payload means the credentials are refused. */
  method LoginUser(users: seq<User>, username: string, password: string, verify: (string, string) -> bool)
    returns (r: Result<Payload>)
    ensures r.Ok? <==> LoginPayload(users, username, password, verify).Some?
    ensures r.Ok? ==> r.value == LoginPayload(users, username, password, verify).value
    ensures r.Err? ==> r.failure == InvalidCredentials
  {
    var userPayload: Option<Payload> := None;
    for i := 0 to |users|
      invariant userPayload == LoginPayload(users[..i], username, password, verify)
    {
      assert users[..i + 1][..i] == users[..i];
      var passwordMatches := verify(password, users[i].hash);
      if Lower(username) == Lower(users[i].username) && passwordMatches {
        userPayload := Some(Payload(users[i].id, users[i].username, users[i].role));
      }
    }
    assert users[..|users|] == users;
    if userPayload.Some? {
      return Ok(userPayload.value);
    }
    return Err(InvalidCredentials);
  }

  // ---------------------------------------------------------------------------
  // Properties

  /** Usernames differing only in letter case log in alike. */
  lemma {:induction false} LoginIgnoresCase(users: seq<User>, u1: string, u2: string, password: string, verify: (string, string) -> bool)
    requires SameName(u1, u2)
    ensures LoginPayload(users, u1, password, verify) == LoginPayload(users, u2, password, verify)
  {
    if users != [] {
      LoginIgnoresCase(users[..|users| - 1], u1, u2, password, verify);
    }
  }

  /** No two users share a username up to case. */
  ghost predicate DistinctNames(users: seq<User>) {
    forall a, b :: 0 <= a < b < |users| ==> !SameName(users[a].username, users[b].username)
  }

  /** Registration keeps user ids unique, every role valid, and usernames distinct up to case. */
  lemma RegisterKeepsDirectoryValid(s: Store, username: string, digest: string)
    requires UniqueUserIds(s.users) && ValidRoles(s.users) && DistinctNames(s.users)
    ensures var u := RegisterSpec(s, username, digest).store.users;
      UniqueUserIds(u) && ValidRoles(u) && DistinctNames(u)
  {
    var u := RegisterSpec(s, username, digest).store.users;
    if LastClash(s.users, username).None? {
      var n := |s.users|;
      forall a, b | 0 <= a < b < |u| ensures u[a].id != u[b].id && !SameName(u[a].username, u[b].username) {
        if b == n {
          assert u[a] == s.users[a];
        } else {
          assert u[a] == s.users[a] && u[b] == s.users[b];
        }
      }
      forall k | 0 <= k < |u| ensures IsValidRole(u[k].role) {
        if k < n { assert u[k] == s.users[k]; }
      }
    }
  }

  /** A freshly registered user can log in at once, under any letter case of the username,
      with a password the stored digest checks; the token carries the new id, the username
      as registered and the role "normal". */
  lemma RegisterThenLogin(s: Store, username: string, digest: string, login: string, password: string, verify: (string, string) -> bool)
    requires LastClash(s.users, username).None?
    requires SameName(login, username) && verify(password, digest)
    ensures var u := RegisterSpec(s, username, digest).store.users;
      LoginPayload(u, login, password, verify) == Some(Payload(FreshId(s.users), username, Normal))
  {
    var u := RegisterSpec(s, username, digest).store.users;
    assert u[..|u| - 1] == s.users;
  }

  /** Once a username is registered, registering any case variant of it is refused, naming
      the stored username, and changes nothing. */
  lemma RegisterTwiceRefused(s: Store, username: string, variant: string, d1: string, d2: string)
    requires LastClash(s.users, username).None? && SameName(variant, username)
    ensures var s1 := RegisterSpec(s, username, d1).store;
      RegisterSpec(s1, variant, d2) == Reply(Failed(UsernameTaken(username)), s1)
  {
  }
}
