/**
 Looking users up by name and checking a password against the stored hash.
 The hashing primitive is a parameter: `check` stands for werkzeug's
 `check_password_hash(hash, password)`, and nothing is assumed about it.
 */
module Accounts {
  import opened Models
  import opened Ids

  /**
   `User.query.filter_by(username=...).first()`: the user with that name,
   taking the lowest id should the table ever hold two.
   */
  function FindUser(users: map<nat, User>, username: string): (r: Option<nat>)
    ensures r.None? <==> forall k :: k in users ==> users[k].username != username
    ensures r.Some? ==> r.value in users && users[r.value].username == username
    ensures r.Some? ==> forall k :: k in users && users[k].username == username ==> r.value <= k
  {
    var named := set k | k in users && users[k].username == username;
    assert forall k :: k in users && users[k].username == username ==> k in named;
    if named == {} then None else Some(MinKey(named))
  }

  /** `User.set_password`: the stored hash becomes the hash of the new password. */
  function SetPassword(u: User, password: string, hashOf: string -> string): (r: User)
    ensures r.passwordHash == hashOf(password)
    ensures r.(passwordHash := u.passwordHash) == u
  {
    u.(passwordHash := hashOf(password))
  }

  /** `User.check_password`. */
  predicate CheckPassword(u: User, password: string, check: (string, string) -> bool) {
    check(u.passwordHash, password)
  }

  /**
   Checking a password after setting it: the check accepts exactly the
   passwords the primitive accepts for the new hash, whatever the old hash
   was, and looks at no other field of the user.
   */
  lemma CheckAfterSetPassword(u: User, v: User, password: string, attempt: string,
                              hashOf: string -> string, check: (string, string) -> bool)
    requires v.passwordHash == u.passwordHash
    ensures CheckPassword(SetPassword(u, password, hashOf), attempt, check) <==> check(hashOf(password), attempt)
    ensures CheckPassword(u, attempt, check) <==> CheckPassword(v, attempt, check)
  {
  }

  /** `login`: the id of the user to sign in, or None to flash an error. */
  function Login(users: map<nat, User>, username: string, password: string,
                 check: (string, string) -> bool): (r: Option<nat>)
    ensures r.Some? ==> r.value in users && users[r.value].username == username
                        && CheckPassword(users[r.value], password, check)
    ensures UniqueUsernames(users) ==>
              (r.Some? <==> exists k :: k in users && users[k].username == username
                                        && CheckPassword(users[k], password, check))
  {
    match FindUser(users, username)
    case None => None
    case Some(k) => if CheckPassword(users[k], password, check) then Some(k) else None
  }

  /**
   A user registered with hash `hashOf(password)` can log in with that
   password, provided the hashing primitive accepts its own hashes, and
   with no password the primitive rejects.
   */
  lemma LoginAfterRegister(users: map<nat, User>, u: User, password: string, other: string,
                           hashOf: string -> string, check: (string, string) -> bool)
    requires UniqueUsernames(users) && UsersKeyed(users)
    requires u.id in users && users[u.id] == u && u.passwordHash == hashOf(password)
    requires check(hashOf(password), password) && !check(hashOf(password), other)
    ensures Login(users, u.username, password, check) == Some(u.id)
    ensures Login(users, u.username, other, check) == None
  {
  }
}
