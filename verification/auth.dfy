/**
 * The authentication service: registration (`createUser`) and login
 * (`authenticateUser`) over the user-record store of module Users.
 *
 * `hashPassword` is an external helper; it is modelled as a deterministic but
 * otherwise unknown function `Hasher` that the service holds. The salt that
 * `getSalt()` would produce is a parameter of registration.
 */
module Auth {
  import opened Users

  /** One constructor per message the service throws. */
  datatype AuthError =
    | InvalidEmail       // "Invalid email"
    | UserAlreadyExists  // "User already exists"
    | PasswordTooShort   // "Password too short"
    | UserNotFound       // "User not found"
    | InvalidPassword    // "Invalid password"

  /** The result of registration, which returns nothing on success. */
  datatype Outcome = Pass | Fail(error: AuthError)

  /** What a successful login returns: the stored email and no secret. */
  datatype Identity = Identity(email: string)

  datatype AuthResult = Authenticated(identity: Identity) | Rejected(error: AuthError)

  /** The password hash function: deterministic, nothing else is known of it. */
  type Hasher = string -> string

  /** The email check: at least 5 characters (so not empty) and an '@' somewhere. */
  predicate ValidEmail(email: string)
  {
    |email| >= 5 && '@' in email
  }

  /** The password check: at least 8 characters (so not empty). */
  predicate ValidPassword(password: string)
  {
    |password| >= 8
  }

  /**
   * The record registration builds: the salt is prepended to the password
   * before hashing, in the same order as login does, so that a store holding
   * just this record lets the registered password in and refuses every
   * password whose salted hash differs.
   */
  function NewRecord(hash: Hasher, email: string, password: string, salt: string): (u: User)
    ensures Authenticate(map[email := u], hash, email, password) == Authenticated(Identity(email))
    ensures forall other: string ::
      (Authenticate(map[email := u], hash, email, other).Authenticated?
       <==> hash(salt + other) == hash(salt + password))
  {
    User(email, hash(salt + password), salt)
  }

  /** What registration reports, and the calls it makes on the store. */
  datatype Registration = Registration(outcome: Outcome, calls: seq<StoreCall>)

  /**
   * Registration of `email` with `password` against the store `users`, using
   * `salt`. The checks run in a fixed order: email syntax (no store call),
   * then the lookup, then the password length; only when all pass is one
   * record written.
   */
  function Register(users: Store, hash: Hasher, email: string, password: string, salt: string): (r: Registration)
    // success exactly when every check passes
    ensures r.outcome.Pass? <==> ValidEmail(email) && email !in users && ValidPassword(password)
    // a malformed email is refused before the store is touched
    ensures !ValidEmail(email) <==> r.outcome == Fail(InvalidEmail)
    ensures !ValidEmail(email) ==> r.calls == []
    // otherwise the first store call is the lookup of that email
    ensures ValidEmail(email) ==> |r.calls| >= 1 && r.calls[0] == Find(email)
    // the lookup precedes the password check
    ensures r.outcome == Fail(UserAlreadyExists) <==> ValidEmail(email) && email in users
    ensures r.outcome == Fail(PasswordTooShort)
        <==> ValidEmail(email) && email !in users && !ValidPassword(password)
    // exactly one record is written, on success only
    ensures Writes(r.calls) == if r.outcome.Pass? then [NewRecord(hash, email, password, salt)] else []
    ensures Replay(users, r.calls)
        == if r.outcome.Pass? then users[email := NewRecord(hash, email, password, salt)] else users
  {
    if !ValidEmail(email) then
      Registration(Fail(InvalidEmail), [])
    else if email in users then
      Registration(Fail(UserAlreadyExists), [Find(email)])
    else if !ValidPassword(password) then
      Registration(Fail(PasswordTooShort), [Find(email)])
    else
      var record := NewRecord(hash, email, password, salt);
      var calls := [Find(email), Insert(record)];
      assert calls[1..] == [Insert(record)] && calls[1..][1..] == [];
      Registration(Pass, calls)
  }

  /**
   * Login of `email` with `password` against the store `users`: the record is
   * looked up, its salt is prepended to the password, and the hash of that is
   * compared with the stored hash.
   */
  function Authenticate(users: Store, hash: Hasher, email: string, password: string): (r: AuthResult)
    ensures r == Rejected(UserNotFound) <==> email !in users
    ensures r == Rejected(InvalidPassword)
        <==> email in users && hash(users[email].salt + password) != users[email].hash
    ensures r.Authenticated?
        <==> email in users && hash(users[email].salt + password) == users[email].hash
    ensures r.Authenticated? ==> r.identity == Identity(users[email].email)
  {
    if email !in users then Rejected(UserNotFound)
    else
      var record := users[email];
      if hash(record.salt + password) != record.hash then Rejected(InvalidPassword)
      else Authenticated(Identity(record.email))
  }

  /** The service, holding the store it works on and the hash function. */
  class AuthService {
    const store: UserStore
    const hash: Hasher

    constructor (store: UserStore, hash: Hasher)
      ensures this.store == store && this.hash == hash
    {
      this.store := store;
      this.hash := hash;
    }

    /** `createUser`, with `salt` standing for the value `getSalt()` returns. */
    method CreateUser(email: string, password: string, salt: string) returns (r: Outcome)
      modifies store
      ensures r == Register(old(store.users), hash, email, password, salt).outcome
      ensures store.trace == old(store.trace) + Register(old(store.users), hash, email, password, salt).calls
      ensures store.users == Replay(old(store.users), Register(old(store.users), hash, email, password, salt).calls)
      ensures store.users == if r.Pass? then old(store.users)[email := NewRecord(hash, email, password, salt)]
                             else old(store.users)
    {
      if !ValidEmail(email) {
        return Fail(InvalidEmail);
      }
      var existing := store.FindByEmail(email);
      if existing.Some? {
        return Fail(UserAlreadyExists);
      }
      if !ValidPassword(password) {
        return Fail(PasswordTooShort);
      }
      var hashed := hash(salt + password);
      var record := User(email, hashed, salt);
      store.CreateUser(record);
      r := Pass;
    }

    /** `authenticateUser`: one lookup, no write. */
    method AuthenticateUser(email: string, password: string) returns (r: AuthResult)
      modifies store`trace
      ensures r == Authenticate(old(store.users), hash, email, password)
      ensures store.users == old(store.users)
      ensures store.trace == old(store.trace) + [Find(email)]
    {
      var existing := store.FindByEmail(email);
      if existing.None? {
        return Rejected(UserNotFound);
      }
      var record := existing.value;
      var hashed := hash(record.salt + password);
      if hashed != record.hash {
        return Rejected(InvalidPassword);
      }
      r := Authenticated(Identity(record.email));
    }
  }
}
