/**
 * Properties of registration and login that relate several calls: the
 * register-then-login round trip, the refusal of a second registration, the
 * credential-record invariant and its preservation over any history of
 * registrations.
 */
module AuthProperties {
  import opened Users
  import opened Auth

  /** The store after performing one registration. */
  function After(users: Store, hash: Hasher, email: string, password: string, salt: string): Store
  {
    Replay(users, Register(users, hash, email, password, salt).calls)
  }

  /** Round trip: once registration succeeds, login with the same password returns that email. */
  lemma RegisterThenLogin(users: Store, hash: Hasher, email: string, password: string, salt: string)
    requires Register(users, hash, email, password, salt).outcome.Pass?
    ensures Authenticate(After(users, hash, email, password, salt), hash, email, password)
         == Authenticated(Identity(email))
  {
  }

  /** Login after registration fails with InvalidPassword exactly when the other password hashes differently. */
  lemma OtherPasswordAfterRegister(users: Store, hash: Hasher, email: string, password: string, salt: string,
                                   other: string)
    requires Register(users, hash, email, password, salt).outcome.Pass?
    ensures Authenticate(After(users, hash, email, password, salt), hash, email, other)
         == if hash(salt + other) == hash(salt + password) then Authenticated(Identity(email))
            else Rejected(InvalidPassword)
  {
  }

  /** Registering the same email again is refused, whatever the password, and writes nothing. */
  lemma SecondRegistrationRefused(users: Store, hash: Hasher, email: string, password: string, salt: string,
                                  password2: string, salt2: string)
    requires Register(users, hash, email, password, salt).outcome.Pass?
    ensures Register(After(users, hash, email, password, salt), hash, email, password2, salt2)
         == Registration(Fail(UserAlreadyExists), [Find(email)])
  {
  }

  /** Every record is stored under its own email. */
  predicate KeyedByEmail(users: Store)
  {
    forall k :: k in users ==> users[k].email == k
  }

  /** In a store keyed by email, login returns the email it was asked for. */
  lemma LoginReturnsRequestedEmail(users: Store, hash: Hasher, email: string, password: string)
    requires KeyedByEmail(users)
    ensures Authenticate(users, hash, email, password).Authenticated?
        ==> Authenticate(users, hash, email, password).identity == Identity(email)
  {
  }

  /**
   * The credential-record invariant, relative to the passwords given at
   * registration (`passwords`, which only proofs see): the store holds exactly
   * the registered emails, each record under its own email, with the hash of
   * its salt followed by that password.
   */
  ghost predicate Consistent(users: Store, hash: Hasher, passwords: map<string, string>)
  {
    && users.Keys == passwords.Keys
    && KeyedByEmail(users)
    && forall k :: k in users ==> users[k].hash == hash(users[k].salt + passwords[k])
  }

  /** A consistent store lets every registered user log in with the password they registered. */
  lemma ConsistentLogin(users: Store, hash: Hasher, passwords: map<string, string>, email: string)
    requires Consistent(users, hash, passwords)
    requires email in passwords
    ensures Authenticate(users, hash, email, passwords[email]) == Authenticated(Identity(email))
  {
  }

  /** One registration attempt: the request and the salt `getSalt()` gave it. */
  datatype Signup = Signup(email: string, password: string, salt: string)

  /** The store after the registration attempts in `signups`, performed one after another. */
  function RegisterAll(users: Store, hash: Hasher, signups: seq<Signup>): Store
    decreases |signups|
  {
    if signups == [] then users
    else
      var s := signups[0];
      RegisterAll(After(users, hash, s.email, s.password, s.salt), hash, signups[1..])
  }

  /** The registration-time passwords after `signups`: each successful attempt adds its own. */
  ghost function PasswordsAfter(users: Store, hash: Hasher, passwords: map<string, string>,
                                signups: seq<Signup>): map<string, string>
    decreases |signups|
  {
    if signups == [] then passwords
    else
      var s := signups[0];
      var reg := Register(users, hash, s.email, s.password, s.salt);
      PasswordsAfter(After(users, hash, s.email, s.password, s.salt), hash,
                     if reg.outcome.Pass? then passwords[s.email := s.password] else passwords,
                     signups[1..])
  }

  /** One registration attempt, successful or not, keeps the invariant. */
  lemma RegisterKeepsConsistent(users: Store, hash: Hasher, passwords: map<string, string>,
                                email: string, password: string, salt: string)
    requires Consistent(users, hash, passwords)
    ensures Register(users, hash, email, password, salt).outcome.Pass?
        ==> Consistent(After(users, hash, email, password, salt), hash, passwords[email := password])
    ensures Register(users, hash, email, password, salt).outcome.Fail?
        ==> Consistent(After(users, hash, email, password, salt), hash, passwords)
  {
  }

  /** Any history of registrations keeps the invariant. */
  lemma {:induction false} HistoryKeepsConsistent(users: Store, hash: Hasher, passwords: map<string, string>,
                                                  signups: seq<Signup>)
    requires Consistent(users, hash, passwords)
    ensures Consistent(RegisterAll(users, hash, signups), hash, PasswordsAfter(users, hash, passwords, signups))
    decreases |signups|
  {
    if signups != [] {
      var s := signups[0];
      RegisterKeepsConsistent(users, hash, passwords, s.email, s.password, s.salt);
      var reg := Register(users, hash, s.email, s.password, s.salt);
      HistoryKeepsConsistent(After(users, hash, s.email, s.password, s.salt), hash,
                             if reg.outcome.Pass? then passwords[s.email := s.password] else passwords,
                             signups[1..]);
    }
  }

  /** A record, once stored, is never replaced or removed by later registrations. */
  lemma {:induction false} RecordsNeverChange(users: Store, hash: Hasher, signups: seq<Signup>, email: string)
    requires email in users
    ensures email in RegisterAll(users, hash, signups)
    ensures RegisterAll(users, hash, signups)[email] == users[email]
    decreases |signups|
  {
    if signups != [] {
      var s := signups[0];
      RecordsNeverChange(After(users, hash, s.email, s.password, s.salt), hash, signups[1..], email);
    }
  }

  /** After any history, every user in the store logs in with the password they registered. */
  lemma EveryRegisteredUserCanLogIn(users: Store, hash: Hasher, passwords: map<string, string>,
                                    signups: seq<Signup>, email: string)
    requires Consistent(users, hash, passwords)
    requires email in RegisterAll(users, hash, signups)
    ensures email in PasswordsAfter(users, hash, passwords, signups)
    ensures Authenticate(RegisterAll(users, hash, signups), hash, email,
                         PasswordsAfter(users, hash, passwords, signups)[email])
         == Authenticated(Identity(email))
  {
    HistoryKeepsConsistent(users, hash, passwords, signups);
    ConsistentLogin(RegisterAll(users, hash, signups), hash, PasswordsAfter(users, hash, passwords, signups), email);
  }

  /**
   * A session on an empty store: "a@b.com" registers with "longenough1", logs
   * in with it, and is refused with "wrong" when that hashes differently.
   */
  lemma ExampleSession(hash: Hasher, salt: string)
    requires hash(salt + "wrong") != hash(salt + "longenough1")
    ensures Register(map[], hash, "a@b.com", "longenough1", salt).outcome == Pass
    ensures Authenticate(After(map[], hash, "a@b.com", "longenough1", salt), hash, "a@b.com", "longenough1")
         == Authenticated(Identity("a@b.com"))
    ensures Authenticate(After(map[], hash, "a@b.com", "longenough1", salt), hash, "a@b.com", "wrong")
         == Rejected(InvalidPassword)
  {
  }
}
