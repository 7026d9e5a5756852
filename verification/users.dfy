/**
 * The user-record store behind the authentication service (`../db/users`).
 * Its implementation is not part of this model: it is assumed to behave as a
 * map from email to record, where `findByEmail` is a lookup and `createUser`
 * an insert keyed by the record's email. Every call made on the store is
 * appended to a ghost trace, so that callers can state which lookups and
 * which writes an operation performed, and in what order.
 */
module Users {

  /** A persisted credential record: the email, the salted hash and the salt. */
  datatype User = User(email: string, hash: string, salt: string)

  type Store = map<string, User>

  datatype Option<T> = None | Some(value: T)

  /** One call on the store, as recorded in its trace. */
  datatype StoreCall = Find(email: string) | Insert(user: User)

  /** The records written by a sequence of store calls, in order. */
  function Writes(calls: seq<StoreCall>): seq<User>
  {
    if calls == [] then []
    else (if calls[0].Insert? then [calls[0].user] else []) + Writes(calls[1..])
  }

  /** The emails that a sequence of store calls writes a record for. */
  function WrittenKeys(calls: seq<StoreCall>): set<string>
  {
    set u | u in Writes(calls) :: u.email
  }

  /**
   * The store reached by performing `calls` in order on `users`. Lookups leave
   * the store as it is; the keys afterwards are the old keys plus those written.
   */
  function Replay(users: Store, calls: seq<StoreCall>): (r: Store)
    ensures Writes(calls) == [] ==> r == users
    ensures r.Keys == users.Keys + WrittenKeys(calls)
    decreases |calls|
  {
    if calls == [] then users
    else
      var rest := calls[1..];
      assert Writes(calls) == (if calls[0].Insert? then [calls[0].user] else []) + Writes(rest);
      match calls[0]
      case Find(_) => Replay(users, rest)
      case Insert(u) =>
        var r := Replay(users[u.email := u], rest);
        assert WrittenKeys(calls) == {u.email} + WrittenKeys(rest);
        r
  }

  /** The store: a map from email to record, with the ghost trace of calls made on it. */
  class UserStore {
    var users: Store
    ghost var trace: seq<StoreCall>

    constructor (initial: Store)
      ensures users == initial && trace == []
    {
      users := initial;
      trace := [];
    }

    /** `findByEmail`: the record stored under `email`, if any. */
    method FindByEmail(email: string) returns (found: Option<User>)
      modifies this`trace
      ensures found.Some? <==> email in users
      ensures found.Some? ==> found.value == users[email]
      ensures trace == old(trace) + [Find(email)]
      ensures users == Replay(old(users), [Find(email)])
    {
      found := if email in users then Some(users[email]) else None;
      trace := trace + [Find(email)];
    }

    /** `createUser`: stores `user` under its own email. */
    method CreateUser(user: User)
      modifies this
      ensures users == old(users)[user.email := user]
      ensures users == Replay(old(users), [Insert(user)])
      ensures trace == old(trace) + [Insert(user)]
    {
      users := users[user.email := user];
      trace := trace + [Insert(user)];
    }
  }
}
