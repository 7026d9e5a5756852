# Authentication service model

A Dafny model of the authentication service of the NestJS server
(`nestjs-server/src/services/auth.service.ts`). The service does two things:

- **registration** (`createUser`): checks the email, looks it up in the user
  store, checks the password and stores a record `{email, hash, salt}`;
- **login** (`authenticateUser`): looks the email up, hashes the stored salt
  followed by the given password, compares that with the stored hash and
  returns the stored email.

Files:

- `users.dfy`, module `Users`: the user-record store. Its code is not part of
  this model, so the model assumes a map from email to record. `findByEmail`
  is a lookup and `createUser` is an insert under the record's email. A ghost
  trace records every call made on the store. `Replay` gives the store that
  results from a sequence of calls, and `Writes` gives the records those calls
  write.
- `auth.dfy`, module `Auth`: the error kinds (one per thrown message), the
  email and password checks, and two specification functions. `Register` gives
  the outcome of a registration and the store calls it makes. `Authenticate`
  gives the outcome of a login. The class `AuthService` holds the store and
  the hash function, and its two methods are proved against those functions.
- `auth_properties.dfy`, module `AuthProperties`: properties that relate
  several calls. These are the register-then-login round trip, the refusal of
  a second registration, the credential-record invariant, and that invariant
  holding over any history of registrations.

The password hash function `hashPassword` is an unknown but deterministic
function (`Hasher`) that the service holds. The salt that `getSalt()` returns
is a parameter of registration. Nothing else is assumed about either.

## Model

| member | source | states |
|---|---|---|
| `Users.UserStore.FindByEmail` | nestjs-server/src/services/auth.service.ts:15 | the assumed store lookup returns the record for the email when there is one, leaves the records unchanged and logs one lookup |
| `Users.UserStore.CreateUser` | nestjs-server/src/services/auth.service.ts:37 | the assumed store insert puts the record under its email and logs one write |
| `Users.Replay` | nestjs-server/src/services/auth.service.ts:15-37 | a sequence of store calls with no write leaves the store as it was; afterwards the keys are the old keys plus the emails written |
| `Auth.NewRecord` | nestjs-server/src/services/auth.service.ts:26-54 | the record built at registration (email, hash of the salt followed by the password, salt) is accepted by the login check for the registered password, and accepts another password exactly when the salt followed by it has the same hash |
| `Auth.Register` | nestjs-server/src/services/auth.service.ts:8-38 | success exactly when the email is valid, unknown to the store and the password is long enough; an invalid email fails with InvalidEmail before any store call; otherwise the first call is the lookup; an existing email fails with UserAlreadyExists whatever the password; PasswordTooShort exactly for a valid new email with a short password; exactly one record is written, on success only, and it is the email, the hash of the salt followed by the password, and the salt; the store changes only by that insert |
| `Auth.Authenticate` | nestjs-server/src/services/auth.service.ts:40-55 | UserNotFound exactly when the store has no record for the email; InvalidPassword exactly when the hash of the stored salt followed by the password differs from the stored hash; otherwise it returns the stored email |
| `Auth.AuthService.constructor` | nestjs-server/src/services/auth.service.ts:3-7 | the service holds the given store and hash function |
| `Auth.AuthService.CreateUser` | nestjs-server/src/services/auth.service.ts:8-38 | the method's outcome, its store calls in order, and the store it leaves are those of `Register` on the store as it was before |
| `Auth.AuthService.AuthenticateUser` | nestjs-server/src/services/auth.service.ts:40-55 | the method's result is that of `Authenticate`; the records are unchanged and exactly one lookup is made |
| `AuthProperties.RegisterThenLogin` | nestjs-server/src/services/auth.service.ts:27-54 | after a successful registration, login with the same email and password returns that email |
| `AuthProperties.OtherPasswordAfterRegister` | nestjs-server/src/services/auth.service.ts:27-51 | after registration, another password is refused with InvalidPassword exactly when the hash of the salt followed by it differs from the stored hash |
| `AuthProperties.SecondRegistrationRefused` | nestjs-server/src/services/auth.service.ts:15-18 | registering an already-registered email fails with UserAlreadyExists, whatever the password, after one lookup and with no write |
| `AuthProperties.LoginReturnsRequestedEmail` | nestjs-server/src/services/auth.service.ts:54 | when every record is stored under its own email, login returns the email it was asked for |
| `AuthProperties.ConsistentLogin` | nestjs-server/src/services/auth.service.ts:42-54 | in a store satisfying the credential-record invariant, each registered user logs in with the password they registered |
| `AuthProperties.RegisterKeepsConsistent` | nestjs-server/src/services/auth.service.ts:8-38 | one registration attempt, successful or not, preserves the credential-record invariant; success adds the new password |
| `AuthProperties.HistoryKeepsConsistent` | nestjs-server/src/services/auth.service.ts:8-38 | any sequence of registration attempts preserves the credential-record invariant |
| `AuthProperties.RecordsNeverChange` | nestjs-server/src/services/auth.service.ts:15-18 | once a record is stored, no later registration replaces or removes it |
| `AuthProperties.EveryRegisteredUserCanLogIn` | nestjs-server/src/services/auth.service.ts:26-54 | after any history of registrations, every email in the store logs in with the password it was registered with |
| `AuthProperties.ExampleSession` | nestjs-server/src/services/auth.service.ts:8-55 | "a@b.com" registers with "longenough1" on an empty store, logs in with it, and is refused with "wrong" when that password hashes differently |

## Left out

- Dependency injection (`@Injectable`) and `async`/`Promise`: the operations are plain sequential methods.
- The user store `../db/users` is not part of this model. It is modelled as a map insert and lookup. Nothing is claimed about its atomicity, its uniqueness enforcement or its failures. A store error would propagate out of `createUser` unchanged, and the model has no such path.
- `getSalt` and `hashPassword` (`../helpers/hashPassword`) are not part of this model. The salt is a parameter. The hash is an arbitrary deterministic function.
- Salt uniqueness and collision resistance are not assumed. So the model does not claim that two users with the same password get different hashes. Nor does it claim that every other password is refused: `OtherPasswordAfterRegister` states the refusal in terms of the hashes.
- The race between two concurrent registrations of the same email (lookup then insert) is concurrency and is not modelled.
- JavaScript `null`/`undefined` inputs are not modelled. Inputs are strings, and the empty string fails the length checks as `!user.email` and `!user.password` would.
- `.length` counts UTF-16 code units. The model uses the length of a Dafny string.
- `Users.UserStore.FindByEmail`: the record is returned by value. JavaScript object aliasing between the store and its caller is not modelled.
