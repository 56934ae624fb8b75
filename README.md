# AuthService of Nest-CRUD, modelled in Dafny

The model covers the credential workflow of the NestJS service `AuthService`:

- **signup** validates the request fields. It rejects an email that is already registered. Otherwise it hashes the password with bcrypt (cost 10), creates the user row, and returns `{ success, message, user }`.
- **login** looks the email up and compares the password with bcrypt. On success it returns a JWT signed over `{ email, sub: id }`. An unknown email and a wrong password give the same `Invalid credentials` response, and any thrown error is turned into `{ success: false, message }`.

The files:

- `results.dfy` (module `Results`): `Option`, and `Outcome`, which is how an awaited call settles (it returns a value or throws a message).
- `prisma_store.dfy` (module `PrismaStore`): the `user` table as a value `Table`, a map from the unique email column to the row plus the next autoincrement id. It holds the table's integrity predicate `Consistent`, the lookup `FindUnique` and the insertion `Insert`. The class `UserDelegate` holds the live table, and its `Create` method changes it in place.
- `auth_workflow.dfy` (module `AuthWorkflow`): the request and response shapes, the messages, and the libraries as values. `Bcrypt` holds uninterpreted `hash` and `compare` functions and `JwtService` an uninterpreted `sign`. `Fault` names the library call, if any, that throws. `Signup` and `Login` are pure functions of the table's value.
- `auth_service.dfy` (module `Service`): the class `AuthService`, whose `Signup` method performs the awaited steps on the live table and is proved to match `AuthWorkflow.Signup`. Login writes nothing, so it is the function `AuthWorkflow.Login` applied to `prisma.Snapshot()`.
- `auth_properties.dfy` (module `AuthProperties`): the properties that relate several calls.

External collaborators become parameters:

- bcrypt's `hash` and `compare`, and the JWT service's `sign`, are arbitrary functions.
- The only thing assumed of bcrypt is `HashVerifies`: a password compares true against any hash of itself. It is a requires clause of the lemmas that need it, not an axiom.
- A library call that throws (Prisma's `findUnique` and `create`, bcrypt's `hash` and `compare`, JWT's `sign`) is chosen by the `Fault` argument. The first throwing call reached ends the operation. In signup nothing catches it, so the promise rejects (`Throws`). In login the `catch` turns it into `{ success: false, message }`.
- A request field that is undefined or null is `None`. JavaScript's `!field` is modelled by `Truthy`: present and not the empty string.

## Model

| member | source | states |
|---|---|---|
| `PrismaStore.FindUnique` | src/auth/auth.service.ts:37-39 | In a consistent table the lookup by email finds nothing exactly when no row has that email; when it finds a row, that row is in the table and carries the email asked for. |
| `PrismaStore.EmailsUnique` | src/auth/auth.service.ts:22-30 | In a consistent table two rows with the same email are the same row: the email column is unique. |
| `PrismaStore.Insert` | src/auth/auth.service.ts:28-30 | Creating a row for an email no row has keeps the table consistent. It adds exactly that one key, with the given email, password and name and an id no existing row has, and leaves every existing row as it was. |
| `PrismaStore.UserDelegate.Create` | src/auth/auth.service.ts:28-30 | Creating a row in the live table either throws the unique-constraint error and changes nothing, when the email is taken, or moves the table to `Insert` of its old value and returns the created row. The table stays consistent. |
| `AuthWorkflow.Signup` | src/auth/auth.service.ts:15-33 | A missing or empty email, password or name gives `success: false` with 'Please provide all the required fields'. A taken email gives 'User already exists'. In both cases the table is unchanged. Signup succeeds exactly when all fields are given, the email is new and no store or hash call throws. On success the message is 'User registered successfully!'. The returned user has the input email and name, the password `hash(password, 10)` and a fresh id, and the table gains exactly that row. A lookup that throws, or, for a new email, a hash or create that throws, makes signup reject with that error's message and leaves the table unchanged; every rejection carries the thrown message. The table stays consistent. |
| `AuthWorkflow.Login` | src/auth/auth.service.ts:35-56 | Login succeeds exactly when the lookup does not throw, a user with the email exists, `compare(password, user.password)` holds, and neither compare nor sign throws. Then the message is 'Login successful' and the token is `sign({ email, sub: user.id })`. When the lookup throws, or the compare of a found user throws, or the sign after a matching compare throws, the response is `{ success: false, message }` with the thrown error's message and no token. When the lookup does not throw and either no user has the email, or the compare does not throw and fails, the response is exactly `{ success: false, message: 'Invalid credentials' }`, whatever later call the fault names. Without a thrown error every failure is exactly `{ success: false, message: 'Invalid credentials' }`. |
| `Service.AuthService.constructor` | src/auth/auth.service.ts:10-13 | The service keeps the Prisma client and the JWT service it is given, and the bcrypt functions, which the source imports as a module and the model passes in as a third parameter, and is valid when the table is consistent. |
| `Service.AuthService.Signup` | src/auth/auth.service.ts:15-33 | Performing signup's steps on the live table leaves it consistent. The new table and the way the call settles are exactly those `AuthWorkflow.Signup` gives for the old table. |
| `AuthProperties.LoginFailuresIndistinguishable` | src/auth/auth.service.ts:41-43 | When neither the lookup nor the compare throws, login with an unknown email and login with a known email whose password does not compare give the identical response `{ success: false, message: 'Invalid credentials' }`. |
| `AuthProperties.SignupThenLogin` | src/auth/auth.service.ts:27-51 | If bcrypt verifies its own hashes, then after a successful signup a login with the same email and password succeeds. Its token signs the new row's email and id. |
| `AuthProperties.SignupAll` | src/auth/auth.service.ts:22-30 | Handling signup requests one after another keeps the table consistent after every step. No step removes or alters a row of the table before the first request, and no step removes or alters a row of the table the step before it left. |
| `AuthProperties.TakenStaysTaken` | src/auth/auth.service.ts:22-25 | Once an email is in the table, every further complete request for it whose lookup does not throw gets 'User already exists' and leaves the table as it is. |
| `AuthProperties.RepeatedSignupRegistersOnce` | src/auth/auth.service.ts:22-32 | Fault-free signups for one new email, handled in turn, register it exactly once. The first succeeds, every later one gets 'User already exists', and the table ends with exactly one new key. |
| `AuthProperties.RegisteredUserCanLogIn` | src/auth/auth.service.ts:27-51 | If bcrypt verifies its own hashes, a user who signed up can still log in after any number of later signups, with a token for the same email and id. |

Login never changes the table: it is a function of the table's value, and no method models it.

## Left out

- The HTTP controller (`src/auth/auth.controller.ts`) is transport plumbing and is not part of this model. It answers 201 even when `success` is false.
- The module wiring (`src/auth/auth.module.ts`) is not part of this model. That includes the JWT secret and the one-hour expiry. Token contents, signing and expiry happen inside the JWT library, and `sign` is an arbitrary function of the payload.
- bcrypt's algorithm, salting and timing are not modelled. `hash` is a function of the password and the cost 10, so the model's hash is deterministic. Only `HashVerifies` is assumed of `compare`.
- Prisma's engine and schema are not part of this model. Ids are modelled as autoincrement naturals starting at 1. The `createdAt` and `updatedAt` columns are left out. The message of the unique-constraint error is a stand-in, because it is Prisma's wording.
- Concurrency is not modelled. Each call is atomic, so the race between the lookup at `auth.service.ts:22` and the create at `auth.service.ts:28` cannot be expressed. In the sequential model `Create`'s unique-constraint branch is unreachable from signup; `AuthService.Signup` still lets a throwing create reject the call, as the source does.
- Login request fields are plain strings. An undefined login field reaches Prisma or bcrypt, which throw; the model covers that only through the `Fault` argument.
- A thrown value without a `message` is not modelled. Every thrown error carries a string message.
- The tests in `src/auth/auth.spec.ts` expect signup and login to reject with 'User already exists' and 'Invalid credentials'. The service as written resolves with `{ success: false, ... }` objects instead, and the model follows the service.
- Uniqueness rests on the lookup at `auth.service.ts:22` followed by a separate create at `auth.service.ts:28`, not on one atomic insert. The model follows the code.
- Signup returns the whole created row, password hash included (`auth.service.ts:32`). So does the model.
- No dummy hash is compared for an unknown email. The code does not do it, so the model does not either.
