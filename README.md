# User aggregate service — a Dafny model

This project models the user service of a small account backend
(`src/services/user.service.js`). The service keeps a table of users keyed by
id. Each user has four scalar fields (`email`, `name`, `role`, `password`) and
an ordered list of per-site credentials (`passwords`). Each credential has an
`id`, a `website` and a `text`.

The model has three modules:

- `UserModel` (`user_model.dfy`) holds the values (`User`, `Credential`, the
  request bodies `NewUser`, `UserPatch`, `CredentialFields`) and the table
  invariant `ValidTable`: emails are unique across users, and credential ids
  are unique within one user. It also holds the lookups (`GetUserById`,
  `GetUserByEmail`, `GetCredential`). Each write is specified as a function of
  the table before the write (`UpdateUser`, `UpdateCredential`,
  `DeleteCredential`). The lemmas prove that every write keeps `ValidTable`
  and that removing a credential keeps the others in order.
- `UserService` (`user_service.dfy`) holds the class `UserStore`. Its `users`
  map stands in for the document store and its `nextId` counter hands out
  user ids. Each method follows the source operation step by step: look the
  user up, check, change the record, save it. Each method is proved against
  the `UserModel` function of the same operation and keeps `Valid()`.
  `Lifecycle` is a client that creates one user and runs one credential
  through append, update and delete. It then deletes the user twice, and it
  proves every outcome from the contracts alone.
- `Findings` (`findings.dfy`) models the three credential operations exactly
  as written, including the null dereferences, next to the corrected
  definitions.

Error results are `Err(NotFound)` for the source's 404 "not found" and
`Err(Conflict)` for its 400 "Email already taken". Read operations return an
`Option`, where `None` means absent.

Two behaviours of the code are kept as written:

- `deleteUserPassword` returns the parent user, not the removed credential
  (src/services/user.service.js:129).
- The email-conflict check (src/services/user.service.js:61-63) runs before
  the update mode is chosen. So an append whose patch carries an email held
  by another user fails with Conflict.

The model keeps JavaScript truthiness where the source tests a field
(`updateBody.email && …`).

## Model

| member | source | states |
|---|---|---|
| UserModel.GetUserById | src/services/user.service.js:37-39 | a user is returned exactly when the id is stored, and it is the stored record; otherwise the absent sentinel |
| UserModel.GetUserByEmail | src/services/user.service.js:46-48 | a user is returned exactly when some user holds the email; it is stored under the returned id and holds that email (unique by the table invariant) |
| UserModel.FindCredential | src/services/user.service.js:99 | the index returned is that of the first credential with the requested id; none is returned only when no credential has that id |
| UserModel.GetCredential | src/services/user.service.js:97-102 | NotFound exactly when the user is missing, and no other error; otherwise the first credential with the id, or absent exactly when no credential has it |
| UserModel.CreatePreservesValid | src/services/user.service.js:11-16 | storing a new user whose email nobody holds, under an unused id, keeps emails unique; getUserByEmail then finds exactly that user |
| UserService.UserStore.CreateUser | src/services/user.service.js:11-16 | Conflict with the table unchanged exactly when the email is taken; otherwise exactly one user is added under a fresh id, carrying the body's email, password, name and role and an empty credential list; getUserByEmail then finds it, and the invariant holds |
| UserModel.FreshCredentialId | src/services/user.service.js:67 | the id given to an appended credential exceeds, and so differs from, every sibling credential id |
| UserModel.UpdateUser | src/services/user.service.js:56-75 | NotFound exactly when the user is missing; Conflict exactly when a truthy patch email is held by another user, in either mode; in append mode one credential carrying the first element's fields is added at the end under a fresh id, earlier credentials and all scalars unchanged; otherwise each present field overwrites, absent fields and credentials unchanged |
| UserModel.OwnEmailIsNoConflict | src/services/user.service.js:61-63 | a user's own current email is never reported as taken by the exclude-self check |
| UserModel.AppendPreservesUnique | src/services/user.service.js:65-68 | appending a credential keeps credential ids distinct within the user |
| UserModel.UpdatePreservesValid | src/services/user.service.js:56-75 | a successful update keeps emails unique across users and credential ids distinct |
| UserService.UserStore.UpdateUserById | src/services/user.service.js:56-75 | the result is UpdateUser's, the record is stored only on success, and the table invariant holds |
| UserService.UserStore.DeleteUserById | src/services/user.service.js:82-89 | NotFound, with nothing changed, exactly when the id is missing; otherwise returns the removed record; afterwards getUserById on that id is absent and every other user is unchanged |
| UserModel.UpdateCredential | src/services/user.service.js:111-118 | NotFound when the user or the credential is missing; otherwise only the matched credential changes, its id kept and its present website/text fields overwritten; the other credentials and the scalars are unchanged |
| UserModel.UpdateCredentialPreservesValid | src/services/user.service.js:111-118 | a credential update keeps the table invariant |
| UserService.UserStore.UpdateUserPassword | src/services/user.service.js:111-118 | the result is UpdateCredential's, the record is stored only on success, and the table invariant holds |
| UserModel.RemoveCredentialById | src/services/user.service.js:127 | the pull drops every credential with that id and keeps every other one |
| UserModel.RemoveAbsentIsIdentity | src/services/user.service.js:127 | pulling an id that no credential has leaves the list unchanged |
| UserModel.RemoveIsSplice | src/services/user.service.js:127 | with distinct ids, pulling the credential at index i yields the list before i followed by the list after i, so the order is kept |
| UserModel.RemovePreservesUnique | src/services/user.service.js:127 | pulling keeps the remaining credential ids distinct |
| UserModel.DeleteCredential | src/services/user.service.js:125-130 | NotFound exactly when the user or the credential is missing; otherwise the list shrinks, no credential with that id remains, every other credential remains, and the scalars are unchanged |
| UserModel.DeleteCredentialIsSplice | src/services/user.service.js:125-130 | in a valid user, deletion removes exactly the matched credential and keeps the rest in their original order |
| UserModel.DeleteCredentialPreservesValid | src/services/user.service.js:125-130 | a credential deletion keeps the table invariant |
| UserModel.DeleteCredentialTwice | src/services/user.service.js:125-130 | after a deletion, reading that credential gives absent and deleting it again gives NotFound |
| UserService.UserStore.DeleteUserPassword | src/services/user.service.js:125-130 | the result is DeleteCredential's, the record is stored only on success, the table invariant holds, and the credential is absent afterwards |
| Findings.GetUserPasswordAsWritten | src/services/user.service.js:97-102 | as written, the call never raises a service error and faults exactly when the user is missing; otherwise it agrees with GetCredential |
| Findings.UpdateUserPasswordAsWritten | src/services/user.service.js:111-118 | as written, the call never raises a service error and faults exactly when the user or the credential is missing; otherwise it agrees with UpdateCredential |
| Findings.DeleteUserPasswordAsWritten | src/services/user.service.js:125-130 | as written, the call never raises a service error and faults exactly when the user is missing; when the credential exists it agrees with DeleteCredential |
| Findings.DeleteAbsentCredentialAsWritten | src/controllers/user.controller.js:60-68 | as written, deleting a credential the user does not hold returns the user unchanged; the 404 comes from the caller's existence check, which DeleteCredential folds in |
| Findings.MissingUserFaultsAsWritten | src/services/user.service.js:112-113 | for a missing user, all three credential operations fault as written, and the corrected ones report NotFound |
| Findings.MissingCredentialFaultsAsWritten | src/services/user.service.js:113-114 | for an existing user and an unknown credential id, the update faults as written, and the corrected one reports NotFound |

## Findings

| source | as written | input that shows it | evidently intended | confidence | as-written member | corrected member |
|---|---|---|---|---|---|---|
| src/services/user.service.js:112-113 | `user.passwords` is read with no check that `findById` found a user; lines 98-99 and 126-127 do the same. The TypeError reaches the client as a 500, and the controller's `!user` check at src/controllers/user.controller.js:53 never runs | a user id that is not stored, e.g. id 2 in a table holding only id 1 | NotFound (404) | high; not executed | Findings.MissingUserFaultsAsWritten | UserModel.UpdateCredential |
| src/services/user.service.js:113-114 | `Object.assign` is applied to the result of `find`, which is `undefined` when no credential matches; it throws a TypeError | an existing user with no credentials and credential id 7 | NotFound (404) | high; not executed | Findings.MissingCredentialFaultsAsWritten | UserModel.UpdateCredential |

`UserModel.GetCredential` and `UserModel.DeleteCredential` apply the same
correction for the other two operations. The service model uses the corrected
definitions throughout.

## Left out

- `queryUsers` (src/services/user.service.js:27-30): filtering, sorting and page arithmetic happen inside a pagination plugin of the document store, which is not part of this model.
- The document store itself (`User.create`, `findById`, `findOne`, `isEmailTaken`, `save`, `remove`) is replaced by the `users` map of `UserStore`. Store failures, the store's unique index on `email`, and ObjectId formats are not modelled. Ids are natural numbers.
- User ids come from a counter that only grows. Credential ids come from `FreshCredentialId` (one more than the largest sibling id). The model proves that both are unused at the moment they are handed out. The store's actual ObjectId generation is not modelled.
- FreshCredentialId: can hand out the id of a deleted credential again (delete the only credential, id 0, then append: the new one gets id 0). The store's ObjectIds are never reused, so in the source a stale credential id never reaches a later credential. The model does not promise this.
- async/await and the race between the email check and the write: the model runs each operation atomically.
- Password hashing and secret protection are not modelled. `password` is an opaque string.
- The HTTP layer (routing, `catchAsync`, status codes, `pick` of query fields) is not modelled. Only its existence check before deleting a credential (src/controllers/user.controller.js:62-65) is folded in, into `DeleteCredential`. `GetUserById` and `GetCredential` keep the absent sentinel, which the controller maps to 404 (src/controllers/user.controller.js:22-24, 43-45). `GetCredential`'s NotFound for a missing user corrects a fault of the source (see Findings), not a controller check.
- Request validation (src/validations/user.validation.js) is not modelled. Its rules appear as follows:
  - roles are the `Role` type;
  - credential bodies and patches carry only `website`/`text` (`CredentialFields`);
  - `UserStore.UpdateUserById` requires a present email to be non-empty, as `Joi.string().email()` does.
  - The "at least one field" rule is not needed by the service and is not required.
- UserService.UserStore.UpdateUserById: requires a present `passwords` array to be non-empty. The validation schema accepts an empty array, and the source then pushes `undefined`. What the store makes of that depends on its casting rules, which are not part of this model.
- UserModel.UpdateUser: the same non-empty `passwords` requirement, for the same reason.
