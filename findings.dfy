/**
 * The three credential operations of the service exactly as written, where a
 * missing user or credential is dereferenced and raises a TypeError, set
 * beside the corrected definitions in UserModel that report NotFound.
 */
module Findings {
  import opened UserModel

  /** How a call of the source ends: a value, a service error, or a TypeError from a null dereference. */
  datatype Outcome<T> = Returned(value: T) | Raised(error: Error) | TypeError

  /** getUserPassword as written: reads `user.passwords` without checking that the user exists. */
  function GetUserPasswordAsWritten(users: map<Id, User>, id: Id, pid: Id): (o: Outcome<Option<Credential>>)
    ensures !o.Raised?
    ensures o.TypeError? <==> id !in users
    ensures o.Returned? ==> Ok(o.value) == GetCredential(users, id, pid)
  {
    if id !in users then TypeError
    else
      match FindCredential(users[id].passwords, pid)
      case None => Returned(None)
      case Some(i) => Returned(Some(users[id].passwords[i]))
  }

  /**
   * updateUserPassword as written: reads `user.passwords` without checking the
   * user, then applies `Object.assign` to whatever `find` produced.
   */
  function UpdateUserPasswordAsWritten(users: map<Id, User>, id: Id, pid: Id, patch: CredentialFields): (o: Outcome<User>)
    ensures !o.Raised?
    ensures o.TypeError? <==> id !in users || FindCredential(users[id].passwords, pid).None?
    ensures o.Returned? ==> Ok(o.value) == UpdateCredential(users, id, pid, patch)
  {
    if id !in users then TypeError
    else
      match FindCredential(users[id].passwords, pid)
      case None => TypeError
      case Some(i) =>
        var u := users[id];
        Returned(u.(passwords := u.passwords[i := MergeCredential(u.passwords[i], patch)]))
  }

  /**
   * deleteUserPassword as written: reads `user.passwords` without checking the
   * user; a credential id that matches nothing leaves the list as it was.
   */
  function DeleteUserPasswordAsWritten(users: map<Id, User>, id: Id, pid: Id): (o: Outcome<User>)
    ensures !o.Raised?
    ensures o.TypeError? <==> id !in users
    ensures o.Returned? && FindCredential(users[id].passwords, pid).Some? ==> Ok(o.value) == DeleteCredential(users, id, pid)
  {
    if id !in users then TypeError
    else
      var u := users[id];
      Returned(u.(passwords := RemoveCredentialById(u.passwords, pid)))
  }

  /**
   * As written, deleting a credential id the user does not hold succeeds and
   * leaves the user as it was; only the caller's existence check turns it
   * into NotFound, which DeleteCredential folds in.
   */
  lemma DeleteAbsentCredentialAsWritten(users: map<Id, User>, id: Id, pid: Id)
    requires id in users
    requires FindCredential(users[id].passwords, pid).None?
    ensures DeleteUserPasswordAsWritten(users, id, pid) == Returned(users[id])
    ensures DeleteCredential(users, id, pid) == Err(NotFound)
  {
    RemoveAbsentIsIdentity(users[id].passwords, pid);
  }

  /** A user with no credentials, stored under id 1. */
  function SampleTable(): map<Id, User> {
    map[1 := User("a@x.com", "p", "A", UserRole, [])]
  }

  /**
   * For an id with no user, all three credential operations fault as
   * written, while the corrected definitions report NotFound.
   */
  lemma MissingUserFaultsAsWritten(pid: Id, patch: CredentialFields)
    ensures 2 !in SampleTable()
    ensures GetUserPasswordAsWritten(SampleTable(), 2, pid) == TypeError
    ensures UpdateUserPasswordAsWritten(SampleTable(), 2, pid, patch) == TypeError
    ensures DeleteUserPasswordAsWritten(SampleTable(), 2, pid) == TypeError
    ensures GetCredential(SampleTable(), 2, pid) == Err(NotFound)
    ensures UpdateCredential(SampleTable(), 2, pid, patch) == Err(NotFound)
    ensures DeleteCredential(SampleTable(), 2, pid) == Err(NotFound)
  {
  }

  /**
   * For an existing user and a credential id it does not hold, updateUserPassword
   * faults as written, while the corrected definition reports NotFound.
   */
  lemma MissingCredentialFaultsAsWritten(patch: CredentialFields)
    ensures 1 in SampleTable() && FindCredential(SampleTable()[1].passwords, 7).None?
    ensures UpdateUserPasswordAsWritten(SampleTable(), 1, 7, patch) == TypeError
    ensures UpdateCredential(SampleTable(), 1, 7, patch) == Err(NotFound)
  {
  }
}
