/**
 * The user service over a mutable store. Each method follows the source
 * operation step by step (look the user up, check, change the record,
 * save it) and is proved against the specification functions of UserModel.
 */
module UserService {
  import opened UserModel

  /** The store of user documents: a table keyed by id and the next id to hand out. */
  class UserStore {
    var users: map<Id, User>
    var nextId: Id

    /** Emails are unique, credential ids are unique within each user, and issued ids lie below `nextId`. */
    ghost predicate Valid()
      reads this
    {
      ValidTable(users) && forall id :: id in users ==> id < nextId
    }

    constructor ()
      ensures Valid() && users == map[]
    {
      users := map[];
      nextId := 0;
    }

    /**
     * createUser: a Conflict, with nothing stored, when the email is taken;
     * otherwise exactly one new user, with no credentials, under a fresh id.
     */
    method CreateUser(body: NewUser) returns (r: Result<Entry>)
      requires Valid()
      modifies this
      ensures Valid()
      ensures r.Err? <==> EmailTaken(old(users), body.email, None)
      ensures r.Err? ==> r.error == Conflict && users == old(users)
      ensures r.Ok? ==>
        r.value.id !in old(users) && r.value.user == NewRecord(body) &&
        users == old(users)[r.value.id := r.value.user] &&
        GetUserByEmail(users, body.email) == Some(r.value)
    {
      if EmailTaken(users, body.email, None) {
        return Err(Conflict);
      }
      var id := nextId;
      var user := NewRecord(body);
      CreatePreservesValid(users, id, body);
      users := users[id := user];
      nextId := nextId + 1;
      r := Ok(Entry(id, user));
    }

    /**
     * updateUserById: NotFound or Conflict with nothing changed, or the
     * updated record, stored under `id`, as UpdateUser describes it.
     */
    method UpdateUserById(id: Id, patch: UserPatch) returns (r: Result<User>)
      requires Valid()
      requires patch.email != Some("")
      requires patch.passwords != Some([])
      modifies this
      ensures Valid()
      ensures r == UpdateUser(old(users), id, patch)
      ensures users == if r.Ok? then old(users)[id := r.value] else old(users)
    {
      if id !in users {
        return Err(NotFound);
      }
      var user := users[id];
      if Truthy(patch.email) && EmailTaken(users, patch.email.value, Some(id)) {
        return Err(Conflict);
      }
      if patch.passwords.Some? {
        user := AppendCredential(user, patch.passwords.value[0]);
      } else {
        user := AssignFields(user, patch);
      }
      UpdatePreservesValid(users, id, patch);
      users := users[id := user];
      r := Ok(user);
    }

    /**
     * deleteUserById: NotFound for a missing id; otherwise the removed
     * record, with its credentials gone and every other user untouched.
     */
    method DeleteUserById(id: Id) returns (r: Result<User>)
      requires Valid()
      modifies this
      ensures Valid()
      ensures r.Ok? <==> id in old(users)
      ensures r.Err? ==> r.error == NotFound && users == old(users)
      ensures r.Ok? ==> r.value == old(users)[id] && users == old(users) - {id}
      ensures GetUserById(users, id) == None
      ensures forall other :: other != id ==> GetUserById(users, other) == GetUserById(old(users), other)
    {
      if id !in users {
        return Err(NotFound);
      }
      var user := users[id];
      users := users - {id};
      r := Ok(user);
    }

    /**
     * updateUserPassword: NotFound for a missing user or credential;
     * otherwise the user with the matched credential's present fields
     * overwritten, as UpdateCredential describes it.
     */
    method UpdateUserPassword(id: Id, pid: Id, patch: CredentialFields) returns (r: Result<User>)
      requires Valid()
      modifies this
      ensures Valid()
      ensures r == UpdateCredential(old(users), id, pid, patch)
      ensures users == if r.Ok? then old(users)[id := r.value] else old(users)
    {
      if id !in users {
        return Err(NotFound);
      }
      var user := users[id];
      var found := FindCredential(user.passwords, pid);
      if found.None? {
        return Err(NotFound);
      }
      var i := found.value;
      user := user.(passwords := user.passwords[i := MergeCredential(user.passwords[i], patch)]);
      UpdateCredentialPreservesValid(users, id, pid, patch);
      users := users[id := user];
      r := Ok(user);
    }

    /**
     * deleteUserPassword, after the caller's existence check: NotFound for a
     * missing user or credential; otherwise the user without that credential.
     */
    method DeleteUserPassword(id: Id, pid: Id) returns (r: Result<User>)
      requires Valid()
      modifies this
      ensures Valid()
      ensures r == DeleteCredential(old(users), id, pid)
      ensures users == if r.Ok? then old(users)[id := r.value] else old(users)
      ensures r.Ok? ==> GetCredential(users, id, pid) == Ok(None)
    {
      if id !in users {
        return Err(NotFound);
      }
      var user := users[id];
      if FindCredential(user.passwords, pid).None? {
        return Err(NotFound);
      }
      user := user.(passwords := RemoveCredentialById(user.passwords, pid));
      DeleteCredentialPreservesValid(users, id, pid);
      users := users[id := user];
      r := Ok(user);
    }
  }

  /**
   * A client: one user and one credential through their whole lifecycle,
   * with every outcome following from the contracts above.
   */
  method Lifecycle() {
    var store := new UserStore();
    var created := store.CreateUser(NewUser("a@x.com", "p", "A", UserRole));
    var id := created.value.id;
    assert store.users[id].email == "a@x.com";

    var again := store.CreateUser(NewUser("a@x.com", "q", "B", AdminRole));
    assert again == Err(Conflict);

    var site := CredentialFields(Some("site.com"), Some("secret"));
    var added := store.UpdateUserById(id, UserPatch(None, None, None, None, Some([site])));
    assert added.Ok? && |added.value.passwords| == 1;
    assert added.value.passwords[0].website == Some("site.com");
    var cid := added.value.passwords[0].id;

    var updated := store.UpdateUserPassword(id, cid, CredentialFields(None, Some("new")));
    assert updated.Ok? && updated.value.passwords[0].text == Some("new");
    assert updated.value.passwords[0].website == Some("site.com");

    var deleted := store.DeleteUserPassword(id, cid);
    assert deleted.Ok? && deleted.value.passwords == [];
    assert GetCredential(store.users, id, cid) == Ok(None);

    var gone := store.DeleteUserById(id);
    assert gone.Ok? && GetUserById(store.users, id) == None;
    var twice := store.DeleteUserById(id);
    assert twice == Err(NotFound);
  }
}
