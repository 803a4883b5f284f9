/**
 * The user aggregate: a table of users keyed by id, each user owning an
 * ordered sequence of per-site credentials. This module holds the values,
 * the pure read operations of the user service and the specification of
 * each of its writes as a function of the table before the write.
 */
module UserModel {

  type Id = nat

  datatype Option<T> = None | Some(value: T)

  /** The two failures the service raises: 404 "not found", 400 "Email already taken". */
  datatype Error = NotFound | Conflict

  datatype Result<T> = Ok(value: T) | Err(error: Error)

  datatype Role = UserRole | AdminRole

  /** A credential embedded in its user's `passwords` list. */
  datatype Credential = Credential(id: Id, website: Option<string>, text: Option<string>)

  /** The optional `website`/`text` pair: the body of a new credential and of a credential patch. */
  datatype CredentialFields = CredentialFields(website: Option<string>, text: Option<string>)

  /** A stored user; `password` is the account secret, opaque to the service. */
  datatype User = User(email: string, password: string, name: string, role: Role, passwords: seq<Credential>)

  /** The body accepted by createUser. */
  datatype NewUser = NewUser(email: string, password: string, name: string, role: Role)

  /** The body accepted by updateUserById; a `None` field is absent from the request. */
  datatype UserPatch = UserPatch(
    email: Option<string>,
    password: Option<string>,
    name: Option<string>,
    role: Option<Role>,
    passwords: Option<seq<CredentialFields>>)

  /** A user together with the id it is stored under. */
  datatype Entry = Entry(id: Id, user: User)

  // ---------------------------------------------------------------------
  // Invariants of the table

  ghost predicate EmailsUnique(users: map<Id, User>) {
    forall a, b :: a in users && b in users && users[a].email == users[b].email ==> a == b
  }

  ghost predicate CredentialIdsUnique(creds: seq<Credential>) {
    forall i, j :: 0 <= i < j < |creds| ==> creds[i].id != creds[j].id
  }

  /** What holds of the table after every completed write. */
  ghost predicate ValidTable(users: map<Id, User>) {
    EmailsUnique(users) && forall id :: id in users ==> CredentialIdsUnique(users[id].passwords)
  }

  /** The scalar fields of two user records agree. */
  predicate SameScalars(u: User, v: User) {
    u.email == v.email && u.password == v.password && u.name == v.name && u.role == v.role
  }

  // ---------------------------------------------------------------------
  // Lookups

  /** The store's `isEmailTaken(email, excludeUserId)`: some user other than `exclude` holds `email`. */
  predicate EmailTaken(users: map<Id, User>, email: string, exclude: Option<Id>) {
    exists id :: id in users && users[id].email == email && exclude != Some(id)
  }

  /** getUserById: the stored user, or nothing. */
  function GetUserById(users: map<Id, User>, id: Id): (r: Option<User>)
    ensures r.Some? <==> id in users
    ensures r.Some? ==> r.value == users[id]
  {
    if id in users then Some(users[id]) else None
  }

  /** getUserByEmail: the one user holding `email`, or nothing. */
  function GetUserByEmail(users: map<Id, User>, email: string): (r: Option<Entry>)
    requires EmailsUnique(users)
    ensures r.Some? <==> EmailTaken(users, email, None)
    ensures r.Some? ==> r.value.id in users && users[r.value.id] == r.value.user && r.value.user.email == email
  {
    if EmailTaken(users, email, None) then
      var id :| id in users && users[id].email == email;
      Some(Entry(id, users[id]))
    else
      None
  }

  /** The index of the first credential whose id is `pid` (`Array.prototype.find`). */
  function FindCredential(creds: seq<Credential>, pid: Id): (r: Option<nat>)
    ensures r.Some? ==> r.value < |creds| && creds[r.value].id == pid
    ensures r.Some? ==> forall j :: 0 <= j < r.value ==> creds[j].id != pid
    ensures r.None? ==> forall j :: 0 <= j < |creds| ==> creds[j].id != pid
  {
    if |creds| == 0 then None
    else if creds[0].id == pid then Some(0)
    else
      match FindCredential(creds[1..], pid)
      case None => None
      case Some(k) => Some(k + 1)
  }

  /**
   * getUserPassword: fails with NotFound when the user is missing; otherwise
   * the first credential with id `pid`, or the absent sentinel.
   */
  function GetCredential(users: map<Id, User>, id: Id, pid: Id): (r: Result<Option<Credential>>)
    ensures r == Err(NotFound) <==> id !in users
    ensures r.Err? ==> r.error == NotFound
    ensures r.Ok? ==> (r.value.None? <==> forall j :: 0 <= j < |users[id].passwords| ==> users[id].passwords[j].id != pid)
    ensures r.Ok? && r.value.Some? ==>
      r.value.value.id == pid &&
      exists i :: 0 <= i < |users[id].passwords| && users[id].passwords[i] == r.value.value &&
        forall j :: 0 <= j < i ==> users[id].passwords[j].id != pid
  {
    if id !in users then Err(NotFound)
    else
      match FindCredential(users[id].passwords, pid)
      case None => Ok(None)
      case Some(i) => Ok(Some(users[id].passwords[i]))
  }

  // ---------------------------------------------------------------------
  // createUser

  /** The record `User.create` stores: the body's fields and no credentials. */
  function NewRecord(body: NewUser): (u: User)
    ensures u.passwords == []
    ensures u.email == body.email && u.password == body.password && u.name == body.name && u.role == body.role
  {
    User(body.email, body.password, body.name, body.role, [])
  }

  /** Adding a user whose email nobody holds, under an unused id, keeps the table valid. */
  lemma CreatePreservesValid(users: map<Id, User>, id: Id, body: NewUser)
    requires ValidTable(users)
    requires id !in users
    requires !EmailTaken(users, body.email, None)
    ensures ValidTable(users[id := NewRecord(body)])
    ensures GetUserByEmail(users[id := NewRecord(body)], body.email) == Some(Entry(id, NewRecord(body)))
  {
    var users' := users[id := NewRecord(body)];
    forall other | other in users' && other != id
      ensures users'[other].email != body.email
    {
      assert users'[other] == users[other];
    }
    var r := GetUserByEmail(users', body.email);
    assert users'[id].email == body.email;
    assert r.Some? && r.value.id == id;
  }

  // ---------------------------------------------------------------------
  // updateUserById

  /** JavaScript truthiness of an optional string field. */
  predicate Truthy(field: Option<string>) {
    field.Some? && field.value != ""
  }

  /** The guard of the conflict check: the patch's email is truthy and held by another user. */
  predicate EmailConflict(users: map<Id, User>, id: Id, patch: UserPatch) {
    Truthy(patch.email) && EmailTaken(users, patch.email.value, Some(id))
  }

  /** An id larger than that of every credential in `creds`. */
  function FreshCredentialId(creds: seq<Credential>): (r: Id)
    ensures forall j :: 0 <= j < |creds| ==> creds[j].id < r
  {
    if |creds| == 0 then 0
    else
      var rest := FreshCredentialId(creds[1..]);
      if creds[0].id < rest then rest else creds[0].id + 1
  }

  /** `user.passwords.push(fields)`, the store giving the new credential an unused id. */
  function AppendCredential(u: User, fields: CredentialFields): User {
    u.(passwords := u.passwords + [Credential(FreshCredentialId(u.passwords), fields.website, fields.text)])
  }

  /** `Object.assign(user, patch)`: every present field overwrites, absent ones stay. */
  function AssignFields(u: User, patch: UserPatch): User {
    User(
      if patch.email.Some? then patch.email.value else u.email,
      if patch.password.Some? then patch.password.value else u.password,
      if patch.name.Some? then patch.name.value else u.name,
      if patch.role.Some? then patch.role.value else u.role,
      u.passwords)
  }

  /**
   * updateUserById: the updated record, to be stored under `id`. A patch
   * carrying `passwords` appends its first element and changes nothing
   * else; any other patch overwrites the fields it carries.
   */
  function UpdateUser(users: map<Id, User>, id: Id, patch: UserPatch): (r: Result<User>)
    requires patch.passwords != Some([])
    ensures r == Err(NotFound) <==> id !in users
    ensures r == Err(Conflict) <==> id in users && EmailConflict(users, id, patch)
    // append mode
    ensures r.Ok? && patch.passwords.Some? ==>
      var before := users[id].passwords;
      SameScalars(r.value, users[id]) &&
      |r.value.passwords| == |before| + 1 &&
      r.value.passwords[..|before|] == before &&
      r.value.passwords[|before|].website == patch.passwords.value[0].website &&
      r.value.passwords[|before|].text == patch.passwords.value[0].text &&
      forall j :: 0 <= j < |before| ==> before[j].id != r.value.passwords[|before|].id
    // field-wise overwrite mode
    ensures r.Ok? && patch.passwords.None? ==>
      r.value.passwords == users[id].passwords &&
      (patch.email.Some? ==> r.value.email == patch.email.value) &&
      (patch.email.None? ==> r.value.email == users[id].email) &&
      (patch.password.Some? ==> r.value.password == patch.password.value) &&
      (patch.password.None? ==> r.value.password == users[id].password) &&
      (patch.name.Some? ==> r.value.name == patch.name.value) &&
      (patch.name.None? ==> r.value.name == users[id].name) &&
      (patch.role.Some? ==> r.value.role == patch.role.value) &&
      (patch.role.None? ==> r.value.role == users[id].role)
  {
    if id !in users then Err(NotFound)
    else if EmailConflict(users, id, patch) then Err(Conflict)
    else if patch.passwords.Some? then
      var u' := AppendCredential(users[id], patch.passwords.value[0]);
      assert u'.passwords[..|users[id].passwords|] == users[id].passwords;
      Ok(u')
    else Ok(AssignFields(users[id], patch))
  }

  /** A user's own current email is never a conflict for that user. */
  lemma OwnEmailIsNoConflict(users: map<Id, User>, id: Id)
    requires EmailsUnique(users)
    requires id in users
    ensures !EmailTaken(users, users[id].email, Some(id))
  {
  }

  /** Appending a credential under a fresh id keeps sibling ids distinct. */
  lemma AppendPreservesUnique(u: User, fields: CredentialFields)
    requires CredentialIdsUnique(u.passwords)
    ensures CredentialIdsUnique(AppendCredential(u, fields).passwords)
  {
  }

  /** A successful update keeps emails unique and credential ids distinct. */
  lemma UpdatePreservesValid(users: map<Id, User>, id: Id, patch: UserPatch)
    requires ValidTable(users)
    requires patch.email != Some("")
    requires patch.passwords != Some([])
    requires UpdateUser(users, id, patch).Ok?
    ensures ValidTable(users[id := UpdateUser(users, id, patch).value])
  {
  }

  // ---------------------------------------------------------------------
  // Credential operations

  /** `Object.assign(credential, patch)` on one credential; its id never changes. */
  function MergeCredential(c: Credential, patch: CredentialFields): Credential {
    Credential(
      c.id,
      if patch.website.Some? then patch.website else c.website,
      if patch.text.Some? then patch.text else c.text)
  }

  /**
   * updateUserPassword with its missing cases made explicit: NotFound for a
   * missing user or credential, otherwise the user with only the matched
   * credential's present fields overwritten.
   */
  function UpdateCredential(users: map<Id, User>, id: Id, pid: Id, patch: CredentialFields): (r: Result<User>)
    ensures r == Err(NotFound) <==> id !in users || FindCredential(users[id].passwords, pid).None?
    ensures r.Err? ==> r.error == NotFound
    ensures r.Ok? ==>
      var before := users[id].passwords;
      var i := FindCredential(before, pid).value;
      SameScalars(r.value, users[id]) &&
      |r.value.passwords| == |before| &&
      (forall j :: 0 <= j < |before| && j != i ==> r.value.passwords[j] == before[j]) &&
      r.value.passwords[i].id == pid &&
      r.value.passwords[i].website == (if patch.website.Some? then patch.website else before[i].website) &&
      r.value.passwords[i].text == (if patch.text.Some? then patch.text else before[i].text)
  {
    if id !in users then Err(NotFound)
    else
      match FindCredential(users[id].passwords, pid)
      case None => Err(NotFound)
      case Some(i) =>
        var u := users[id];
        Ok(u.(passwords := u.passwords[i := MergeCredential(u.passwords[i], patch)]))
  }

  /** `passwords.pull({ _id: pid })`: drop every credential with id `pid`, keeping the rest in order. */
  function RemoveCredentialById(creds: seq<Credential>, pid: Id): (r: seq<Credential>)
    ensures |r| <= |creds|
    ensures forall j :: 0 <= j < |r| ==> r[j].id != pid
    ensures forall j :: 0 <= j < |r| ==> r[j] in creds
    ensures forall j :: 0 <= j < |creds| && creds[j].id != pid ==> creds[j] in r
    ensures |r| == |creds| ==> forall j :: 0 <= j < |creds| ==> creds[j].id != pid
  {
    if |creds| == 0 then []
    else if creds[0].id == pid then RemoveCredentialById(creds[1..], pid)
    else
      var rest := RemoveCredentialById(creds[1..], pid);
      assert forall j :: 1 <= j < |creds| ==> creds[j] == creds[1..][j - 1];
      [creds[0]] + rest
  }

  /** Removing an id that no credential has leaves the list as it was. */
  lemma {:induction false} RemoveAbsentIsIdentity(creds: seq<Credential>, pid: Id)
    requires forall j :: 0 <= j < |creds| ==> creds[j].id != pid
    ensures RemoveCredentialById(creds, pid) == creds
  {
    if |creds| > 0 {
      RemoveAbsentIsIdentity(creds[1..], pid);
      assert [creds[0]] + creds[1..] == creds;
    }
  }

  /** With distinct ids, removing the credential at index `i` splices it out: order is preserved. */
  lemma {:induction false} RemoveIsSplice(creds: seq<Credential>, pid: Id, i: nat)
    requires CredentialIdsUnique(creds)
    requires i < |creds| && creds[i].id == pid
    ensures RemoveCredentialById(creds, pid) == creds[..i] + creds[i + 1..]
  {
    var tail := creds[1..];
    if i == 0 {
      forall j | 0 <= j < |tail| ensures tail[j].id != pid {
        assert tail[j] == creds[j + 1];
      }
      RemoveAbsentIsIdentity(tail, pid);
      assert creds[..0] + creds[1..] == tail;
    } else {
      assert creds[0].id != pid;
      forall a, b | 0 <= a < b < |tail| ensures tail[a].id != tail[b].id {
        assert tail[a] == creds[a + 1] && tail[b] == creds[b + 1];
      }
      RemoveIsSplice(tail, pid, i - 1);
      assert RemoveCredentialById(creds, pid) == [creds[0]] + (tail[..i - 1] + tail[i..]);
      assert tail[..i - 1] == creds[1..i];
      assert tail[i..] == creds[i + 1..];
      assert [creds[0]] + creds[1..i] == creds[..i];
    }
  }

  /** Removing credentials keeps the remaining ids distinct. */
  lemma {:induction false} RemovePreservesUnique(creds: seq<Credential>, pid: Id)
    requires CredentialIdsUnique(creds)
    ensures CredentialIdsUnique(RemoveCredentialById(creds, pid))
  {
    if |creds| > 0 {
      RemovePreservesUnique(creds[1..], pid);
      if creds[0].id != pid {
        var r := RemoveCredentialById(creds, pid);
        var rest := RemoveCredentialById(creds[1..], pid);
        assert r == [creds[0]] + rest;
        forall i, j | 0 <= i < j < |r| ensures r[i].id != r[j].id {
          if i == 0 {
            assert r[j] == rest[j - 1] && rest[j - 1] in creds[1..];
            var k :| 0 <= k < |creds[1..]| && creds[1..][k] == r[j];
            assert creds[k + 1] == r[j];
          } else {
            assert r[i] == rest[i - 1] && r[j] == rest[j - 1];
          }
        }
      }
    }
  }

  /**
   * deleteUserPassword together with the existence check its caller makes:
   * NotFound for a missing user or credential, otherwise the user without
   * that credential.
   */
  function DeleteCredential(users: map<Id, User>, id: Id, pid: Id): (r: Result<User>)
    ensures r == Err(NotFound) <==> id !in users || FindCredential(users[id].passwords, pid).None?
    ensures r.Err? ==> r.error == NotFound
    ensures r.Ok? ==>
      SameScalars(r.value, users[id]) &&
      |r.value.passwords| < |users[id].passwords| &&
      (forall j :: 0 <= j < |r.value.passwords| ==> r.value.passwords[j].id != pid) &&
      (forall j :: 0 <= j < |users[id].passwords| && users[id].passwords[j].id != pid ==>
         users[id].passwords[j] in r.value.passwords)
  {
    if id !in users then Err(NotFound)
    else
      match FindCredential(users[id].passwords, pid)
      case None => Err(NotFound)
      case Some(i) =>
        var u := users[id];
        assert u.passwords[i] !in RemoveCredentialById(u.passwords, pid);
        Ok(u.(passwords := RemoveCredentialById(u.passwords, pid)))
  }

  /** In a valid user, deleting a credential splices exactly that one out of the list. */
  lemma DeleteCredentialIsSplice(users: map<Id, User>, id: Id, pid: Id)
    requires id in users && CredentialIdsUnique(users[id].passwords)
    requires DeleteCredential(users, id, pid).Ok?
    ensures
      var i := FindCredential(users[id].passwords, pid).value;
      DeleteCredential(users, id, pid).value.passwords == users[id].passwords[..i] + users[id].passwords[i + 1..]
  {
    RemoveIsSplice(users[id].passwords, pid, FindCredential(users[id].passwords, pid).value);
  }

  /** Updating or deleting a credential keeps the table valid. */
  lemma CredentialWritePreservesValid(users: map<Id, User>, id: Id, u': User)
    requires ValidTable(users)
    requires id in users && SameScalars(u', users[id])
    requires CredentialIdsUnique(u'.passwords)
    ensures ValidTable(users[id := u'])
  {
  }

  lemma UpdateCredentialPreservesValid(users: map<Id, User>, id: Id, pid: Id, patch: CredentialFields)
    requires ValidTable(users)
    requires UpdateCredential(users, id, pid, patch).Ok?
    ensures ValidTable(users[id := UpdateCredential(users, id, pid, patch).value])
  {
  }

  lemma DeleteCredentialPreservesValid(users: map<Id, User>, id: Id, pid: Id)
    requires ValidTable(users)
    requires DeleteCredential(users, id, pid).Ok?
    ensures ValidTable(users[id := DeleteCredential(users, id, pid).value])
  {
    RemovePreservesUnique(users[id].passwords, pid);
    CredentialWritePreservesValid(users, id, DeleteCredential(users, id, pid).value);
  }

  /** Once a credential is deleted, reading or deleting it again finds nothing. */
  lemma DeleteCredentialTwice(users: map<Id, User>, id: Id, pid: Id)
    requires DeleteCredential(users, id, pid).Ok?
    ensures GetCredential(users[id := DeleteCredential(users, id, pid).value], id, pid) == Ok(None)
    ensures DeleteCredential(users[id := DeleteCredential(users, id, pid).value], id, pid) == Err(NotFound)
  {
  }
}
