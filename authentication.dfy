/**
 * The decision of the `login` handler: look the user up by username, then
 * check the submitted password against the stored hash. Both ways of failing
 * end in the same message.
 */
module Authentication {
  import opened Wrappers
  import opened Query
  import opened Credentials
  import opened Schema
  import opened Registration

  /** The position of the user who logs in, or None. */
  function Authenticate(users: seq<User>, username: string, password: string): (r: Option<nat>)
    ensures r.Some? ==> r.value < |users| && users[r.value].username == username
    ensures r.Some? ==> Check(users[r.value].password, password)
    ensures r.Some? ==> forall j :: 0 <= j < r.value ==> users[j].username != username
  {
    match FirstIndex(users, UserNamed(username))
    case None => None
    case Some(i) => if Check(users[i].password, password) then Some(i) else None
  }

  /** With unique usernames, login succeeds exactly when some user has that name and the password checks. */
  lemma {:induction false} AuthenticateIff(users: seq<User>, username: string, password: string)
    requires Distinct(users, UserName)
    ensures Authenticate(users, username, password).Some?
        <==> exists i :: 0 <= i < |users| && users[i].username == username && Check(users[i].password, password)
  {
    var first := FirstIndex(users, UserNamed(username));
    if i :| 0 <= i < |users| && users[i].username == username && Check(users[i].password, password) {
      assert UserNamed(username)(users[i]);
      var k := first.value;
      assert users[k].username == username;
      assert k == i;
    }
  }

  /** After an accepted registration, its username logs in with exactly the password it chose. */
  lemma {:induction false} LoginAfterRegistration(users: seq<User>, form: Form, salt: string, attempt: string)
    requires UsersValid(users)
    requires Validate(users, form).None?
    ensures Authenticate(users + [NewUser(users, form, salt)], form.username, attempt).Some?
        <==> attempt == form.password
  {
    var after := users + [NewUser(users, form, salt)];
    AcceptedKeepsUsersValid(users, form, salt);
    AuthenticateIff(after, form.username, attempt);
    CheckHash(form.password, salt, attempt);
    assert !Violates(users, form, UsernameTaken);
    assert after[|users|] == NewUser(users, form, salt);
  }
}
