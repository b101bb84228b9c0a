/**
 * The validation chain of the `register` handler. The checks run in a fixed
 * order and the first one that fails decides the single message shown; a
 * form that passes them all becomes a new user row.
 */
module Registration {
  import opened Wrappers
  import opened Query
  import opened Credentials
  import opened Schema

  /** The four fields the registration form posts. */
  datatype Form = Form(username: string, email: string, password: string, confirmPassword: string)

  /** Why a registration was refused, one constructor per check. */
  datatype Rejection =
    | PasswordMismatch
    | UsernameTaken
    | EmailTaken
    | UsernameTooShort
    | PasswordTooShort
    | EmailTooShort

  /** The danger message flashed for each rejection. */
  function Message(r: Rejection): string {
    match r
    case PasswordMismatch => "Passwords do not match!"
    case UsernameTaken => "Username already exists!"
    case EmailTaken => "Email already exists!"
    case UsernameTooShort => "Username must be at least 2 characters long!"
    case PasswordTooShort => "Password must be at least 6 characters long!"
    case EmailTooShort => "Email must be at least 5 characters long!"
  }

  /** The position of each check in the chain. */
  function Rank(r: Rejection): nat {
    match r
    case PasswordMismatch => 0
    case UsernameTaken => 1
    case EmailTaken => 2
    case UsernameTooShort => 3
    case PasswordTooShort => 4
    case EmailTooShort => 5
  }

  /** The rule each check enforces, stated on its own. */
  predicate Violates(users: seq<User>, form: Form, r: Rejection) {
    match r
    case PasswordMismatch => form.password != form.confirmPassword
    case UsernameTaken => exists i :: 0 <= i < |users| && users[i].username == form.username
    case EmailTaken => exists i :: 0 <= i < |users| && users[i].email == form.email
    case UsernameTooShort => |form.username| < 2
    case PasswordTooShort => |form.password| < 6
    case EmailTooShort => |form.email| < 5
  }

  /**
   * The chain as the handler runs it: None when the form is accepted, else the
   * rejection of the first failing check.
   */
  function Validate(users: seq<User>, form: Form): (r: Option<Rejection>)
    ensures r.None? <==> forall c: Rejection :: !Violates(users, form, c)
    ensures r.Some? ==> Violates(users, form, r.value)
    ensures r.Some? ==> forall c: Rejection :: Rank(c) < Rank(r.value) ==> !Violates(users, form, c)
  {
    if form.password != form.confirmPassword then
      assert Violates(users, form, PasswordMismatch);
      Some(PasswordMismatch)
    else
      var existingUser := FirstIndex(users, UserNamed(form.username));
      var existingEmail := FirstIndex(users, UserWithEmail(form.email));
      if existingUser.Some? then
        assert users[existingUser.value].username == form.username;
        assert Violates(users, form, UsernameTaken);
        Some(UsernameTaken)
      else if existingEmail.Some? then
        assert users[existingEmail.value].email == form.email;
        assert Violates(users, form, EmailTaken);
        Some(EmailTaken)
      else if |form.username| < 2 then
        assert Violates(users, form, UsernameTooShort);
        Some(UsernameTooShort)
      else if |form.password| < 6 then
        assert Violates(users, form, PasswordTooShort);
        Some(PasswordTooShort)
      else if |form.email| < 5 then
        assert Violates(users, form, EmailTooShort);
        Some(EmailTooShort)
      else None
  }

  /** Conversely, the first check in the chain that fails is the one reported. */
  lemma {:induction false} FirstFailingCheckDecides(users: seq<User>, form: Form, c: Rejection)
    requires Violates(users, form, c)
    requires forall d: Rejection :: Rank(d) < Rank(c) ==> !Violates(users, form, d)
    ensures Validate(users, form) == Some(c)
  {
    var r := Validate(users, form);
    assert r.Some?;
    assert Rank(r.value) == Rank(c) ==> r.value == c;
  }

  /** The row an accepted form inserts: a fresh id and the hash of the password, never the password. */
  function NewUser(users: seq<User>, form: Form, salt: string): (u: User)
    ensures forall j :: 0 <= j < |users| ==> users[j].id != u.id
    ensures u.username == form.username && u.email == form.email
    ensures u.password == Hash(form.password, salt)
  {
    User(NextKey(users, UserId), form.username, form.email, Hash(form.password, salt))
  }

  /** An accepted registration keeps ids, usernames and emails unique. */
  lemma {:induction false} AcceptedKeepsUsersValid(users: seq<User>, form: Form, salt: string)
    requires UsersValid(users)
    requires Validate(users, form).None?
    ensures UsersValid(users + [NewUser(users, form, salt)])
  {
    var u := NewUser(users, form, salt);
    assert !Violates(users, form, UsernameTaken);
    assert !Violates(users, form, EmailTaken);
    assert forall j :: 0 <= j < |users| ==> UserName(users[j]) != UserName(u);
    assert forall j :: 0 <= j < |users| ==> UserEmail(users[j]) != UserEmail(u);
    DistinctAppend(users, u, UserId);
    DistinctAppend(users, u, UserName);
    DistinctAppend(users, u, UserEmail);
  }
}
