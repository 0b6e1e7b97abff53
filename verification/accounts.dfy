/**
 * `UserController`'s registration and login. The user table is a map from
 * email to the stored user; the model compares emails exactly, leaving the
 * database's collation aside. Profiles are appended to a list.
 */
module Accounts {
  import opened Wrappers
  import Http

  /** The built-in administrator credentials checked before any stored user. */
  const AdminEmail: string := "admin@gmail.com"
  const AdminPassword: string := "1234567890"

  const StudentType: string := "student"
  const AdminType: string := "admin"

  const EmailInUse: string := "{\"message\":\"Email is already in use\"}"
  const Registered: string := "{\"message\":\"User registered successfully\"}"
  const AdminWelcome: string := "{\"message\":\"admin\"}"
  const UserNotFound: string := "{\"message\":\"User not found\"}"
  const InvalidPassword: string := "{\"message\":\"Invalid password\"}"
  const LoginSuccessful: string := "{\"message\":\"Login successful\"}"

  datatype User = User(name: string, email: string, password: string, dob: string)
  datatype Profile = Profile(email: string, name: string)

  /** The registration form. */
  datatype RegisterForm = RegisterForm(name: string, email: string, password: string, dob: string)

  /** The login form. */
  datatype Credentials = Credentials(email: string, password: string)

  /** The user table and the profile table. */
  datatype Store = Store(users: map<string, User>, profiles: seq<Profile>)

  /** The three session attributes the login writes; absent ones are unset. */
  datatype Session = Session(name: Option<string>, userEmail: Option<string>, userType: Option<string>)

  /** A status and the JSON message in the body. */
  datatype Reply = Reply(status: Http.Status, message: string)

  /** Every stored user sits under its own email. */
  predicate WellKeyed(users: map<string, User>) {
    forall e :: e in users ==> users[e].email == e
  }

  // ---------------------------------------------------------------------------
  // registerUser
  // ---------------------------------------------------------------------------

  datatype Registration = Registration(reply: Reply, store: Store)

  /**
   * `registerUser`: a taken email is refused with 400 and nothing stored;
   * otherwise the user is stored under the email, a profile with the same
   * email and name is added, and the reply is 200.
   */
  function Register(store: Store, form: RegisterForm): (r: Registration)
    ensures form.email in store.users <==> r.reply.status == Http.BadRequest
    ensures r.reply.status == Http.Ok || r.reply.status == Http.BadRequest
    ensures form.email in store.users ==> r == Registration(Reply(Http.BadRequest, EmailInUse), store)
    ensures form.email !in store.users ==>
              && r.reply == Reply(Http.Ok, Registered)
              && r.store.users.Keys == store.users.Keys + {form.email}
              && r.store.users[form.email] == User(form.name, form.email, form.password, form.dob)
              && (forall e :: e in store.users ==> r.store.users[e] == store.users[e])
              && |r.store.profiles| == |store.profiles| + 1
              && r.store.profiles[..|store.profiles|] == store.profiles
              && r.store.profiles[|store.profiles|] == Profile(form.email, form.name)
  {
    if form.email in store.users then
      Registration(Reply(Http.BadRequest, EmailInUse), store)
    else
      var user := User(form.name, form.email, form.password, form.dob);
      Registration(Reply(Http.Ok, Registered),
                   Store(store.users[form.email := user], store.profiles + [Profile(user.email, user.name)]))
  }

  /** Registration keeps every user under its own email. */
  lemma RegisterKeepsKeys(store: Store, form: RegisterForm)
    requires WellKeyed(store.users)
    ensures WellKeyed(Register(store, form).store.users)
  {
  }

  /** Submitting the same form twice: the second submission is refused and changes nothing. */
  lemma RegisterTwice(store: Store, form: RegisterForm)
    ensures var once := Register(store, form).store;
            Register(once, form) == Registration(Reply(Http.BadRequest, EmailInUse), once)
  {
  }

  // ---------------------------------------------------------------------------
  // loginUser
  // ---------------------------------------------------------------------------

  datatype LoginOutcome = LoginOutcome(reply: Reply, session: Session)

  predicate IsAdmin(form: Credentials) {
    form.email == AdminEmail && form.password == AdminPassword
  }

  /**
   * `loginUser`: the administrator credentials win outright and only set the
   * user type; an unknown email is 404, a wrong password 401, and a match
   * records the user's name, email and the student type in the session.
   */
  function Login(users: map<string, User>, form: Credentials, session: Session): (r: LoginOutcome)
    ensures r.reply.status in {Http.Ok, Http.NotFound, Http.Unauthorized}
    ensures IsAdmin(form) ==> r == LoginOutcome(Reply(Http.Ok, AdminWelcome), session.(userType := Some(AdminType)))
    ensures !IsAdmin(form) && form.email !in users ==> r == LoginOutcome(Reply(Http.NotFound, UserNotFound), session)
    ensures !IsAdmin(form) && form.email in users && users[form.email].password != form.password ==>
              r == LoginOutcome(Reply(Http.Unauthorized, InvalidPassword), session)
    ensures r.reply.status == Http.Ok <==>
              IsAdmin(form) || (form.email in users && users[form.email].password == form.password)
    ensures r.reply.status == Http.Ok && !IsAdmin(form) ==>
              var u := users[form.email];
              r == LoginOutcome(Reply(Http.Ok, LoginSuccessful), Session(Some(u.name), Some(u.email), Some(StudentType)))
    ensures r.reply.status != Http.Ok ==> r.session == session
  {
    if IsAdmin(form) then
      LoginOutcome(Reply(Http.Ok, AdminWelcome), session.(userType := Some(AdminType)))
    else if form.email !in users then
      LoginOutcome(Reply(Http.NotFound, UserNotFound), session)
    else
      var user := users[form.email];
      if user.password != form.password then
        LoginOutcome(Reply(Http.Unauthorized, InvalidPassword), session)
      else
        LoginOutcome(Reply(Http.Ok, LoginSuccessful), Session(Some(user.name), Some(user.email), Some(StudentType)))
  }

  /** A freshly registered user can log in with the registered password and becomes the session's student. */
  lemma RegisterThenLogin(store: Store, form: RegisterForm, session: Session)
    requires form.email !in store.users
    requires !IsAdmin(Credentials(form.email, form.password))
    ensures var after := Register(store, form).store;
            Login(after.users, Credentials(form.email, form.password), session)
              == LoginOutcome(Reply(Http.Ok, LoginSuccessful), Session(Some(form.name), Some(form.email), Some(StudentType)))
  {
  }

  /** Under a well-keyed table, a student login puts the submitted email into the session. */
  lemma StudentSessionEmail(users: map<string, User>, form: Credentials, session: Session)
    requires WellKeyed(users)
    requires !IsAdmin(form)
    ensures Login(users, form, session).reply.status == Http.Ok ==>
              Login(users, form, session).session.userEmail == Some(form.email)
  {
  }

  /** The administrator credentials succeed whatever the user table holds, even a user registered under that email. */
  lemma AdminIgnoresUsers(users1: map<string, User>, users2: map<string, User>, session: Session)
    ensures Login(users1, Credentials(AdminEmail, AdminPassword), session)
              == Login(users2, Credentials(AdminEmail, AdminPassword), session)
    ensures Login(users1, Credentials(AdminEmail, AdminPassword), session).session.userType == Some(AdminType)
  {
  }
}
