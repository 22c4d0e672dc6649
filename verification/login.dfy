/** The login form: authenticate, store the token in a cookie, fetch the
    user's record and hand name and role to the application. */
module Login {
  import opened Wrappers
  import opened JsString
  import opened Entities
  import Auth

  /** The reply to `POST /auth/login`. */
  datatype LoginReply =
    | LoginRejected(text: string)          // status not ok
    | LoginAccepted(token: string, message: string)
    | LoginUnreachable                     // network failure or unreadable body

  /** The user record without its password hash. */
  datatype SafeUser = SafeUser(id: int, username: string, isAdmin: bool)

  /** The reply to `GET /users/user/<name>`. */
  datatype UserReply =
    | UserRejected(text: string)
    | UserFound(user: SafeUser)
    | UserUnreachable

  datatype Form = Form(username: string, password: string, loading: bool)

  /** The `onLogin(username, role)` call. */
  datatype SignIn = SignIn(username: string, role: Role)

  /** The form afterwards, the requests sent, the cookie written (if any)
      and the call made to the application (if any). */
  datatype Outcome = Outcome(form: Form, sent: seq<Request>, cookie: Option<string>, signIn: Option<SignIn>)

  /** `token=${token}; path=/` */
  function LoginCookie(token: string): string {
    Auth.TokenKey + token + "; path=/"
  }

  /** `isAdmin ? 'admin' : 'user'` */
  function RoleFor(isAdmin: bool): (r: Role)
    ensures r == AdminRole <==> isAdmin
  {
    if isAdmin then AdminRole else UserRole
  }

  function LoginRequest(f: Form): Request {
    Request(Post, "/auth/login", NoAuthorization, Some(JsonType), LoginJson(f.username, f.password))
  }

  /** The user lookup uses the name typed in the form and the token just
      received. */
  function UserRequest(f: Form, token: string): Request {
    Request(Get, "/users/user/" + f.username, ExplicitBearer(token), None, NoBody)
  }

  /** `handleLogin`: `loading` is false again on every path. */
  function HandleLogin(f: Form, login: LoginReply, user: UserReply): (o: Outcome)
    ensures o.form == f.(loading := false)
    ensures |o.sent| >= 1 && o.sent[0] == LoginRequest(f)
    ensures !login.LoginAccepted? ==> o.sent == [LoginRequest(f)] && o.cookie.None? && o.signIn.None?
    ensures login.LoginAccepted? ==>
      && o.sent == [LoginRequest(f), UserRequest(f, login.token)]
      && o.cookie == Some(LoginCookie(login.token))
      && (o.signIn.Some? <==> user.UserFound?)
      && (user.UserFound? ==> o.signIn == Some(SignIn(user.user.username, RoleFor(user.user.isAdmin))))
  {
    var done := f.(loading := false);
    match login
    case LoginRejected(_) => Outcome(done, [LoginRequest(f)], None, None)
    case LoginUnreachable => Outcome(done, [LoginRequest(f)], None, None)
    case LoginAccepted(token, _) =>
      var sent := [LoginRequest(f), UserRequest(f, token)];
      var cookie := Some(LoginCookie(token));
      match user
      case UserFound(u) => Outcome(done, sent, cookie, Some(SignIn(u.username, RoleFor(u.isAdmin))))
      case UserRejected(_) => Outcome(done, sent, cookie, None)
      case UserUnreachable => Outcome(done, sent, cookie, None)
  }

  /** A failed user lookup leaves the cookie written but signs nobody in. */
  lemma {:induction false} CookieOutlivesFailedLookup(f: Form, token: string, message: string, user: UserReply)
    requires !user.UserFound?
    ensures var o := HandleLogin(f, LoginAccepted(token, message), user);
      o.cookie == Some(LoginCookie(token)) && o.signIn.None?
  {
  }

  /** The application is told the name from the server's record, which may
      differ from the one typed. */
  lemma {:induction false} SignInUsesServerName(f: Form, token: string, message: string, u: SafeUser)
    ensures HandleLogin(f, LoginAccepted(token, message), UserFound(u)).signIn.value.username == u.username
  {
  }

  /** The written cookie reads back as the token, so later requests carry
      the same bearer as the user lookup, provided the token holds neither
      `;` nor `token=`. The same holds for the `token=<t>` that the browser
      returns from `document.cookie`. */
  lemma {:induction false} LoginCookieReadsBack(token: string)
    requires ';' !in token && !Occurs(token, Auth.TokenKey)
    ensures Auth.Token(LoginCookie(token)) == Some(token)
    ensures Auth.AuthHeaders(LoginCookie(token)).authorization == "Bearer " + token
    ensures Auth.Token(Auth.TokenKey + token) == Some(token)
  {
    assert LoginCookie(token) == "" + Auth.TokenKey + token + "; path=/";
    Auth.TokenOfCookie("", token, "; path=/");
    assert Auth.TokenKey + token == "" + Auth.TokenKey + token + "";
    Auth.TokenOfCookie("", token, "");
  }

  /** `handleKeyPress`: only Enter submits. */
  function KeyPress(f: Form, key: string, login: LoginReply, user: UserReply): (o: Outcome)
    ensures key == "Enter" ==> o == HandleLogin(f, login, user)
    ensures key != "Enter" ==> o == Outcome(f, [], None, None)
  {
    if key == "Enter" then HandleLogin(f, login, user) else Outcome(f, [], None, None)
  }
}
