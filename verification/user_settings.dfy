/** The user settings page: the password change form. The page carries its
    own copy of `getAuthHeaders`. */
module UserSettings {
  import opened Wrappers
  import opened JsString
  import opened Entities
  import Auth

  /** The page's local `getAuthHeaders`. */
  function LocalAuthHeaders(cookie: string): (h: Auth.Headers)
    ensures h.contentType == JsonType
  {
    var pieces := SplitOn(cookie, "token=");
    var token := if |pieces| < 2 then None else Some(SplitOn(pieces[1], ";")[0]);
    Auth.Headers("Bearer " + token.GetOr("undefined"), "application/json")
  }

  /** The local copy agrees with the shared one on every cookie. */
  lemma {:induction false} LocalHeadersAgree(cookie: string)
    ensures LocalAuthHeaders(cookie) == Auth.AuthHeaders(cookie)
  {
  }

  datatype Form = Form(newPassword: string, confirmPassword: string)

  /** The form afterwards and the requests sent. */
  datatype Change = Change(form: Form, sent: seq<Request>)

  function PasswordRequest(username: string, password: string): Request {
    Request(Post, "/users/password/" + username, CookieBearer, Some(JsonType), PasswordJson(password))
  }

  /** `handlePasswordChange`. `accepted` says whether the server answered
      ok. Only a missing or empty user name and a mismatch stop it. */
  function ChangePassword(f: Form, username: Option<string>, accepted: bool): (c: Change)
    ensures |c.sent| <= 1
    ensures |c.sent| == 1 <==> username.Some? && username.value != "" && f.newPassword == f.confirmPassword
    ensures |c.sent| == 0 ==> c.form == f
    ensures |c.sent| == 1 ==>
      && c.sent[0] == PasswordRequest(username.value, f.newPassword)
      && c.form == (if accepted then Form("", "") else f)
  {
    if username.None? || username.value == "" then Change(f, [])
    else if f.newPassword != f.confirmPassword then Change(f, [])
    else Change(if accepted then Form("", "") else f, [PasswordRequest(username.value, f.newPassword)])
  }

  /** Equality is the only check on the passwords: two empty fields go
      through and request an empty password. */
  lemma {:induction false} EmptyPasswordsPass(username: string, accepted: bool)
    requires username != ""
    ensures ChangePassword(Form("", ""), Some(username), accepted).sent == [PasswordRequest(username, "")]
  {
  }
}
