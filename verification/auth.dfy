/** The bearer token the client sends with its requests. The token lives in
    `document.cookie`, written at login as `token=<t>; path=/`, and is read
    back by plain substring splitting. */
module Auth {
  import opened Wrappers
  import opened JsString

  const TokenKey: string := "token="

  /** `document.cookie.split('token=')[1]?.split(';')[0]`: undefined when the
      cookie has no `token=` at all. */
  function Token(cookie: string): Option<string> {
    var pieces := SplitOn(cookie, TokenKey);
    if |pieces| < 2 then None else Some(SplitOn(pieces[1], [';'])[0])
  }

  /** The text of `s` before the leftmost occurrence of `pat`, or all of it. */
  function UpTo(s: string, pat: string): string
    requires |pat| > 0
  {
    match FirstMatch(s, pat)
    case None => s
    case Some(i) => s[..i]
  }

  /** The token in the words of the cookie: the text after the leftmost
      `token=`, cut at the next `token=`, then at the next `;`. */
  function TokenRef(cookie: string): Option<string> {
    match FirstMatch(cookie, TokenKey)
    case None => None
    case Some(i) => Some(UpTo(UpTo(cookie[i + |TokenKey|..], TokenKey), [';']))
  }

  /** The split-based extraction is the leftmost-match reading. */
  lemma {:induction false} TokenIsTokenRef(cookie: string)
    ensures Token(cookie) == TokenRef(cookie)
  {
    SplitHead(cookie, TokenKey);
    match FirstMatch(cookie, TokenKey)
    case None =>
    case Some(i) => {
      var rest := cookie[i + |TokenKey|..];
      SplitHead(rest, TokenKey);
      var piece := UpTo(rest, TokenKey);
      assert SplitOn(cookie, TokenKey)[1] == piece;
      SplitHead(piece, [';']);
    }
  }

  /** Cutting at the first `c` leaves no `c`. */
  lemma {:induction false} UpToChar(s: string, c: char)
    ensures c !in UpTo(s, [c])
  {
    var r := UpTo(s, [c]);
    forall k | 0 <= k < |r| ensures r[k] != c {
      CharMatch(s, c, k);
    }
  }

  /** There is a token exactly when `token=` occurs somewhere in the cookie;
      it starts right after the leftmost occurrence and never contains `;`. */
  lemma {:induction false} TokenShape(cookie: string)
    ensures Token(cookie).Some? <==> Occurs(cookie, TokenKey)
    ensures Token(cookie).Some? ==> ';' !in Token(cookie).value
    ensures Token(cookie).Some? ==>
      var i := FirstMatch(cookie, TokenKey).value;
      StartsWith(cookie[i + |TokenKey|..], Token(cookie).value)
  {
    TokenIsTokenRef(cookie);
    match FirstMatch(cookie, TokenKey)
    case None =>
    case Some(i) => {
      var piece := UpTo(cookie[i + |TokenKey|..], TokenKey);
      UpToChar(piece, ';');
    }
  }

  /** After `token=`, cutting at the next `token=` keeps all of `t` when
      `t` holds no `token=` and what follows it starts with `;`. */
  lemma {:induction false} CutKeepsToken(t: string, tail: string)
    requires !Occurs(t, TokenKey)
    requires |tail| == 0 || tail[0] == ';'
    ensures var piece := UpTo(t + tail, TokenKey);
      |t| <= |piece| && piece[..|t|] == t && (|piece| > |t| ==> piece[|t|] == ';')
  {
    var rest := t + tail;
    match FirstMatch(rest, TokenKey)
    case None =>
    case Some(k) => {
      if k < |t| {
        if k + |TokenKey| <= |t| {
          assert t[k..k + |TokenKey|] == rest[k..k + |TokenKey|];
          assert MatchAt(t, TokenKey, k);
        } else {
          assert rest[|t|] == tail[0];
          assert rest[|t|] == TokenKey[|t| - k];
        }
      }
    }
  }

  /** Cutting at the first `;` gives back `t` when `t` is free of `;` and is
      followed by `;` or nothing. */
  lemma {:induction false} CutAtSemicolon(piece: string, t: string)
    requires ';' !in t
    requires |t| <= |piece| && piece[..|t|] == t
    requires |piece| > |t| ==> piece[|t|] == ';'
    ensures UpTo(piece, [';']) == t
  {
    forall j | 0 <= j < |t| ensures !MatchAt(piece, [';'], j) {
      CharMatch(piece, ';', j);
      assert piece[j] == t[j];
    }
    if |piece| > |t| {
      CharMatch(piece, ';', |t|);
      FirstMatchIsLeftmost(piece, [';'], |t|);
    } else {
      assert piece == t;
      forall j | MatchAt(piece, [';'], j) ensures false {
        CharMatch(piece, ';', j);
      }
    }
  }

  /** The cookie `pre + "token=" + t + tail` yields `t` when no `token=` starts
      inside `pre`, `t` holds neither `;` nor `token=`, and `tail` is empty or
      starts with `;`. */
  lemma {:induction false} TokenOfCookie(pre: string, t: string, tail: string)
    requires forall j :: 0 <= j < |pre| ==> !MatchAt(pre + TokenKey + t + tail, TokenKey, j)
    requires ';' !in t && !Occurs(t, TokenKey)
    requires |tail| == 0 || tail[0] == ';'
    ensures Token(pre + TokenKey + t + tail) == Some(t)
  {
    var cookie := pre + TokenKey + t + tail;
    assert cookie[|pre|..|pre| + |TokenKey|] == TokenKey;
    FirstMatchIsLeftmost(cookie, TokenKey, |pre|);
    assert cookie[|pre| + |TokenKey|..] == t + tail;
    CutKeepsToken(t, tail);
    CutAtSemicolon(UpTo(t + tail, TokenKey), t);
    TokenIsTokenRef(cookie);
  }

  /** The request headers built by `getAuthHeaders`. */
  datatype Headers = Headers(authorization: string, contentType: string)

  /** `Bearer ${token}`: an undefined token prints as `undefined`. */
  function Bearer(token: Option<string>): string {
    "Bearer " + token.GetOr("undefined")
  }

  function AuthHeaders(cookie: string): (h: Headers)
    ensures h.contentType == "application/json"
    ensures StartsWith(h.authorization, "Bearer ")
  {
    Headers(Bearer(Token(cookie)), "application/json")
  }

  /** Without `token=` in the cookie the client still sends a header, with
      the literal text `undefined` as the token. */
  lemma {:induction false} NoTokenBearerUndefined(cookie: string)
    requires !Occurs(cookie, TokenKey)
    ensures AuthHeaders(cookie).authorization == "Bearer undefined"
  {
    TokenShape(cookie);
  }

  /** With a token present, the header carries it after `Bearer `. */
  lemma {:induction false} BearerCarriesToken(cookie: string)
    requires Occurs(cookie, TokenKey)
    ensures Token(cookie).Some?
    ensures var a := AuthHeaders(cookie).authorization;
      a == "Bearer " + Token(cookie).value && ';' !in a[|"Bearer "|..]
  {
    TokenShape(cookie);
    var a := AuthHeaders(cookie).authorization;
    assert a[|"Bearer "|..] == Token(cookie).value;
  }

  /** Matching is by substring: in `csrftoken=abc; token=xyz` the `token=`
      inside `csrftoken=` comes first, so the token read is `abc`. */
  lemma {:induction false} CsrfCookieShadows(cookie: string)
    requires cookie == "csrftoken=abc; token=xyz"
    ensures Token(cookie) == Some("abc")
  {
    var pre, t, tail := "csrf", "abc", "; token=xyz";
    assert cookie == pre + TokenKey + t + tail;
    forall j | 0 <= j < |pre| ensures !MatchAt(cookie, TokenKey, j) {
      assert cookie[j] != 't';
    }
    assert !Occurs(t, TokenKey);
    TokenOfCookie(pre, t, tail);
  }
}
