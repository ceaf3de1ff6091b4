/** Identity extraction: the user record that `onAddConnectionCredentials`
    builds from the proxy's headers. */
module Identity {
  import opened JsValues
  import opened JsStrings
  import opened ProxyHeaders
  import opened Messages

  /** The display name: the preferred username if truthy, else the user id if
      truthy, else the part of a truthy email before its first `@` (all of
      it when there is none; possibly `""`), else `null`. */
  function DisplayName(preferred: Value, userId: Value, email: Value): (name: Value)
    requires email == Null || email.Str?
    ensures Truthy(preferred) ==> name == preferred
    ensures !Truthy(preferred) && Truthy(userId) ==> name == userId
    ensures !Truthy(preferred) && !Truthy(userId) && Truthy(email) ==>
      && name.Str?
      && name.s <= email.s
      && '@' !in name.s
      && (|name.s| == |email.s| || email.s[|name.s|] == '@')
    ensures !Truthy(preferred) && !Truthy(userId) && !Truthy(email) ==> name == Null
  {
    if Truthy(email) then
      FirstPiece(email.s, '@');
      Or(Or(preferred, userId), Str(Split(email.s, '@')[0]))
    else
      Or(Or(preferred, userId), Null)
  }

  /** The `user` record written into `msg._client`. */
  function UserOf(h: Headers): (u: User)
    ensures u.userId == Pick(h, ForwardedUser, AuthRequestUser)
    ensures u.email == Pick(h, ForwardedEmail, AuthRequestEmail)
    ensures u.username == DisplayName(Pick(h, ForwardedPreferredUsername, AuthRequestPreferredUsername), u.userId, u.email)
    ensures u.accessTokenPresent == Bool(Present(h, ForwardedAccessToken))
  {
    var userId := Pick(h, ForwardedUser, AuthRequestUser);
    var email := Pick(h, ForwardedEmail, AuthRequestEmail);
    var preferred := Pick(h, ForwardedPreferredUsername, AuthRequestPreferredUsername);
    var accessToken := Or(Get(h, ForwardedAccessToken), Null);
    User(userId, email, DisplayName(preferred, userId, email), Bool(Truthy(accessToken)))
  }

  /** Some identity header (user, email or preferred username, primary or
      fallback) is present with a non-empty value. */
  predicate IdentityHeaderPresent(h: Headers) {
    || Present(h, ForwardedUser) || Present(h, AuthRequestUser)
    || Present(h, ForwardedEmail) || Present(h, AuthRequestEmail)
    || Present(h, ForwardedPreferredUsername) || Present(h, AuthRequestPreferredUsername)
  }

  /** The extracted record names somebody (a truthy user id, email or
      username) exactly when some identity header is present. The username
      cut from an email can be `""`, but then the email itself is truthy. */
  lemma UserNamesSomebody(h: Headers)
    ensures Truthy(UserOf(h).userId) || Truthy(UserOf(h).email) || Truthy(UserOf(h).username)
            <==> IdentityHeaderPresent(h)
  {
  }

  /** Without a connection, a request or a header map every identity field
      is `null` and no access token is reported. */
  lemma NoHeadersNoUser(conn: Option<Conn>)
    requires conn.None? || conn.value.request.None? || conn.value.request.value.headers.None?
    ensures UserOf(HeadersOf(conn)) == User(Null, Null, Null, Bool(false))
  {
  }
}
