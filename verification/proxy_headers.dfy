/** The request headers an authenticating proxy (oauth2-proxy) attaches, as
    Node.js presents them: a map from lower-case header name to value. */
module ProxyHeaders {
  import opened JsValues

  /** Header names are already lower-case (Node.js folds them). */
  type Headers = map<string, string>

  const ForwardedUser := "x-forwarded-user"
  const AuthRequestUser := "x-auth-request-user"
  const ForwardedEmail := "x-forwarded-email"
  const AuthRequestEmail := "x-auth-request-email"
  const ForwardedPreferredUsername := "x-forwarded-preferred-username"
  const AuthRequestPreferredUsername := "x-auth-request-preferred-username"
  const ForwardedAccessToken := "x-forwarded-access-token"

  /** `h[name]`: the header's value, or `undefined` when it is absent. */
  function Get(h: Headers, name: string): Value {
    if name in h then Str(h[name]) else Undefined
  }

  /** The header is there and its value is not the empty string. */
  predicate Present(h: Headers, name: string) {
    name in h && h[name] != ""
  }

  /** `h[primary] || h[fallback] || null`: the primary header when it is
      present and non-empty, else the fallback header on the same terms,
      else `null`. An empty value falls through like an absent one. */
  function Pick(h: Headers, primary: string, fallback: string): (v: Value)
    ensures Present(h, primary) ==> v == Str(h[primary])
    ensures !Present(h, primary) && Present(h, fallback) ==> v == Str(h[fallback])
    ensures !Present(h, primary) && !Present(h, fallback) ==> v == Null
    ensures v == Null || (v.Str? && v.s != "")
  {
    Or(Or(Get(h, primary), Get(h, fallback)), Null)
  }
}
