/** JwtFilter: the per-request filter that reads a bearer token from the
    Authorization header and, when the token provider accepts it, records the
    caller's authentication in the security context. The provider's signature
    check and claim parsing are not part of this model: they are the filter's
    `validateToken` and `getAuthentication` functions. */
module Security {
  import opened Common

  /** `Character.isWhitespace`: the ASCII separators and control separators,
      and the Unicode space, line and paragraph separators other than the
      non-breaking ones. */
  predicate IsJavaWhitespace(c: char) {
    || c == ' ' || c == '\t' || c == '\n' || c == '\U{B}' || c == '\U{C}' || c == '\r'
    || ('\U{1C}' <= c <= '\U{1F}')
    || c == '\U{1680}' || ('\U{2000}' <= c <= '\U{2006}') || ('\U{2008}' <= c <= '\U{200A}')
    || c == '\U{2028}' || c == '\U{2029}' || c == '\U{205F}' || c == '\U{3000}'
  }

  /** `StringUtils.hasText`: present, and some character is not whitespace. */
  predicate HasText(s: Option<string>)
    ensures HasText(s) ==> s.Some? && |s.value| > 0
  {
    s.Some? && exists i :: 0 <= i < |s.value| && !IsJavaWhitespace(s.value[i])
  }

  const BearerPrefix := "Bearer "

  /** `resolveToken`: the header minus its "Bearer " prefix, when the header
      has text and starts with that exact, case-sensitive prefix. */
  function ResolveToken(authorization: Option<string>): (t: Option<string>)
    ensures t.Some? <==> HasText(authorization) && StartsWith(authorization.value, BearerPrefix)
    ensures t.Some? ==> authorization.value == BearerPrefix + t.value
  {
    if HasText(authorization) && StartsWith(authorization.value, BearerPrefix)
    then Some(authorization.value[|BearerPrefix|..])
    else None
  }

  /** Resolving undoes prefixing: "Bearer " + t resolves to t whenever t has text. */
  lemma {:induction false} ResolveTokenOfBearer(t: string)
    requires HasText(Some(t))
    ensures ResolveToken(Some(BearerPrefix + t)) == Some(t)
  {
    var h := BearerPrefix + t;
    var i :| 0 <= i < |t| && !IsJavaWhitespace(t[i]);
    assert h[|BearerPrefix| + i] == t[i];
    assert HasText(Some(h));
    assert h[..|BearerPrefix|] == BearerPrefix;
    assert h[|BearerPrefix|..] == t;
  }

  datatype Authentication = Authentication(name: string, authorities: seq<string>)

  datatype Request = Request(uri: string, authorization: Option<string>)

  /** The part of the request path the filter lets through untouched. */
  const AuthPath := "/api/auth/"

  /** What the filter records for a request outside the authentication paths. */
  function Authenticated(request: Request, validateToken: string -> bool,
                         getAuthentication: string -> Authentication): (r: Option<Authentication>)
    ensures r.Some? <==>
              var jwt := ResolveToken(request.authorization);
              HasText(jwt) && validateToken(jwt.value)
    ensures r.Some? ==> exists t :: request.authorization == Some(BearerPrefix + t) && r == Some(getAuthentication(t))
  {
    var jwt := ResolveToken(request.authorization);
    if HasText(jwt) && validateToken(jwt.value) then Some(getAuthentication(jwt.value)) else None
  }

  /** The thread's SecurityContext. */
  class SecurityContext {
    var authentication: Option<Authentication>

    constructor ()
      ensures authentication == None
    {
      authentication := None;
    }
  }

  class JwtFilter {
    const validateToken: string -> bool
    const getAuthentication: string -> Authentication

    constructor (validateToken: string -> bool, getAuthentication: string -> Authentication)
      ensures this.validateToken == validateToken && this.getAuthentication == getAuthentication
    {
      this.validateToken := validateToken;
      this.getAuthentication := getAuthentication;
    }

    /** `doFilterInternal`: requests under /api/auth/ pass without the header
        being read; any other request sets the authentication when the bearer
        token has text and validates, and keeps the context otherwise. The
        request is forwarded down the chain in every case. */
    method DoFilterInternal(request: Request, context: SecurityContext) returns (forwarded: bool)
      modifies context
      ensures forwarded
      ensures StartsWith(request.uri, AuthPath) ==> context.authentication == old(context.authentication)
      ensures !StartsWith(request.uri, AuthPath) ==>
                context.authentication
                == match Authenticated(request, validateToken, getAuthentication)
                   case Some(a) => Some(a)
                   case None => old(context.authentication)
    {
      if StartsWith(request.uri, AuthPath) {
        return true;
      }
      var jwt := ResolveToken(request.authorization);
      if HasText(jwt) && validateToken(jwt.value) {
        context.authentication := Some(getAuthentication(jwt.value));
      }
      forwarded := true;
    }
  }
}
