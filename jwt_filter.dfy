/**
  JwtTokenFilter.doFilter: reads the Authorization header, demands the "Bearer " scheme of
  section 2.1 of RFC 6750 (matched exactly, case included), hands the rest to signature
  verification, and installs an authentication whose only authority is "ROLE_" + role. Any
  failure, the downstream chain's included, becomes 401 "invalid token". Verifying the JWT is an
  oracle from the token text to its claims (None when parsing or the signature fails).
*/
module JwtFilter {
  import opened Wrappers

  const BearerPrefix: string := "Bearer "
  const Unauthorized: int := 401
  const InvalidToken: string := "invalid token"

  /** The claims the filter reads: the subject and the "role" claim, either of which may be absent. */
  datatype Claims = Claims(subject: Option<string>, role: Option<string>)

  /** The UsernamePasswordAuthenticationToken the filter installs. */
  datatype Authentication = Authentication(principal: string, credentials: string, authorities: seq<string>)

  /** What the filter decides for one request before calling the chain. */
  datatype Decision = Anonymous | Authenticated(auth: Authentication) | Rejected

  /**
    `token.substring(0, 7).equals("Bearer ")` followed by `token.substring(7)`: the credentials
    after the scheme, or None when the header is shorter than 7 characters (substring throws) or
    does not start with "Bearer ".
  */
  function BearerToken(header: string): (r: Option<string>)
    ensures r.Some? <==> |header| >= |BearerPrefix| && header[..|BearerPrefix|] == BearerPrefix
    ensures r.Some? ==> BearerPrefix + r.value == header
  {
    if |header| < |BearerPrefix| || header[..|BearerPrefix|] != BearerPrefix then None
    else
      assert header == header[..|BearerPrefix|] + header[|BearerPrefix|..];
      Some(header[|BearerPrefix|..])
  }

  /** The scheme and the token come apart again: any token sent as "Bearer " + t is read back as t. */
  lemma BearerTokenRoundTrip(t: string)
    ensures BearerToken(BearerPrefix + t) == Some(t)
  {
    assert (BearerPrefix + t)[..|BearerPrefix|] == BearerPrefix;
  }

  /** The scheme is matched exactly: another capitalisation, or the bare scheme name, is refused. */
  lemma BearerSchemeIsExact(t: string)
    ensures BearerToken("bearer " + t).None?
    ensures BearerToken("Bearer").None?
  {
    assert ("bearer " + t)[0] == 'b';
  }

  /** `"ROLE_" + claims.get("role")`: Java renders a missing claim as "null". */
  function Authority(role: Option<string>): (a: string)
    ensures |a| >= 5 && a[..5] == "ROLE_"
    ensures role.Some? ==> a[5..] == role.value
    ensures role.None? ==> a[5..] == "null"
  {
    "ROLE_" + match role case Some(r) => r case None => "null"
  }

  /**
    Spring Security's `User` rejects a null or empty username, so a token whose subject is
    missing or empty ends in 401 like an invalid token.
  */
  predicate UsableSubject(subject: Option<string>) {
    subject.Some? && subject.value != ""
  }

  /** The filter's decision for a request carrying `header`, given the verification oracle. */
  function Decide(header: Option<string>, verify: string -> Option<Claims>): (d: Decision)
    ensures d.Anonymous? <==> header.None?
    ensures d.Authenticated? <==>
              && header.Some? && BearerToken(header.value).Some?
              && verify(BearerToken(header.value).value).Some?
              && UsableSubject(verify(BearerToken(header.value).value).value.subject)
    ensures d.Authenticated? ==>
              var claims := verify(BearerToken(header.value).value).value;
              && d.auth.principal == claims.subject.value
              && BearerPrefix + d.auth.credentials == header.value
              && d.auth.authorities == [Authority(claims.role)]
  {
    match header
    case None => Anonymous
    case Some(h) =>
      match BearerToken(h)
      case None => Rejected
      case Some(jwt) =>
        match verify(jwt)
        case None => Rejected
        case Some(claims) =>
          if UsableSubject(claims.subject) then Authenticated(Authentication(claims.subject.value, jwt, [Authority(claims.role)]))
          else Rejected
  }

  /** A header that is present is never let through without an authentication. */
  lemma PresentHeaderAuthenticatesOrRejects(header: string, verify: string -> Option<Claims>)
    ensures Decide(Some(header), verify).Authenticated? || Decide(Some(header), verify).Rejected?
    ensures |header| < |BearerPrefix| ==> Decide(Some(header), verify).Rejected?
  {
  }

  /**
    One request passing through the filter: the security context's authentication and the parts
    of the response the filter writes, and whether the rest of the chain was invoked.
  */
  class FilterExchange {
    var authentication: Option<Authentication>
    var chainInvoked: bool
    var status: int
    var contentType: Option<string>
    var body: string

    constructor ()
      ensures authentication == None && !chainInvoked
      ensures status == 200 && contentType == None && body == ""
    {
      authentication := None;
      chainInvoked := false;
      status := 200;
      contentType := None;
      body := "";
    }

    /**
      `doFilter`: with no header the chain runs with no authentication; a header that is not a
      usable bearer token gives 401 and the chain does not run; otherwise the authentication is
      installed, then the chain runs, and if the chain throws the response becomes 401 as well.
    */
    method DoFilter(header: Option<string>, verify: string -> Option<Claims>, chainThrows: bool)
      modifies this
      ensures var d := Decide(header, verify);
              && authentication == (if d.Authenticated? then Some(d.auth) else old(authentication))
              && chainInvoked == (old(chainInvoked) || !d.Rejected?)
              && (d.Rejected? || chainThrows ==>
                    status == Unauthorized && contentType == Some("application/json") && body == old(body) + InvalidToken)
              && (!d.Rejected? && !chainThrows ==>
                    status == old(status) && contentType == old(contentType) && body == old(body))
    {
      var d := Decide(header, verify);
      var failed := false;
      if d.Rejected? {
        failed := true;
      } else {
        if d.Authenticated? {
          authentication := Some(d.auth);
        }
        chainInvoked := true;
        failed := chainThrows;
      }
      if failed {
        status := Unauthorized;
        contentType := Some("application/json");
        body := body + InvalidToken;
      }
    }
  }
}
