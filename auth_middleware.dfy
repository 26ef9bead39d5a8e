/** The two middlewares that guard protected routes: token extraction and
    verification, then the role check. Token verification itself is a
    parameter (`verify`), returning the claims of a good token and None for a
    bad signature or an expired token. */
module AuthMiddleware {
  import opened Common
  import opened Text
  import opened Helper

  /** The claims a verified token carries; attached to the request as `req.user`. */
  datatype Claims = Claims(id: nat, email: string, role: string, name: string)

  /** What a middleware does with a request: pass it on with the caller
      attached, or answer it and stop. */
  datatype Gate = Next(user: Claims) | Halt(reply: Reply<()>)

  /** The token: the second space-separated piece of the Authorization
      header, when the header is present and that piece is non-empty. The
      first piece is not looked at. */
  function BearerToken(header: Option<string>): (token: Option<string>)
    ensures token.Some? ==> token.value != "" && ' ' !in token.value
    ensures token.Some? ==>
      (header.Some? && ' ' in header.value && token.value <= header.value[IndexOf(header.value, ' ') + 1..])
  {
    match header
    case None => None
    case Some(h) =>
      var parts := Split(h, ' ');
      if |parts| >= 2 && parts[1] != "" then
        assert ' ' in h by { JoinSplit(h, ' '); assert h[|parts[0]|] == ' '; }
        var k := IndexOf(h, ' ');
        JoinSplit(h[k + 1..], ' ');
        JoinHead(Split(h[k + 1..], ' '), ' ');
        Some(parts[1])
      else None
  }

  /** A join starts with its first piece. */
  lemma JoinHead(parts: seq<string>, sep: char)
    requires |parts| >= 1
    ensures parts[0] <= Join(parts, sep)
  {
    if |parts| > 1 {
      assert Join(parts, sep) == parts[0] + ([sep] + Join(parts[1..], sep));
    }
  }

  /** Whatever word comes first, "word token" and "word token more..."
      yield the token: the scheme is never compared with "Bearer". */
  lemma AnySchemeWordIsAccepted(word: string, token: string, rest: string)
    requires ' ' !in word && ' ' !in token && token != ""
    ensures BearerToken(Some(word + " " + token)) == Some(token)
    ensures BearerToken(Some(word + " " + token + " " + rest)) == Some(token)
  {
    assert Join([word, token], ' ') == word + " " + token;
    SplitJoin([word, token], ' ');
    var more := Split(rest, ' ');
    JoinSplit(rest, ' ');
    var parts := [word, token] + more;
    assert Join(parts, ' ') == word + " " + token + " " + rest by {
      assert parts[1..][1..] == more;
      assert Join(parts[1..], ' ') == token + " " + rest;
    }
    SplitJoin(parts, ' ');
  }

  /** A header that is a single word, or whose first space is followed by
      another space, yields no token. */
  lemma MissingSecondPieceIsRejected(word: string, rest: string)
    requires ' ' !in word
    ensures BearerToken(Some(word)) == None
    ensures BearerToken(Some(word + "  " + rest)) == None
  {
    assert Join([word], ' ') == word;
    SplitJoin([word], ' ');
    var more := Split(rest, ' ');
    JoinSplit(rest, ' ');
    var parts := [word, ""] + more;
    assert Join(parts, ' ') == word + "  " + rest by {
      assert parts[1..][1..] == more;
      assert Join(parts[1..], ' ') == " " + rest;
    }
    SplitJoin(parts, ' ');
  }

  /** `authenticateToken`: 401 without a token, 403 when the token does not
      verify, otherwise the request goes on with the token's claims. */
  function AuthenticateToken(header: Option<string>, verify: string -> Option<Claims>): (r: Gate)
    ensures BearerToken(header).None? ==> r == Halt(Fail(Unauthorized, "Access token required"))
    ensures (BearerToken(header).Some? && verify(BearerToken(header).value).None?) ==>
      r == Halt(Fail(Forbidden, "Invalid or expired token"))
    ensures r.Next? ==> BearerToken(header).Some? && verify(BearerToken(header).value) == Some(r.user)
    ensures (BearerToken(header).Some? && verify(BearerToken(header).value).Some?) ==>
      r == Next(verify(BearerToken(header).value).value)
  {
    match BearerToken(header)
    case None => Halt(Fail(Unauthorized, "Access token required"))
    case Some(token) =>
      match verify(token)
      case None => Halt(Fail(Forbidden, "Invalid or expired token"))
      case Some(claims) => Next(claims)
  }

  /** `authorizeRoles(...roles)`: 401 with no caller attached, 403 when the
      caller's role is not listed, otherwise on with the same caller. */
  function AuthorizeRoles(roles: seq<string>, user: Option<Claims>): (r: Gate)
    ensures user.None? ==> r == Halt(Fail(Unauthorized, "User not authenticated"))
    ensures r.Next? <==> user.Some? && user.value.role in roles
    ensures r.Next? ==> r.user == user.value
    ensures (user.Some? && user.value.role !in roles) ==>
      r == Halt(Fail(Forbidden, "You do not have permission to access this resource"))
  {
    match user
    case None => Halt(Fail(Unauthorized, "User not authenticated"))
    case Some(u) =>
      if u.role in roles then Next(u)
      else Halt(Fail(Forbidden, "You do not have permission to access this resource"))
  }

  /** `authenticateToken` followed by `authorizeRoles(...roles)`, as the
      superadmin routes chain them. */
  function Guard(header: Option<string>, verify: string -> Option<Claims>, roles: seq<string>): Gate {
    match AuthenticateToken(header, verify)
    case Halt(reply) => Halt(reply)
    case Next(user) => AuthorizeRoles(roles, Some(user))
  }

  /** Behind `authenticateToken` the role check always finds a caller, so a
      chained route answers 401 only for a missing token, 403 for a bad token
      or a role not listed, and reaches its handler only with verified claims
      whose role is listed. */
  lemma GuardOutcomes(header: Option<string>, verify: string -> Option<Claims>, roles: seq<string>)
    ensures Guard(header, verify, roles).Next? <==>
              BearerToken(header).Some? && verify(BearerToken(header).value).Some?
              && verify(BearerToken(header).value).value.role in roles
    ensures Guard(header, verify, roles).Halt? ==>
              Guard(header, verify, roles).reply.body.message != "User not authenticated"
    ensures (Guard(header, verify, roles).Halt? && Guard(header, verify, roles).reply.status == Unauthorized) ==>
      BearerToken(header).None?
  {
  }
}
