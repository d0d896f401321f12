/**
 * The bearer-token middleware `verifyJWT`: the `Authorization` header must be
 * present and non-empty, and the token is the second space-separated piece of
 * it. Signature and expiry checking belong to the JSON Web Token library and
 * are given to the model as the function `verify`, which maps a token to the
 * email claim it carries, or to nothing when the library rejects it.
 */
module Auth {
  import opened Common
  import Text

  /** What the header holds once it has been split. */
  datatype HeaderToken =
    | NoToken                  // header missing or empty: the handler answers "No token"
    | Undefined                // no second piece: `split(" ")[1]` is undefined
    | Token(token: string)

  /** What `verifyJWT` lets through. */
  datatype AuthOutcome =
    | MissingToken             // "No token"
    | InvalidToken             // "Invalid token!"
    | Authenticated(email: string)

  /**
   * `h` is `scheme`, one space, `token`, then either nothing or a space and
   * whatever follows it.
   */
  predicate Framed(h: string, scheme: string, token: string, rest: string) {
    ' ' !in scheme && (rest == [] || rest[0] == ' ') && h == scheme + [' '] + token + rest
  }

  /** The token part of an `Authorization` header. */
  function BearerToken(header: Option<string>): (r: HeaderToken)
    ensures r == NoToken <==> header == None || header == Some("")
    ensures r.Token? ==> ' ' !in r.token
    ensures r.Token? ==> header.Some? && exists scheme, rest :: Framed(header.value, scheme, r.token, rest)
    ensures r == Undefined ==> ' ' !in header.value
  {
    if header == None || header.value == "" then NoToken
    else
      var parts := Text.Split(header.value, ' ');
      if |parts| < 2 then Undefined
      else
        var rest := if |parts| == 2 then [] else [' '] + Text.Join(parts[2..], ' ');
        assert Text.Join(parts[1..], ' ') == parts[1] + rest;
        assert ' ' !in parts[0] && (rest == [] || rest[0] == ' ');
        assert Framed(header.value, parts[0], parts[1], rest);
        Token(parts[1])
  }

  /** A well-formed header `"<scheme> <token>"` yields its token. */
  lemma {:induction false} BearerRoundTrip(scheme: string, token: string)
    requires ' ' !in scheme && ' ' !in token
    ensures BearerToken(Some(scheme + [' '] + token)) == Token(token)
  {
    var parts := [scheme, token];
    assert Text.Join(parts[1..], ' ') == token;
    assert Text.Join(parts, ' ') == scheme + [' '] + token;
    Text.SplitJoin(parts, ' ');
  }

  /** A non-empty header without a space has no token. */
  lemma {:induction false} NoSpaceNoToken(header: string)
    requires header != "" && ' ' !in header
    ensures BearerToken(Some(header)) == Undefined
  {
    Text.SplitJoin([header], ' ');
  }

  /**
   * The whole middleware. The token library rejects a missing or empty token
   * before it looks at it ("jwt must be provided"); `verify` is its verdict
   * on any other token.
   */
  function VerifyRequest(header: Option<string>, verify: string -> Option<string>): (r: AuthOutcome)
    ensures r == MissingToken <==> BearerToken(header) == NoToken
    ensures r.Authenticated? <==>
              BearerToken(header).Token? && BearerToken(header).token != "" && verify(BearerToken(header).token).Some?
    ensures r.Authenticated? ==> r.email == verify(BearerToken(header).token).value
  {
    match BearerToken(header)
    case NoToken => MissingToken
    case Undefined => InvalidToken
    case Token(t) =>
      if t == "" then InvalidToken
      else
        match verify(t)
        case None => InvalidToken
        case Some(email) => Authenticated(email)
  }

  /** `"Bearer "` and `"Bearer"` are both turned away as invalid, whatever the library would say of a token. */
  lemma {:induction false} EmptyTokenInvalid(verify: string -> Option<string>)
    ensures VerifyRequest(Some("Bearer "), verify) == InvalidToken
    ensures VerifyRequest(Some("Bearer"), verify) == InvalidToken
  {
    BearerRoundTrip("Bearer", "");
    assert "Bearer" + [' '] + "" == "Bearer ";
    NoSpaceNoToken("Bearer");
  }
}
