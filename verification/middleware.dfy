/** The `auth` middleware (server/src/middlewares/auth.js): it reads the
    `Authorization` header, takes the second space-separated field as the
    token, verifies it, and either answers 401 or passes the decoded claims
    on to the handler.

    Note on caller identity: the claims passed on are `{ id, email }` (plus
    `iat`/`exp`), but the event handlers read `req.user._id`, a field these
    claims do not have. The event handlers therefore take the caller's id as
    an explicit parameter; this model does not decide where it comes from. */
module AuthMiddleware {
  import opened Base
  import opened Text
  import opened Tokens
  import opened Schema

  const NoToken := Failure(401, "No token provided")
  const BadFormat := Failure(401, "Invalid token format")
  const BadToken := Failure(401, "Token invalid or expired")

  /** Either the request is answered with a failure and the handler never
      runs, or the handler runs once with `req.user` set to `user`. */
  datatype Outcome = Rejected(failure: Failure) | Next(user: Claims)

  /** `header.split(" ")[1]`: the second field, if there is one. */
  function TokenField(header: string): (r: Option<string>)
    ensures r.Some? <==> ' ' in header
    ensures r.Some? ==> ' ' !in r.value
  {
    var fields := Split(header);
    NoSpacesMeansNone(header);
    if |fields| >= 2 then Some(fields[1]) else None
  }

  /** The middleware. `header` is `req.headers.authorization` (missing or
      empty counts as absent); `decode` and `now` are what `jwt.verify` uses. */
  function Authenticate(header: Option<string>, decode: string -> Option<Claims>, now: int): (r: Outcome)
    ensures r.Rejected? ==> r.failure.status == 401
    ensures r == Rejected(NoToken) <==> Falsy(header)
    ensures r == Rejected(BadFormat) <==> !Falsy(header) && Falsy(TokenField(header.value))
    ensures r == Rejected(BadToken) <==>
      !Falsy(header) && !Falsy(TokenField(header.value))
      && Verify(decode, TokenField(header.value).value, now).None?
    ensures r.Next? <==>
      !Falsy(header) && !Falsy(TokenField(header.value))
      && Verify(decode, TokenField(header.value).value, now).Some?
    ensures r.Next? ==> Verify(decode, TokenField(header.value).value, now) == Some(r.user)
  {
    if Falsy(header) then Rejected(NoToken)
    else
      var token := TokenField(header.value);
      if Falsy(token) then Rejected(BadFormat)
      else
        match Verify(decode, token.value, now)
        case None => Rejected(BadToken)
        case Some(claims) => Next(claims)
  }

  /** A protected route, `router.METHOD(path, auth, handler)`: the handler
      runs on the store only when the middleware lets the request through,
      and then with the decoded claims as `req.user`. */
  function Guard<S, T>(header: Option<string>, decode: string -> Option<Claims>, now: int,
                       store: S, handler: (S, Claims) -> Reply<S, T>): (r: Reply<S, T>)
    ensures Authenticate(header, decode, now).Rejected? ==>
              r == Reply(store, Err(Authenticate(header, decode, now).failure))
    ensures Authenticate(header, decode, now).Next? ==>
              r == handler(store, Authenticate(header, decode, now).user)
  {
    match Authenticate(header, decode, now)
    case Rejected(f) => Reply(store, Err(f))
    case Next(claims) => handler(store, claims)
  }

  /** Without an Authorization header the request is answered 401 and the
      handler never touches the store, whatever it would have done. */
  lemma MissingHeaderNeverReachesHandler<S, T>(decode: string -> Option<Claims>, now: int,
                                               store: S, handler: (S, Claims) -> Reply<S, T>)
    ensures Guard(None, decode, now, store, handler) == Reply(store, Err(NoToken))
    ensures Guard(Some(""), decode, now, store, handler) == Reply(store, Err(NoToken))
  {
  }

  /** The token is exactly the second word of a header of space-free words. */
  lemma TokenIsSecondWord(words: seq<string>)
    requires |words| >= 2
    requires forall k :: 0 <= k < |words| ==> ' ' !in words[k]
    ensures TokenField(Join(words)) == Some(words[1])
  {
    SplitJoin(words);
  }

  /** The scheme word is never checked: `"<scheme> <t>"` is treated exactly as
      `"Bearer <t>"`, whatever the scheme. */
  lemma SchemeIgnored(scheme: string, token: string, decode: string -> Option<Claims>, now: int)
    requires ' ' !in scheme && ' ' !in token
    ensures Authenticate(Some(scheme + " " + token), decode, now)
            == Authenticate(Some("Bearer " + token), decode, now)
  {
    assert Join([scheme, token]) == scheme + " " + token;
    assert Join(["Bearer", token]) == "Bearer " + token;
    TokenIsSecondWord([scheme, token]);
    TokenIsSecondWord(["Bearer", token]);
  }

  /** A header with no space at all ("Bearer" alone) has no token field. */
  lemma SchemeAloneRejected(header: string, decode: string -> Option<Claims>, now: int)
    requires header != "" && ' ' !in header
    ensures Authenticate(Some(header), decode, now) == Rejected(BadFormat)
  {
  }

  /** A double space after the scheme makes the token field empty. */
  lemma DoubleSpaceRejected(scheme: string, rest: string, decode: string -> Option<Claims>, now: int)
    requires ' ' !in scheme
    ensures Authenticate(Some(scheme + "  " + rest), decode, now) == Rejected(BadFormat)
  {
    assert scheme + "  " + rest == scheme + " " + ("" + " " + rest);
    SplitPrefixed(scheme, "" + " " + rest);
    SplitPrefixed("", rest);
  }

  /** A token issued at `issuedAt` and sent as `Bearer <token>` lets the
      request through, carrying exactly the signed claims, until seven days
      have passed; afterwards it is refused as invalid or expired. Tokens are
      assumed non-empty and space-free, as signed JWTs are. */
  lemma IssuedTokenAccepted(sign: Claims -> string, decode: string -> Option<Claims>,
                            id: UserId, email: string, issuedAt: int, now: int)
    requires forall c :: decode(sign(c)) == Some(c)
    requires forall c :: sign(c) != "" && ' ' !in sign(c)
    ensures now < issuedAt + SevenDays ==>
      Authenticate(Some("Bearer " + Issue(sign, id, email, issuedAt)), decode, now)
      == Next(Claims(id, email, issuedAt, issuedAt + SevenDays))
    ensures issuedAt + SevenDays <= now ==>
      Authenticate(Some("Bearer " + Issue(sign, id, email, issuedAt)), decode, now)
      == Rejected(BadToken)
  {
    var token := Issue(sign, id, email, issuedAt);
    assert Join(["Bearer", token]) == "Bearer " + token;
    TokenIsSecondWord(["Bearer", token]);
    TokenLifetime(sign, decode, id, email, issuedAt, now);
  }
}
