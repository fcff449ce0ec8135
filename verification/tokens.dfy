/** JSON Web Tokens as the backend uses them. Signing and signature checking
    are foreign code (jsonwebtoken with the server's secret) and enter as
    function parameters; the expiry arithmetic around them is modelled. */
module Tokens {
  import opened Base
  import opened Schema

  /** A decoded token: the signed payload `{id, email}` plus the `iat` and
      `exp` registered claims, in seconds. */
  datatype Claims = Claims(id: UserId, email: string, issuedAt: int, expiresAt: int)

  /** `expiresIn: "7d"`, in seconds. */
  const SevenDays: int := 7 * 24 * 60 * 60

  /** `jwt.sign({ id, email }, secret, { expiresIn: "7d" })` at clock `now`
      (seconds); `sign` stands for the signing with the secret. */
  function Issue(sign: Claims -> string, id: UserId, email: string, now: int): (token: string)
    ensures forall decode: string -> Option<Claims> | (forall c :: decode(sign(c)) == Some(c)) ::
              decode(token) == Some(Claims(id, email, now, now + SevenDays))
  {
    sign(Claims(id, email, now, now + SevenDays))
  }

  /** `jwt.verify(token, secret)`: `decode` stands for the signature check
      and payload decoding; a token whose `exp` is not after `now` is refused
      as expired. */
  function Verify(decode: string -> Option<Claims>, token: string, now: int): (r: Option<Claims>)
    ensures r.Some? ==> decode(token) == r && now < r.value.expiresAt
    ensures decode(token).Some? && now < decode(token).value.expiresAt ==> r == decode(token)
  {
    match decode(token)
    case None => None
    case Some(c) => if now >= c.expiresAt then None else Some(c)
  }

  /** When `decode` inverts `sign`, a token issued at `issuedAt` verifies,
      yielding exactly the signed claims, until seven days have passed, and
      never after. */
  lemma TokenLifetime(sign: Claims -> string, decode: string -> Option<Claims>,
                      id: UserId, email: string, issuedAt: int, now: int)
    requires forall c :: decode(sign(c)) == Some(c)
    ensures Verify(decode, Issue(sign, id, email, issuedAt), now).Some?
            <==> now < issuedAt + SevenDays
    ensures now < issuedAt + SevenDays ==>
            Verify(decode, Issue(sign, id, email, issuedAt), now)
            == Some(Claims(id, email, issuedAt, issuedAt + SevenDays))
  {
    var c := Claims(id, email, issuedAt, issuedAt + SevenDays);
    assert decode(sign(c)) == Some(c);
  }
}
