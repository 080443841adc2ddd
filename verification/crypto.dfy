/** bcrypt and jsonwebtoken, treated as uninterpreted functions.  The model
    never looks inside a hash or a token; it only relies on the few facts
    collected in `Sound`. */
module Crypto {
  import opened Common

  /** A token payload.  An access token carries `_id`, `email`, `username`
      and `fullname`; a refresh token carries `_id` alone. */
  datatype Claims = Claims(
    id: Option<nat>,
    email: Option<string>,
    username: Option<string>,
    fullname: Option<string>)

  /** What `jwt.verify` does with a token: returns its payload, or throws an
      error with the given message. */
  datatype Verified = Verified(claims: Claims) | Rejected(message: string)

  /** The library calls the service makes.  The bcrypt salt and the JWT
      issue time and expiry are folded into the functions. */
  datatype Primitives = Primitives(
    hash: string -> string,              // bcrypt.hash(password, 10)
    compare: (string, string) -> bool,   // bcrypt.compare(password, hash)
    sign: (Claims, string) -> string,    // jwt.sign(claims, secret, options)
    verify: (string, string) -> Verified // jwt.verify(token, secret)
  )

  /** The two signing secrets from the environment: JWT_SECRET for access
      tokens and JWT_REFRESH_SECRET for refresh tokens. */
  datatype Secrets = Secrets(access: string, refresh: string)

  /** The facts about the primitives the proofs use: a hash is a non-empty
      string that its own password matches; a token is a non-empty string
      that verifies under the secret it was signed with, giving back its
      claims, and is refused under any other secret. */
  ghost predicate Sound(p: Primitives) {
    && (forall pw :: p.hash(pw) != "")
    && (forall pw :: p.compare(pw, p.hash(pw)))
    && (forall c, k :: p.sign(c, k) != "")
    && (forall c, k :: p.verify(p.sign(c, k), k) == Verified(c))
    && (forall c, k, k' :: k != k' ==> p.verify(p.sign(c, k), k').Rejected?)
  }

  /** The deployment uses different secrets for the two token kinds. */
  predicate Distinct(keys: Secrets) {
    keys.access != keys.refresh
  }

  /** Under sound primitives, tokens signed with different secrets are
      different strings, whatever their claims. */
  lemma SignSeparatesSecrets(p: Primitives, c: Claims, c': Claims, k: string, k': string)
    requires Sound(p) && k != k'
    ensures p.sign(c, k) != p.sign(c', k')
  {
    assert p.verify(p.sign(c, k), k) == Verified(c);
    assert p.verify(p.sign(c', k'), k).Rejected?;
  }
}
