/**
 * The two cryptographic libraries the core calls, `jsonwebtoken` and `bcryptjs`,
 * as values made of functions. Their internals are not modelled; what the core
 * relies on is stated by the ghost predicates `LawfulJwt` and `LawfulBcrypt`,
 * which the handlers require of the instances they are given.
 */
module Crypto {
  import opened Wrappers

  /** The signing secret (`env.JWT_SECRET`), loaded once at start-up. */
  type Secret = string

  /** Seconds since the epoch, the unit of the `iat` and `exp` claims. */
  type Time = nat

  /** `{ expiresIn: '1h' }`, the lifetime of every token the core signs. */
  const ACCESS_TOKEN_TTL: nat := 3600

  /** The bcrypt cost factor passed to `bcrypt.hash(password, 10)`. */
  const SALT_ROUNDS: nat := 10

  /**
   * `sign(id, secret, issuedAt, lifetime)` is `jwt.sign({ id }, secret, { expiresIn })`
   * called at time `issuedAt`; `verify(token, secret, now)` is `jwt.verify(token, secret)`
   * at time `now`, giving the `id` claim or None where the library throws.
   */
  datatype Jwt = Jwt(
    sign: (string, Secret, Time, nat) -> string,
    verify: (string, Secret, Time) -> Option<string>)

  /**
   * What the core relies on from `jsonwebtoken`: a token verifies, with the secret
   * it was signed with, to its subject until `issuedAt + lifetime` and not from then
   * on (the library rejects once `now >= exp`); it never verifies under another
   * secret; and it is a non-empty string without spaces (three base64url parts).
   */
  ghost predicate LawfulJwt(j: Jwt)
  {
    && (forall id, s, iat, ttl, now | now < iat + ttl :: j.verify(j.sign(id, s, iat, ttl), s, now) == Some(id))
    && (forall id, s, iat, ttl, now | iat + ttl <= now :: j.verify(j.sign(id, s, iat, ttl), s, now) == None)
    && (forall id, s, s', iat, ttl, now | s' != s :: j.verify(j.sign(id, s, iat, ttl), s', now) == None)
    && (forall id, s, iat, ttl :: j.sign(id, s, iat, ttl) != "" && ' ' !in j.sign(id, s, iat, ttl))
  }

  /** The random salt `bcrypt.hash` draws; a parameter here. */
  type Salt = nat

  /**
   * `hash(password, rounds, salt)` is `bcrypt.hash(password, rounds)` when the library
   * draws `salt`; `compare(candidate, hash)` is `bcrypt.compare(candidate, hash)`.
   */
  datatype Bcrypt = Bcrypt(
    hash: (string, nat, Salt) -> string,
    compare: (string, string) -> bool)

  /** The length of every bcrypt hash string (`$2a$10$` followed by salt and digest). */
  const HASH_LENGTH: nat := 60

  /**
   * What the core relies on from `bcryptjs`: a password matches its own hash; a
   * hash is 60 characters long and differs from the password; and `compare`
   * answers false for any stored string that is not 60 characters long.
   * Different passwords may share a hash (bcrypt reads only the first 72 bytes),
   * so no injectivity is claimed.
   */
  ghost predicate LawfulBcrypt(b: Bcrypt)
  {
    && (forall p, rounds, salt :: b.compare(p, b.hash(p, rounds, salt)))
    && (forall p, rounds, salt :: |b.hash(p, rounds, salt)| == HASH_LENGTH && b.hash(p, rounds, salt) != p)
    && (forall p, h | |h| != HASH_LENGTH :: !b.compare(p, h))
  }
}
