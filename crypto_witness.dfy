/**
 * Concrete stand-ins for `jsonwebtoken` and `bcryptjs` that satisfy `LawfulJwt`
 * and `LawfulBcrypt`, so the assumptions the handlers make of the libraries are
 * consistent. The token format here is a toy (claims spelled out in unary, no
 * cryptography); it only shows that the stated laws can all hold at once.
 */
module CryptoWitness {
  import opened Wrappers
  import opened Crypto

  /** `n` ones and a closing zero. */
  function Unary(n: nat): string
  {
    if n == 0 then "0" else "1" + Unary(n - 1)
  }

  /** Read one unary number off the front of `s`. */
  function ReadUnary(s: string): Option<(nat, string)>
  {
    if s == [] then None
    else if s[0] == '0' then Some((0, s[1..]))
    else if s[0] == '1' then
      match ReadUnary(s[1..])
      case None => None
      case Some((n, rest)) => Some((n + 1, rest))
    else None
  }

  lemma {:induction false} ReadUnaryAfterUnary(n: nat, rest: string)
    ensures ReadUnary(Unary(n) + rest) == Some((n, rest))
  {
    if n == 0 {
      assert (Unary(0) + rest)[1..] == rest;
    } else {
      ReadUnaryAfterUnary(n - 1, rest);
      assert (Unary(n) + rest)[1..] == Unary(n - 1) + rest;
    }
  }

  predicate IsCode(n: nat) { n < 0xD800 || 0xE000 <= n < 0x11_0000 }

  /** Every character as its code point in unary. */
  function Codes(s: string): string
  {
    if s == [] then "" else Unary(s[0] as int) + Codes(s[1..])
  }

  /** Read `k` characters, each a unary code point, off the front of `s`. */
  function ReadCodes(k: nat, s: string): Option<(string, string)>
  {
    if k == 0 then Some(([], s))
    else
      match ReadUnary(s)
      case None => None
      case Some((c, rest)) =>
        if !IsCode(c) then None
        else
          match ReadCodes(k - 1, rest)
          case None => None
          case Some((t, rest')) => Some(([c as char] + t, rest'))
  }

  lemma {:induction false} ReadCodesAfterCodes(t: string, rest: string)
    ensures ReadCodes(|t|, Codes(t) + rest) == Some((t, rest))
  {
    if t != [] {
      var c := t[0] as int;
      assert Codes(t) + rest == Unary(c) + (Codes(t[1..]) + rest);
      ReadUnaryAfterUnary(c, Codes(t[1..]) + rest);
      ReadCodesAfterCodes(t[1..], rest);
      assert IsCode(c) && c as char == t[0];
      assert [c as char] + t[1..] == t;
      assert ReadCodes(|t|, Codes(t) + rest) == Some(([c as char] + t[1..], rest));
    } else {
      assert Codes(t) + rest == rest;
    }
  }

  /** A string as its length followed by its code points. */
  function EncodeString(s: string): string
  {
    Unary(|s|) + Codes(s)
  }

  function ReadString(s: string): Option<(string, string)>
  {
    match ReadUnary(s)
    case None => None
    case Some((k, rest)) => ReadCodes(k, rest)
  }

  lemma ReadStringAfterEncode(t: string, rest: string)
    ensures ReadString(EncodeString(t) + rest) == Some((t, rest))
  {
    assert EncodeString(t) + rest == Unary(|t|) + (Codes(t) + rest);
    ReadUnaryAfterUnary(|t|, Codes(t) + rest);
    ReadCodesAfterCodes(t, rest);
  }

  /** The toy token: expiry, subject and secret, one after the other. */
  function Encode(exp: nat, id: string, secret: Secret): string
  {
    Unary(exp) + EncodeString(id) + EncodeString(secret)
  }

  function Decode(token: string): Option<(nat, string, Secret)>
  {
    match ReadUnary(token)
    case None => None
    case Some((exp, r1)) =>
      match ReadString(r1)
      case None => None
      case Some((id, r2)) =>
        match ReadString(r2)
        case None => None
        case Some((secret, r3)) => if r3 == [] then Some((exp, id, secret)) else None
  }

  lemma DecodeEncode(exp: nat, id: string, secret: Secret)
    ensures Decode(Encode(exp, id, secret)) == Some((exp, id, secret))
  {
    var e2 := EncodeString(secret);
    assert Encode(exp, id, secret) == Unary(exp) + (EncodeString(id) + e2);
    ReadUnaryAfterUnary(exp, EncodeString(id) + e2);
    ReadStringAfterEncode(id, e2);
    assert e2 == e2 + [];
    ReadStringAfterEncode(secret, []);
  }

  /** Tokens are made of the digits `0` and `1` only, and end in `0`. */
  lemma {:induction false} UnaryDigits(n: nat)
    ensures |Unary(n)| >= 1 && forall i :: 0 <= i < |Unary(n)| ==> Unary(n)[i] in "01"
  {
    if n > 0 {
      UnaryDigits(n - 1);
    }
  }

  lemma {:induction false} CodesDigits(s: string)
    ensures forall i :: 0 <= i < |Codes(s)| ==> Codes(s)[i] in "01"
  {
    if s != [] {
      UnaryDigits(s[0] as int);
      CodesDigits(s[1..]);
    }
  }

  lemma EncodeDigits(exp: nat, id: string, secret: Secret)
    ensures Encode(exp, id, secret) != "" && ' ' !in Encode(exp, id, secret)
  {
    UnaryDigits(exp);
    UnaryDigits(|id|);
    UnaryDigits(|secret|);
    CodesDigits(id);
    CodesDigits(secret);
    var t := Encode(exp, id, secret);
    forall i | 0 <= i < |t| ensures t[i] in "01" {
    }
  }

  function ToyVerify(token: string, secret: Secret, now: Time): Option<string>
  {
    match Decode(token)
    case None => None
    case Some((exp, id, s)) => if s == secret && now < exp then Some(id) else None
  }

  /** The toy JWT library. */
  function ToyJwt(): Jwt
  {
    Jwt((id: string, s: Secret, iat: Time, ttl: nat) => Encode(iat + ttl, id, s),
        (t: string, s: Secret, now: Time) => ToyVerify(t, s, now))
  }

  /** The laws of `LawfulJwt` hold together. */
  lemma ToyJwtIsLawful()
    ensures LawfulJwt(ToyJwt())
  {
    var j := ToyJwt();
    forall id: string, s: Secret, iat: Time, ttl: nat, now: Time
      ensures j.verify(j.sign(id, s, iat, ttl), s, now) == (if now < iat + ttl then Some(id) else None)
    {
      DecodeEncode(iat + ttl, id, s);
    }
    forall id: string, s: Secret, s': Secret, iat: Time, ttl: nat, now: Time | s' != s
      ensures j.verify(j.sign(id, s, iat, ttl), s', now) == None
    {
      DecodeEncode(iat + ttl, id, s);
    }
    forall id: string, s: Secret, iat: Time, ttl: nat
      ensures j.sign(id, s, iat, ttl) != "" && ' ' !in j.sign(id, s, iat, ttl)
    {
      EncodeDigits(iat + ttl, id, s);
    }
  }

  /** Two distinct 60-character strings. */
  const HASH_A: string := seq(HASH_LENGTH, _ => 'a')
  const HASH_B: string := seq(HASH_LENGTH, _ => 'b')

  /** The toy bcrypt: every password hashes to one of two 60-character strings, never to itself. */
  function ToyBcrypt(): Bcrypt
  {
    Bcrypt((p: string, rounds: nat, salt: Salt) => if p == HASH_A then HASH_B else HASH_A,
           (p: string, h: string) => |h| == HASH_LENGTH)
  }

  /** The laws of `LawfulBcrypt` hold together. */
  lemma ToyBcryptIsLawful()
    ensures LawfulBcrypt(ToyBcrypt())
  {
    assert HASH_A[0] != HASH_B[0];
  }
}
