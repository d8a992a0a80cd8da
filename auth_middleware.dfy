/**
 * `authenticateToken`: take the second space-separated word of the
 * `Authorization` header as the token, answer 401 when there is none, 403 when
 * `jwt.verify` rejects it, and otherwise attach `req.user` and call `next()`.
 */
module AuthMiddleware {
  import opened Wrappers
  import opened Http
  import opened Crypto

  const TOKEN_MISSING: string := "Access denied. Token missing."
  const TOKEN_INVALID: string := "Invalid or expired token."

  /** Glue the parts back together with `sep` between neighbours (`parts.join(sep)`). */
  function Join(parts: seq<string>, sep: char): string
    requires |parts| >= 1
  {
    if |parts| == 1 then parts[0] else parts[0] + [sep] + Join(parts[1..], sep)
  }

  /**
   * `s.split(sep)` for a one-character separator: the runs between separators,
   * empty runs included, so there is always at least one part.
   */
  function Split(s: string, sep: char): (parts: seq<string>)
    ensures |parts| >= 1
  {
    if s == [] then [""]
    else
      var rest := Split(s[1..], sep);
      if s[0] == sep then [""] + rest else [[s[0]] + rest[0]] + rest[1..]
  }

  /** A string splits into one part, itself, exactly when it holds no separator. */
  lemma {:induction false} SplitSingle(s: string, sep: char)
    ensures |Split(s, sep)| == 1 <==> sep !in s
    ensures sep !in s ==> Split(s, sep) == [s]
  {
    if s != [] {
      SplitSingle(s[1..], sep);
      assert s == [s[0]] + s[1..];
    }
  }

  /** No part of a split contains the separator. */
  lemma {:induction false} SplitPartsLackSeparator(s: string, sep: char)
    ensures forall k :: 0 <= k < |Split(s, sep)| ==> sep !in Split(s, sep)[k]
  {
    if s != [] {
      SplitPartsLackSeparator(s[1..], sep);
    }
  }

  /** Joining the parts of a split gives the original string back. */
  lemma {:induction false} JoinSplit(s: string, sep: char)
    ensures Join(Split(s, sep), sep) == s
  {
    if s != [] {
      JoinSplit(s[1..], sep);
      var rest := Split(s[1..], sep);
      if s[0] == sep {
        assert ([""] + rest)[1..] == rest;
      } else {
        var parts := [[s[0]] + rest[0]] + rest[1..];
        if |rest| > 1 {
          assert parts[1..] == rest[1..];
          assert Join(rest, sep) == rest[0] + [sep] + Join(rest[1..], sep);
        }
        assert s == [s[0]] + s[1..];
      }
    }
  }

  /** A separator-free first part is split off exactly. */
  lemma {:induction false} SplitHead(a: string, sep: char, b: string)
    requires sep !in a
    ensures Split(a + [sep] + b, sep) == [a] + Split(b, sep)
  {
    if a != [] {
      SplitHead(a[1..], sep, b);
      assert (a + [sep] + b)[1..] == a[1..] + [sep] + b;
      assert [a[0]] + a[1..] == a;
    } else {
      assert a + [sep] + b == [sep] + b;
    }
  }

  /** Splitting undoes joining, for parts that do not contain the separator. */
  lemma {:induction false} SplitJoin(parts: seq<string>, sep: char)
    requires |parts| >= 1
    requires forall i :: 0 <= i < |parts| ==> sep !in parts[i]
    ensures Split(Join(parts, sep), sep) == parts
  {
    if |parts| == 1 {
      SplitSingle(parts[0], sep);
    } else {
      SplitJoin(parts[1..], sep);
      SplitHead(parts[0], sep, Join(parts[1..], sep));
      assert parts == [parts[0]] + parts[1..];
    }
  }

  /**
   * `authHeader?.split(' ')[1]`: the second space-separated part of the header,
   * or None (`undefined`) without a header or without a second part. The scheme
   * word before the first space is not looked at.
   */
  function BearerToken(header: Option<string>): (token: Option<string>)
    ensures token.Some? <==> header.Some? && ' ' in header.value
    ensures token.Some? ==> ' ' !in token.value
  {
    match header
    case None => None
    case Some(h) =>
      SplitSingle(h, ' ');
      SplitPartsLackSeparator(h, ' ');
      var parts := Split(h, ' ');
      if |parts| > 1 then Some(parts[1]) else None
  }

  /**
   * Whatever the scheme word, the token is the word after it, whether the header
   * ends there or goes on after another space (`"Bearer a b"` gives `a`).
   */
  lemma TokenAfterScheme(scheme: string, token: string, rest: string)
    requires ' ' !in scheme && ' ' !in token
    ensures BearerToken(Some(scheme + [' '] + token)) == Some(token)
    ensures BearerToken(Some(scheme + [' '] + token + [' '] + rest)) == Some(token)
  {
    SplitHead(scheme, ' ', token);
    SplitSingle(token, ' ');
    var tail := token + [' '] + rest;
    SplitHead(token, ' ', rest);
    SplitHead(scheme, ' ', tail);
    assert scheme + [' '] + token + [' '] + rest == scheme + [' '] + tail;
  }

  /**
   * Conversely, a token taken from a header follows the first space and a
   * space-free scheme word, and is followed by the end of the header or by
   * another space.
   */
  lemma HeaderAroundToken(h: string, token: string)
    requires BearerToken(Some(h)) == Some(token)
    ensures var scheme := Split(h, ' ')[0]; var n := |scheme| + 1 + |token|;
      ' ' !in scheme && n <= |h| && h[..n] == scheme + [' '] + token && (n == |h| || h[n] == ' ')
  {
    var parts := Split(h, ' ');
    SplitPartsLackSeparator(h, ' ');
    JoinSplit(h, ' ');
    assert parts[1] == token;
    assert h == parts[0] + [' '] + Join(parts[1..], ' ');
    if |parts| > 2 {
      assert Join(parts[1..], ' ') == token + [' '] + Join(parts[2..], ' ');
    }
  }

  /** The three ways a request leaves the gate. */
  datatype Verdict = TokenMissing | TokenRejected | Admitted(user: Identity)

  /**
   * The gate's decision: no token or an empty one is `TokenMissing` (401); a token
   * `jwt.verify` rejects is `TokenRejected` (403); a token it accepts admits the
   * request as `{ id: decoded.id, email: '', username: '' }`.
   */
  function Gate(j: Jwt, secret: Secret, now: Time, header: Option<string>): (v: Verdict)
    ensures v.TokenMissing? <==> BearerToken(header) == None || BearerToken(header) == Some("")
    ensures v.TokenRejected? <==>
      BearerToken(header).Some? && BearerToken(header).value != "" && j.verify(BearerToken(header).value, secret, now).None?
    ensures v.Admitted? ==>
      v.user.email == "" && v.user.username == "" &&
      j.verify(BearerToken(header).value, secret, now) == Some(v.user.id)
  {
    match BearerToken(header)
    case None => TokenMissing
    case Some(token) =>
      if token == "" then TokenMissing
      else
        match j.verify(token, secret, now)
        case None => TokenRejected
        case Some(id) => Admitted(Identity(id, "", ""))
  }

  /** Missing headers, headers without a space and `"Bearer "` alike are a missing token. */
  lemma GateWithoutToken(j: Jwt, secret: Secret, now: Time, h: string)
    requires ' ' !in h || h == "Bearer "
    ensures Gate(j, secret, now, None) == TokenMissing
    ensures Gate(j, secret, now, Some(h)) == TokenMissing
  {
    if h == "Bearer " {
      TokenAfterScheme("Bearer", "", "");
      assert h == "Bearer" + [' '] + "";
    }
  }

  /** A token signed with the server's secret admits its subject, under any scheme word, until it expires. */
  lemma GateAdmitsLiveToken(j: Jwt, secret: Secret, scheme: string, id: string, iat: Time, ttl: nat, now: Time)
    requires LawfulJwt(j) && ' ' !in scheme && now < iat + ttl
    ensures Gate(j, secret, now, Some(scheme + [' '] + j.sign(id, secret, iat, ttl))) == Admitted(Identity(id, "", ""))
  {
    TokenAfterScheme(scheme, j.sign(id, secret, iat, ttl), "");
  }

  /** An expired token, or one signed with another secret, is rejected with 403, not 401. */
  lemma GateRejectsDeadToken(j: Jwt, secret: Secret, other: Secret, scheme: string, id: string, iat: Time, ttl: nat, now: Time)
    requires LawfulJwt(j) && ' ' !in scheme
    requires iat + ttl <= now || other != secret
    ensures Gate(j, secret, now, Some(scheme + [' '] + j.sign(id, other, iat, ttl))) == TokenRejected
  {
    TokenAfterScheme(scheme, j.sign(id, other, iat, ttl), "");
  }

  /**
   * `authenticateToken(req, res, next)`: exactly one of a 401 reply, a 403 reply,
   * or setting `req.user` and one call of `next()`; on the two replies `req.user`
   * and the `next()` count stay as they were.
   */
  method AuthenticateToken(ex: Exchange, j: Jwt, secret: Secret, now: Time)
    modifies ex
    ensures match Gate(j, secret, now, ex.request.authorization)
      case TokenMissing =>
        ex.response == Some(ErrorReply(UNAUTHORIZED, TOKEN_MISSING)) &&
        ex.user == old(ex.user) && ex.nextCalls == old(ex.nextCalls)
      case TokenRejected =>
        ex.response == Some(ErrorReply(FORBIDDEN, TOKEN_INVALID)) &&
        ex.user == old(ex.user) && ex.nextCalls == old(ex.nextCalls)
      case Admitted(u) =>
        ex.user == Some(u) && ex.response == old(ex.response) && ex.nextCalls == old(ex.nextCalls) + 1
  {
    var token := BearerToken(ex.request.authorization);
    if token.None? || token.value == "" {
      ex.response := Some(ErrorReply(UNAUTHORIZED, TOKEN_MISSING));
      return;
    }
    var decoded := j.verify(token.value, secret, now);
    if decoded.None? {
      ex.response := Some(ErrorReply(FORBIDDEN, TOKEN_INVALID));
      return;
    }
    ex.user := Some(Identity(decoded.value, "", ""));
    ex.nextCalls := ex.nextCalls + 1;
  }
}
