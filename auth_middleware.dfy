/** `RequireAuth` of internal/shared/infrastructure/middleware/auth_midleware.go:
    the chain of checks that lets a request through with the caller's user id,
    or stops it with the reason of the first check that fails. Parsing and
    verifying the token with the server's secret is an oracle. */
module Middleware {
  import opened Common
  import opened Sessions
  import opened SessionStore

  // ---------------------------------------------------------------- strings.Split

  /** Go's `strings.Split(s, sep)` for a one-character separator: the pieces
      between separators, one more piece than there are separators. */
  function Split(s: string, sep: char): (parts: seq<string>)
    ensures |parts| >= 1
    ensures forall k :: 0 <= k < |parts| ==> sep !in parts[k]
    decreases |s|
  {
    var i := IndexOf(s, sep);
    if i == -1 then [s] else [s[..i]] + Split(s[i + 1..], sep)
  }

  /** `strings.Join(parts, sep)`. */
  function Join(parts: seq<string>, sep: char): string
    requires |parts| >= 1
  {
    if |parts| == 1 then parts[0] else parts[0] + [sep] + Join(parts[1..], sep)
  }

  /** Joining the pieces gives back the string. */
  lemma {:induction false} JoinOfSplit(s: string, sep: char)
    ensures Join(Split(s, sep), sep) == s
    decreases |s|
  {
    var i := IndexOf(s, sep);
    if i != -1 {
      var parts := Split(s, sep);
      var rest := Split(s[i + 1..], sep);
      assert parts == [s[..i]] + rest;
      assert parts[1..] == rest;
      assert Join(parts, sep) == s[..i] + [sep] + Join(rest, sep);
      JoinOfSplit(s[i + 1..], sep);
      assert s == s[..i] + [sep] + s[i + 1..];
    }
  }

  /** Splitting pieces that hold no separator gives back the pieces. */
  lemma {:induction false} SplitOfJoin(parts: seq<string>, sep: char)
    requires |parts| >= 1
    requires forall k :: 0 <= k < |parts| ==> sep !in parts[k]
    ensures Split(Join(parts, sep), sep) == parts
  {
    if |parts| > 1 {
      var p0 := parts[0];
      var rest := Join(parts[1..], sep);
      var s := Join(parts, sep);
      assert s == p0 + [sep] + rest;
      assert s[..|p0|] == p0;
      IndexOfFirst(s, sep, |p0|);
      assert s[|p0| + 1..] == rest;
      SplitOfJoin(parts[1..], sep);
      assert parts == [p0] + parts[1..];
    }
  }

  // ---------------------------------------------------------------- the header

  const Scheme: string := "Bearer"

  /** The token of an `Authorization` header: splitting on spaces must give
      exactly two pieces, the first exactly `Bearer`. */
  function BearerToken(header: string): (t: Option<string>)
  {
    var parts := Split(header, ' ');
    if |parts| != 2 || parts[0] != Scheme then None else Some(parts[1])
  }

  /** A header yields token `t` exactly when it is `Bearer`, one space, and a
      `t` without spaces: a lower-case scheme, a second space or a missing
      space is refused. */
  lemma BearerTokenIff(header: string, t: string)
    ensures BearerToken(header) == Some(t) <==> header == Scheme + " " + t && ' ' !in t
  {
    if BearerToken(header) == Some(t) {
      var parts := Split(header, ' ');
      JoinOfSplit(header, ' ');
      assert parts == [Scheme, t];
      assert Join(parts[1..], ' ') == t;
    }
    if header == Scheme + " " + t && ' ' !in t {
      var parts := [Scheme, t];
      assert ' ' !in Scheme;
      SplitOfJoin(parts, ' ');
      assert Join(parts, ' ') == header;
    }
  }

  // ---------------------------------------------------------------- the token

  datatype SigningMethod = HS256 | HS384 | HS512 | RS256 | ES256 | PS256 | EdDSA | Unsigned

  /** The methods the key function accepts: the HMAC family. */
  predicate IsHmac(m: SigningMethod) {
    m.HS256? || m.HS384? || m.HS512?
  }

  /** A claim value as decoded from JSON. */
  datatype Claim = Text(text: string) | Number(number: int) | Flag(flag: bool) | Other

  /** What parsing a token string yields: either nothing usable, or its header's
      method, whether its signature checks against the server's secret, whether
      its time claims hold at this instant, and its claims. */
  datatype ParsedToken =
    | Unparsable
    | Parsed(alg: SigningMethod, signatureOk: bool, timesOk: bool, claims: map<string, Claim>)

  /** `jwt.Parse` returns no error and a valid token. */
  predicate Accepted(p: ParsedToken) {
    p.Parsed? && IsHmac(p.alg) && p.signatureOk && p.timesOk
  }

  /** `claims["userId"].(string)`: present, and a string. */
  function UserIdClaim(claims: map<string, Claim>): (u: Option<string>)
    ensures u.Some? <==> "userId" in claims && claims["userId"].Text?
    ensures u.Some? ==> claims["userId"] == Text(u.value)
  {
    if "userId" in claims && claims["userId"].Text? then Some(claims["userId"].text) else None
  }

  // ---------------------------------------------------------------- the decision

  datatype Rejection =
    | MissingToken
    | MalformedHeader
    | InvalidToken
    | MissingUserId
    | NoActiveSession

  /** Stop the request with a reason, or pass it on with the caller's id. */
  datatype Decision = Reject(reason: Rejection) | Forward(userId: string)

  /** The decision for a request carrying `header`. */
  function Authorize(header: string, parse: string -> ParsedToken, sessions: SessionRepository, now: Time): (d: Decision)
    reads sessions
    ensures header == "" ==> d == Reject(MissingToken)
    ensures d.Forward? ==>
      && BearerToken(header).Some?
      && Accepted(parse(BearerToken(header).value))
      && UserIdClaim(parse(BearerToken(header).value).claims) == Some(d.userId)
      && exists s :: s in sessions.rows && ActiveFor(s, d.userId, now)
    ensures header != "" && BearerToken(header).None? ==> d == Reject(MalformedHeader)
    ensures BearerToken(header).Some? && !Accepted(parse(BearerToken(header).value)) ==> d == Reject(InvalidToken)
    ensures (BearerToken(header).Some? && Accepted(parse(BearerToken(header).value)) &&
             UserIdClaim(parse(BearerToken(header).value).claims).None?) ==> d == Reject(MissingUserId)
    ensures (BearerToken(header).Some? && Accepted(parse(BearerToken(header).value)) &&
             UserIdClaim(parse(BearerToken(header).value).claims).Some? &&
             !sessions.HasActiveSession(UserIdClaim(parse(BearerToken(header).value).claims).value, now)) ==>
              d == Reject(NoActiveSession)
  {
    if header == "" then Reject(MissingToken)
    else
      match BearerToken(header)
      case None => Reject(MalformedHeader)
      case Some(token) =>
        var parsed := parse(token);
        if !Accepted(parsed) then Reject(InvalidToken)
        else
          match UserIdClaim(parsed.claims)
          case None => Reject(MissingUserId)
          case Some(userId) =>
            if !sessions.HasActiveSession(userId, now) then Reject(NoActiveSession)
            else Forward(userId)
  }

  /** A well-formed request with a valid token naming a user who holds an
      active session is let through with exactly that user id. */
  lemma ValidRequestForwarded(
    header: string, t: string, parse: string -> ParsedToken, sessions: SessionRepository, now: Time, userId: string)
    requires header == Scheme + " " + t && ' ' !in t
    requires Accepted(parse(t)) && UserIdClaim(parse(t).claims) == Some(userId)
    requires exists s :: s in sessions.rows && ActiveFor(s, userId, now)
    ensures Authorize(header, parse, sessions, now) == Forward(userId)
  {
    BearerTokenIff(header, t);
  }

  /** Once every session of a user is deleted, as `Logout` does, no header
      carrying any token, however valid, is let through as that user. */
  lemma LoggedOutUserRefused(
    header: string, parse: string -> ParsedToken, sessions: SessionRepository, now: Time,
    before: seq<Session>, userId: string)
    requires sessions.rows == WithoutUser(before, userId)
    ensures Authorize(header, parse, sessions, now) != Forward(userId)
  {
  }
}
