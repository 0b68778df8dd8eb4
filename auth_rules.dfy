/** The decisions of internal/auth/application/service/auth_service.go that
    depend only on values: which addresses are accepted, how passwords and
    reset codes are hashed and compared, what the reset step decides, and
    which sessions a login keeps. The service methods that apply them to the
    tables are in the module `Auth`. */
module AuthRules {
  import opened Common
  import opened Sessions
  import opened SessionStore
  import opened UserStore

  /** The service's domain errors, and the two ways a lower layer can fail it. */
  datatype AuthError =
    | InvalidEmail
    | EmailExists
    | InvalidPassword
    | UserNotFound
    | InvalidCredentials
    | ResetCodeNotFound
    | ResetCodeExpired
    | InvalidRefreshToken
    | RefreshTokenExpired
    | StoreFailed(cause: DbError)
    | ResetMailFailed

  /** Shortest password accepted, in bytes of its UTF-8 encoding. */
  const MinPasswordBytes: nat := 8
  /** Active sessions a user may hold once a login has finished. */
  const SessionCap: nat := 3
  /** Seven days, the life of a session. */
  const SessionLifetime: nat := 7 * 24 * 3600
  /** Ten minutes, the life of a reset code. */
  const ResetCodeLifetime: nat := 10 * 60
  /** One hour, the life of an access token. */
  const AccessTokenLifetime: nat := 3600
  /** The reset code is a draw from 0 to 999999. */
  const ResetCodeRange: nat := 1000000

  // ---------------------------------------------------------------- addresses

  predicate AsciiLetter(c: char) {
    'a' <= c <= 'z' || 'A' <= c <= 'Z'
  }

  predicate AsciiDigit(c: char) {
    '0' <= c <= '9'
  }

  /** The class `[a-zA-Z0-9._%+-]` of the part before the `@`. */
  predicate LocalChar(c: char) {
    AsciiLetter(c) || AsciiDigit(c) || c == '.' || c == '_' || c == '%' || c == '+' || c == '-'
  }

  /** The class `[a-zA-Z0-9.-]` of the part between the `@` and the last dot. */
  predicate DomainChar(c: char) {
    AsciiLetter(c) || AsciiDigit(c) || c == '.' || c == '-'
  }

  /** The address pattern read as a split of `s` at an `@` at `at` and a dot at
      `dot`: a non-empty local part, a non-empty domain, and a suffix of two or
      more ASCII letters running to the end. */
  predicate EmailShape(s: string, at: int, dot: int) {
    && 0 < at && at + 1 < dot && dot + 2 < |s|
    && s[at] == '@' && s[dot] == '.'
    && (forall k :: 0 <= k < at ==> LocalChar(s[k]))
    && (forall k :: at < k < dot ==> DomainChar(s[k]))
    && (forall k :: dot < k < |s| ==> AsciiLetter(s[k]))
  }

  /** Any split that fits the pattern is at the first `@` and the last dot:
      no class admits `@`, and the suffix admits no dot. */
  lemma ShapeIsCanonical(s: string, at: int, dot: int)
    requires EmailShape(s, at, dot)
    ensures at == IndexOf(s, '@') && dot == LastIndexOf(s, '.')
  {
    var i := IndexOf(s, '@');
    var j := LastIndexOf(s, '.');
    assert '@' in s[..at + 1] && s[..at + 1][at] == '@';
    assert '.' in s[dot..] && s[dot..][0] == '.';
  }

  /** `isValidEmail`: the pattern is tried at the first `@` and the last dot. */
  function IsValidEmail(s: string): (b: bool)
    ensures b <==> exists at, dot :: EmailShape(s, at, dot)
  {
    var at := IndexOf(s, '@');
    var dot := LastIndexOf(s, '.');
    assert (exists a, d :: EmailShape(s, a, d)) ==> EmailShape(s, at, dot) by {
      if exists a, d :: EmailShape(s, a, d) {
        var a, d :| EmailShape(s, a, d);
        ShapeIsCanonical(s, a, d);
      }
    }
    EmailShape(s, at, dot)
  }

  // ---------------------------------------------------------------- hashing

  /** bcrypt stands here as an injective tagging of its input; the salt and
      the cost are not modelled. */
  const HashTag: string := "bcrypt$"

  function Hash(secret: string): (h: string)
    ensures |h| == |HashTag| + |secret| && h[|HashTag|..] == secret
  {
    HashTag + secret
  }

  /** `bcrypt.CompareHashAndPassword(h, p) == nil`. */
  predicate Matches(h: string, secret: string) {
    h == Hash(secret)
  }

  /** A stored hash accepts the secret it was made from and nothing else. */
  lemma MatchesIff(secret: string, guess: string)
    ensures Matches(Hash(secret), guess) <==> guess == secret
  {
    if Matches(Hash(secret), guess) {
      assert Hash(secret)[|HashTag|..] == Hash(guess)[|HashTag|..];
    }
  }

  // ---------------------------------------------------------------- reset codes

  function Pow10(n: nat): (p: nat)
    ensures p >= 1
  {
    if n == 0 then 1 else 10 * Pow10(n - 1)
  }

  function DigitChar(d: nat): (c: char)
    requires d < 10
    ensures AsciiDigit(c) && c as int - '0' as int == d
  {
    ('0' as int + d) as char
  }

  predicate AllDigits(s: string) {
    forall k :: 0 <= k < |s| ==> AsciiDigit(s[k])
  }

  /** Go's `fmt.Sprintf("%0<width>d", n)` for an `n` that fits in `width` digits:
      the lowest `width` decimal digits, most significant first. */
  function PadDigits(n: nat, width: nat): (s: string)
    ensures |s| == width && AllDigits(s)
  {
    if width == 0 then "" else PadDigits(n / 10, width - 1) + [DigitChar(n % 10)]
  }

  /** The number a string of decimal digits denotes. */
  function DecimalValue(s: string): nat
    requires AllDigits(s)
  {
    if s == [] then 0
    else 10 * DecimalValue(s[..|s| - 1]) + (s[|s| - 1] as int - '0' as int)
  }

  /** Reading the padded digits back gives the number, when it fits the width. */
  lemma {:induction false} PadDigitsRoundTrip(n: nat, width: nat)
    requires n < Pow10(width)
    ensures DecimalValue(PadDigits(n, width)) == n
  {
    if width > 0 {
      var s := PadDigits(n, width);
      assert s[..|s| - 1] == PadDigits(n / 10, width - 1);
      PadDigitsRoundTrip(n / 10, width - 1);
    }
  }

  /** The six-digit code mailed for a draw. */
  function ResetCode(draw: nat): (code: string)
    requires draw < ResetCodeRange
    ensures |code| == 6 && AllDigits(code)
  {
    PadDigits(draw, 6)
  }

  /** The code carries the draw exactly, so distinct draws give distinct codes. */
  lemma ResetCodeRoundTrip(draw: nat, other: nat)
    requires draw < ResetCodeRange && other < ResetCodeRange
    ensures DecimalValue(ResetCode(draw)) == draw
    ensures ResetCode(draw) == ResetCode(other) <==> draw == other
  {
    assert Pow10(6) == ResetCodeRange;
    PadDigitsRoundTrip(draw, 6);
    PadDigitsRoundTrip(other, 6);
  }

  // ---------------------------------------------------------------- tokens

  /** The claims `generateAccessToken` signs with HS256; the signing itself is
      not modelled. */
  datatype AccessClaims = AccessClaims(userId: string, email: string, exp: Time, iat: Time)

  function AccessToken(userId: string, email: string, now: Time): (c: AccessClaims)
    ensures c.userId == userId && c.email == email
    ensures c.iat == now && c.exp - c.iat == AccessTokenLifetime
  {
    AccessClaims(userId, email, now + AccessTokenLifetime, now)
  }

  // ---------------------------------------------------------------- reset step

  /** The user as `ForgotPassword` writes it: the hash of the mailed code and
      an expiry ten minutes after issue. */
  function Pending(u: User, draw: nat, issued: Time): (r: User)
    requires draw < ResetCodeRange
    ensures r.id == u.id && r.email == u.email && r.password == u.password
    ensures r.name == u.name && r.isActive == u.isActive
    ensures r.resetToken == Some(Hash(ResetCode(draw)))
    ensures r.resetExpiresAt == Some(issued + ResetCodeLifetime)
  {
    u.(resetToken := Some(Hash(ResetCode(draw))), resetExpiresAt := Some(issued + ResetCodeLifetime))
  }

  /** The user with no pending reset code. */
  function Cleared(u: User): (r: User)
    ensures r.id == u.id && r.email == u.email && r.password == u.password
    ensures r.name == u.name && r.isActive == u.isActive
    ensures r.resetToken.None? && r.resetExpiresAt.None?
  {
    u.(resetToken := None, resetExpiresAt := None)
  }

  /** The user as a successful reset leaves it: the new password's hash, and no
      pending code. */
  function WithNewPassword(u: User, newPassword: string): (r: User)
    ensures r.id == u.id && r.email == u.email && Matches(r.password, newPassword)
    ensures r.name == u.name && r.isActive == u.isActive
    ensures r.resetToken.None? && r.resetExpiresAt.None?
  {
    Cleared(u).(password := Hash(newPassword))
  }

  /** The user as the service hands it out: no password hash and no reset fields. */
  function Public(u: User): (r: User)
    ensures r.id == u.id && r.email == u.email && r.password == ""
    ensures r.name == u.name && r.isActive == u.isActive
    ensures r.resetToken.None? && r.resetExpiresAt.None?
  {
    Cleared(u).(password := "")
  }

  /** What `ResetPassword` does once the new password has passed its length
      check: refuse, clear an expired code, or accept. */
  datatype ResetVerdict = Refuse(error: AuthError) | ExpireCode | Accept

  /** The reset decision on the row found by email (none when no row has it). */
  function ResetStep(found: Option<User>, code: string, now: Time): (v: ResetVerdict)
    ensures v.Refuse? ==> v.error == ResetCodeNotFound
    ensures v != Refuse(ResetCodeNotFound) ==>
      found.Some? && found.value.resetToken.Some? && found.value.resetExpiresAt.Some?
    ensures v == ExpireCode <==> v != Refuse(ResetCodeNotFound) && now > found.value.resetExpiresAt.value
  {
    if found.None? then Refuse(ResetCodeNotFound)
    else
      var u := found.value;
      if u.resetToken.None? || u.resetExpiresAt.None? then Refuse(ResetCodeNotFound)
      else if now > u.resetExpiresAt.value then ExpireCode
      else if !Matches(u.resetToken.value, code) then Refuse(ResetCodeNotFound)
      else Accept
  }

  /** Within ten minutes of issue, the mailed code is accepted and every other
      code is refused. */
  lemma OnlyTheMailedCodeResets(u: User, draw: nat, issued: Time, code: string, now: Time)
    requires draw < ResetCodeRange && now <= issued + ResetCodeLifetime
    ensures ResetStep(Some(Pending(u, draw, issued)), code, now) == Accept <==> code == ResetCode(draw)
    ensures code != ResetCode(draw) ==> ResetStep(Some(Pending(u, draw, issued)), code, now) == Refuse(ResetCodeNotFound)
  {
    MatchesIff(ResetCode(draw), code);
  }

  /** After the ten minutes, every code, right or wrong, only clears the pending code. */
  lemma ExpiredCodeIgnoresGuess(u: User, draw: nat, issued: Time, code: string, now: Time)
    requires draw < ResetCodeRange && now > issued + ResetCodeLifetime
    ensures ResetStep(Some(Pending(u, draw, issued)), code, now) == ExpireCode
  {
  }

  /** Once the reset fields are cleared, whether by an expiry or by a reset,
      no code is accepted any more. */
  lemma ClearedCodeRefused(u: User, code: string, now: Time)
    requires u.resetToken.None? || u.resetExpiresAt.None?
    ensures ResetStep(Some(u), code, now) == Refuse(ResetCodeNotFound)
  {
  }

  /** Through a table that keeps only the five columns of the repository file,
      the code just mailed is refused, even within its ten minutes. */
  lemma MailedCodeRefusedThroughFiveColumns(u: User, draw: nat, issued: Time, now: Time)
    requires draw < ResetCodeRange && now <= issued + ResetCodeLifetime
    ensures ResetStep(Some(Pending(u, draw, issued)), ResetCode(draw), now) == Accept
    ensures ResetStep(Some(FiveColumns(Pending(u, draw, issued))), ResetCode(draw), now) == Refuse(ResetCodeNotFound)
  {
    OnlyTheMailedCodeResets(u, draw, issued, ResetCode(draw), now);
  }

  // ---------------------------------------------------------------- login sessions

  /** The table once the user's oldest row, if any, is deleted. */
  function EvictOldest(rows: seq<Session>, userId: string): seq<Session> {
    match OldestOf(rows, userId)
    case Some(o) => WithoutId(rows, o.id)
    case None => rows
  }

  /** The session table as `Login` leaves it before storing the new session:
      the user's rows expiring strictly before the clock are purged, then,
      when three or more active rows remain, the user's oldest row goes. */
  function Evicted(rows: seq<Session>, userId: string, now: Time): seq<Session> {
    var purged := WithoutExpiredOf(rows, userId, now);
    if |ActiveOf(purged, userId, now)| >= SessionCap then EvictOldest(purged, userId) else purged
  }

  /** The purge deletes no active row. */
  lemma PurgeKeepsActive(rows: seq<Session>, userId: string, now: Time)
    ensures ActiveOf(WithoutExpiredOf(rows, userId, now), userId, now) == ActiveOf(rows, userId, now)
  {
    FilterNarrow(rows, NotExpiredForSel(userId, now), ActiveSel(userId, now));
  }

  /** Deleting the oldest row of a user who has one removes one row of that
      user and no row of anybody else. */
  lemma EvictOldestRemovesOne(rows: seq<Session>, userId: string)
    requires KeyedById(rows) && OldestOf(rows, userId).Some?
    ensures KeyedById(EvictOldest(rows, userId))
    ensures |EvictOldest(rows, userId)| == |rows| - 1
    ensures forall s: Session :: s.userId != userId ==> (s in EvictOldest(rows, userId) <==> s in rows)
  {
    var o := OldestOf(rows, userId).value;
    RemoveById(rows, o);
    FilterKeepsKey(rows, OtherIdSel(o.id));
  }

  /** When the oldest row is active, its deletion lowers the active count by one. */
  lemma EvictOldestActive(rows: seq<Session>, userId: string, now: Time)
    requires KeyedById(rows) && OldestOf(rows, userId).Some?
    requires ActiveFor(OldestOf(rows, userId).value, userId, now)
    ensures |ActiveOf(EvictOldest(rows, userId), userId, now)| == |ActiveOf(rows, userId, now)| - 1
  {
    var o := OldestOf(rows, userId).value;
    RemoveById(rows, o);
    FilterRemoveOne(rows, WithoutId(rows, o.id), o, ActiveSel(userId, now));
  }

  /** A login deletes exactly one row when the user already holds three or
      more active sessions, and otherwise only the expired ones; rows of other
      users are never touched. */
  lemma LoginEvictsAtCap(rows: seq<Session>, userId: string, now: Time)
    requires KeyedById(rows)
    ensures KeyedById(Evicted(rows, userId, now))
    ensures |Evicted(rows, userId, now)| ==
      if |ActiveOf(rows, userId, now)| >= SessionCap
      then |WithoutExpiredOf(rows, userId, now)| - 1
      else |WithoutExpiredOf(rows, userId, now)|
    ensures forall s: Session :: s.userId != userId ==> (s in Evicted(rows, userId, now) <==> s in rows)
  {
    var purged := WithoutExpiredOf(rows, userId, now);
    PurgeKeepsActive(rows, userId, now);
    FilterKeepsKey(rows, NotExpiredForSel(userId, now));
    var active := ActiveOf(purged, userId, now);
    if |active| >= SessionCap {
      assert active[0] in purged;
      EvictOldestRemovesOne(purged, userId);
    }
  }

  /** The active sessions after a login: one more than before, or as many as
      before when the cap forced an eviction — provided no session of the
      user expires at the very instant of the login. */
  lemma ActiveAfterLogin(rows: seq<Session>, userId: string, now: Time, added: Session)
    requires KeyedById(rows)
    requires forall s :: s in rows && s.userId == userId ==> s.expiresAt != now
    requires added.userId == userId && added.expiresAt > now
    ensures |ActiveOf(Evicted(rows, userId, now) + [added], userId, now)| ==
      if |ActiveOf(rows, userId, now)| >= SessionCap
      then |ActiveOf(rows, userId, now)|
      else |ActiveOf(rows, userId, now)| + 1
    ensures |ActiveOf(rows, userId, now)| <= SessionCap ==>
      |ActiveOf(Evicted(rows, userId, now) + [added], userId, now)| <= SessionCap
  {
    var purged := WithoutExpiredOf(rows, userId, now);
    PurgeKeepsActive(rows, userId, now);
    FilterAppend(Evicted(rows, userId, now), [added], ActiveSel(userId, now));
    assert ActiveOf([added], userId, now) == [added];
    var A := ActiveOf(purged, userId, now);
    if |A| >= SessionCap {
      FilterKeepsKey(rows, NotExpiredForSel(userId, now));
      assert A[0] in purged;
      var o := OldestOf(purged, userId).value;
      assert o in rows;
      EvictOldestActive(purged, userId, now);
    }
  }

  /** The proviso above is needed: a session expiring exactly at the login is
      neither active nor purged, yet when it is the user's oldest it is the one
      evicted, so a user at the cap ends the login one session above it. */
  lemma BoundarySessionBreaksCap(rows: seq<Session>, userId: string, now: Time, b: Session, added: Session)
    requires KeyedById(rows)
    requires b in rows && b.userId == userId && b.expiresAt == now
    requires forall s :: s in rows && s.userId == userId && s != b ==> b.createdAt < s.createdAt
    requires |ActiveOf(rows, userId, now)| >= SessionCap
    requires added.userId == userId && added.expiresAt > now
    ensures |ActiveOf(Evicted(rows, userId, now) + [added], userId, now)| == |ActiveOf(rows, userId, now)| + 1
    ensures |ActiveOf(Evicted(rows, userId, now) + [added], userId, now)| > SessionCap
  {
    var purged := WithoutExpiredOf(rows, userId, now);
    PurgeKeepsActive(rows, userId, now);
    FilterKeepsKey(rows, NotExpiredForSel(userId, now));
    assert b in purged;
    var o := OldestOf(purged, userId).value;
    assert o == b;
    FilterNarrow(purged, OtherIdSel(b.id), ActiveSel(userId, now));
    assert Evicted(rows, userId, now) == WithoutId(purged, b.id);
    FilterAppend(Evicted(rows, userId, now), [added], ActiveSel(userId, now));
    assert ActiveOf([added], userId, now) == [added];
  }


}
