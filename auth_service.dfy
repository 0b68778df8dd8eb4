/** `AuthService` of internal/auth/application/service/auth_service.go: the
    account and session operations over the users and sessions tables. The
    clock, the generated ids and refresh tokens, the reset-code draw and the
    outcome of sending mail are inputs of the operations that use them. */
module Auth {
  import opened Common
  import opened Sessions
  import opened SessionStore
  import opened UserStore
  import opened AuthRules

  /** What a successful login hands back. */
  datatype LoginResult = LoginResult(
    user: User,
    access: AccessClaims,
    refreshToken: string,
    sessionRemoved: bool)

  /** The reset mail the service asks the mail service to send. */
  datatype ResetMail = ResetMail(to: string, code: string)

  class AuthService {
    const users: UserRepository
    const sessions: SessionRepository

    ghost predicate Valid()
      reads this, users, sessions
    {
      users.Valid() && sessions.Valid()
    }

    constructor (users: UserRepository, sessions: SessionRepository)
      ensures this.users == users && this.sessions == sessions
    {
      this.users := users;
      this.sessions := sessions;
    }

    /** `Register`: the address shape, then an existing account with the
        address, then the password length; a new account is stored active with
        the hash of the password and handed back without it. */
    method Register(email: string, password: string, name: string, id: string) returns (r: Result<User, AuthError>)
      requires Valid()
      modifies users
      ensures Valid()
      ensures !IsValidEmail(email) ==> r == Err(InvalidEmail)
      ensures IsValidEmail(email) && old(users.FindByEmail(email)).Some? ==> r == Err(EmailExists)
      ensures IsValidEmail(email) && old(users.FindByEmail(email)).None? && Utf8Len(password) < MinPasswordBytes ==>
        r == Err(InvalidPassword)
      ensures r.Ok? <==>
        && IsValidEmail(email) && old(users.FindByEmail(email)).None? && Utf8Len(password) >= MinPasswordBytes
        && forall u :: u in old(users.rows) ==> u.id != id
      ensures r.Ok? ==> users.rows == old(users.rows) + [User(id, email, Hash(password), name, true, None, None)]
      ensures r.Ok? ==> r.value == Public(User(id, email, Hash(password), name, true, None, None))
      ensures r.Err? ==> users.rows == old(users.rows)
    {
      if !IsValidEmail(email) {
        return Err(InvalidEmail);
      }
      var existing := users.FindByEmail(email);
      if existing.Some? {
        return Err(EmailExists);
      }
      if Utf8Len(password) < MinPasswordBytes {
        return Err(InvalidPassword);
      }
      var user := User(id, email, Hash(password), name, true, None, None);
      var err := users.Create(user);
      if err.Some? {
        return Err(StoreFailed(err.value));
      }
      r := Ok(Public(user));
    }

    /** `Login`: an unknown address, an inactive account and a wrong password
        are the same refusal and touch no session. Otherwise the user's
        expired sessions are purged, the oldest goes when three or more are
        active, and a seven-day session carrying the refresh token is stored. */
    method Login(email: string, password: string, now: Time, sessionId: string, refreshToken: string)
      returns (r: Result<LoginResult, AuthError>)
      requires Valid()
      modifies sessions
      ensures Valid()
      ensures var found := users.FindByEmail(email);
        found.None? || !found.value.isActive || !Matches(found.value.password, password) ==>
          r == Err(InvalidCredentials) && sessions.rows == old(sessions.rows)
      ensures var found := users.FindByEmail(email);
        found.Some? && found.value.isActive && Matches(found.value.password, password) ==>
          var u := found.value;
          var kept := Evicted(old(sessions.rows), u.id, now);
          var removed := |ActiveOf(old(sessions.rows), u.id, now)| >= SessionCap;
          if forall s :: s in kept ==> s.id != sessionId then
            && sessions.rows == kept + [Session(sessionId, u.id, refreshToken, now + SessionLifetime, now)]
            && r == Ok(LoginResult(Public(u), AccessToken(u.id, u.email, now), refreshToken, removed))
          else
            sessions.rows == kept && r == Err(StoreFailed(DuplicateKey("sessions")))
    {
      var found := users.FindByEmail(email);
      if found.None? {
        return Err(InvalidCredentials);
      }
      var u := found.value;
      if !u.isActive {
        return Err(InvalidCredentials);
      }
      if !Matches(u.password, password) {
        return Err(InvalidCredentials);
      }
      ghost var before := sessions.rows;
      PurgeKeepsActive(before, u.id, now);
      sessions.DeleteExpiredByUserID(u.id, now);
      var active := sessions.CountByUserID(u.id, now);
      var sessionRemoved := false;
      if active >= SessionCap {
        assert ActiveOf(sessions.rows, u.id, now)[0] in sessions.rows;
        var _ := sessions.DeleteOldestByUserID(u.id);
        sessionRemoved := true;
      }
      assert sessions.rows == Evicted(before, u.id, now);
      var access := AccessToken(u.id, u.email, now);
      var session := Session(sessionId, u.id, refreshToken, now + SessionLifetime, now);
      var err := sessions.Create(session);
      if err.Some? {
        return Err(StoreFailed(err.value));
      }
      r := Ok(LoginResult(Public(u), access, refreshToken, sessionRemoved));
    }

    /** `Logout`: every session of the user goes, and no other. */
    method Logout(userId: string)
      requires Valid()
      modifies sessions
      ensures Valid()
      ensures sessions.rows == WithoutUser(old(sessions.rows), userId)
      ensures forall s :: s in sessions.rows <==> s in old(sessions.rows) && s.userId != userId
    {
      sessions.DeleteByUserID(userId);
    }

    /** `RefreshToken`: an unknown token fails; an expired one ends every
        session of its user; a live one leaves the table as it is (the refresh
        token is not rotated) and yields a new access token for the user. */
    method RefreshToken(token: string, now: Time) returns (r: Result<AccessClaims, AuthError>)
      requires Valid()
      modifies sessions
      ensures Valid()
      ensures old(sessions.FindByRefreshToken(token)).None? ==>
        r == Err(InvalidRefreshToken) && sessions.rows == old(sessions.rows)
      ensures var found := old(sessions.FindByRefreshToken(token));
        found.Some? && IsExpired(found.value, now) ==>
          r == Err(RefreshTokenExpired) && sessions.rows == WithoutUser(old(sessions.rows), found.value.userId)
      ensures var found := old(sessions.FindByRefreshToken(token));
        found.Some? && !IsExpired(found.value, now) ==>
          && sessions.rows == old(sessions.rows)
          && var owner := users.FindByID(found.value.userId);
             r == if owner.None? then Err(UserNotFound) else Ok(AccessToken(owner.value.id, owner.value.email, now))
    {
      var found := sessions.FindByRefreshToken(token);
      if found.None? {
        return Err(InvalidRefreshToken);
      }
      var session := found.value;
      if IsExpired(session, now) {
        sessions.DeleteByUserID(session.userId);
        return Err(RefreshTokenExpired);
      }
      var owner := users.FindByID(session.userId);
      if owner.None? {
        return Err(UserNotFound);
      }
      r := Ok(AccessToken(owner.value.id, owner.value.email, now));
    }

    /** `GetActiveSessions`: the sessions the middleware counts as active. */
    method GetActiveSessions(userId: string, now: Time) returns (active: seq<Session>)
      requires Valid()
      ensures active == ActiveOf(sessions.rows, userId, now)
      ensures forall s :: s in active <==> s in sessions.rows && s.userId == userId && !IsExpired(s, now) && s.expiresAt != now
    {
      active := sessions.FindActiveByUserID(userId, now);
    }

    /** `ForgotPassword`: an unknown address succeeds and changes nothing. For
        an account, the hash of a six-digit code and an expiry ten minutes out
        are stored before the code is mailed; a failed mailing is reported but
        the stored code stays. */
    method ForgotPassword(email: string, draw: nat, now: Time, delivered: bool)
      returns (r: Result<(), AuthError>, mail: Option<ResetMail>)
      requires Valid() && draw < ResetCodeRange
      modifies users
      ensures Valid()
      ensures old(users.FindByEmail(email)).None? ==>
        r == Ok(()) && mail.None? && users.rows == old(users.rows)
      ensures var found := old(users.FindByEmail(email));
        found.Some? ==>
          && users.rows == Replaced(old(users.rows), Pending(found.value, draw, now))
          && users.FindByEmail(email) == Some(Pending(found.value, draw, now))
          && mail == Some(ResetMail(found.value.email, ResetCode(draw)))
          && r == if delivered then Ok(()) else Err(ResetMailFailed)
    {
      var found := users.FindByEmail(email);
      if found.None? {
        return Ok(()), None;
      }
      var code := ResetCode(draw);
      var user := Pending(found.value, draw, now);
      var err := users.Update(user);
      // The row was found by this address, so no other row holds it.
      assert err.None?;
      mail := Some(ResetMail(user.email, code));
      r := if delivered then Ok(()) else Err(ResetMailFailed);
    }

    /** `ResetPassword`: the new password's length is checked before any
        lookup; then the reset step decides. An expired code is cleared even
        when the guess is wrong; an accepted one replaces the password, clears
        the code and ends every session of the user. */
    method ResetPassword(email: string, code: string, newPassword: string, now: Time) returns (r: Result<(), AuthError>)
      requires Valid()
      modifies users, sessions
      ensures Valid()
      ensures Utf8Len(newPassword) < MinPasswordBytes ==>
        r == Err(InvalidPassword) && users.rows == old(users.rows) && sessions.rows == old(sessions.rows)
      ensures var found := old(users.FindByEmail(email));
        Utf8Len(newPassword) >= MinPasswordBytes ==>
          match ResetStep(found, code, now)
          case Refuse(e) =>
            r == Err(e) && users.rows == old(users.rows) && sessions.rows == old(sessions.rows)
          case ExpireCode =>
            && r == Err(ResetCodeExpired)
            && users.rows == Replaced(old(users.rows), Cleared(found.value))
            && sessions.rows == old(sessions.rows)
          case Accept =>
            && r == Ok(())
            && users.rows == Replaced(old(users.rows), WithNewPassword(found.value, newPassword))
            && sessions.rows == WithoutUser(old(sessions.rows), found.value.id)
    {
      if Utf8Len(newPassword) < MinPasswordBytes {
        return Err(InvalidPassword);
      }
      var found := users.FindByEmail(email);
      if found.None? {
        return Err(ResetCodeNotFound);
      }
      var user := found.value;
      if user.resetToken.None? || user.resetExpiresAt.None? {
        return Err(ResetCodeNotFound);
      }
      if now > user.resetExpiresAt.value {
        var _ := users.Update(Cleared(user));
        return Err(ResetCodeExpired);
      }
      if !Matches(user.resetToken.value, code) {
        return Err(ResetCodeNotFound);
      }
      var err := users.Update(WithNewPassword(user, newPassword));
      assert err.None?;
      sessions.DeleteByUserID(user.id);
      r := Ok(());
    }
  }
}
