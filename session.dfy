/** The session entity of internal/auth/domain/model/session.go. */
module Sessions {
  import opened Common

  /** One login: its owner, the opaque refresh token that names it, and when it ends. */
  datatype Session = Session(
    id: string,
    userId: string,
    refreshToken: string,
    expiresAt: Time,
    createdAt: Time)

  /** `IsExpired`: the clock is strictly past the expiry. */
  predicate IsExpired(s: Session, now: Time) {
    now > s.expiresAt
  }

  /** `IsValid`: the negation of `IsExpired`. */
  predicate IsValid(s: Session, now: Time) {
    !IsExpired(s, now)
  }

  /** A session is valid exactly until its expiry instant, that instant included. */
  lemma ValidIffNotPastExpiry(s: Session, now: Time)
    ensures IsValid(s, now) <==> now <= s.expiresAt
    ensures IsValid(s, now) != IsExpired(s, now)
    ensures now == s.expiresAt ==> !IsExpired(s, now)
  {
  }

  /** Once expired, a session stays expired as the clock moves on. */
  lemma ExpiryIsMonotone(s: Session, now: Time, later: Time)
    requires IsExpired(s, now) && now <= later
    ensures IsExpired(s, later)
  {
  }
}
