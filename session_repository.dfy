/** The `sessions` table of
    internal/auth/infrastructure/persistence/gorm/session_repository_gorm.go,
    held in memory as its sequence of rows in insertion order. */
module SessionStore {
  import opened Common
  import opened Sessions

  /** `user_id = ? AND expires_at > ?`: the rows the repository calls active. */
  predicate ActiveFor(s: Session, userId: string, now: Time) {
    s.userId == userId && s.expiresAt > now
  }

  /** `user_id = ? AND expires_at < ?`: the rows the per-user purge deletes. */
  predicate ExpiredFor(s: Session, userId: string, now: Time) {
    s.userId == userId && s.expiresAt < now
  }

  /* Row selectors, named so that every use of one denotes the same function. */

  function ActiveSel(userId: string, now: Time): Session -> bool {
    (s: Session) => ActiveFor(s, userId, now)
  }

  function OtherUserSel(userId: string): Session -> bool {
    (s: Session) => s.userId != userId
  }

  function NotExpiredForSel(userId: string, now: Time): Session -> bool {
    (s: Session) => !ExpiredFor(s, userId, now)
  }

  function NotBeforeSel(now: Time): Session -> bool {
    (s: Session) => s.expiresAt >= now
  }

  function OtherIdSel(id: string): Session -> bool {
    (s: Session) => s.id != id
  }

  /** The user's active rows, in table order. */
  function ActiveOf(rows: seq<Session>, userId: string, now: Time): seq<Session> {
    Filter(rows, ActiveSel(userId, now))
  }

  /** The table once every row of the user is deleted. */
  function WithoutUser(rows: seq<Session>, userId: string): seq<Session> {
    Filter(rows, OtherUserSel(userId))
  }

  /** The table once the user's rows expiring strictly before `now` are deleted. */
  function WithoutExpiredOf(rows: seq<Session>, userId: string, now: Time): seq<Session> {
    Filter(rows, NotExpiredForSel(userId, now))
  }

  /** The table once every row expiring strictly before `now` is deleted. */
  function WithoutExpired(rows: seq<Session>, now: Time): seq<Session> {
    Filter(rows, NotBeforeSel(now))
  }

  /** The table once the row with primary key `id` is deleted. */
  function WithoutId(rows: seq<Session>, id: string): seq<Session> {
    Filter(rows, OtherIdSel(id))
  }

  /** The primary key: no two rows share an id, and no row is stored twice. */
  ghost predicate KeyedById(rows: seq<Session>) {
    && (forall a, b :: a in rows && b in rows && a.id == b.id ==> a == b)
    && (forall s :: multiset(rows)[s] <= 1)
  }

  /** A filtered table keeps its key. */
  lemma FilterKeepsKey(rows: seq<Session>, p: Session -> bool)
    requires KeyedById(rows)
    ensures KeyedById(Filter(rows, p))
  {
    FilterMultiset(rows, p);
  }

  /** The order SQLite's default collation gives text: the first character
      that differs decides, and a proper prefix comes first. (UTF-8 byte
      order and code-point order agree.) */
  predicate IdLess(a: string, b: string) {
    if a == [] then b != []
    else if b == [] then false
    else if a[0] != b[0] then a[0] < b[0]
    else IdLess(a[1..], b[1..])
  }

  lemma {:induction false} IdLessIrreflexive(a: string)
    ensures !IdLess(a, a)
  {
    if a != [] {
      IdLessIrreflexive(a[1..]);
    }
  }

  lemma {:induction false} IdLessAsymmetric(a: string, b: string)
    ensures IdLess(a, b) ==> !IdLess(b, a)
  {
    if a != [] && b != [] && a[0] == b[0] {
      IdLessAsymmetric(a[1..], b[1..]);
    }
  }

  /** Whatever lies between two ids in the order falls after the first or
      before the second; with asymmetry this makes the order transitive. */
  lemma {:induction false} IdLessSplits(a: string, b: string, c: string)
    ensures IdLess(a, c) ==> IdLess(a, b) || IdLess(b, c)
  {
    if a != [] && b != [] && c != [] && a[0] == b[0] && b[0] == c[0] {
      IdLessSplits(a[1..], b[1..], c[1..]);
    }
  }

  lemma {:induction false} IdLessTotal(a: string, b: string)
    ensures a == b || IdLess(a, b) || IdLess(b, a)
  {
    if a != [] && b != [] && a[0] == b[0] {
      assert a == [a[0]] + a[1..] && b == [b[0]] + b[1..];
      IdLessTotal(a[1..], b[1..]);
    }
  }

  /** `ORDER BY created_at ASC` followed by the primary key, which GORM's
      `First` appends: `s` comes strictly before `t`. */
  predicate Before(s: Session, t: Session) {
    s.createdAt < t.createdAt || (s.createdAt == t.createdAt && IdLess(s.id, t.id))
  }

  lemma BeforeAsymmetric(s: Session, t: Session)
    ensures Before(s, t) ==> !Before(t, s)
  {
    IdLessAsymmetric(s.id, t.id);
  }

  /** A row between two rows in the order comes after the first or before the second. */
  lemma BeforeSplits(s: Session, t: Session, u: Session)
    ensures Before(s, u) ==> Before(s, t) || Before(t, u)
  {
    IdLessSplits(s.id, t.id, u.id);
  }

  /** A row no later than the least of the others is least of all. */
  lemma LeastOfAll(h: Session, o: Session, rows: seq<Session>, userId: string)
    requires !Before(o, h)
    requires forall s :: s in rows && s.userId == userId ==> !Before(s, o)
    ensures forall s :: s in rows && s.userId == userId ==> !Before(s, h)
  {
    forall s | s in rows && s.userId == userId
      ensures !Before(s, h)
    {
      BeforeSplits(s, o, h);
    }
  }

  /** The user's row that `ORDER BY created_at ASC` followed by the id puts
      first; none when the user has no session at all. */
  function OldestOf(rows: seq<Session>, userId: string): (r: Option<Session>)
    ensures r.None? <==> forall s :: s in rows ==> s.userId != userId
    ensures r.Some? ==> r.value in rows && r.value.userId == userId
    ensures r.Some? ==> forall s :: s in rows && s.userId == userId ==> !Before(s, r.value)
  {
    if rows == [] then None
    else
      var rest := OldestOf(rows[1..], userId);
      assert forall s :: s in rows ==> s == rows[0] || s in rows[1..];
      if rows[0].userId != userId then rest
      else if rest.Some? && Before(rest.value, rows[0]) then
        BeforeAsymmetric(rest.value, rows[0]);
        rest
      else
        IdLessIrreflexive(rows[0].id);
        if rest.Some? then
          LeastOfAll(rows[0], rest.value, rows[1..], userId);
          Some(rows[0])
        else Some(rows[0])
  }

  /** In a table keyed by id the order leaves no tie: the one row of the user
      that no other row of the user precedes is the row `OldestOf` picks. */
  lemma OldestDetermined(rows: seq<Session>, userId: string, o: Session)
    requires KeyedById(rows) && o in rows && o.userId == userId
    requires forall s :: s in rows && s.userId == userId ==> !Before(s, o)
    ensures OldestOf(rows, userId) == Some(o)
  {
    var r := OldestOf(rows, userId).value;
    IdLessTotal(r.id, o.id);
    assert r.id == o.id;
  }

  /** The row with the least id, the one `First` returns when nothing else
      orders the rows; none for no rows. */
  function LeastById(rows: seq<Session>): (r: Option<Session>)
    ensures r.None? <==> rows == []
    ensures r.Some? ==> r.value in rows && forall s :: s in rows ==> !IdLess(s.id, r.value.id)
  {
    if rows == [] then None
    else
      var rest := LeastById(rows[1..]);
      assert forall s :: s in rows ==> s == rows[0] || s in rows[1..];
      IdLessIrreflexive(rows[0].id);
      if rest.Some? && IdLess(rest.value.id, rows[0].id) then
        IdLessAsymmetric(rest.value.id, rows[0].id);
        rest
      else if rest.Some? then
        assert forall s :: s in rows[1..] ==> !IdLess(s.id, rows[0].id) by {
          forall s | s in rows[1..]
            ensures !IdLess(s.id, rows[0].id)
          {
            IdLessSplits(s.id, rest.value.id, rows[0].id);
          }
        }
        Some(rows[0])
      else Some(rows[0])
  }

  /** Removing the row with the id of a stored row removes that row and nothing else. */
  lemma RemoveById(rows: seq<Session>, o: Session)
    requires KeyedById(rows) && o in rows
    ensures multiset(WithoutId(rows, o.id)) == multiset(rows) - multiset{o}
    ensures |WithoutId(rows, o.id)| == |rows| - 1
  {
    var r := WithoutId(rows, o.id);
    FilterMultiset(rows, OtherIdSel(o.id));
    assert multiset(rows)[o] == 1;
    forall x
      ensures multiset(r)[x] == (multiset(rows) - multiset{o})[x]
    {
      if x.id == o.id && x != o {
        assert x !in rows;
      }
    }
    assert multiset(r) == multiset(rows) - multiset{o};
    assert |multiset(r)| == |multiset(rows)| - 1;
  }

  /** The loop of `FindActiveByUserID` that copies each selected row into a
      fresh domain value, in order. The row type and the domain type are one
      datatype here, so the copy is the identity; it is kept for the loop. */
  method CopyAll(models: seq<Session>) returns (sessions: seq<Session>)
    ensures sessions == models
  {
    sessions := [];
    for i := 0 to |models|
      invariant sessions == models[..i]
    {
      var sm := models[i];
      sessions := sessions + [Session(sm.id, sm.userId, sm.refreshToken, sm.expiresAt, sm.createdAt)];
    }
    assert models[..|models|] == models;
  }

  class SessionRepository {
    var rows: seq<Session>

    ghost predicate Valid()
      reads this
    {
      KeyedById(rows)
    }

    constructor ()
      ensures Valid() && rows == []
    {
      rows := [];
    }

    /** `Create`: insert a row; the primary key refuses an id already stored. */
    method Create(session: Session) returns (err: Option<DbError>)
      requires Valid()
      modifies this
      ensures Valid()
      ensures err.None? <==> forall s :: s in old(rows) ==> s.id != session.id
      ensures err.None? ==> rows == old(rows) + [session]
      ensures err.Some? ==> rows == old(rows) && err == Some(DuplicateKey("sessions"))
    {
      if exists s :: s in rows && s.id == session.id {
        err := Some(DuplicateKey("sessions"));
      } else {
        assert session !in rows;
        rows := rows + [session];
        err := None;
      }
    }

    /** `FindByRefreshToken`: of the stored rows carrying the token, the one
        with the least id; none when no row carries it. */
    function FindByRefreshToken(token: string): (r: Option<Session>)
      reads this
      ensures r.Some? ==> r.value in rows && r.value.refreshToken == token
      ensures r.Some? ==> forall s :: s in rows && s.refreshToken == token ==> !IdLess(s.id, r.value.id)
      ensures r.None? <==> forall s :: s in rows ==> s.refreshToken != token
    {
      var found := Filter(rows, (s: Session) => s.refreshToken == token);
      assert found != [] ==> found[0] in found;
      LeastById(found)
    }

    /** `FindByID`: the row with that id; none when there is none. */
    function FindByID(id: string): (r: Option<Session>)
      reads this
      requires Valid()
      ensures r.Some? <==> exists s :: s in rows && s.id == id
      ensures r.Some? ==> r.value in rows && r.value.id == id
    {
      var found := Filter(rows, (s: Session) => s.id == id);
      if found == [] then None else Some(found[0])
    }

    /** `DeleteByUserID`: every session of the user goes, every other row stays. */
    method DeleteByUserID(userId: string)
      requires Valid()
      modifies this
      ensures Valid()
      ensures rows == WithoutUser(old(rows), userId)
      ensures forall s :: s in rows <==> s in old(rows) && s.userId != userId
    {
      FilterKeepsKey(rows, OtherUserSel(userId));
      rows := WithoutUser(rows, userId);
    }

    /** `DeleteExpired`: every row, of any user, whose expiry is before the clock goes. */
    method DeleteExpired(now: Time)
      requires Valid()
      modifies this
      ensures Valid()
      ensures rows == WithoutExpired(old(rows), now)
      ensures forall s :: s in rows <==> s in old(rows) && !(s.expiresAt < now)
    {
      FilterKeepsKey(rows, NotBeforeSel(now));
      rows := WithoutExpired(rows, now);
    }

    /** `CountByUserID`: how many of the user's sessions end strictly after the clock. */
    function CountByUserID(userId: string, now: Time): (n: nat)
      reads this
      ensures n <= |rows|
      ensures n == 0 <==> forall s :: s in rows ==> !ActiveFor(s, userId, now)
    {
      var active := ActiveOf(rows, userId, now);
      assert active != [] ==> active[0] in active;
      |active|
    }

    /** `DeleteOldestByUserID`: exactly one row goes, the user's first session
        by creation time and then by id, expired or not; a user without
        sessions is an error and changes nothing. */
    method DeleteOldestByUserID(userId: string) returns (err: Option<DbError>)
      requires Valid()
      modifies this
      ensures Valid()
      ensures err.Some? <==> forall s :: s in old(rows) ==> s.userId != userId
      ensures err.Some? ==> rows == old(rows) && err == Some(RecordNotFound)
      ensures err.None? ==> rows == WithoutId(old(rows), OldestOf(old(rows), userId).value.id)
      ensures err.None? ==> exists o :: (
        && o in old(rows) && o.userId == userId
        && (forall s :: s in old(rows) && s.userId == userId ==> !Before(s, o))
        && multiset(rows) == multiset(old(rows)) - multiset{o}
        && |rows| == |old(rows)| - 1)
    {
      var oldest := OldestOf(rows, userId);
      if oldest.None? {
        err := Some(RecordNotFound);
      } else {
        var o := oldest.value;
        RemoveById(rows, o);
        FilterKeepsKey(rows, OtherIdSel(o.id));
        rows := WithoutId(rows, o.id);
        err := None;
      }
    }

    /** `DeleteExpiredByUserID`: the user's sessions whose expiry is strictly
        before the clock go; a session expiring exactly now stays. */
    method DeleteExpiredByUserID(userId: string, now: Time)
      requires Valid()
      modifies this
      ensures Valid()
      ensures rows == WithoutExpiredOf(old(rows), userId, now)
      ensures forall s :: s in rows <==> s in old(rows) && !ExpiredFor(s, userId, now)
    {
      FilterKeepsKey(rows, NotExpiredForSel(userId, now));
      rows := WithoutExpiredOf(rows, userId, now);
    }

    /** `FindActiveByUserID`: the query selects the active rows, then the loop
        copies each into the result slice. */
    method FindActiveByUserID(userId: string, now: Time) returns (sessions: seq<Session>)
      ensures sessions == ActiveOf(rows, userId, now)
      ensures forall s :: s in sessions <==> s in rows && ActiveFor(s, userId, now)
      ensures |sessions| == CountByUserID(userId, now)
    {
      var models := ActiveOf(rows, userId, now);
      sessions := CopyAll(models);
    }

    /** `HasActiveSession`: the same condition as `CountByUserID`, asked as a yes/no. */
    function HasActiveSession(userId: string, now: Time): (b: bool)
      reads this
      ensures b == (CountByUserID(userId, now) > 0)
      ensures b <==> exists s :: s in rows && ActiveFor(s, userId, now)
    {
      |ActiveOf(rows, userId, now)| > 0
    }
  }

  /** A stored session is found again by its id, and by its refresh token when
      no other row carries that token: the five fields come back unchanged. */
  lemma StoredSessionFound(repo: SessionRepository, s: Session)
    requires repo.Valid() && s in repo.rows
    ensures repo.FindByID(s.id) == Some(s)
    ensures (forall t :: t in repo.rows && t.refreshToken == s.refreshToken ==> t == s) ==>
      repo.FindByRefreshToken(s.refreshToken) == Some(s)
  {
  }
}
