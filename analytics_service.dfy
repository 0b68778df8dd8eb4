/** The click pipeline and the statistics gate of
    internal/analytics/application/service/analytics_service.go.

    The Go service hands clicks to a background worker through a channel
    with room for 100 clicks. Here the channel is the sequence `pending`:
    `TrackClick` is the non-blocking send, `ProcessOne` is one turn of the
    worker's loop and `ProcessClicks` runs the worker until the buffer is
    empty. The geolocation service and the database are oracle inputs. */
module Analytics {
  import opened Common
  import opened Tallies
  import opened ClickStore
  import opened LinkStore
  import opened Deref

  /** Room in the click channel. */
  const BufferCapacity: nat := 100

  /** The country code of a click whose country is not known yet, and the
      fallback when the lookup gives nothing usable. */
  const UnknownCountry: string := "XX"

  /** The country a loopback address is attributed to. */
  const LoopbackCountry: string := "EC"

  /** What the geolocation request produced: a transport error, a body that
      does not decode, or the decoded `countryCode` field ("" when absent). */
  datatype GeoAnswer = NetworkError | ParseError | Answered(countryCode: string)

  /** The address contains an IPv4 or IPv6 loopback address. */
  predicate IsLoopback(ip: string) {
    Contains(ip, "127.0.0.1") || Contains(ip, "::1")
  }

  /** `resolveCountryCode`: loopback addresses are answered without a lookup;
      otherwise the lookup's code, or "XX" when the lookup fails or is empty. */
  function ResolveCountryCode(ip: string, answer: GeoAnswer): (cc: string)
    ensures (exists i :: OccursAt(ip, "127.0.0.1", i)) || (exists i :: OccursAt(ip, "::1", i)) ==>
      cc == LoopbackCountry
    ensures !IsLoopback(ip) && answer.Answered? && answer.countryCode != "" ==> cc == answer.countryCode
    ensures !IsLoopback(ip) && (answer.NetworkError? || answer.ParseError? || answer == Answered("")) ==>
      cc == UnknownCountry
    ensures cc != ""
  {
    ContainsIff(ip, "127.0.0.1");
    ContainsIff(ip, "::1");
    if IsLoopback(ip) then LoopbackCountry
    else
      match answer
      case NetworkError => UnknownCountry
      case ParseError => UnknownCountry
      case Answered(code) => if code == "" then UnknownCountry else code
  }

  /** The worker's enrichment: a click still marked "XX" gets the resolved
      country; any other click is left as it is. */
  function Enrich(c: Click, answer: GeoAnswer): (e: Click)
    ensures c.countryCode != UnknownCountry ==> e == c
    ensures c.countryCode == UnknownCountry ==> e.countryCode == ResolveCountryCode(c.ipAddress, answer)
    ensures e.(countryCode := c.countryCode) == c
  {
    if c.countryCode == UnknownCountry then c.(countryCode := ResolveCountryCode(c.ipAddress, answer))
    else c
  }

  /** A row with its key forgotten: what the worker hands to `Save`. */
  function Unkeyed(c: Click): Click {
    c.(id := 0)
  }

  /** A sequence of rows with their keys forgotten. */
  function UnkeyedAll(rows: seq<Click>): (r: seq<Click>)
    ensures |r| == |rows|
    ensures forall i :: 0 <= i < |rows| ==> r[i] == Unkeyed(rows[i])
  {
    if rows == [] then [] else [Unkeyed(rows[0])] + UnkeyedAll(rows[1..])
  }

  lemma {:induction false} UnkeyedAppend(a: seq<Click>, b: seq<Click>)
    ensures UnkeyedAll(a + b) == UnkeyedAll(a) + UnkeyedAll(b)
  {
    if a == [] {
      assert a + b == b;
    } else {
      assert (a + b)[1..] == a[1..] + b;
      UnkeyedAppend(a[1..], b);
    }
  }

  /** The clicks the worker stores, in order, when it meets the pending
      clicks `p` with the lookup answers `a` and the save outcomes `f`: every
      click whose save does not fail, enriched, and no other. */
  function Delivered(p: seq<Click>, a: seq<GeoAnswer>, f: seq<Option<DbError>>): (r: seq<Click>)
    requires |a| == |p| && |f| == |p|
    ensures |r| <= |p|
  {
    if p == [] then []
    else
      (if f[0].None? then [Unkeyed(Enrich(p[0], a[0]))] else []) + Delivered(p[1..], a[1..], f[1..])
  }

  /** The worker's output splits where its input does: a failed save holds
      up nothing that comes after it. */
  lemma {:induction false} DeliveredSplit(p: seq<Click>, a: seq<GeoAnswer>, f: seq<Option<DbError>>, k: nat)
    requires |a| == |p| && |f| == |p| && k <= |p|
    ensures Delivered(p, a, f) ==
      Delivered(p[..k], a[..k], f[..k]) + Delivered(p[k..], a[k..], f[k..])
  {
    if k > 0 {
      DeliveredSplit(p[1..], a[1..], f[1..], k - 1);
      assert p[..k][1..] == p[1..][..k - 1];
      assert a[..k][1..] == a[1..][..k - 1];
      assert f[..k][1..] == f[1..][..k - 1];
      assert p[1..][k - 1..] == p[k..];
      assert a[1..][k - 1..] == a[k..];
      assert f[1..][k - 1..] == f[k..];
    } else {
      assert p[..0] == [] && p[0..] == p && a[0..] == a && f[0..] == f;
    }
  }

  /** One more turn of the worker adds at most the one click it takes. */
  lemma DeliveredStep(p: seq<Click>, a: seq<GeoAnswer>, f: seq<Option<DbError>>, i: nat)
    requires |a| == |p| && |f| == |p| && i < |p|
    ensures Delivered(p[..i + 1], a[..i + 1], f[..i + 1]) ==
      Delivered(p[..i], a[..i], f[..i]) + (if f[i].None? then [Unkeyed(Enrich(p[i], a[i]))] else [])
  {
    DeliveredSplit(p[..i + 1], a[..i + 1], f[..i + 1], i);
    assert p[..i + 1][..i] == p[..i];
    assert a[..i + 1][..i] == a[..i];
    assert f[..i + 1][..i] == f[..i];
    assert p[..i + 1][i..] == [p[i]];
    assert a[..i + 1][i..] == [a[i]];
    assert f[..i + 1][i..] == [f[i]];
  }

  /** With no failed save, every pending click is stored, enriched, in the
      order it was tracked. */
  lemma {:induction false} DeliveredInOrder(p: seq<Click>, a: seq<GeoAnswer>, f: seq<Option<DbError>>)
    requires |a| == |p| && |f| == |p|
    requires forall i :: 0 <= i < |f| ==> f[i].None?
    ensures |Delivered(p, a, f)| == |p|
    ensures forall i :: 0 <= i < |p| ==> Delivered(p, a, f)[i] == Unkeyed(Enrich(p[i], a[i]))
  {
    if p != [] {
      DeliveredInOrder(p[1..], a[1..], f[1..]);
    }
  }

  /** How many of the saves fail. */
  function Failures(f: seq<Option<DbError>>): nat {
    if f == [] then 0 else (if f[0].Some? then 1 else 0) + Failures(f[1..])
  }

  /** Each failed save loses exactly its own click. */
  lemma {:induction false} DeliveredCount(p: seq<Click>, a: seq<GeoAnswer>, f: seq<Option<DbError>>)
    requires |a| == |p| && |f| == |p|
    ensures |Delivered(p, a, f)| == |p| - Failures(f)
  {
    if p != [] {
      DeliveredCount(p[1..], a[1..], f[1..]);
    }
  }

  /** Who may read a link's statistics: its owner, or whoever presents its
      management token. */
  predicate Authorized(userId: Option<string>, link: ShortLink, token: string) {
    || (userId.Some? && link.userId.Some? && userId.value == link.userId.value)
    || link.managementToken == token
  }

  /** Why `GetStats` refuses. */
  datatype StatsError = LinkNotFound | Unauthorized | QueryFailed(cause: DbError)

  const NoFaults: QueryFaults := QueryFaults(None, None, None, None)

  class AnalyticsService {
    const clicks: ClickRepository
    const links: ShortLinkRepository
    /** The clicks sent to the worker and not yet taken, oldest first. */
    var pending: seq<Click>

    ghost predicate Valid()
      reads this, clicks, links
    {
      |pending| <= BufferCapacity && clicks.Valid() && links.Valid()
    }

    constructor (clicks: ClickRepository, links: ShortLinkRepository)
      requires clicks.Valid() && links.Valid()
      ensures Valid() && pending == []
      ensures this.clicks == clicks && this.links == links
    {
      this.clicks := clicks;
      this.links := links;
      pending := [];
    }

    /** `TrackClick`: queue a click stamped with the clock and marked "XX";
        when the buffer is full the click is dropped. */
    method TrackClick(code: string, ip: string, userAgent: string, referrer: string, now: Time)
      requires Valid()
      modifies this
      ensures Valid()
      ensures |old(pending)| < BufferCapacity ==>
        pending == old(pending) + [Click(0, code, ip, userAgent, referrer, UnknownCountry, now)]
      ensures |old(pending)| >= BufferCapacity ==> pending == old(pending)
    {
      var click := Click(0, code, ip, userAgent, referrer, UnknownCountry, now);
      if |pending| < BufferCapacity {
        pending := pending + [click];
      }
    }

    /** One turn of `processClicks`: take the oldest pending click, enrich
        it, save it. A failed save is only reported; the click is gone. */
    method ProcessOne(answer: GeoAnswer, fault: Option<DbError>) returns (err: Option<DbError>)
      requires Valid() && pending != []
      modifies this, clicks
      ensures Valid()
      ensures pending == old(pending)[1..]
      ensures err == fault
      ensures fault.None? ==>
        clicks.rows == old(clicks.rows) + [Enrich(old(pending)[0], answer).(id := old(clicks.nextId))]
      ensures fault.Some? ==> clicks.rows == old(clicks.rows)
    {
      var click := pending[0];
      pending := pending[1..];
      if click.countryCode == UnknownCountry {
        click := click.(countryCode := ResolveCountryCode(click.ipAddress, answer));
      }
      err := clicks.Save(click, fault);
    }

    /** `processClicks` until the buffer is empty, the `i`-th click meeting
        the `i`-th lookup answer and save outcome. */
    method ProcessClicks(answers: seq<GeoAnswer>, faults: seq<Option<DbError>>)
      requires Valid()
      requires |answers| == |pending| && |faults| == |pending|
      modifies this, clicks
      ensures Valid() && pending == []
      ensures UnkeyedAll(clicks.rows) ==
        UnkeyedAll(old(clicks.rows)) + Delivered(old(pending), answers, faults)
    {
      var queued := pending;
      var n := |queued|;
      var i := 0;
      while i < n
        invariant 0 <= i <= n
        invariant Valid()
        invariant pending == queued[i..]
        invariant UnkeyedAll(clicks.rows) ==
          UnkeyedAll(old(clicks.rows)) + Delivered(queued[..i], answers[..i], faults[..i])
      {
        var before := clicks.rows;
        var _ := ProcessOne(answers[i], faults[i]);
        DeliveredStep(queued, answers, faults, i);
        if faults[i].None? {
          UnkeyedAppend(before, [clicks.rows[|before|]]);
        }
        i := i + 1;
      }
      assert queued[..n] == queued && answers[..n] == answers && faults[..n] == faults;
    }

    /** `GetStats`: a failed lookup is `LinkNotFound`; a caller who is neither
        the owner nor the token holder is refused; otherwise the statistics. */
    function GetStats(code: string, token: string, userId: Option<string>,
                      lookupFault: Option<DbError>, faults: QueryFaults): (r: Result<LinkStats, StatsError>)
      reads this, clicks, links
      requires Valid()
      ensures lookupFault.Some? ==> r == Err(LinkNotFound)
      ensures lookupFault.None? ==>
        (r == Err(Unauthorized) <==> !Authorized(userId, links.FindByCode(code, None).value, token))
      ensures r.Ok? ==> faults == NoFaults && r.value.totalClicks == Occurrences(clicks.rows, code)
      ensures r.Ok? ==> r.value.lastClicks == [] && |r.value.clicksByDate| <= DateListSize
      ensures r.Ok? ==> r.value == LinkStats(clicks.CountTotal(code), clicks.GetClicksByDate(code),
        clicks.GetTopCountries(code, TopListSize), clicks.GetTopReferrers(code, TopListSize), [])
      ensures r.Err? && r.error.QueryFailed? ==> faults != NoFaults
    {
      match links.FindByCode(code, lookupFault)
      case Err(_) => Err(LinkNotFound)
      case Ok(link) =>
        if !Authorized(userId, link, token) then Err(Unauthorized)
        else
          match clicks.GetLinkStats(code, faults)
          case Err(e) => Err(QueryFailed(e))
          case Ok(stats) => Ok(stats)
    }
  }

  /** The owner of a stored link reads its statistics whatever token they pass. */
  lemma OwnerReadsStats(svc: AnalyticsService, row: LinkRow, token: string)
    requires svc.Valid() && row in svc.links.rows && row.userId.Some?
    ensures svc.GetStats(row.code, token, row.userId, None, NoFaults).Ok?
  {
  }

  /** Whoever presents a stored link's token reads its statistics. */
  lemma TokenHolderReadsStats(svc: AnalyticsService, row: LinkRow, userId: Option<string>)
    requires svc.Valid() && row in svc.links.rows && row.managementToken.Some?
    ensures svc.GetStats(row.code, row.managementToken.value, userId, None, NoFaults).Ok?
  {
  }

  /** Anyone else is refused. */
  lemma StrangerRefused(svc: AnalyticsService, row: LinkRow, token: string, userId: Option<string>)
    requires svc.Valid() && row in svc.links.rows
    requires userId.None? || row.userId != userId
    requires token != DerefString(row.managementToken)
    ensures svc.GetStats(row.code, token, userId, None, NoFaults) == Err(Unauthorized)
  {
  }

  /** The token comparison is plain equality on the dereferenced column: a
      link stored without a token, and a code that names no link at all, are
      open to anyone passing the empty token. */
  lemma EmptyTokenOpensTokenlessLinks(svc: AnalyticsService, code: string, userId: Option<string>)
    requires svc.Valid()
    requires forall row :: row in svc.links.rows && row.code == code ==> row.managementToken.None?
    ensures svc.GetStats(code, "", userId, None, NoFaults).Ok?
    ensures svc.GetStats(code, "", userId, None, NoFaults).value.totalClicks == Occurrences(svc.clicks.rows, code)
  {
  }
}
