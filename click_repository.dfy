/** The `clicks` table of
    internal/analytics/infrastructure/persistence/gorm/click_repository_gorm.go:
    an append-only sequence of rows with an auto-incremented key, and the
    aggregate queries the statistics page is built from. */
module ClickStore {
  import opened Common
  import opened Tallies

  /** One visit of a short link. */
  datatype Click = Click(
    id: nat,
    linkCode: string,
    ipAddress: string,
    userAgent: string,
    referrer: string,
    countryCode: string,
    clickedAt: Time)

  /** Seconds in a calendar day; instants are seconds since a midnight. */
  const SecondsPerDay: int := 86400

  /** The calendar day of an instant, as a day number: what
      `TO_CHAR(clicked_at, 'YYYY-MM-DD')` names. Numbering days keeps their
      order, which is the order of the formatted dates. */
  function Day(t: Time): int {
    t / SecondsPerDay
  }

  /* The grouped columns, as named projections. */

  function DayKey(c: Click): int {
    Day(c.clickedAt)
  }

  function CountryKey(c: Click): string {
    c.countryCode
  }

  function ReferrerKey(c: Click): string {
    c.referrer
  }

  /** `WHERE link_code = ?`. */
  function LinkSel(code: string): Click -> bool {
    (c: Click) => c.linkCode == code
  }

  /** The clicks of one link, in table order. */
  function ClicksOf(rows: seq<Click>, code: string): seq<Click> {
    Filter(rows, LinkSel(code))
  }

  /** One column of a sequence of rows. */
  function Project<K>(cs: seq<Click>, f: Click -> K): (ks: seq<K>)
    ensures |ks| == |cs|
    ensures forall i :: 0 <= i < |cs| ==> ks[i] == f(cs[i])
  {
    if cs == [] then [] else [f(cs[0])] + Project(cs[1..], f)
  }

  lemma {:induction false} ProjectAppend<K>(a: seq<Click>, b: seq<Click>, f: Click -> K)
    ensures Project(a + b, f) == Project(a, f) + Project(b, f)
  {
    if a == [] {
      assert a + b == b;
    } else {
      assert (a + b)[1..] == a[1..] + b;
      ProjectAppend(a[1..], b, f);
    }
  }

  /** How many rows of the link have `k` in the column `f`, counted row by row. */
  function Tally<K(==)>(rows: seq<Click>, code: string, f: Click -> K, k: K): nat {
    if rows == [] then 0
    else (if rows[0].linkCode == code && f(rows[0]) == k then 1 else 0) + Tally(rows[1..], code, f, k)
  }

  /** How many rows belong to the link, counted row by row. */
  function Occurrences(rows: seq<Click>, code: string): nat {
    if rows == [] then 0
    else (if rows[0].linkCode == code then 1 else 0) + Occurrences(rows[1..], code)
  }

  /** Grouping the link's clicks by a column counts exactly the link's rows
      that carry each value. */
  lemma {:induction false} GroupedColumnCounts<K>(rows: seq<Click>, code: string, f: Click -> K, k: K)
    ensures multiset(Project(ClicksOf(rows, code), f))[k] == Tally(rows, code, f, k)
  {
    if rows != [] {
      GroupedColumnCounts(rows[1..], code, f, k);
      var head: seq<Click> := if rows[0].linkCode == code then [rows[0]] else [];
      assert ClicksOf(rows, code) == head + ClicksOf(rows[1..], code);
      ProjectAppend(head, ClicksOf(rows[1..], code), f);
    }
  }

  /** The link's clicks are exactly its rows. */
  lemma {:induction false} ClicksOfCounts(rows: seq<Click>, code: string)
    ensures |ClicksOf(rows, code)| == Occurrences(rows, code)
  {
    if rows != [] {
      ClicksOfCounts(rows[1..], code);
      assert ClicksOf(rows, code) ==
        (if rows[0].linkCode == code then [rows[0]] else []) + ClicksOf(rows[1..], code);
    }
  }

  /** Appending a row adds it to its own link's clicks and to no other. */
  lemma AppendClick(rows: seq<Click>, c: Click, code: string)
    ensures ClicksOf(rows + [c], code) ==
      ClicksOf(rows, code) + (if c.linkCode == code then [c] else [])
  {
    FilterAppend(rows, [c], LinkSel(code));
  }

  /** What `GetLinkStats` assembles. `LastClicks` is declared but never filled. */
  datatype LinkStats = LinkStats(
    totalClicks: nat,
    clicksByDate: seq<Group<int>>,
    topCountries: seq<Group<string>>,
    topReferrers: seq<Group<string>>,
    lastClicks: seq<Click>)

  /** Both top lists of the statistics page have five rows at most. */
  const TopListSize: int := 5

  /** The date histogram has thirty rows at most. */
  const DateListSize: nat := 30

  /** Database failures of the four statistics queries, as oracle inputs. */
  datatype QueryFaults = QueryFaults(
    count: Option<DbError>,
    byDate: Option<DbError>,
    countries: Option<DbError>,
    referrers: Option<DbError>)

  class ClickRepository {
    var rows: seq<Click>
    /** The next value of the auto-incremented key. */
    var nextId: nat

    /** Keys are handed out in increasing order and stay below the counter. */
    ghost predicate Valid()
      reads this
    {
      && (forall i :: 0 <= i < |rows| ==> rows[i].id < nextId)
      && (forall i, j :: 0 <= i < j < |rows| ==> rows[i].id < rows[j].id)
    }

    constructor ()
      ensures Valid() && rows == [] && nextId == 1
    {
      rows := [];
      nextId := 1;
    }

    /** `Save`: insert the click under the next key, copying every column;
        a failing insert leaves the table as it was. */
    method Save(click: Click, fault: Option<DbError>) returns (err: Option<DbError>)
      requires Valid()
      modifies this
      ensures Valid()
      ensures err == fault
      ensures fault.Some? ==> rows == old(rows) && nextId == old(nextId)
      ensures fault.None? ==> rows == old(rows) + [click.(id := old(nextId))] && nextId == old(nextId) + 1
    {
      if fault.Some? {
        err := fault;
      } else {
        rows := rows + [Click(nextId, click.linkCode, click.ipAddress, click.userAgent,
                              click.referrer, click.countryCode, click.clickedAt)];
        nextId := nextId + 1;
        err := None;
      }
    }

    /** `CountTotal`: the number of rows of the link. */
    function CountTotal(code: string): (n: nat)
      reads this
      ensures n == Occurrences(rows, code)
      ensures n <= |rows|
    {
      ClicksOfCounts(rows, code);
      |ClicksOf(rows, code)|
    }

    /** `GetClicksByDate`: the link's clicks per day, earliest day first, at
        most thirty days. */
    function GetClicksByDate(code: string): (r: seq<Group<int>>)
      reads this
      ensures |r| <= DateListSize
      ensures forall i, j :: 0 <= i < j < |r| ==> r[i].key < r[j].key
      ensures forall g :: g in r ==> g.count == Tally(rows, code, DayKey, g.key) && g.count >= 1
      ensures SumCounts(r) <= CountTotal(code)
    {
      var cs := ClicksOf(rows, code);
      var r := EarliestDays(Project(cs, DayKey), DateListSize);
      forall g | g in r
        ensures g.count == Tally(rows, code, DayKey, g.key)
      {
        GroupedColumnCounts(rows, code, DayKey, g.key);
      }
      r
    }

    /** `GetTopCountries`: the link's countries by number of clicks, most
        frequent first, at most `limit` of them (no limit when negative). */
    function GetTopCountries(code: string, limit: int): (r: seq<Group<string>>)
      reads this
      ensures limit >= 0 ==> |r| <= limit
      ensures DistinctKeys(r)
      ensures forall g :: g in r ==> g.count == Tally(rows, code, CountryKey, g.key) && g.count >= 1
      ensures forall i, j :: 0 <= i < j < |r| ==> r[i].count >= r[j].count
    {
      var r := TopByCount(Project(ClicksOf(rows, code), CountryKey), limit);
      forall g | g in r
        ensures g.count == Tally(rows, code, CountryKey, g.key)
      {
        GroupedColumnCounts(rows, code, CountryKey, g.key);
      }
      r
    }

    /** `GetTopReferrers`: the same query over the referrer column. */
    function GetTopReferrers(code: string, limit: int): (r: seq<Group<string>>)
      reads this
      ensures limit >= 0 ==> |r| <= limit
      ensures DistinctKeys(r)
      ensures forall g :: g in r ==> g.count == Tally(rows, code, ReferrerKey, g.key) && g.count >= 1
      ensures forall i, j :: 0 <= i < j < |r| ==> r[i].count >= r[j].count
    {
      var r := TopByCount(Project(ClicksOf(rows, code), ReferrerKey), limit);
      forall g | g in r
        ensures g.count == Tally(rows, code, ReferrerKey, g.key)
      {
        GroupedColumnCounts(rows, code, ReferrerKey, g.key);
      }
      r
    }

    /** `GetLinkStats`: the four queries in order; the first one to fail
        decides the error and no statistics come back. */
    function GetLinkStats(code: string, faults: QueryFaults): (r: Result<LinkStats, DbError>)
      reads this
      ensures faults.count.Some? ==> r == Err(faults.count.value)
      ensures faults.count.None? && faults.byDate.Some? ==> r == Err(faults.byDate.value)
      ensures faults.count.None? && faults.byDate.None? && faults.countries.Some? ==>
        r == Err(faults.countries.value)
      ensures faults.count.None? && faults.byDate.None? && faults.countries.None? && faults.referrers.Some? ==>
        r == Err(faults.referrers.value)
      ensures r.Ok? <==> faults == QueryFaults(None, None, None, None)
      ensures r.Ok? ==> r.value == LinkStats(CountTotal(code), GetClicksByDate(code),
        GetTopCountries(code, TopListSize), GetTopReferrers(code, TopListSize), [])
    {
      if faults.count.Some? then Err(faults.count.value)
      else if faults.byDate.Some? then Err(faults.byDate.value)
      else if faults.countries.Some? then Err(faults.countries.value)
      else if faults.referrers.Some? then Err(faults.referrers.value)
      else
        Ok(LinkStats(CountTotal(code), GetClicksByDate(code),
                     GetTopCountries(code, TopListSize), GetTopReferrers(code, TopListSize), []))
    }
  }

  /** A saved click counts once towards its own link and never towards another. */
  lemma SaveCounts(rows: seq<Click>, c: Click, code: string)
    ensures Occurrences(rows + [c], code) == Occurrences(rows, code) + (if c.linkCode == code then 1 else 0)
  {
    AppendClick(rows, c, code);
    ClicksOfCounts(rows + [c], code);
    ClicksOfCounts(rows, code);
  }

  /** When every day with a click of the link appears in the date histogram,
      its counts add up to the link's total. */
  lemma ClicksByDateSumAll(repo: ClickRepository, code: string)
    requires forall c :: c in repo.rows && c.linkCode == code ==>
      exists g :: g in repo.GetClicksByDate(code) && g.key == Day(c.clickedAt)
    ensures SumCounts(repo.GetClicksByDate(code)) == repo.CountTotal(code)
  {
    var cs := ClicksOf(repo.rows, code);
    var days := Project(cs, DayKey);
    assert repo.GetClicksByDate(code) == EarliestDays(days, DateListSize);
    forall d | d in days
      ensures exists g :: g in EarliestDays(days, DateListSize) && g.key == d
    {
      var i :| 0 <= i < |days| && days[i] == d;
      assert cs[i] in repo.rows;
    }
    EarliestDaysSumAll(days, DateListSize);
  }

  /** A country missing from the top list has no more clicks than any
      country in it, and a list shorter than the limit misses no country. */
  lemma TopCountriesAreTop(repo: ClickRepository, code: string, limit: int, c: Click)
    requires c in repo.rows && c.linkCode == code
    ensures (forall g :: g in repo.GetTopCountries(code, limit) ==> g.key != c.countryCode) ==>
      forall g :: g in repo.GetTopCountries(code, limit) ==> Tally(repo.rows, code, CountryKey, c.countryCode) <= g.count
    ensures (limit < 0 || |repo.GetTopCountries(code, limit)| < limit) ==>
      exists g :: g in repo.GetTopCountries(code, limit) && g.key == c.countryCode
  {
    var cs := ClicksOf(repo.rows, code);
    var keys := Project(cs, CountryKey);
    var i :| 0 <= i < |cs| && cs[i] == c;
    assert keys[i] == c.countryCode;
    TopByCountIsTop(keys, limit, c.countryCode);
    GroupedColumnCounts(repo.rows, code, CountryKey, c.countryCode);
  }

  /** A referrer missing from the top list has no more clicks than any
      referrer in it, and a list shorter than the limit misses no referrer. */
  lemma TopReferrersAreTop(repo: ClickRepository, code: string, limit: int, c: Click)
    requires c in repo.rows && c.linkCode == code
    ensures (forall g :: g in repo.GetTopReferrers(code, limit) ==> g.key != c.referrer) ==>
      forall g :: g in repo.GetTopReferrers(code, limit) ==> Tally(repo.rows, code, ReferrerKey, c.referrer) <= g.count
    ensures (limit < 0 || |repo.GetTopReferrers(code, limit)| < limit) ==>
      exists g :: g in repo.GetTopReferrers(code, limit) && g.key == c.referrer
  {
    var cs := ClicksOf(repo.rows, code);
    var keys := Project(cs, ReferrerKey);
    var i :| 0 <= i < |cs| && cs[i] == c;
    assert keys[i] == c.referrer;
    TopByCountIsTop(keys, limit, c.referrer);
    GroupedColumnCounts(repo.rows, code, ReferrerKey, c.referrer);
  }

  /** The date histogram keeps the earliest days: a day with a click of the
      link that is missing from it means the list is full, and every day
      listed comes before it. */
  lemma ClicksByDateAreEarliest(repo: ClickRepository, code: string, c: Click)
    requires c in repo.rows && c.linkCode == code
    requires forall g :: g in repo.GetClicksByDate(code) ==> g.key != Day(c.clickedAt)
    ensures |repo.GetClicksByDate(code)| == DateListSize
    ensures forall g :: g in repo.GetClicksByDate(code) ==> g.key < Day(c.clickedAt)
  {
    var cs := ClicksOf(repo.rows, code);
    var days := Project(cs, DayKey);
    var i :| 0 <= i < |cs| && cs[i] == c;
    assert days[i] == Day(c.clickedAt);
    assert repo.GetClicksByDate(code) == EarliestDays(days, DateListSize);
    EarliestDaysAreEarliest(days, DateListSize, Day(c.clickedAt));
  }
}
