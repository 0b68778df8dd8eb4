/** The parts of internal/short-links/infrastructure/http/handler/short_link_handler.go
    that decide something: the owner taken from the request context, the
    public URLs handed back for a new link, and the redirect that records a
    click. Decoding and writing HTTP bodies is not part of this model. */
module LinkHandler {
  import opened Common
  import opened LinkStore
  import opened Analytics

  /** The one domain for which the configured port is appended. */
  const LocalDomain: string := "http://localhost"

  /** The authenticated user id from the context ("" when anonymous) as the
      link's optional owner. */
  function OwnerFromContext(rawUserId: string): (owner: Option<string>)
    ensures owner.None? <==> rawUserId == ""
    ensures owner.Some? ==> owner.value == rawUserId
  {
    if rawUserId != "" then Some(rawUserId) else None
  }

  /** The base of every public URL: the domain, with the port appended only
      for the local domain and only when a port is configured. */
  function BaseUrl(domain: string, port: string): (base: string)
    ensures base == domain || base == domain + ":" + port
    ensures base != domain <==> port != "" && domain == LocalDomain
  {
    if port != "" && domain == LocalDomain then domain + ":" + port else domain
  }

  function ShortUrl(base: string, code: string): string {
    base + "/" + code
  }

  function QrUrl(base: string, code: string): string {
    base + "/api/qr/" + code
  }

  function StatsUrl(base: string, code: string, token: string): string {
    base + "/api/stats/" + code + "?token=" + token
  }

  /** The body of a successful creation. The expiry is left as an instant;
      its RFC 3339 rendering is not modelled. */
  datatype ShortLinkResponse = ShortLinkResponse(
    shortUrl: string,
    originalUrl: string,
    statsUrl: string,
    qrUrl: string,
    expiresAt: Time,
    userId: Option<string>)

  /** The response built for a created link. */
  function Respond(link: ShortLink, domain: string, port: string): (resp: ShortLinkResponse)
    ensures resp.originalUrl == link.originalUrl && resp.userId == link.userId
    ensures resp.expiresAt == link.expiresAt
    ensures resp.shortUrl == ShortUrl(BaseUrl(domain, port), link.code)
    ensures resp.qrUrl == QrUrl(BaseUrl(domain, port), link.code)
    ensures resp.statsUrl == StatsUrl(BaseUrl(domain, port), link.code, link.managementToken)
  {
    var base := BaseUrl(domain, port);
    ShortLinkResponse(ShortUrl(base, link.code), link.originalUrl,
                      StatsUrl(base, link.code, link.managementToken), QrUrl(base, link.code),
                      link.expiresAt, link.userId)
  }

  /** The three URLs of one response name the link's code after a common
      base, and the statistics URL carries its token after "?token=". */
  lemma ResponseUrlsCarryCodeAndToken(link: ShortLink, domain: string, port: string)
    ensures var resp := Respond(link, domain, port);
      var base := BaseUrl(domain, port);
      && resp.shortUrl[..|base|] == base && resp.shortUrl[|base| + 1..] == link.code
      && resp.qrUrl[..|base|] == base && resp.qrUrl[|base| + 8..] == link.code
      && resp.statsUrl[|resp.statsUrl| - |link.managementToken|..] == link.managementToken
      && resp.statsUrl[|base| + 11..|base| + 11 + |link.code|] == link.code
  {
    var resp := Respond(link, domain, port);
    var base := BaseUrl(domain, port);
    assert resp.shortUrl == base + ("/" + link.code);
    assert resp.qrUrl == base + ("/api/qr/" + link.code);
    assert resp.statsUrl == (base + "/api/stats/" + link.code) + ("?token=" + link.managementToken);
  }

  /** Under one base, different codes get different short URLs, and links
      with codes of one length get different statistics URLs unless both
      code and token agree. */
  lemma UrlsSeparateLinks(base: string, code1: string, code2: string, token1: string, token2: string)
    ensures ShortUrl(base, code1) == ShortUrl(base, code2) ==> code1 == code2
    ensures QrUrl(base, code1) == QrUrl(base, code2) ==> code1 == code2
    ensures |code1| == |code2| && StatsUrl(base, code1, token1) == StatsUrl(base, code2, token2) ==>
      code1 == code2 && token1 == token2
  {
    var prefix := base + "/";
    if ShortUrl(base, code1) == ShortUrl(base, code2) {
      assert code1 == ShortUrl(base, code1)[|prefix|..];
      assert code2 == ShortUrl(base, code2)[|prefix|..];
    }
    var qrPrefix := base + "/api/qr/";
    if QrUrl(base, code1) == QrUrl(base, code2) {
      assert code1 == QrUrl(base, code1)[|qrPrefix|..];
      assert code2 == QrUrl(base, code2)[|qrPrefix|..];
    }
    var statsPrefix := base + "/api/stats/";
    if |code1| == |code2| && StatsUrl(base, code1, token1) == StatsUrl(base, code2, token2) {
      var u1 := StatsUrl(base, code1, token1);
      var u2 := StatsUrl(base, code2, token2);
      var n := |statsPrefix| + |code1| + 7;
      assert u1 == statsPrefix + code1 + "?token=" + token1;
      assert code1 == u1[|statsPrefix|..|statsPrefix| + |code1|];
      assert code2 == u2[|statsPrefix|..|statsPrefix| + |code2|];
      assert token1 == u1[n..];
      assert token2 == u2[n..];
    }
  }

  /** What the redirect endpoint answers. */
  datatype Response = NotFound | Found(location: string)

  /** `Redirect`: a failed lookup answers 404 and records nothing; a found
      link records exactly one click, with the request's address, user agent
      and referer, and redirects to the original URL. The lookup's outcome
      is an input here. */
  method Redirect(analytics: AnalyticsService, code: string, lookup: Option<ShortLink>,
                  remoteAddr: string, userAgent: string, referer: string, now: Time)
    returns (resp: Response)
    requires analytics.Valid()
    modifies analytics
    ensures analytics.Valid()
    ensures lookup.None? ==> resp == NotFound && analytics.pending == old(analytics.pending)
    ensures lookup.Some? ==> resp == Found(lookup.value.originalUrl)
    ensures lookup.Some? && |old(analytics.pending)| < BufferCapacity ==>
      analytics.pending ==
        old(analytics.pending) + [ClickStore.Click(0, code, remoteAddr, userAgent, referer, UnknownCountry, now)]
    ensures lookup.Some? && |old(analytics.pending)| >= BufferCapacity ==>
      analytics.pending == old(analytics.pending)
  {
    if lookup.None? {
      return NotFound;
    }
    analytics.TrackClick(code, remoteAddr, userAgent, referer, now);
    resp := Found(lookup.value.originalUrl);
  }
}
