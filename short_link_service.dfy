/** Link creation of internal/short-links/application/service/short_link_service.go.
    The cryptographic random source is an oracle: the `i`-th draw is a
    number below 62 or a failure. The clock gives both the creation instant
    and the instant two calendar months later. */
module LinkService {
  import opened Common
  import opened LinkStore

  const Lower: string := "abcdefghijklmnopqrstuvwxyz"
  const Upper: string := "ABCDEFGHIJKLMNOPQRSTUVWXYZ"
  const Digits: string := "0123456789"

  /** The alphabet of codes and tokens: lower-case letters, upper-case letters, digits. */
  const Charset: string := Lower + Upper + Digits

  const CodeLength: nat := 6
  const TokenLength: nat := 16

  /** Every successful draw indexes the alphabet, as `rand.Int(62)` guarantees. */
  predicate InRange(draws: seq<Option<nat>>) {
    forall i :: 0 <= i < |draws| && draws[i].Some? ==> draws[i].value < |Charset|
  }

  /** Position of an alphanumeric character in the alphabet, by its code point. */
  function CharsetIndex(c: char): int {
    if 'a' <= c <= 'z' then c as int - 'a' as int
    else if 'A' <= c <= 'Z' then 26 + (c as int - 'A' as int)
    else if '0' <= c <= '9' then 52 + (c as int - '0' as int)
    else -1
  }

  /** The alphabet is the three ranges in order. */
  lemma CharsetLayout(k: nat)
    requires k < |Charset|
    ensures CharsetIndex(Charset[k]) == k
  {
    if k < 26 {
      assert Charset[k] == Lower[k];
    } else if k < 52 {
      assert Charset[k] == Upper[k - 26];
    } else {
      assert Charset[k] == Digits[k - 52];
    }
  }

  /** The first `length` draws all succeeded. */
  predicate AllDrawn(draws: seq<Option<nat>>, length: nat)
    requires |draws| >= length
  {
    forall i :: 0 <= i < length ==> draws[i].Some?
  }

  /** What `generateRandomString(length)` returns for the given draws: the
      characters the draws index, or "" as soon as one draw fails. */
  function RandomString(length: nat, draws: seq<Option<nat>>): (s: string)
    requires |draws| >= length && InRange(draws)
    ensures s == "" || (|s| == length && forall c :: c in s ==> c in Charset)
    ensures AllDrawn(draws, length) <==> |s| == length
  {
    if AllDrawn(draws, length) then
      seq(length, i requires 0 <= i < length => Charset[draws[i].value])
    else ""
  }

  /** A generated string determines its draws: each character decodes back
      to the number drawn for its position, so different draws give
      different strings. */
  lemma RandomStringDecodes(length: nat, draws: seq<Option<nat>>)
    requires |draws| >= length && InRange(draws) && AllDrawn(draws, length)
    ensures forall i :: 0 <= i < length ==> CharsetIndex(RandomString(length, draws)[i]) == draws[i].value
  {
    forall i | 0 <= i < length
      ensures CharsetIndex(RandomString(length, draws)[i]) == draws[i].value
    {
      CharsetLayout(draws[i].value);
    }
  }

  /** `generateRandomString`: fill a buffer one draw at a time, giving up
      with "" on the first failed draw. */
  method GenerateRandomString(length: nat, draws: seq<Option<nat>>) returns (s: string)
    requires |draws| >= length && InRange(draws)
    ensures s == RandomString(length, draws)
  {
    var b := new char[length];
    for i := 0 to length
      invariant forall k :: 0 <= k < i ==> draws[k].Some? && b[k] == Charset[draws[k].value]
    {
      var num := draws[i];
      if num.None? {
        return "";
      }
      b[i] := Charset[num.value];
    }
    s := b[..];
  }

  /** Why link creation fails. */
  datatype LinkError = InvalidOriginalUrl | StoreFailed(cause: DbError)

  /** The link `CreateShortLink` builds from its inputs. */
  function NewLink(originalUrl: string, userId: Option<string>, now: Time, inTwoMonths: Time,
                   codeDraws: seq<Option<nat>>, tokenDraws: seq<Option<nat>>): (l: ShortLink)
    requires |codeDraws| >= CodeLength && InRange(codeDraws)
    requires |tokenDraws| >= TokenLength && InRange(tokenDraws)
    ensures |l.code| == CodeLength || l.code == ""
    ensures |l.managementToken| == TokenLength || l.managementToken == ""
    ensures l.originalUrl == originalUrl && l.userId == userId
    ensures l.expiresAt == inTwoMonths && l.createdAt == now && l.updatedAt == now
  {
    ShortLink(RandomString(CodeLength, codeDraws), originalUrl, RandomString(TokenLength, tokenDraws),
              inTwoMonths, now, now, userId)
  }

  class ShortLinkService {
    const links: ShortLinkRepository

    constructor (links: ShortLinkRepository)
      ensures this.links == links
    {
      this.links := links;
    }

    /** `CreateShortLink`: refuse an empty URL; otherwise draw a code and a
        token, build the link and store it, passing a store error on. */
    method CreateShortLink(originalUrl: string, userId: Option<string>, now: Time, inTwoMonths: Time,
                           codeDraws: seq<Option<nat>>, tokenDraws: seq<Option<nat>>)
      returns (r: Result<ShortLink, LinkError>)
      requires links.Valid()
      requires |codeDraws| >= CodeLength && InRange(codeDraws)
      requires |tokenDraws| >= TokenLength && InRange(tokenDraws)
      modifies links
      ensures links.Valid()
      ensures originalUrl == "" ==> r == Err(InvalidOriginalUrl) && links.rows == old(links.rows)
      ensures r.Ok? ==>
        && r.value == NewLink(originalUrl, userId, now, inTwoMonths, codeDraws, tokenDraws)
        && links.rows == old(links.rows) + [ToRow(r.value)]
      ensures originalUrl != "" ==>
        (r.Ok? <==> forall row :: row in old(links.rows) ==>
           && row.code != RandomString(CodeLength, codeDraws)
           && row.managementToken != Some(RandomString(TokenLength, tokenDraws)))
      ensures r.Err? ==> links.rows == old(links.rows)
      ensures r.Err? && originalUrl != "" ==> r.error.StoreFailed?
    {
      if originalUrl == "" {
        return Err(InvalidOriginalUrl);
      }
      var code := GenerateRandomString(CodeLength, codeDraws);
      var token := GenerateRandomString(TokenLength, tokenDraws);
      var link := ShortLink(code, originalUrl, token, inTwoMonths, now, now, userId);
      var err := links.Create(link);
      if err.Some? {
        return Err(StoreFailed(err.value));
      }
      r := Ok(link);
    }
  }

  /** A failed draw, wherever it falls, leaves the empty code; every link
      whose code draw failed therefore gets the same code "", and by the
      contract of `CreateShortLink` only the first of them is stored. */
  lemma FailedDrawsCollide(codeDraws: seq<Option<nat>>, otherDraws: seq<Option<nat>>)
    requires |codeDraws| >= CodeLength && InRange(codeDraws) && codeDraws[0].None?
    requires |otherDraws| >= CodeLength && InRange(otherDraws) && otherDraws[CodeLength - 1].None?
    ensures RandomString(CodeLength, codeDraws) == "" == RandomString(CodeLength, otherDraws)
  {
  }
}
