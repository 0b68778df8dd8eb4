/** The `short_links` table of
    internal/short-links/infrastructure/persistence/gorm/short_link_repository_gorm.go.
    The domain link carries its management token and expiry as plain values;
    the table stores them as nullable columns. */
module LinkStore {
  import opened Common
  import opened Deref

  /** A short link as the services see it. */
  datatype ShortLink = ShortLink(
    code: string,
    originalUrl: string,
    managementToken: string,
    expiresAt: Time,
    createdAt: Time,
    updatedAt: Time,
    userId: Option<string>)

  /** A stored row: the token and the expiry are nullable. */
  datatype LinkRow = LinkRow(
    code: string,
    originalUrl: string,
    userId: Option<string>,
    managementToken: Option<string>,
    expiresAt: Option<Time>,
    createdAt: Time,
    updatedAt: Time)

  /** The row `Create` writes: both nullable columns are filled. */
  function ToRow(l: ShortLink): (row: LinkRow)
    ensures row.managementToken == Some(l.managementToken)
    ensures row.expiresAt == Some(l.expiresAt)
    ensures row.code == l.code && row.originalUrl == l.originalUrl && row.userId == l.userId
  {
    LinkRow(l.code, l.originalUrl, l.userId, Some(l.managementToken), Some(l.expiresAt),
            l.createdAt, l.updatedAt)
  }

  /** The link a lookup builds from a row: a null token reads as "", a null
      expiry as the zero time. */
  function FromRow(row: LinkRow): (l: ShortLink)
    ensures l.managementToken == "" <==> row.managementToken.None? || row.managementToken == Some("")
    ensures row.managementToken.Some? ==> l.managementToken == row.managementToken.value
    ensures IsZero(l.expiresAt) <==> row.expiresAt.None? || row.expiresAt == Some(ZeroTime)
    ensures l.code == row.code && l.originalUrl == row.originalUrl && l.userId == row.userId
  {
    ShortLink(row.code, row.originalUrl, DerefString(row.managementToken),
              DerefTime(row.expiresAt), row.createdAt, row.updatedAt, row.userId)
  }

  /** Storing a link and reading it back gives the same link, optional owner included. */
  lemma RowRoundTrip(l: ShortLink)
    ensures FromRow(ToRow(l)) == l
  {
  }

  /** The zero-valued row `Find` leaves behind when nothing matches. */
  const EmptyRow: LinkRow := LinkRow("", "", None, None, None, ZeroTime, ZeroTime)

  /** The link built from the zero row: no code, no URL, no owner, token "". */
  const ZeroLink: ShortLink := FromRow(EmptyRow)

  /** The primary key on `code` and the unique index on `management_token`
      (which allows any number of nulls). */
  ghost predicate Keyed(rows: seq<LinkRow>) {
    && (forall i, j :: 0 <= i < j < |rows| ==> rows[i].code != rows[j].code)
    && (forall i, j :: 0 <= i < j < |rows| && rows[i].managementToken.Some? ==>
          rows[i].managementToken != rows[j].managementToken)
  }

  /** Two stored rows with the same code are the same row. */
  lemma SameCodeSameRow(rows: seq<LinkRow>, a: LinkRow, b: LinkRow)
    requires Keyed(rows) && a in rows && b in rows && a.code == b.code
    ensures a == b
  {
    var i :| 0 <= i < |rows| && rows[i] == a;
    var j :| 0 <= j < |rows| && rows[j] == b;
  }

  /** Two stored rows with the same present token are the same row. */
  lemma SameTokenSameRow(rows: seq<LinkRow>, a: LinkRow, b: LinkRow)
    requires Keyed(rows) && a in rows && b in rows
    requires a.managementToken.Some? && a.managementToken == b.managementToken
    ensures a == b
  {
    var i :| 0 <= i < |rows| && rows[i] == a;
    var j :| 0 <= j < |rows| && rows[j] == b;
  }

  function CodeSel(code: string): LinkRow -> bool {
    (row: LinkRow) => row.code == code
  }

  function OtherCodeSel(code: string): LinkRow -> bool {
    (row: LinkRow) => row.code != code
  }

  function TokenSel(token: string): LinkRow -> bool {
    (row: LinkRow) => row.managementToken == Some(token)
  }

  /** `Find` into one struct: the first matching row, or the zero row when none matches. */
  function FirstOrEmpty(matches: seq<LinkRow>): LinkRow {
    if matches == [] then EmptyRow else matches[0]
  }

  class ShortLinkRepository {
    var rows: seq<LinkRow>

    ghost predicate Valid()
      reads this
    {
      Keyed(rows)
    }

    constructor ()
      ensures Valid() && rows == []
    {
      rows := [];
    }

    /** `Create`: insert the link's row; a taken code or a taken token refuses it. */
    method Create(link: ShortLink) returns (err: Option<DbError>)
      requires Valid()
      modifies this
      ensures Valid()
      ensures err.None? <==>
        forall row :: row in old(rows) ==>
          row.code != link.code && row.managementToken != Some(link.managementToken)
      ensures err.None? ==> rows == old(rows) + [ToRow(link)]
      ensures err.Some? ==> rows == old(rows)
      ensures err.Some? && (exists row :: row in old(rows) && row.code == link.code) ==>
        err == Some(DuplicateKey("short_links"))
      ensures err.Some? && (forall row :: row in old(rows) ==> row.code != link.code) ==>
        err == Some(UniqueViolation("management_token"))
    {
      if exists row :: row in rows && row.code == link.code {
        err := Some(DuplicateKey("short_links"));
      } else if exists row :: row in rows && row.managementToken == Some(link.managementToken) {
        err := Some(UniqueViolation("management_token"));
      } else {
        rows := rows + [ToRow(link)];
        err := None;
      }
    }

    /** `FindByCode`: a failing query is an error; otherwise the stored link
        with that code, or the zero link when there is none. */
    function FindByCode(code: string, fault: Option<DbError>): (r: Result<ShortLink, DbError>)
      reads this
      requires Valid()
      ensures fault.Some? <==> r.Err?
      ensures fault.Some? ==> r == Err(fault.value)
      ensures fault.None? && (forall row :: row in rows ==> row.code != code) ==> r == Ok(ZeroLink)
      ensures fault.None? ==> forall row :: row in rows && row.code == code ==> r == Ok(FromRow(row))
    {
      if fault.Some? then Err(fault.value)
      else
        var m := Filter(rows, CodeSel(code));
        assert m != [] ==> m[0] in m;
        assert forall row :: row in rows && row.code == code ==> FirstOrEmpty(m) == row by {
          forall row | row in rows && row.code == code
            ensures FirstOrEmpty(m) == row
          {
            assert row in m;
            SameCodeSameRow(rows, m[0], row);
          }
        }
        Ok(FromRow(FirstOrEmpty(m)))
    }

    /** `FindByManagementToken`: the same lookup on the token column. */
    function FindByManagementToken(token: string, fault: Option<DbError>): (r: Result<ShortLink, DbError>)
      reads this
      requires Valid()
      ensures fault.Some? <==> r.Err?
      ensures fault.Some? ==> r == Err(fault.value)
      ensures fault.None? && (forall row :: row in rows ==> row.managementToken != Some(token)) ==>
        r == Ok(ZeroLink)
      ensures fault.None? ==>
        forall row :: row in rows && row.managementToken == Some(token) ==> r == Ok(FromRow(row))
    {
      if fault.Some? then Err(fault.value)
      else
        var m := Filter(rows, TokenSel(token));
        assert m != [] ==> m[0] in m;
        assert forall row :: row in rows && row.managementToken == Some(token) ==> FirstOrEmpty(m) == row by {
          forall row | row in rows && row.managementToken == Some(token)
            ensures FirstOrEmpty(m) == row
          {
            assert row in m;
            SameTokenSameRow(rows, m[0], row);
          }
        }
        Ok(FromRow(FirstOrEmpty(m)))
    }

    /** `DeleteByCode`: the row with that code goes, every other row stays;
        an unknown code deletes nothing and is no error. */
    method DeleteByCode(code: string)
      requires Valid()
      modifies this
      ensures Valid()
      ensures rows == Filter(old(rows), OtherCodeSel(code))
      ensures forall row :: row in rows <==> row in old(rows) && row.code != code
    {
      rows := Filter(rows, OtherCodeSel(code));
      assert Keyed(rows) by {
        FilteredKeepsKey(old(rows), OtherCodeSel(code));
      }
    }
  }

  /** Deleting rows keeps both uniqueness constraints. */
  lemma {:induction false} FilteredKeepsKey(rows: seq<LinkRow>, p: LinkRow -> bool)
    requires Keyed(rows)
    ensures Keyed(Filter(rows, p))
  {
    if rows != [] {
      FilteredKeepsKey(rows[1..], p);
      var rest := Filter(rows[1..], p);
      if p(rows[0]) {
        var r := [rows[0]] + rest;
        assert Filter(rows, p) == r;
        forall i, j | 0 <= i < j < |r|
          ensures r[i].code != r[j].code
          ensures r[i].managementToken.Some? ==> r[i].managementToken != r[j].managementToken
        {
          if i == 0 {
            assert r[j] in rest;
            var k :| 0 <= k < |rows[1..]| && rows[1..][k] == r[j];
            assert rows[k + 1] == r[j];
          }
        }
      }
    }
  }

  /** A stored link is found again, exactly as it was created, both under its
      code and under its management token. */
  lemma CreateThenFind(repo: ShortLinkRepository, link: ShortLink)
    requires repo.Valid()
    requires ToRow(link) in repo.rows
    ensures repo.FindByCode(link.code, None) == Ok(link)
    ensures repo.FindByManagementToken(link.managementToken, None) == Ok(link)
  {
    RowRoundTrip(link);
  }
}
