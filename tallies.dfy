/** The SQL the click queries run, `GROUP BY key` with `COUNT(*)`, then an
    `ORDER BY` and a `LIMIT`, as functions on the sequence of grouped keys. */
module Tallies {

  /** One result row of a grouped count. */
  datatype Group<K> = Group(key: K, count: nat)

  /** No two rows share a key. */
  predicate DistinctKeys<K(==)>(gs: seq<Group<K>>) {
    forall i, j :: 0 <= i < j < |gs| ==> gs[i].key != gs[j].key
  }

  /** `gs` is `SELECT key, COUNT(*) ... GROUP BY key` over `keys`, in some
      order: one row per key that occurs, carrying its number of occurrences. */
  ghost predicate CountsOf<K>(gs: seq<Group<K>>, keys: seq<K>) {
    && DistinctKeys(gs)
    && (forall g :: g in gs ==> g.count == multiset(keys)[g.key] && g.count >= 1)
    && (forall k :: k in keys ==> exists g :: g in gs && g.key == k)
  }

  function SumCounts<K>(gs: seq<Group<K>>): nat {
    if gs == [] then 0 else gs[0].count + SumCounts(gs[1..])
  }

  lemma {:induction false} SumAppendOne<K>(gs: seq<Group<K>>, g: Group<K>)
    ensures SumCounts(gs + [g]) == SumCounts(gs) + g.count
  {
    if gs != [] {
      assert (gs + [g])[1..] == gs[1..] + [g];
      SumAppendOne(gs[1..], g);
    }
  }

  lemma {:induction false} SumUpdate<K>(gs: seq<Group<K>>, i: nat, g: Group<K>)
    requires i < |gs|
    ensures SumCounts(gs[i := g]) == SumCounts(gs) - gs[i].count + g.count
  {
    if i > 0 {
      assert gs[i := g][1..] == gs[1..][i - 1 := g];
      SumUpdate(gs[1..], i - 1, g);
    }
  }

  /** A prefix of the rows counts no more than all of them. */
  lemma {:induction false} SumPrefix<K>(gs: seq<Group<K>>, n: nat)
    requires n <= |gs|
    ensures SumCounts(gs[..n]) <= SumCounts(gs)
  {
    if n > 0 {
      assert gs[..n][1..] == gs[1..][..n - 1];
      SumPrefix(gs[1..], n - 1);
    }
  }

  /** Position of the row for `k`, or -1. */
  function KeyIndex<K(==)>(gs: seq<Group<K>>, k: K): (i: int)
    ensures -1 <= i < |gs|
    ensures i == -1 <==> forall g :: g in gs ==> g.key != k
    ensures i >= 0 ==> gs[i].key == k
  {
    if gs == [] then -1
    else if gs[0].key == k then 0
    else
      var j := KeyIndex(gs[1..], k);
      if j == -1 then -1 else j + 1
  }

  /** Count one more occurrence of `k`: its row goes up by one, or a row is
      added for it. */
  function Bump<K(==)>(gs: seq<Group<K>>, k: K): seq<Group<K>> {
    var i := KeyIndex(gs, k);
    if i == -1 then gs + [Group(k, 1)] else gs[i := Group(k, gs[i].count + 1)]
  }

  /** A key not yet counted gets a new row with count 1. */
  lemma BumpAbsent<K>(gs: seq<Group<K>>, keys: seq<K>, k: K)
    requires CountsOf(gs, keys) && forall g :: g in gs ==> g.key != k
    ensures CountsOf(gs + [Group(k, 1)], keys + [k])
  {
    var ks := keys + [k];
    assert multiset(ks) == multiset(keys) + multiset{k};
    assert k !in keys;
  }

  /** A key already counted has its row, at `i`, go up by one. */
  lemma BumpPresent<K>(gs: seq<Group<K>>, keys: seq<K>, k: K, i: nat)
    requires CountsOf(gs, keys) && i < |gs| && gs[i].key == k
    ensures CountsOf(gs[i := Group(k, gs[i].count + 1)], keys + [k])
  {
    var ks := keys + [k];
    var r := gs[i := Group(k, gs[i].count + 1)];
    assert multiset(ks) == multiset(keys) + multiset{k};
    assert forall j :: 0 <= j < |r| ==> r[j].key == gs[j].key;
    forall g | g in r
      ensures g.count == multiset(ks)[g.key] && g.count >= 1
    {
      var j :| 0 <= j < |r| && r[j] == g;
      if j != i {
        assert g == gs[j];
      }
    }
    forall x | x in ks
      ensures exists g :: g in r && g.key == x
    {
      if x == k {
        assert r[i] in r;
      } else {
        assert x in keys;
        var g :| g in gs && g.key == x;
        var j :| 0 <= j < |gs| && gs[j] == g;
        assert r[j] in r;
      }
    }
  }

  lemma BumpCounts<K>(gs: seq<Group<K>>, keys: seq<K>, k: K)
    requires CountsOf(gs, keys)
    ensures CountsOf(Bump(gs, k), keys + [k])
    ensures SumCounts(Bump(gs, k)) == SumCounts(gs) + 1
  {
    var i := KeyIndex(gs, k);
    if i == -1 {
      BumpAbsent(gs, keys, k);
      SumAppendOne(gs, Group(k, 1));
    } else {
      BumpPresent(gs, keys, k, i);
      SumUpdate(gs, i, Group(k, gs[i].count + 1));
    }
  }

  /** The grouped count of `keys`, rows in order of first occurrence. */
  function GroupCount<K(==)>(keys: seq<K>): (gs: seq<Group<K>>)
    ensures CountsOf(gs, keys)
    ensures SumCounts(gs) == |keys|
  {
    if keys == [] then []
    else
      var init := keys[..|keys| - 1];
      var last := keys[|keys| - 1];
      assert init + [last] == keys;
      BumpCounts(GroupCount(init), init, last);
      Bump(GroupCount(init), last)
  }

  /** Rows in ascending order of `rank`. */
  predicate Ascending<K>(gs: seq<Group<K>>, rank: Group<K> -> int) {
    forall i, j :: 0 <= i < j < |gs| ==> rank(gs[i]) <= rank(gs[j])
  }

  /** Insert `g` into `s` after every row that ranks before it. */
  function InsertByRank<K(!new)>(g: Group<K>, s: seq<Group<K>>, rank: Group<K> -> int): (r: seq<Group<K>>)
    ensures |r| == |s| + 1
    ensures multiset(r) == multiset(s) + multiset{g}
    ensures forall x :: x in r <==> x == g || x in s
  {
    if s == [] then [g]
    else if rank(g) <= rank(s[0]) then [g] + s
    else
      assert s == [s[0]] + s[1..];
      [s[0]] + InsertByRank(g, s[1..], rank)
  }

  lemma {:induction false} InsertSum<K(!new)>(g: Group<K>, s: seq<Group<K>>, rank: Group<K> -> int)
    ensures SumCounts(InsertByRank(g, s, rank)) == SumCounts(s) + g.count
  {
    if s != [] && rank(g) > rank(s[0]) {
      InsertSum(g, s[1..], rank);
      assert ([s[0]] + InsertByRank(g, s[1..], rank))[1..] == InsertByRank(g, s[1..], rank);
    } else if s != [] {
      assert ([g] + s)[1..] == s;
    }
  }

  /** A row ranking no later than every row of an ascending sequence can
      lead it. */
  lemma ConsAscending<K>(x: Group<K>, rest: seq<Group<K>>, rank: Group<K> -> int)
    requires Ascending(rest, rank) && forall y :: y in rest ==> rank(x) <= rank(y)
    ensures Ascending([x] + rest, rank)
  {
    var r := [x] + rest;
    forall i, j | 0 <= i < j < |r|
      ensures rank(r[i]) <= rank(r[j])
    {
      assert r[j] == rest[j - 1];
      if i > 0 {
        assert r[i] == rest[i - 1];
      }
    }
  }

  /** The tail of an ascending sequence is ascending, and its head ranks no
      later than any of it. */
  lemma TailAscending<K>(s: seq<Group<K>>, rank: Group<K> -> int)
    requires Ascending(s, rank) && s != []
    ensures Ascending(s[1..], rank)
    ensures forall y :: y in s[1..] ==> rank(s[0]) <= rank(y)
  {
    var tail := s[1..];
    forall i, j | 0 <= i < j < |tail|
      ensures rank(tail[i]) <= rank(tail[j])
    {
      assert tail[i] == s[i + 1] && tail[j] == s[j + 1];
    }
    forall y | y in tail
      ensures rank(s[0]) <= rank(y)
    {
      var k :| 0 <= k < |tail| && tail[k] == y;
      assert y == s[k + 1];
    }
  }

  lemma {:induction false} InsertAscending<K(!new)>(g: Group<K>, s: seq<Group<K>>, rank: Group<K> -> int)
    requires Ascending(s, rank)
    ensures Ascending(InsertByRank(g, s, rank), rank)
  {
    if s == [] {
    } else if rank(g) <= rank(s[0]) {
      TailAscending(s, rank);
      assert s == [s[0]] + s[1..];
      ConsAscending(g, s, rank);
    } else {
      TailAscending(s, rank);
      var rest := InsertByRank(g, s[1..], rank);
      InsertAscending(g, s[1..], rank);
      ConsAscending(s[0], rest, rank);
    }
  }

  /** Insertion sort on `rank`; rows of equal rank keep no promised order. */
  function SortByRank<K(!new)>(gs: seq<Group<K>>, rank: Group<K> -> int): (r: seq<Group<K>>)
    ensures |r| == |gs|
    ensures multiset(r) == multiset(gs)
    ensures forall x :: x in r <==> x in gs
    ensures SumCounts(r) == SumCounts(gs)
    ensures Ascending(r, rank)
  {
    if gs == [] then []
    else
      assert gs == [gs[0]] + gs[1..];
      var rest := SortByRank(gs[1..], rank);
      InsertSum(gs[0], rest, rank);
      InsertAscending(gs[0], rest, rank);
      InsertByRank(gs[0], rest, rank)
  }

  lemma {:induction false} InsertKeepsDistinct<K(!new)>(g: Group<K>, s: seq<Group<K>>, rank: Group<K> -> int)
    requires DistinctKeys(s)
    requires forall x :: x in s ==> x.key != g.key
    ensures DistinctKeys(InsertByRank(g, s, rank))
  {
    if s != [] && rank(g) > rank(s[0]) {
      InsertKeepsDistinct(g, s[1..], rank);
      var rest := InsertByRank(g, s[1..], rank);
      assert forall x :: x in rest ==> x.key != s[0].key;
      var r := [s[0]] + rest;
      forall i, j | 0 <= i < j < |r|
        ensures r[i].key != r[j].key
      {
        if i == 0 {
          assert r[j] in rest;
        } else {
          assert r[i] == rest[i - 1] && r[j] == rest[j - 1];
        }
      }
    } else if s != [] {
      var r := [g] + s;
      forall i, j | 0 <= i < j < |r|
        ensures r[i].key != r[j].key
      {
        if i == 0 {
          assert r[j] in s;
        } else {
          assert r[i] == s[i - 1] && r[j] == s[j - 1];
        }
      }
    }
  }

  lemma {:induction false} SortKeepsDistinct<K(!new)>(gs: seq<Group<K>>, rank: Group<K> -> int)
    requires DistinctKeys(gs)
    ensures DistinctKeys(SortByRank(gs, rank))
  {
    if gs != [] {
      assert DistinctKeys(gs[1..]) by {
        forall i, j | 0 <= i < j < |gs[1..]|
          ensures gs[1..][i].key != gs[1..][j].key
        {
          assert gs[1..][i] == gs[i + 1] && gs[1..][j] == gs[j + 1];
        }
      }
      SortKeepsDistinct(gs[1..], rank);
      forall x | x in SortByRank(gs[1..], rank)
        ensures x.key != gs[0].key
      {
        var j :| 0 <= j < |gs[1..]| && gs[1..][j] == x;
        assert x == gs[j + 1];
      }
      InsertKeepsDistinct(gs[0], SortByRank(gs[1..], rank), rank);
    }
  }

  /** `LIMIT n`: the first `n` rows; a negative limit means none is applied. */
  function Take<T>(s: seq<T>, n: int): (r: seq<T>)
    ensures |r| <= |s| && r == s[..|r|]
    ensures n >= 0 ==> |r| <= n
    ensures |r| < |s| ==> |r| == n
  {
    if 0 <= n < |s| then s[..n] else s
  }

  /** `ORDER BY count DESC`. */
  function CountRank<K>(g: Group<K>): int {
    0 - g.count as int
  }

  /** `ORDER BY key ASC` on integer keys. */
  function KeyRank(g: Group<int>): int {
    g.key
  }

  /** A prefix of rows with distinct keys has distinct keys. */
  lemma PrefixDistinct<K>(gs: seq<Group<K>>, n: nat)
    requires DistinctKeys(gs) && n <= |gs|
    ensures DistinctKeys(gs[..n])
  {
    assert forall i :: 0 <= i < n ==> gs[..n][i] == gs[i];
  }

  /** `GROUP BY key ORDER BY count DESC LIMIT limit` over `keys`. */
  function TopByCount<K(==,!new)>(keys: seq<K>, limit: int): (r: seq<Group<K>>)
    ensures limit >= 0 ==> |r| <= limit
    ensures DistinctKeys(r)
    ensures forall g :: g in r ==> g.count == multiset(keys)[g.key] && g.count >= 1
    ensures forall i, j :: 0 <= i < j < |r| ==> r[i].count >= r[j].count
  {
    var all := GroupCount(keys);
    var sorted := SortByRank(all, CountRank);
    SortKeepsDistinct(all, CountRank);
    var r := Take(sorted, limit);
    PrefixDistinct(sorted, |r|);
    assert forall i :: 0 <= i < |r| ==> r[i] == sorted[i];
    assert forall g :: g in r ==> g in sorted;
    r
  }

  /** Cutting rows sorted by descending count either keeps a row or drops it
      behind rows that count at least as much; a cut shorter than the limit
      drops nothing. */
  lemma TakeKeepsTop<K>(sorted: seq<Group<K>>, limit: int, h: Group<K>)
    requires Ascending(sorted, CountRank) && h in sorted
    ensures h in Take(sorted, limit) || forall g :: g in Take(sorted, limit) ==> h.count <= g.count
    ensures (limit < 0 || |Take(sorted, limit)| < limit) ==> h in Take(sorted, limit)
  {
    var r := Take(sorted, limit);
    var p :| 0 <= p < |sorted| && sorted[p] == h;
    if p < |r| {
      assert r[p] == h;
    } else {
      forall g | g in r
        ensures h.count <= g.count
      {
        var i :| 0 <= i < |r| && r[i] == g;
        assert CountRank(sorted[i]) <= CountRank(sorted[p]);
      }
    }
  }

  /** The rows kept are the most frequent keys: any key left out occurs no
      more often than any key kept; and when fewer rows than the limit come
      back, every key is there. */
  lemma TopByCountIsTop<K(!new)>(keys: seq<K>, limit: int, k: K)
    requires k in keys
    ensures (forall g :: g in TopByCount(keys, limit) ==> g.key != k) ==>
      forall g :: g in TopByCount(keys, limit) ==> multiset(keys)[k] <= g.count
    ensures (limit < 0 || |TopByCount(keys, limit)| < limit) ==>
      exists g :: g in TopByCount(keys, limit) && g.key == k
  {
    var all := GroupCount(keys);
    var sorted := SortByRank(all, CountRank);
    var h :| h in all && h.key == k;
    TakeKeepsTop(sorted, limit, h);
    assert TopByCount(keys, limit) == Take(sorted, limit);
  }

  /** Ascending integer keys that are distinct are strictly ascending. */
  lemma AscendingPrefixStrict(gs: seq<Group<int>>, n: nat)
    requires Ascending(gs, KeyRank) && DistinctKeys(gs) && n <= |gs|
    ensures forall i, j :: 0 <= i < j < n ==> gs[..n][i].key < gs[..n][j].key
  {
    forall i, j | 0 <= i < j < n
      ensures gs[..n][i].key < gs[..n][j].key
    {
      assert KeyRank(gs[i]) <= KeyRank(gs[j]);
    }
  }

  /** `GROUP BY day ORDER BY day ASC LIMIT limit` over the days of `days`. */
  function EarliestDays(days: seq<int>, limit: nat): (r: seq<Group<int>>)
    ensures |r| <= limit
    ensures forall i, j :: 0 <= i < j < |r| ==> r[i].key < r[j].key
    ensures forall g :: g in r ==> g.count == multiset(days)[g.key] && g.count >= 1
    ensures SumCounts(r) <= |days|
  {
    var all := GroupCount(days);
    var sorted := SortByRank(all, KeyRank);
    SortKeepsDistinct(all, KeyRank);
    var r := Take(sorted, limit);
    PrefixDistinct(sorted, |r|);
    assert forall i :: 0 <= i < |r| ==> r[i] == sorted[i];
    assert forall g :: g in r ==> g in sorted;
    SumPrefix(sorted, |r|);
    AscendingPrefixStrict(sorted, |r|);
    r
  }

  /** A day left out of the result is later than every day in it, and the
      result is then full. */
  lemma EarliestDaysAreEarliest(days: seq<int>, limit: nat, d: int)
    requires d in days
    requires forall g :: g in EarliestDays(days, limit) ==> g.key != d
    ensures |EarliestDays(days, limit)| == limit
    ensures forall g :: g in EarliestDays(days, limit) ==> g.key < d
  {
    var all := GroupCount(days);
    var sorted := SortByRank(all, KeyRank);
    var r := EarliestDays(days, limit);
    assert r == Take(sorted, limit);
    var h :| h in all && h.key == d;
    var p :| 0 <= p < |sorted| && sorted[p] == h;
    assert p >= |r|;
    forall g | g in r
      ensures g.key < d
    {
      var i :| 0 <= i < |r| && r[i] == g;
      assert sorted[i] == g;
      assert KeyRank(sorted[i]) <= KeyRank(sorted[p]);
    }
  }

  /** Some row among the first `n` has the key of row `j`. */
  predicate KeyAmongFirst<K(==)>(gs: seq<Group<K>>, n: nat, j: nat)
    requires n <= |gs| && j < |gs|
  {
    exists i :: 0 <= i < n && gs[i].key == gs[j].key
  }

  /** A prefix holding the key of every row, in rows with distinct keys, is
      the whole sequence. */
  lemma CoveringPrefixIsWhole<K>(gs: seq<Group<K>>, n: nat)
    requires DistinctKeys(gs) && n <= |gs|
    requires forall j :: 0 <= j < |gs| ==> KeyAmongFirst(gs, n, j)
    ensures n == |gs|
  {
    if |gs| > 0 {
      var last := |gs| - 1;
      assert KeyAmongFirst(gs, n, last);
      var i :| 0 <= i < n && gs[i].key == gs[last].key;
    }
  }

  /** When every key that occurs has a row among the first `n`, each row's
      key is found among the first `n`. */
  lemma PrefixHoldsEveryKey<K>(keys: seq<K>, gs: seq<Group<K>>, n: nat)
    requires n <= |gs|
    requires forall g :: g in gs ==> g.count == multiset(keys)[g.key] && g.count >= 1
    requires forall k :: k in keys ==> exists g :: g in gs[..n] && g.key == k
    ensures forall j :: 0 <= j < |gs| ==> KeyAmongFirst(gs, n, j)
  {
    forall j | 0 <= j < |gs|
      ensures KeyAmongFirst(gs, n, j)
    {
      assert gs[j] in gs;
      assert gs[j].key in multiset(keys);
      assert gs[j].key in keys;
      var g :| g in gs[..n] && g.key == gs[j].key;
      var i :| 0 <= i < n && gs[..n][i] == g;
      assert gs[i] == g;
    }
  }

  /** When every day made it into the result, the counts add up to the number
      of grouped rows. */
  lemma EarliestDaysSumAll(days: seq<int>, limit: nat)
    requires forall d :: d in days ==> exists g :: g in EarliestDays(days, limit) && g.key == d
    ensures SumCounts(EarliestDays(days, limit)) == |days|
  {
    var all := GroupCount(days);
    var sorted := SortByRank(all, KeyRank);
    SortKeepsDistinct(all, KeyRank);
    var r := EarliestDays(days, limit);
    assert r == sorted[..|r|];
    PrefixHoldsEveryKey(days, sorted, |r|);
    CoveringPrefixIsWhole(sorted, |r|);
  }


}
