/**
 * The list endpoints: `SELECT * FROM <table> ORDER BY created_at DESC`, with
 * `LIMIT ?` appended only when the `limit` query parameter parses to a truthy
 * number (`req.query.limit ? parseInt(req.query.limit) : null`, then
 * `if (limit)`).
 */
module Listing {
  import opened Optional
  import opened JsValues
  import opened Tables

  /** Rows ordered by `created_at DESC`. */
  predicate NewestFirst<R>(rows: seq<Row<R>>) {
    forall i, j :: 0 <= i < j < |rows| ==> rows[i].createdAt >= rows[j].createdAt
  }

  /** Places `x` into a newest-first list ahead of every row no newer than it. */
  function InsertByAge<R(==)>(x: Row<R>, sorted: seq<Row<R>>): (r: seq<Row<R>>)
    requires NewestFirst(sorted)
    ensures NewestFirst(r)
    ensures multiset(r) == multiset(sorted) + multiset{x}
    ensures forall k :: 0 <= k < |r| ==> r[k] == x || r[k] in sorted
  {
    if sorted == [] || sorted[0].createdAt <= x.createdAt then [x] + sorted
    else
      var rest := InsertByAge(x, sorted[1..]);
      assert sorted == [sorted[0]] + sorted[1..];
      forall k | 0 <= k < |rest| ensures rest[k].createdAt <= sorted[0].createdAt && (rest[k] == x || rest[k] in sorted) {
        if rest[k] != x {
          var j :| 0 <= j < |sorted[1..]| && sorted[1..][j] == rest[k];
          assert sorted[j + 1] == rest[k];
        }
      }
      PrependKeepsOrder(sorted[0], rest);
      [sorted[0]] + rest
  }

  /** A row no older than every row of a newest-first list may go in front. */
  lemma PrependKeepsOrder<R>(y: Row<R>, rest: seq<Row<R>>)
    requires NewestFirst(rest)
    requires forall k :: 0 <= k < |rest| ==> rest[k].createdAt <= y.createdAt
    ensures NewestFirst([y] + rest)
  {
  }

  /** `ORDER BY created_at DESC` over rows read in id order. Rows created at the
      same instant keep their id order (SQLite leaves ties unspecified; any
      order would satisfy this contract). */
  function SortNewestFirst<R(==)>(rows: seq<Row<R>>): (r: seq<Row<R>>)
    ensures NewestFirst(r)
    ensures multiset(r) == multiset(rows)
  {
    if rows == [] then []
    else
      assert rows == [rows[0]] + rows[1..];
      InsertByAge(rows[0], SortNewestFirst(rows[1..]))
  }

  /** The number of rows `LIMIT bound` lets through out of `n`: SQLite reads a
      negative bound as no bound at all. */
  function Bounded(n: nat, bound: Option<int>): nat {
    if bound.None? || bound.value < 0 || n <= bound.value then n else bound.value
  }

  /** `LIMIT bound` on an ordered result: a prefix of it. */
  function Limit<T>(rows: seq<T>, bound: Option<int>): (r: seq<T>)
    ensures |r| == Bounded(|rows|, bound)
    ensures r == rows[..|r|]
  {
    rows[..Bounded(|rows|, bound)]
  }

  /** The bound a list request puts on its query: present only when the
      `limit` parameter is a non-empty string whose `parseInt` is neither NaN
      nor zero. */
  function RowLimit(limit: Option<string>): (bound: Option<int>)
    ensures bound.Some? ==> Truthy(limit) && ParseInt(limit.value) == Int(bound.value) && bound.value != 0
    ensures bound.None? ==> !Truthy(limit) || !NumberTruthy(ParseInt(limit.value))
  {
    if !Truthy(limit) then None
    else
      var n := ParseInt(limit.value);
      if NumberTruthy(n) then Some(n.value) else None
  }


  /** Rows with pairwise different ids hold no row twice. */
  lemma {:induction false} DistinctAtMostOnce<R>(a: seq<Row<R>>, y: Row<R>)
    requires DistinctIds(a)
    ensures multiset(a)[y] <= 1
  {
    if a != [] {
      var rest := a[1..];
      assert a == [a[0]] + rest;
      assert forall k :: 0 <= k < |rest| ==> rest[k] == a[k + 1];
      DistinctAtMostOnce(rest, y);
      if y == a[0] {
        assert y !in rest;
      }
    }
  }

  /** Reordering rows keeps their ids pairwise different. */
  lemma PermutationKeepsDistinct<R>(a: seq<Row<R>>, b: seq<Row<R>>)
    requires multiset(a) == multiset(b) && DistinctIds(a)
    ensures DistinctIds(b)
  {
    forall k, l | 0 <= k < l < |b| ensures b[k].id != b[l].id {
      if b[k] == b[l] {
        assert b == b[..l] + b[l..];
        assert b[k] in b[..l] && b[l] in b[l..];
        assert multiset(b)[b[k]] >= 2;
        DistinctAtMostOnce(a, b[k]);
      } else {
        assert b[k] in multiset(a) && b[l] in multiset(a);
        var i :| 0 <= i < |a| && a[i] == b[k];
        var j :| 0 <= j < |a| && a[j] == b[l];
        assert i != j;
      }
    }
  }

  /** Reordering rows keeps each of them a row of the table. */
  lemma PermutationKeepsHolds<R>(t: Table<R>, a: seq<Row<R>>, b: seq<Row<R>>)
    requires multiset(a) == multiset(b)
    requires forall k :: 0 <= k < |a| ==> Holds(t, a[k])
    ensures forall k :: 0 <= k < |b| ==> Holds(t, b[k])
  {
    forall k | 0 <= k < |b| ensures Holds(t, b[k]) {
      assert b[k] in multiset(a);
      var j :| 0 <= j < |a| && a[j] == b[k];
    }
  }

  /** A prefix keeps the order, the distinct ids and the membership of the
      rows it is cut from. */
  lemma PrefixKeeps<R>(t: Table<R>, sorted: seq<Row<R>>, n: nat)
    requires n <= |sorted|
    requires NewestFirst(sorted) && DistinctIds(sorted)
    requires forall k :: 0 <= k < |sorted| ==> Holds(t, sorted[k])
    ensures NewestFirst(sorted[..n]) && DistinctIds(sorted[..n])
    ensures forall k :: 0 <= k < n ==> Holds(t, sorted[..n][k])
  {
  }

  /** The rows a list request returns: rows of the table, each at most once,
      newest first, as many as the limit lets through. */
  function List<R(==)>(t: Table<R>, limit: Option<string>): (r: seq<Row<R>>)
    requires Valid(t)
    ensures NewestFirst(r)
    ensures DistinctIds(r)
    ensures forall k :: 0 <= k < |r| ==> Holds(t, r[k])
    ensures |r| == Bounded(|t.rows|, RowLimit(limit))
  {
    var scan := Scan(t);
    var sorted := SortNewestFirst(scan);
    PermutationKeepsDistinct(scan, sorted);
    PermutationKeepsHolds(t, scan, sorted);
    var r := Limit(sorted, RowLimit(limit));
    PrefixKeeps(t, sorted, |r|);
    r
  }

  /** In a prefix of a newest-first ordering of `rows`, a row of `rows` left
      out is no newer than any row kept. */
  lemma PrefixKeepsNewest<R>(rows: seq<Row<R>>, sorted: seq<Row<R>>, n: nat, j: int, k: int)
    requires multiset(rows) == multiset(sorted) && NewestFirst(sorted)
    requires n <= |sorted| && 0 <= k < n && 0 <= j < |rows|
    requires rows[j].id !in Ids(sorted[..n])
    ensures rows[j].createdAt <= sorted[k].createdAt
  {
    assert rows[j] in multiset(sorted);
    var i :| 0 <= i < |sorted| && sorted[i] == rows[j];
  }

  /** A limited list holds the newest rows: every row it leaves out is no newer
      than any row it returns. */
  lemma ListKeepsNewest<R>(t: Table<R>, limit: Option<string>, k: int, id: int)
    requires Valid(t)
    requires 0 <= k < |List(t, limit)| && id in t.rows && id !in Ids(List(t, limit))
    ensures t.rows[id].createdAt <= List(t, limit)[k].createdAt
  {
    var scan := Scan(t);
    var sorted := SortNewestFirst(scan);
    var r := List(t, limit);
    assert r == sorted[..|r|];
    assert id in Ids(scan);
    var j :| 0 <= j < |scan| && scan[j].id == id;
    PrefixKeepsNewest(scan, sorted, |r|, j, k);
    assert r[k] == sorted[k];
  }

  /** A subset as large as its superset is the superset. */
  lemma SameSizeSubset<T>(a: set<T>, b: set<T>)
    requires a <= b && |a| == |b|
    ensures a == b
  {
    assert |b - a| == |b| - |a|;
  }

  /** Without a usable `limit` every row comes back exactly once. */
  lemma ListAll<R>(t: Table<R>, limit: Option<string>)
    requires Valid(t)
    requires RowLimit(limit).None?
    ensures Ids(List(t, limit)) == t.rows.Keys
    ensures |List(t, limit)| == |t.rows|
  {
    var r := List(t, limit);
    DistinctIdsCount(r);
    assert forall id :: id in Ids(r) ==> id in t.rows;
    SameSizeSubset(Ids(r), t.rows.Keys);
  }

  /** `?limit=N` for a positive N returns the N newest rows, or all of them
      when there are fewer. */
  lemma ListDecimalLimit<R>(t: Table<R>, n: nat)
    requires Valid(t) && n > 0
    ensures |List(t, Some(Decimal(n)))| == if |t.rows| <= n then |t.rows| else n
  {
    ParseIntDecimal(n, []);
    assert Decimal(n) + [] == Decimal(n);
    assert RowLimit(Some(Decimal(n))) == Some(n);
  }

  /** `?limit=0` puts no bound on the query: zero is falsy. */
  lemma ZeroLimitIgnored()
    ensures RowLimit(Some("0")).None?
  {
    var z := Decimal(0);
    assert z == "0";
    ParseIntDecimal(0, []);
    assert z + [] == z;
  }

  /** `?limit=abc` puts no bound on the query: `parseInt` yields NaN. */
  lemma NonNumericLimitIgnored()
    ensures RowLimit(Some("abc")).None?
  {
    var s := "abc";
    assert s[0] == 'a' && !IsSpace(s[0]);
    assert TrimStart(s) == s;
    assert !IsDigit(s[0], 10);
    ParseIntNoDigits(s);
    assert ParseInt(s) == NaN;
  }

  /** `?limit=5abc` bounds the list at 5: `parseInt` stops at the first
      non-digit. */
  lemma TrailingTextLimit()
    ensures RowLimit(Some("5abc")) == Some(5)
  {
    var rest := "abc";
    assert rest[0] == 'a' && !IsDigit(rest[0], 10);
    ParseIntDecimal(5, rest);
    assert Decimal(5) == "5";
    assert Decimal(5) + rest == "5abc";
    assert Truthy(Some("5abc"));
  }

  /** `?limit=0x10` bounds the list at 16: `parseInt` without a radix reads a
      `0x` prefix as hexadecimal. */
  lemma HexLimit()
    ensures RowLimit(Some("0x10")) == Some(16)
  {
    var s := "0x10";
    assert s[0] == '0' && !IsSpace(s[0]);
    assert TrimStart(s) == s;
    assert s[2..] == "10";
    assert DigitRun("0", 16) == 1;
    assert DigitRun("10", 16) == 2;
    assert "10"[..2] == "10";
    assert DigitsValue("10", 16) == 16;
  }

  /** `?limit=-N` reaches SQLite as a negative bound, which lets every row
      through. */
  lemma NegativeLimitIgnored<R>(t: Table<R>, n: nat)
    requires Valid(t) && n > 0
    ensures |List(t, Some("-" + Decimal(n)))| == |t.rows|
  {
    ParseIntNegative(n);
  }
}
