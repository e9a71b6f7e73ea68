/** The pagination arithmetic shared by the history and search queries. */
module Paging {

  function Min(a: int, b: int): int
  {
    if a <= b then a else b
  }

  /** `(page - 1) * limit`: the number of rows on the pages before `page`. */
  function Offset(page: nat, limit: nat): (r: nat)
    requires page >= 1
    ensures limit > 0 ==> r % limit == 0 && r / limit == page - 1
  {
    if limit > 0 then WholePages(page - 1, limit); (page - 1) * limit else 0
  }

  /** `q` whole pages of `limit` rows divide back into `q` pages. */
  lemma WholePages(q: nat, limit: nat)
    requires limit > 0
    ensures (q * limit) % limit == 0 && (q * limit) / limit == q
  {
    var r := q * limit;
    var d, m := r / limit, r % limit;
    assert r == d * limit + m && 0 <= m < limit;
    assert (q - d) * limit == m;
    if q - d >= 1 {
      MulMonotone(1, q - d, limit);
    } else if q - d <= -1 {
      MulMonotone(1, d - q, limit);
    }
  }

  /** `Math.ceil(total / limit)`: the fewest pages of `limit` rows that hold
      `total` rows. */
  function TotalPages(total: nat, limit: nat): (n: nat)
    requires limit >= 1
    ensures n * limit >= total
    ensures n > 0 ==> (n - 1) * limit < total
  {
    (total + limit - 1) / limit
  }

  /** `LIMIT limit OFFSET offset`: the rows from position `offset` on, at most
      `limit` of them, as many as there are. */
  function Window<T>(s: seq<T>, offset: nat, limit: nat): (w: seq<T>)
    ensures |w| <= limit
    ensures offset < |s| ==> |w| == Min(limit, |s| - offset)
    ensures offset >= |s| ==> w == []
    ensures forall k :: 0 <= k < |w| ==> offset + k < |s| && w[k] == s[offset + k]
  {
    if offset >= |s| then [] else s[offset .. Min(|s|, offset + limit)]
  }

  /** A page past the last one starts past the last row, so it is empty
      rather than an error. */
  lemma PastLastPageIsEmpty(total: nat, page: nat, limit: nat)
    requires limit >= 1 && page > TotalPages(total, limit)
    ensures Offset(page, limit) >= total
  {
    var n := TotalPages(total, limit);
    MulMonotone(n, page - 1, limit);
  }

  /** Every page from the first to the last starts at a row that exists. */
  lemma PagesUpToLastAreNonEmpty(total: nat, page: nat, limit: nat)
    requires limit >= 1 && 1 <= page <= TotalPages(total, limit)
    ensures Offset(page, limit) < total
  {
  }

  /** The row at position k of the ordered result is on page k / limit + 1,
      and the pages up to TotalPages cover every row. */
  lemma RowIsOnItsPage(total: nat, k: nat, limit: nat)
    requires limit >= 1 && k < total
    ensures Offset(k / limit + 1, limit) <= k < Offset(k / limit + 1, limit) + limit
    ensures k / limit + 1 <= TotalPages(total, limit)
  {
    var q := k / limit;
    assert Offset(q + 1, limit) == q * limit;
    assert k == q * limit + k % limit;
    MulCancel(q, TotalPages(total, limit), limit);
  }

  /** The row at position k is in the window of some page that is not past
      the last: page k / limit + 1. */
  lemma PageHoldingRow<T>(s: seq<T>, k: nat, limit: nat) returns (p: nat)
    requires limit >= 1 && k < |s|
    ensures 1 <= p <= TotalPages(|s|, limit)
    ensures s[k] in Window(s, Offset(p, limit), limit)
  {
    RowIsOnItsPage(|s|, k, limit);
    p := k / limit + 1;
    var w := Window(s, Offset(p, limit), limit);
    assert w[k - Offset(p, limit)] == s[k];
  }

  /** Twelve rows, ten per page: page 2 holds the last two rows and there are
      two pages. */
  lemma TwelveRowsTenPerPage<T>(rows: seq<T>)
    requires |rows| == 12
    ensures TotalPages(|rows|, 10) == 2
    ensures Window(rows, Offset(2, 10), 10) == rows[10..]
  {
  }

  lemma MulCancel(a: nat, b: nat, m: nat)
    requires a * m < b * m
    ensures a < b
  {
    if b <= a {
      MulMonotone(b, a, m);
    }
  }

  lemma MulMonotone(a: nat, b: nat, m: nat)
    requires a <= b
    ensures a * m <= b * m
  {
  }
}
