/** The swap controller: creating a swap, and the owner-scoped history,
    search, lookup, status update and delete handlers, over an in-memory
    transactions table. */
module SwapController {
  import opened Wrappers
  import opened Http
  import opened Money
  import opened Transactions
  import opened Ordering
  import opened Paging

  /** The `data` of a successful swap reply. */
  datatype SwapData = SwapData(
    fromCurrency: string, toCurrency: string, amount: int, price: int, resultAmount: int)

  datatype Pagination = Pagination(page: nat, limit: nat, total: nat, totalPages: nat)

  /** The reply of the history and search handlers. */
  datatype PageReply = PageReply(data: seq<Transaction>, pagination: Pagination)

  /** The query string of the history handler, after `parseInt`. The handler's
      defaults are page 1, limit 10, sort "created_at", order "DESC"; an absent
      or empty status is "". */
  datatype HistoryParams = HistoryParams(
    page: nat, limit: nat, sort: string, order: string, status: string)

  /** The request checks of createSwap, made before any price is asked for:
      a currency that is missing or empty, or an amount that is missing or 0,
      means "All fields are required"; a negative amount is refused next. */
  function SwapRequestError(fromCurrency: string, toCurrency: string, amount: Option<int>): (e: Option<string>)
    ensures e.None? <==> fromCurrency != "" && toCurrency != "" && amount.Some? && amount.value > 0
    ensures e == Some("Amount must be greater than 0") <==>
              fromCurrency != "" && toCurrency != "" && amount.Some? && amount.value < 0
    ensures e.Some? && e.value != "Amount must be greater than 0" ==> e == Some("All fields are required")
  {
    if fromCurrency == "" || toCurrency == "" || amount == None || amount == Some(0) then
      Some("All fields are required")
    else if amount.value <= 0 then
      Some("Amount must be greater than 0")
    else
      None
  }

  /** A paginated SELECT: the matching rows in ORDER BY order, the window of
      the requested page, and the COUNT(*) of the same WHERE clause. */
  function QueryPage(rows: seq<Transaction>, c: Criteria, col: SortColumn, ord: SortOrder,
                     page: nat, limit: nat): (r: PageReply)
    requires page >= 1 && limit >= 1
    ensures r.pagination.page == page && r.pagination.limit == limit
    ensures |r.data| <= limit
    ensures r.pagination.total <= r.pagination.totalPages * limit
  {
    var matched := Select(rows, c);
    PageReply(Window(SortRows(matched, col, ord), Offset(page, limit), limit),
              Pagination(page, limit, |matched|, TotalPages(|matched|, limit)))
  }

  /** What GET /swap/history answers. */
  function HistoryPage(rows: seq<Transaction>, userId: nat, q: HistoryParams): (r: PageReply)
    requires q.page >= 1 && q.limit >= 1
    ensures r.pagination.page == q.page && r.pagination.limit == q.limit && |r.data| <= q.limit
  {
    QueryPage(rows, History(userId, q.status), SortColumnFor(q.sort), SortOrderFor(q.order), q.page, q.limit)
  }

  /** What GET /swap/search answers: no status filter, newest first. */
  function SearchPage(rows: seq<Transaction>, userId: nat, currency: Option<string>,
                      page: nat, limit: nat): (r: PageReply)
    requires page >= 1 && limit >= 1
    ensures r.pagination.page == page && r.pagination.limit == limit && |r.data| <= limit
  {
    QueryPage(rows, Search(userId, currency), CreatedAt, Desc, page, limit)
  }

  /** GET /swap/:id: the row only when both its id and its owner match; any
      other case is the same 404, so a foreign row looks like a missing one. */
  function GetTransactionById(rows: seq<Transaction>, userId: nat, id: nat): (r: Reply<Transaction>)
    ensures r.Ok? <==> exists t :: t in rows && t.id == id && t.userId == userId
    ensures r.Ok? ==> r.code == Ok200 && r.data in rows && r.data.id == id && r.data.userId == userId
    ensures r.Fail? ==> r == Fail(NotFound404, "Transaction not found")
  {
    match FindOwned(rows, userId, id)
    case None => Fail(NotFound404, "Transaction not found")
    case Some(t) => Ok(Ok200, t)
  }

  /** A page holds only the caller's rows that pass the WHERE clause, at most
      `limit` of them, in ORDER BY order; `total` is the number of distinct
      matching rows and `totalPages` the fewest pages that hold them. */
  lemma {:induction false} QueryPageContents(rows: seq<Transaction>, c: Criteria, col: SortColumn, ord: SortOrder,
                                             page: nat, limit: nat)
    requires UniqueIds(rows)
    requires page >= 1 && limit >= 1
    ensures var r := QueryPage(rows, c, col, ord, page, limit);
            && (forall t :: t in r.data ==> t in rows && Matches(t, c) && t.userId == c.userId)
            && |r.data| <= limit
            && Sorted(r.data, col, ord)
            && r.pagination.total == |MatchingRows(rows, c)|
            && r.pagination.totalPages * limit >= r.pagination.total
            && (r.pagination.totalPages > 0 ==> (r.pagination.totalPages - 1) * limit < r.pagination.total)
  {
    var matched := Select(rows, c);
    var sorted := SortRows(matched, col, ord);
    var w := Window(sorted, Offset(page, limit), limit);
    SortRowsSorted(matched, col, ord);
    forall t | t in w ensures t in rows && Matches(t, c) {
      assert t in multiset(sorted);
    }
    forall i, j | 0 <= i < j < |w| ensures InOrder(w[i], w[j], col, ord) {
      assert w[i] == sorted[Offset(page, limit) + i] && w[j] == sorted[Offset(page, limit) + j];
    }
    SelectCount(rows, c);
  }

  /** Pages past the last are empty; every page up to the last holds
      min(limit, total - offset) rows. */
  lemma QueryPageSize(rows: seq<Transaction>, c: Criteria, col: SortColumn, ord: SortOrder,
                      page: nat, limit: nat)
    requires page >= 1 && limit >= 1
    ensures var r := QueryPage(rows, c, col, ord, page, limit);
            && (page > r.pagination.totalPages ==> r.data == [])
            && (page <= r.pagination.totalPages ==>
                  |r.data| == Min(limit, r.pagination.total - Offset(page, limit)) > 0)
  {
    var total := |Select(rows, c)|;
    SortRowsLength(Select(rows, c), col, ord);
    if page > TotalPages(total, limit) {
      PastLastPageIsEmpty(total, page, limit);
    } else {
      PagesUpToLastAreNonEmpty(total, page, limit);
    }
  }

  /** Paging walks one ordering: every row on an earlier page may precede
      every row on a later page of the same query. */
  lemma {:induction false} EarlierPagesComeFirst(rows: seq<Transaction>, c: Criteria, col: SortColumn, ord: SortOrder,
                                                 p: nat, q: nat, limit: nat)
    requires 1 <= p < q && limit >= 1
    ensures forall x, y ::
              (x in QueryPage(rows, c, col, ord, p, limit).data && y in QueryPage(rows, c, col, ord, q, limit).data)
              ==> InOrder(x, y, col, ord)
  {
    var sorted := SortRows(Select(rows, c), col, ord);
    SortRowsSorted(Select(rows, c), col, ord);
    var wp := Window(sorted, Offset(p, limit), limit);
    var wq := Window(sorted, Offset(q, limit), limit);
    MulMonotone(p, q - 1, limit);
    forall x, y | x in wp && y in wq ensures InOrder(x, y, col, ord) {
      var i :| 0 <= i < |wp| && wp[i] == x;
      var j :| 0 <= j < |wq| && wq[j] == y;
      assert Offset(p, limit) + i < Offset(q, limit) + j;
    }
  }

  /** Every row the WHERE clause matches is on some page between 1 and
      totalPages: paging loses no row. Each page is its own query, so each
      may be ordered by any sorted permutation of the matching rows
      (`pageOrder(p)` for page p); the lemma needs the matching rows to have
      no ties in the sort column, because the ORDER BY has no tiebreaker. */
  lemma {:induction false} EveryMatchIsOnSomePage(rows: seq<Transaction>, c: Criteria, col: SortColumn, ord: SortOrder,
                                                  limit: nat, t: Transaction, pageOrder: nat -> seq<Transaction>)
    requires limit >= 1 && t in rows && Matches(t, c)
    requires NoTies(Select(rows, c), col)
    requires forall p :: Sorted(pageOrder(p), col, ord) && multiset(pageOrder(p)) == multiset(Select(rows, c))
    ensures exists p :: 1 <= p <= QueryPage(rows, c, col, ord, 1, limit).pagination.totalPages
                        && t in Window(pageOrder(p), Offset(p, limit), limit)
  {
    var matched := Select(rows, c);
    var sorted := SortRows(matched, col, ord);
    SortRowsLength(matched, col, ord);
    SortRowsMember(matched, col, ord, t);
    var k :| 0 <= k < |sorted| && sorted[k] == t;
    var p := PageHoldingRow(sorted, k, limit);
    SortRowsSorted(matched, col, ord);
    NoTiesPermutation(matched, sorted, col);
    SortedPermutationUnique(sorted, pageOrder(p), col, ord);
  }

  /** The other side of the no-ties hypothesis: two rows created at the same
      instant are both in newest-first order either way round, so page 1 of
      one order and page 2 of the other (one row per page) show the same row
      twice and never the other. */
  lemma TiedRowsCanBeSkipped(a: Transaction, b: Transaction)
    requires a != b && a.createdAt == b.createdAt
    ensures Sorted([a, b], CreatedAt, Desc) && Sorted([b, a], CreatedAt, Desc)
    ensures Window([a, b], Offset(1, 1), 1) == [a] && Window([b, a], Offset(2, 1), 1) == [a]
  {
  }

  /** History rows are the caller's and, when a status is given, have it. */
  lemma HistoryPageRows(rows: seq<Transaction>, userId: nat, q: HistoryParams)
    requires q.page >= 1 && q.limit >= 1
    ensures forall t :: t in HistoryPage(rows, userId, q).data ==>
              t in rows && t.userId == userId && (q.status != "" ==> t.status == q.status)
  {
    var c := History(userId, q.status);
    var sorted := SortRows(Select(rows, c), SortColumnFor(q.sort), SortOrderFor(q.order));
    forall t | t in HistoryPage(rows, userId, q).data ensures t in rows && Matches(t, c) {
      assert t in multiset(sorted);
    }
  }

  /** Search rows are the caller's and have the currency on one side; an
      absent currency finds nothing. */
  lemma SearchPageRows(rows: seq<Transaction>, userId: nat, currency: Option<string>, page: nat, limit: nat)
    requires page >= 1 && limit >= 1
    ensures currency.None? ==> SearchPage(rows, userId, currency, page, limit).data == []
    ensures forall t :: t in SearchPage(rows, userId, currency, page, limit).data ==>
              && t in rows && t.userId == userId && currency.Some?
              && (t.fromCurrency == currency.value || t.toCurrency == currency.value)
  {
    var c := Search(userId, currency);
    var sorted := SortRows(Select(rows, c), CreatedAt, Desc);
    if currency.None? {
      SelectNone(rows, c);
    }
    forall t | t in SearchPage(rows, userId, currency, page, limit).data ensures t in rows && Matches(t, c) {
      assert t in multiset(sorted);
    }
  }

  /** Twelve rows of one user, ten per page: page 2 holds two rows and there
      are two pages. */
  lemma TwelveRowsSecondPage(rows: seq<Transaction>, userId: nat, q: HistoryParams)
    requires |rows| == 12 && forall t :: t in rows ==> t.userId == userId
    requires q.page == 2 && q.limit == 10 && q.status == ""
    ensures |HistoryPage(rows, userId, q).data| == 2
    ensures HistoryPage(rows, userId, q).pagination.totalPages == 2
  {
    SelectAll(rows, History(userId, ""));
    SortRowsLength(rows, SortColumnFor(q.sort), SortOrderFor(q.order));
  }

  /** What a user sees through history, search and lookup depends on that
      user's own rows only: other users' rows can be anything. */
  lemma ForeignRowsAreInvisible(rows1: seq<Transaction>, rows2: seq<Transaction>, userId: nat,
                                id: nat, q: HistoryParams, currency: Option<string>)
    requires Select(rows1, ByOwner(userId)) == Select(rows2, ByOwner(userId))
    requires q.page >= 1 && q.limit >= 1
    ensures GetTransactionById(rows1, userId, id) == GetTransactionById(rows2, userId, id)
    ensures HistoryPage(rows1, userId, q) == HistoryPage(rows2, userId, q)
    ensures SearchPage(rows1, userId, currency, q.page, q.limit) == SearchPage(rows2, userId, currency, q.page, q.limit)
  {
    FindOwnedWithinOwner(rows1, userId, id);
    FindOwnedWithinOwner(rows2, userId, id);
    SelectWithinOwner(rows1, History(userId, q.status));
    SelectWithinOwner(rows2, History(userId, q.status));
    SelectWithinOwner(rows1, Search(userId, currency));
    SelectWithinOwner(rows2, Search(userId, currency));
  }

  /** The transactions table. Ids come from an AUTO_INCREMENT counter that
      never reuses an id. */
  class TransactionTable {
    var rows: seq<Transaction>
    var nextId: nat

    /** Ids are unique and below the counter; every row was created by a
        valid swap, so its result is its amount times its price rounded to 8
        decimals, and it keeps a non-empty status. */
    ghost predicate Valid()
      reads this
    {
      && UniqueIds(rows)
      && forall t :: t in rows ==>
           && t.id < nextId && t.amount > 0 && t.fromCurrency != "" && t.toCurrency != "" && t.status != ""
           && t.resultAmount == ScaledProduct(t.amount, t.price)
    }

    constructor ()
      ensures Valid() && rows == [] && nextId == 1
    {
      rows := [];
      nextId := 1;
    }

    /** POST /swap/swap. `price` is what the quote service answered for the
        pair (None when it failed); it is consulted only after the request
        checks pass, and a missing or zero price inserts nothing. */
    method CreateSwap(userId: nat, fromCurrency: string, toCurrency: string, amount: Option<int>,
                      price: Option<int>, now: int) returns (r: Reply<SwapData>)
      requires Valid()
      modifies this
      ensures Valid()
      ensures SwapRequestError(fromCurrency, toCurrency, amount).Some? ==>
                && r == Fail(BadRequest400, SwapRequestError(fromCurrency, toCurrency, amount).value)
                && rows == old(rows) && nextId == old(nextId)
      ensures SwapRequestError(fromCurrency, toCurrency, amount).None? && (price == None || price == Some(0)) ==>
                && r == Fail(BadRequest400, "Could not fetch price for this currency pair")
                && rows == old(rows) && nextId == old(nextId)
      ensures SwapRequestError(fromCurrency, toCurrency, amount).None? && price.Some? && price.value != 0 ==>
                var result := ScaledProduct(amount.value, price.value);
                && r == Ok(Created201, SwapData(fromCurrency, toCurrency, amount.value, price.value, result))
                && rows == old(rows) + [Transaction(old(nextId), userId, fromCurrency, toCurrency,
                                                    amount.value, result, price.value, "completed", now)]
                && nextId == old(nextId) + 1
    {
      var invalid := SwapRequestError(fromCurrency, toCurrency, amount);
      if invalid.Some? {
        return Fail(BadRequest400, invalid.value);
      }
      if price == None || price == Some(0) {
        return Fail(BadRequest400, "Could not fetch price for this currency pair");
      }
      var result := ScaledProduct(amount.value, price.value);
      var row := Transaction(nextId, userId, fromCurrency, toCurrency, amount.value, result, price.value, "completed", now);
      forall i | 0 <= i < |rows| ensures rows[i].id != row.id {
        assert rows[i] in rows;
      }
      rows := rows + [row];
      nextId := nextId + 1;
      r := Ok(Created201, SwapData(fromCurrency, toCurrency, amount.value, price.value, result));
    }

    /** Runs a WHERE clause over the table: the matching rows in table order
        and their COUNT(*). */
    method Scan(c: Criteria) returns (matched: seq<Transaction>, count: nat)
      ensures matched == Select(rows, c)
      ensures count == |matched|
    {
      matched, count := [], 0;
      var i := 0;
      while i < |rows|
        invariant 0 <= i <= |rows|
        invariant matched == Select(rows[..i], c)
        invariant count == |matched|
      {
        assert rows[..i + 1][..i] == rows[..i];
        if Matches(rows[i], c) {
          matched := matched + [rows[i]];
          count := count + 1;
        }
        i := i + 1;
      }
      assert rows[..i] == rows;
    }

    /** GET /swap/history: builds the WHERE clause (an empty status adds no
        condition), takes the sort column from the allow-list and normalises
        the order, then pages the result. */
    method GetHistory(userId: nat, q: HistoryParams) returns (r: PageReply)
      requires q.page >= 1 && q.limit >= 1
      ensures r == HistoryPage(rows, userId, q)
    {
      var offset := Offset(q.page, q.limit);
      var where := History(userId, q.status);
      var column := SortColumnFor(q.sort);
      var order := SortOrderFor(q.order);
      var matched, total := Scan(where);
      var data := Window(SortRows(matched, column, order), offset, q.limit);
      r := PageReply(data, Pagination(q.page, q.limit, total, TotalPages(total, q.limit)));
    }

    /** GET /swap/search: the caller's rows with `currency` on either side,
        newest first. */
    method SearchTransactions(userId: nat, currency: Option<string>, page: nat, limit: nat)
      returns (r: PageReply)
      requires page >= 1 && limit >= 1
      ensures r == SearchPage(rows, userId, currency, page, limit)
    {
      var offset := Offset(page, limit);
      var matched, total := Scan(Search(userId, currency));
      var data := Window(SortRows(matched, CreatedAt, Desc), offset, limit);
      r := PageReply(data, Pagination(page, limit, total, TotalPages(total, limit)));
    }

    /** PUT /swap/:id. A missing status is refused first; then the ownership
        check; only then the UPDATE, which (being keyed by id alone) changes
        the status of that one row. */
    method UpdateTransaction(userId: nat, id: nat, status: string) returns (r: Reply<string>)
      requires Valid()
      modifies this
      ensures Valid() && nextId == old(nextId)
      ensures status == "" ==> r == Fail(BadRequest400, "Status is required") && rows == old(rows)
      ensures status != "" && FindOwned(old(rows), userId, id).None? ==>
                r == Fail(NotFound404, "Transaction not found") && rows == old(rows)
      ensures status != "" && FindOwned(old(rows), userId, id).Some? ==>
                r == Ok(Ok200, "Transaction updated successfully") && rows == WithStatus(old(rows), id, status)
    {
      if status == "" {
        return Fail(BadRequest400, "Status is required");
      }
      var found := FindOwned(rows, userId, id);
      if found.None? {
        return Fail(NotFound404, "Transaction not found");
      }
      UpdateChangesOnlyThatStatus(rows, userId, id, status, userId, id);
      var updated := WithStatus(rows, id, status);
      forall t | t in updated
        ensures && t.id < nextId && t.amount > 0 && t.fromCurrency != "" && t.toCurrency != "" && t.status != ""
                && t.resultAmount == ScaledProduct(t.amount, t.price)
      {
        var i :| 0 <= i < |updated| && updated[i] == t;
        assert rows[i] in rows;
      }
      rows := updated;
      r := Ok(Ok200, "Transaction updated successfully");
    }

    /** DELETE /swap/:id: the ownership check, then the DELETE keyed by id. */
    method DeleteTransaction(userId: nat, id: nat) returns (r: Reply<string>)
      requires Valid()
      modifies this
      ensures Valid() && nextId == old(nextId)
      ensures FindOwned(old(rows), userId, id).None? ==>
                r == Fail(NotFound404, "Transaction not found") && rows == old(rows)
      ensures FindOwned(old(rows), userId, id).Some? ==>
                r == Ok(Ok200, "Transaction deleted successfully") && rows == WithoutId(old(rows), id)
    {
      var found := FindOwned(rows, userId, id);
      if found.None? {
        return Fail(NotFound404, "Transaction not found");
      }
      DeleteRemovesOnlyThatRow(rows, userId, id, userId, id);
      rows := WithoutId(rows, id);
      r := Ok(Ok200, "Transaction deleted successfully");
    }
  }
}
