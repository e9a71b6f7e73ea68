# BitPort backend controllers in Dafny

BitPort is a demonstration crypto-swap web application. Its backend has two
controllers with logic worth stating:

- the **swap controller** (`backend/controllers/swapController.js`) records a
  swap as one row of the `transactions` table, priced by a quote service, and
  serves each user's history, search, single-row lookup, status update and
  delete, always scoped to the calling user;
- the **auth controller** (`backend/controllers/authController.js`) registers
  users under unique emails with bcrypt-hashed passwords, logs them in with a
  JWT, and looks up a user's profile.

The model replaces the MySQL database by in-memory tables: a class
`SwapController.TransactionTable` with a `rows: seq<Transaction>` field and an
AUTO_INCREMENT counter, and a class `AuthController.UserStore` with a
`users: seq<User>` field. Handlers that write become methods on those classes;
the read paths are functions over the table, and the history and search
handlers are also methods whose WHERE scan is a loop proved equal to those
functions. The create, lookup, update, delete, register, login and profile
handlers answer an `Http.Reply`: a status code with a payload, or a status
code with the message the source sends. The history and search handlers
answer a `SwapController.PageReply`: the page's rows with the `pagination`
object (page, limit, total, totalPages).

Modules, one per concern:

| file | module | contents |
|---|---|---|
| wrappers.dfy | Wrappers | `Option` |
| http.dfy | Http | status codes and the `Reply` envelope |
| money.dfy | Money | DECIMAL(·,8) fixed point and the `toFixed(8)` rounding of the swap result |
| transactions.dfy | Transactions | the row type, WHERE clauses, and the meaning of the SELECT, UPDATE and DELETE statements |
| ordering.dfy | Ordering | the sort-column allow-list, ASC/DESC normalisation, the row ordering and the sort |
| paging.dfy | Paging | offset, `ceil(total/limit)` and the LIMIT/OFFSET window |
| swap_controller.dfy | SwapController | the swap handlers and the transactions table |
| auth_controller.dfy | AuthController | register, login, profile and the users table |

Stand-ins for what the controllers cannot see:

- `getLivePrice` (the CoinGecko call) is the `price: Option<int>` parameter of
  `CreateSwap`; `None` is the `null` it returns on failure.
- The row timestamps (`created_at`, set by the database) are the `now`
  parameter; the bcrypt salt is the `salt` parameter.
- bcrypt is a free term `Bcrypt(rounds, salt, password)` that only `Compare`
  inspects, so `Compare(p, Hash(q, s)) <==> p == q` holds (lemma
  `AuthController.CompareHash`); a JWT is the term `Jwt(userId, email, "7d")`
  of its claims.
- A missing or empty string field is `""` (both are falsy in the source); the
  swap `amount` is an `Option<int>` where `None` is missing and `Some(0)` is
  falsy; the search `currency` is an `Option<string>` because an absent one is
  bound as SQL NULL, and `= NULL` matches no row.
- Amounts, prices and results count units of 10^-8, the precision of the
  DECIMAL columns.

Three behaviours of the code that are easy to misread, modelled as written:

- A price of 0 is treated like an unavailable quote. Both get 400 "Could not
  fetch price for this currency pair", because the check is `!price`.
- Two different 400 messages precede the quote, "All fields are required" and
  "Amount must be greater than 0". An amount of 0 gets the first, because the
  check is `!amount`; only a negative amount gets the second.
- The UPDATE and DELETE statements are keyed by `id` alone. Only the ownership
  SELECT that runs before them keeps them inside the caller's rows. The model
  keeps the statements as written, and the lemmas prove the effect under that
  check.

## Model

| member | source | states |
|---|---|---|
| Money.ScaledProduct | backend/controllers/swapController.js:40 | the stored result is amount × price rounded to the nearest 10^-8, halves away from zero, and exact when the product needs no rounding |
| Money.ScaledProductExample | backend/controllers/swapController.js:40 | amount 2 at price 0.05 yields 0.10000000 |
| SwapController.SwapRequestError | backend/controllers/swapController.js:25-31 | a request passes exactly when both currencies are present and amount > 0; "Amount must be greater than 0" exactly for a present negative amount; no price is involved |
| SwapController.TransactionTable.CreateSwap | backend/controllers/swapController.js:21-62 | invalid request: 400 and no row; missing or zero price: 400 and no row; otherwise 201 with the swap data and exactly one appended row owned by the caller, status "completed", result ScaledProduct(amount, price); ids stay unique |
| Transactions.Matches | backend/controllers/swapController.js:75-83 | the WHERE clause of history (`user_id = ?`, plus `status = ?` when a status is given) and of search (line 215: `user_id = ?` and either currency equal to the searched one); whatever the clause, a matching row is the caller's |
| Transactions.Select | backend/controllers/swapController.js:75-83 | a WHERE clause keeps exactly the rows that satisfy it |
| Transactions.SelectCount | backend/controllers/swapController.js:95-99 | with unique ids, the COUNT equals the number of distinct matching rows |
| Transactions.SelectWithinOwner | backend/controllers/swapController.js:75-76 | a query scoped to a user gives the same rows when run over that user's rows only |
| Ordering.SortColumnFor | backend/controllers/swapController.js:86-87 | the sort column is always in the allow-list; an allowed name selects itself; anything else falls back to created_at |
| Ordering.SortOrderFor | backend/controllers/swapController.js:88 | ascending iff the order is "asc" in some letter case, otherwise descending |
| Ordering.Insert | backend/controllers/swapController.js:90 | inserting a row adds exactly that row to the multiset |
| Ordering.SortRows | backend/controllers/swapController.js:90 | ORDER BY returns a permutation of the matched rows |
| Ordering.SortRowsSorted | backend/controllers/swapController.js:90 | ORDER BY returns the rows in the order of the column and direction |
| Ordering.SortedPermutationUnique | backend/controllers/swapController.js:90 | when no two rows tie in the sort column, the ORDER BY has only one possible result: any two sorted permutations of the same rows are equal |
| Ordering.LexLeqTotal | backend/controllers/swapController.js:86 | the string order used for from_currency is total |
| Ordering.LexLeqTransitive | backend/controllers/swapController.js:86 | the string order used for from_currency is transitive |
| Paging.Offset | backend/controllers/swapController.js:73 | the offset of page p is p − 1 whole pages of limit rows: a multiple of limit whose quotient is p − 1 (the same formula at line 213) |
| Paging.TotalPages | backend/controllers/swapController.js:100 | totalPages is the least n with n × limit ≥ total, that is ceil(total/limit) |
| Paging.Window | backend/controllers/swapController.js:90-94 | LIMIT/OFFSET gives at most limit rows, the rows from position offset on, and min(limit, size − offset) of them when offset is inside |
| Paging.PastLastPageIsEmpty | backend/controllers/swapController.js:73-100 | a page beyond totalPages starts past the last row |
| Paging.PagesUpToLastAreNonEmpty | backend/controllers/swapController.js:73-100 | every page from 1 to totalPages starts at an existing row |
| Paging.RowIsOnItsPage | backend/controllers/swapController.js:73-100 | row k is on page k / limit + 1, which is at most totalPages |
| Paging.PageHoldingRow | backend/controllers/swapController.js:73-100 | every row lies in the window of some page between 1 and totalPages |
| Paging.TwelveRowsTenPerPage | backend/controllers/swapController.js:73-100 | 12 rows with limit 10: two pages, and page 2 holds the last two rows |
| SwapController.QueryPage | backend/controllers/swapController.js:90-110 | a paginated SELECT echoes the requested page and limit, returns at most limit rows, and totalPages pages of limit rows hold all total rows |
| SwapController.HistoryPage | backend/controllers/swapController.js:70-111 | GET /swap/history echoes page and limit and returns at most limit rows; its rows are described by HistoryPageRows and QueryPageContents |
| SwapController.SearchPage | backend/controllers/swapController.js:210-241 | GET /swap/search echoes page and limit and returns at most limit rows; its rows are described by SearchPageRows and QueryPageContents |
| SwapController.QueryPageContents | backend/controllers/swapController.js:72-100 | a page holds only rows of the table that satisfy the WHERE clause (so only the caller's), at most limit of them, sorted; total counts the matching rows; totalPages is their ceiling page count |
| SwapController.QueryPageSize | backend/controllers/swapController.js:72-100 | a page past totalPages is empty, not an error; any other page holds min(limit, total − offset) > 0 rows |
| SwapController.EarlierPagesComeFirst | backend/controllers/swapController.js:90-94 | every row on an earlier page may precede every row on a later page |
| SwapController.EveryMatchIsOnSomePage | backend/controllers/swapController.js:90-100 | when no two matching rows tie in the sort column, every matching row appears on some page between 1 and totalPages, even though each page is a separate query that may order the rows by any sorted permutation |
| SwapController.TiedRowsCanBeSkipped | backend/controllers/swapController.js:90 | with two rows tied on created_at, both orders are sorted, and taking page 1 from one and page 2 from the other (limit 1) shows one row twice and the other never |
| SwapController.HistoryPageRows | backend/controllers/swapController.js:75-83 | history returns only the caller's rows, and only rows with the given status when one is given |
| SwapController.SearchPageRows | backend/controllers/swapController.js:212-220 | search returns only the caller's rows whose from or to currency is the searched one; an absent currency returns nothing |
| SwapController.TwelveRowsSecondPage | backend/controllers/swapController.js:70-111 | a user with 12 rows asking page 2 of 10 gets 2 rows and totalPages 2 |
| SwapController.ForeignRowsAreInvisible | backend/controllers/swapController.js:119-136 | lookup, history and search give the same answer whatever other users' rows are |
| SwapController.TransactionTable.Scan | backend/controllers/swapController.js:94-95 | the WHERE scan yields exactly Select over the table, with its count |
| SwapController.TransactionTable.GetHistory | backend/controllers/swapController.js:70-111 | the step-by-step query equals HistoryPage: status filter, allow-listed column, normalised order, offset (page−1)×limit, total and totalPages |
| SwapController.TransactionTable.SearchTransactions | backend/controllers/swapController.js:210-246 | the search equals SearchPage: either-side currency match, newest first, same paging |
| Transactions.FindOwned | backend/controllers/swapController.js:125-128 | the ownership lookup returns a table row with both the id and the owner, or None when no row has both |
| Transactions.FindOwnedWithinOwner | backend/controllers/swapController.js:125-134 | the ownership lookup depends only on the caller's rows: a foreign row is as good as absent |
| SwapController.GetTransactionById | backend/controllers/swapController.js:119-136 | 200 with the row iff a row has both the id and the caller as owner; otherwise the single 404 "Transaction not found" |
| SwapController.TransactionTable.UpdateTransaction | backend/controllers/swapController.js:144-178 | empty status: 400 and no change; absent or foreign id: 404 and no change; otherwise 200 and the UPDATE applied after the ownership check |
| Transactions.UpdateChangesOnlyThatStatus | backend/controllers/swapController.js:155-169 | after the checked UPDATE the row reads back with the new status and every other field unchanged; every other lookup and every other user's rows are unchanged |
| SwapController.TransactionTable.DeleteTransaction | backend/controllers/swapController.js:181-207 | absent or foreign id: 404 and no change; otherwise 200 and the DELETE applied after the ownership check |
| Transactions.WithStatus | backend/controllers/swapController.js:166-169 | the UPDATE keeps the number and order of rows, changes no field but status, gives every row with the id the new status, and leaves every other row as it was |
| Transactions.WithoutId | backend/controllers/swapController.js:198 | DELETE keeps exactly the rows with another id |
| Transactions.DeleteRemovesOnlyThatRow | backend/controllers/swapController.js:187-198 | after the checked DELETE exactly that one row is gone from the multiset of rows; every other lookup and every other user's rows are unchanged |
| AuthController.Hash | backend/controllers/authController.js:25 | the stored hash is made at cost 10 with the given salt |
| AuthController.Compare | backend/controllers/authController.js:61 | for a cost-10 hash, comparing succeeds exactly when hashing the password with the hash's own salt gives the stored hash |
| AuthController.CompareHash | backend/controllers/authController.js:61 | comparing a password against a stored hash succeeds iff it is the hashed password |
| AuthController.UserStore.Register | backend/controllers/authController.js:6-38 | missing field: 400 and no change; registered email: 400 and no change; otherwise 201 and exactly one appended user with the given name and email and the hash of the password, who can then log in; emails stay pairwise distinct |
| AuthController.FindUser | backend/controllers/authController.js:51 | the email lookup (and, with key `ById`, the id lookup of line 90) returns a user with that key, or None when no user has it |
| AuthController.Login | backend/controllers/authController.js:41-83 | missing field: 400; every other failure is the same 401 "Invalid credentials"; success: a token for the user's id and email and a summary of id, name and email only |
| AuthController.LoginSucceedsIffCredentialsMatch | backend/controllers/authController.js:51-66 | with unique emails, login succeeds iff some user has the email and the password matches its hash |
| AuthController.InvalidCredentialsLookAlike | backend/controllers/authController.js:53-66 | an unknown email and a wrong password give the identical 401 reply |
| AuthController.RegisteredUserCanLogIn | backend/controllers/authController.js:25-77 | a user stored under a fresh email with the hash of a password logs in with that password and gets a token naming that user |
| AuthController.GetProfile | backend/controllers/authController.js:86-103 | 200 with id, name, email and created_at of a user with the id iff one exists; otherwise 404 "User not found" |
| AuthController.LoginThenProfile | backend/controllers/authController.js:71-98 | the user id in a login token leads the profile lookup back to the same user |

## Left out

- The quote service call (`getLivePrice`, axios, CoinGecko and its lower-casing of the asset ids) is not modelled. Its answer is the `price` parameter of `CreateSwap`.
- Floating point is not modelled. Amounts and prices are exact integers in 10^-8 units. `Money.ScaledProduct` rounds the exact product, while the source calls `toFixed(8)` on an IEEE double product.
- Type coercion is not modelled: `parseInt` of the query string, a non-string `order` or `sort`, and an amount sent as a string. `GetHistory`, `SearchTransactions`, `HistoryPage`, `SearchPage` and `QueryPage` require page ≥ 1 and limit ≥ 1. The source sends a negative OFFSET to the database for page 0, and for limit 0 computes `0 / 0`, which is `NaN` pages when no row matches, and `Infinity` pages otherwise.
- Ordering.SortOrderFor: upper-cases ASCII letters only. A non-ASCII character that JavaScript upper-cases to S (the long s, U+017F) is not recognised.
- SwapController.EveryMatchIsOnSomePage: holds only when the matching rows have no ties in the sort column. The ORDER BY has no tiebreaker such as `id`, and each page is a separate query, so with ties a row can be shown on two pages and skipped on all (lemma `SwapController.TiedRowsCanBeSkipped`).
- Ordering.SortRows: rows with equal sort keys keep their table order. The database leaves their order unspecified. Strings compare by code point; the database compares them by its collation.
- Transactions.Matches: `status = ?`, `from_currency = ?` and `to_currency = ?` compare strings exactly. Under a case-insensitive database collation, a status or currency that differs only in letter case (or in trailing spaces) would also match.
- AuthController.CompareHash: bcrypt only uses the first 72 bytes of a password, so two passwords that agree on those bytes are both accepted. The model compares whole passwords.
- AuthController.FindUser: emails match exactly. A case-insensitive database collation would also match emails that differ in letter case.
- The foreign key from transactions to users is not modelled. The two tables are independent, and a row's `userId` is whatever id the caller's token carried.
- Error replies 500 are not modelled. The source sends them when the database or another library throws. So are connection-pool acquire and release, async scheduling and logging.
- JWT signing secret, signature, expiry checking and the authentication middleware that turns a token into `req.userId` are not modelled; handlers receive the caller's user id directly.
- The Express route wiring (`backend/routes/swapRoutes.js`) and the whole frontend are not part of this model.
