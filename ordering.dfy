/** The ORDER BY clause of the history query: the allow-listed sort column,
    the normalised direction, and the ordering they put on rows. */
module Ordering {
  import opened Transactions

  datatype SortColumn = CreatedAt | Amount | ResultAmount | Price | FromCurrency
  datatype SortOrder = Asc | Desc

  function ColumnName(c: SortColumn): string
  {
    match c
    case CreatedAt => "created_at"
    case Amount => "amount"
    case ResultAmount => "result_amount"
    case Price => "price"
    case FromCurrency => "from_currency"
  }

  /** The only column names that ever reach the query text. */
  const AllowedSortColumns: seq<string> :=
    ["created_at", "amount", "result_amount", "price", "from_currency"]

  /** `allowedSortColumns.includes(sort) ? sort : 'created_at'`: an allowed
      name selects its column, and anything else silently falls back to the
      creation time (never an error). */
  function SortColumnFor(sort: string): (c: SortColumn)
    ensures ColumnName(c) in AllowedSortColumns
    ensures sort in AllowedSortColumns ==> ColumnName(c) == sort
    ensures sort !in AllowedSortColumns ==> c == CreatedAt
  {
    if sort == "amount" then Amount
    else if sort == "result_amount" then ResultAmount
    else if sort == "price" then Price
    else if sort == "from_currency" then FromCurrency
    else CreatedAt
  }

  /** `String.prototype.toUpperCase` on the ASCII letters. */
  function UpperAscii(ch: char): char
  {
    if 'a' <= ch <= 'z' then (ch as int - 32) as char else ch
  }

  function ToUpperCase(s: string): string
  {
    seq(|s|, i requires 0 <= i < |s| => UpperAscii(s[i]))
  }

  /** `order.toUpperCase() === 'ASC' ? 'ASC' : 'DESC'`: ascending exactly for
      the eight spellings of "asc" in either case, descending for every other
      string. */
  function SortOrderFor(order: string): (o: SortOrder)
    ensures o == Asc <==>
              |order| == 3 && order[0] in "aA" && order[1] in "sS" && order[2] in "cC"
  {
    var up := ToUpperCase(order);
    if up == "ASC" then
      assert up[0] == 'A' && up[1] == 'S' && up[2] == 'C';
      Asc
    else
      assert |order| == 3 ==> up != "ASC";
      Desc
  }

  /** String columns sort by code point, lexicographically. */
  function LexLeq(a: string, b: string): bool
  {
    if |a| == 0 then true
    else if |b| == 0 then false
    else if a[0] != b[0] then a[0] < b[0]
    else LexLeq(a[1..], b[1..])
  }

  lemma {:induction false} LexLeqTotal(a: string, b: string)
    ensures LexLeq(a, b) || LexLeq(b, a)
  {
    if |a| > 0 && |b| > 0 && a[0] == b[0] {
      LexLeqTotal(a[1..], b[1..]);
    }
  }

  lemma {:induction false} LexLeqTransitive(a: string, b: string, c: string)
    requires LexLeq(a, b) && LexLeq(b, c)
    ensures LexLeq(a, c)
  {
    if |a| > 0 && |b| > 0 && |c| > 0 && a[0] == b[0] == c[0] {
      LexLeqTransitive(a[1..], b[1..], c[1..]);
    }
  }

  /** x's value in column `col` is at most y's. */
  predicate ColumnLeq(x: Transaction, y: Transaction, col: SortColumn)
  {
    match col
    case CreatedAt => x.createdAt <= y.createdAt
    case Amount => x.amount <= y.amount
    case ResultAmount => x.resultAmount <= y.resultAmount
    case Price => x.price <= y.price
    case FromCurrency => LexLeq(x.fromCurrency, y.fromCurrency)
  }

  /** `ORDER BY col ord` allows x before y. */
  predicate InOrder(x: Transaction, y: Transaction, col: SortColumn, ord: SortOrder)
  {
    if ord == Asc then ColumnLeq(x, y, col) else ColumnLeq(y, x, col)
  }

  lemma InOrderTotal(x: Transaction, y: Transaction, col: SortColumn, ord: SortOrder)
    ensures InOrder(x, y, col, ord) || InOrder(y, x, col, ord)
  {
    if col == FromCurrency {
      LexLeqTotal(x.fromCurrency, y.fromCurrency);
    }
  }

  lemma InOrderTransitive(x: Transaction, y: Transaction, z: Transaction, col: SortColumn, ord: SortOrder)
    requires InOrder(x, y, col, ord) && InOrder(y, z, col, ord)
    ensures InOrder(x, z, col, ord)
  {
    if col == FromCurrency {
      if ord == Asc {
        LexLeqTransitive(x.fromCurrency, y.fromCurrency, z.fromCurrency);
      } else {
        LexLeqTransitive(z.fromCurrency, y.fromCurrency, x.fromCurrency);
      }
    }
  }

  ghost predicate Sorted(s: seq<Transaction>, col: SortColumn, ord: SortOrder)
  {
    forall i, j :: 0 <= i < j < |s| ==> InOrder(s[i], s[j], col, ord)
  }

  /** Puts x before the first row it may precede. */
  function Insert(x: Transaction, s: seq<Transaction>, col: SortColumn, ord: SortOrder): (r: seq<Transaction>)
    ensures multiset(r) == multiset(s) + multiset{x}
  {
    if s == [] then [x]
    else if InOrder(x, s[0], col, ord) then [x] + s
    else
      assert s == [s[0]] + s[1..];
      [s[0]] + Insert(x, s[1..], col, ord)
  }

  /** The rows in the order the database returns them. The database leaves the
      order of rows with equal keys unspecified; this sort keeps table order. */
  function SortRows(s: seq<Transaction>, col: SortColumn, ord: SortOrder): (r: seq<Transaction>)
    ensures multiset(r) == multiset(s)
  {
    if s == [] then []
    else
      assert s == [s[0]] + s[1..];
      Insert(s[0], SortRows(s[1..], col, ord), col, ord)
  }

  lemma {:induction false} InsertSorted(x: Transaction, s: seq<Transaction>, col: SortColumn, ord: SortOrder)
    requires Sorted(s, col, ord)
    ensures Sorted(Insert(x, s, col, ord), col, ord)
  {
    if s == [] {
    } else if InOrder(x, s[0], col, ord) {
      forall j | 1 <= j < |s| ensures InOrder(x, s[j], col, ord) {
        InOrderTransitive(x, s[0], s[j], col, ord);
      }
    } else {
      InOrderTotal(x, s[0], col, ord);
      var rest := Insert(x, s[1..], col, ord);
      InsertSorted(x, s[1..], col, ord);
      forall j | 0 <= j < |rest| ensures InOrder(s[0], rest[j], col, ord) {
        assert rest[j] in multiset(rest);
        if rest[j] != x {
          assert rest[j] in s[1..];
        }
      }
      var r := [s[0]] + rest;
      forall i, j | 0 <= i < j < |r| ensures InOrder(r[i], r[j], col, ord) {
        if i > 0 {
          assert r[i] == rest[i - 1] && r[j] == rest[j - 1];
        }
      }
    }
  }

  /** ORDER BY yields every matched row once, in the requested order. */
  lemma {:induction false} SortRowsSorted(s: seq<Transaction>, col: SortColumn, ord: SortOrder)
    ensures Sorted(SortRows(s, col, ord), col, ord)
  {
    if s != [] {
      SortRowsSorted(s[1..], col, ord);
      InsertSorted(s[0], SortRows(s[1..], col, ord), col, ord);
    }
  }

  lemma SortRowsLength(s: seq<Transaction>, col: SortColumn, ord: SortOrder)
    ensures |SortRows(s, col, ord)| == |s|
  {
    assert |multiset(SortRows(s, col, ord))| == |multiset(s)|;
  }

  lemma SortRowsMember(s: seq<Transaction>, col: SortColumn, ord: SortOrder, t: Transaction)
    requires t in s
    ensures t in SortRows(s, col, ord)
  {
    assert t in multiset(SortRows(s, col, ord));
  }

  /** No two distinct rows tie in column `col`: ORDER BY on that column alone
      leaves no choice to the database. */
  ghost predicate NoTies(s: seq<Transaction>, col: SortColumn)
  {
    forall x, y :: x in s && y in s && x != y ==> !(ColumnLeq(x, y, col) && ColumnLeq(y, x, col))
  }

  lemma NoTiesPermutation(a: seq<Transaction>, b: seq<Transaction>, col: SortColumn)
    requires multiset(a) == multiset(b) && NoTies(a, col)
    ensures NoTies(b, col)
  {
    forall x | x in b ensures x in a {
      assert x in multiset(b);
    }
  }

  /** Two sorted permutations of the same non-empty rows without ties start
      with the same row: each first row may precede the other. */
  lemma SortedHeadsAgree(a: seq<Transaction>, b: seq<Transaction>, col: SortColumn, ord: SortOrder)
    requires Sorted(a, col, ord) && Sorted(b, col, ord)
    requires multiset(a) == multiset(b) && NoTies(a, col) && |a| > 0
    ensures |b| > 0 && a[0] == b[0]
  {
    assert |b| == |multiset(b)| == |multiset(a)| > 0;
    assert a[0] in multiset(b) && b[0] in multiset(a);
    var k :| 0 <= k < |b| && b[k] == a[0];
    var m :| 0 <= m < |a| && a[m] == b[0];
  }

  /** Dropping the first row keeps a sequence sorted. */
  lemma SortedTail(a: seq<Transaction>, col: SortColumn, ord: SortOrder)
    requires Sorted(a, col, ord) && |a| > 0
    ensures Sorted(a[1..], col, ord)
  {
  }

  /** Dropping the first row keeps a sequence free of ties. */
  lemma NoTiesTail(a: seq<Transaction>, col: SortColumn)
    requires NoTies(a, col) && |a| > 0
    ensures NoTies(a[1..], col)
  {
    forall x | x in a[1..] ensures x in a {
    }
  }

  lemma TailsPermutation(a: seq<Transaction>, b: seq<Transaction>)
    requires multiset(a) == multiset(b) && |a| > 0 && |b| > 0 && a[0] == b[0]
    ensures multiset(a[1..]) == multiset(b[1..])
  {
    assert a == [a[0]] + a[1..] && b == [b[0]] + b[1..];
    calc {
      multiset(a[1..]);
      multiset(a) - multiset{a[0]};
      multiset(b) - multiset{b[0]};
      multiset(b[1..]);
    }
  }

  /** Without ties there is only one sorted order: any two sorted
      permutations of the same rows are equal. */
  lemma {:induction false} SortedPermutationUnique(a: seq<Transaction>, b: seq<Transaction>,
                                                   col: SortColumn, ord: SortOrder)
    requires Sorted(a, col, ord) && Sorted(b, col, ord)
    requires multiset(a) == multiset(b) && NoTies(a, col)
    ensures a == b
  {
    if a == [] {
      assert |b| == |multiset(b)| == 0;
    } else {
      SortedHeadsAgree(a, b, col, ord);
      TailsPermutation(a, b);
      SortedTail(a, col, ord);
      SortedTail(b, col, ord);
      NoTiesTail(a, col);
      SortedPermutationUnique(a[1..], b[1..], col, ord);
    }
  }
}
