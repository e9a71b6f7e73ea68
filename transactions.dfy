/** The `transactions` table and the meaning of the SQL statements the swap
    controller runs against it, as operations on the rows in insertion order. */
module Transactions {
  import opened Wrappers

  /** One row. `amount`, `resultAmount` and `price` are DECIMAL values with
      eight fractional digits, held as counts of 10^-8 units (module Money);
      `createdAt` is the row's timestamp. */
  datatype Transaction = Transaction(
    id: nat,
    userId: nat,
    fromCurrency: string,
    toCurrency: string,
    amount: int,
    resultAmount: int,
    price: int,
    status: string,
    createdAt: int)

  /** The WHERE clause of a query. Every clause the controller builds starts
      with `user_id = ?`. */
  datatype Criteria =
    | ByOwner(userId: nat)
      // history: `user_id = ?`, plus `AND status = ?` when a status is given ("" = none)
    | History(userId: nat, status: string)
      // search: `user_id = ? AND (from_currency = ? OR to_currency = ?)`;
      // an absent currency is bound as NULL, and `= NULL` holds of no row
    | Search(userId: nat, currency: Option<string>)

  /** Whether row `t` satisfies clause `c`. Whatever the clause, only the
      owner's rows satisfy it. */
  predicate Matches(t: Transaction, c: Criteria): (b: bool)
    ensures b ==> t.userId == c.userId
  {
    match c
    case ByOwner(u) => t.userId == u
    case History(u, st) => t.userId == u && (st == "" || t.status == st)
    case Search(u, cur) =>
      t.userId == u && cur.Some? && (t.fromCurrency == cur.value || t.toCurrency == cur.value)
  }

  /** `SELECT * ... WHERE c`, in table order: exactly the matching rows. */
  function Select(s: seq<Transaction>, c: Criteria): (r: seq<Transaction>)
    ensures forall t :: t in r <==> t in s && Matches(t, c)
  {
    if s == [] then []
    else
      var last := s[|s| - 1];
      assert s == s[..|s| - 1] + [last];
      if Matches(last, c) then Select(s[..|s| - 1], c) + [last] else Select(s[..|s| - 1], c)
  }

  /** Row ids are the table's primary key. */
  ghost predicate UniqueIds(s: seq<Transaction>)
  {
    forall i, j :: 0 <= i < j < |s| ==> s[i].id != s[j].id
  }

  /** `SELECT * FROM transactions WHERE id = ? AND user_id = ?`, first row. */
  function FindOwned(s: seq<Transaction>, userId: nat, id: nat): (r: Option<Transaction>)
    ensures r.Some? ==> r.value in s && r.value.id == id && r.value.userId == userId
    ensures r.None? ==> forall t :: t in s ==> !(t.id == id && t.userId == userId)
  {
    if s == [] then None
    else
      var last := s[|s| - 1];
      assert s == s[..|s| - 1] + [last];
      match FindOwned(s[..|s| - 1], userId, id)
      case Some(t) => Some(t)
      case None => if last.id == id && last.userId == userId then Some(last) else None
  }

  /** `UPDATE transactions SET status = ? WHERE id = ?`: note that the
      statement itself is not scoped by owner. */
  function WithStatus(s: seq<Transaction>, id: nat, status: string): (r: seq<Transaction>)
    ensures |r| == |s|
    ensures forall i :: 0 <= i < |s| ==> r[i].(status := s[i].status) == s[i]
    ensures forall i :: 0 <= i < |s| && s[i].id == id ==> r[i].status == status
    ensures forall i :: 0 <= i < |s| && s[i].id != id ==> r[i] == s[i]
  {
    seq(|s|, i requires 0 <= i < |s| => if s[i].id == id then s[i].(status := status) else s[i])
  }

  /** `DELETE FROM transactions WHERE id = ?`: not scoped by owner either. */
  function WithoutId(s: seq<Transaction>, id: nat): (r: seq<Transaction>)
    ensures forall t :: t in r <==> t in s && t.id != id
    ensures multiset(r) <= multiset(s)
  {
    if s == [] then []
    else
      var last := s[|s| - 1];
      assert s == s[..|s| - 1] + [last];
      if last.id == id then WithoutId(s[..|s| - 1], id) else WithoutId(s[..|s| - 1], id) + [last]
  }

  /** Narrowing to the caller's rows first does not change a query scoped to
      that caller: its result depends on the caller's own rows only. */
  lemma {:induction false} SelectWithinOwner(s: seq<Transaction>, c: Criteria)
    ensures Select(Select(s, ByOwner(c.userId)), c) == Select(s, c)
  {
    if s != [] {
      var init, last := s[..|s| - 1], s[|s| - 1];
      SelectWithinOwner(init, c);
      var owned := Select(init, ByOwner(c.userId));
      assert s == init + [last];
      SelectSnoc(init, last, c);
      SelectSnoc(init, last, ByOwner(c.userId));
      if last.userId == c.userId {
        SelectSnoc(owned, last, c);
      }
    }
  }

  /** The ownership lookup sees only the caller's rows: a row of another user
      with the same id is as good as absent. */
  lemma {:induction false} FindOwnedWithinOwner(s: seq<Transaction>, userId: nat, id: nat)
    ensures FindOwned(Select(s, ByOwner(userId)), userId, id) == FindOwned(s, userId, id)
  {
    if s != [] {
      var init, last := s[..|s| - 1], s[|s| - 1];
      FindOwnedWithinOwner(init, userId, id);
      var owned := Select(init, ByOwner(userId));
      assert s == init + [last];
      FindOwnedSnoc(init, last, userId, id);
      SelectSnoc(init, last, ByOwner(userId));
      if last.userId == userId {
        FindOwnedSnoc(owned, last, userId, id);
      }
    }
  }

  lemma SelectSnoc(s: seq<Transaction>, x: Transaction, c: Criteria)
    ensures Select(s + [x], c) == if Matches(x, c) then Select(s, c) + [x] else Select(s, c)
  {
    assert (s + [x])[..|s|] == s;
  }

  lemma FindOwnedSnoc(s: seq<Transaction>, x: Transaction, userId: nat, id: nat)
    ensures FindOwned(s + [x], userId, id)
         == if FindOwned(s, userId, id).Some? then FindOwned(s, userId, id)
            else if x.id == id && x.userId == userId then Some(x) else None
  {
    assert (s + [x])[..|s|] == s;
  }

  /** After an UPDATE of a row the caller owns, looking that row up gives it
      back with the new status and every other field as it was; looking up any
      other id, or any id as another user, gives what it gave before. */
  lemma UpdateChangesOnlyThatStatus(s: seq<Transaction>, userId: nat, id: nat, status: string,
                                    otherUser: nat, otherId: nat)
    requires UniqueIds(s)
    requires FindOwned(s, userId, id).Some?
    ensures UniqueIds(WithStatus(s, id, status)) && |WithStatus(s, id, status)| == |s|
    ensures FindOwned(WithStatus(s, id, status), userId, id)
         == Some(FindOwned(s, userId, id).value.(status := status))
    ensures otherId != id ==>
              FindOwned(WithStatus(s, id, status), otherUser, otherId) == FindOwned(s, otherUser, otherId)
    ensures otherUser != userId ==>
              Select(WithStatus(s, id, status), ByOwner(otherUser)) == Select(s, ByOwner(otherUser))
  {
    var r := WithStatus(s, id, status);
    var t := FindOwned(s, userId, id).value;
    var k :| 0 <= k < |s| && s[k] == t;
    forall i | 0 <= i < |s| && s[i].id == id ensures i == k {
    }
    FindOwnedAt(r, k, userId, id);
    if otherId != id {
      FindOwnedUnchanged(s, r, otherUser, otherId);
    }
    if otherUser != userId {
      SelectUnchanged(s, r, ByOwner(otherUser));
    }
  }

  /** After a DELETE of a row the caller owns, exactly that row is gone: the
      table shrinks by one, the row is no longer found, and every other lookup
      and every other user's rows are as before. */
  lemma DeleteRemovesOnlyThatRow(s: seq<Transaction>, userId: nat, id: nat,
                                 otherUser: nat, otherId: nat)
    requires UniqueIds(s)
    requires FindOwned(s, userId, id).Some?
    ensures UniqueIds(WithoutId(s, id))
    ensures multiset(WithoutId(s, id)) + multiset{FindOwned(s, userId, id).value} == multiset(s)
    ensures FindOwned(WithoutId(s, id), userId, id).None?
    ensures otherId != id ==>
              FindOwned(WithoutId(s, id), otherUser, otherId) == FindOwned(s, otherUser, otherId)
    ensures otherUser != userId ==>
              Select(WithoutId(s, id), ByOwner(otherUser)) == Select(s, ByOwner(otherUser))
  {
    var t := FindOwned(s, userId, id).value;
    WithoutIdShape(s, id);
    WithoutIdRemovesOne(s, id, t);
    if otherId != id {
      WithoutIdKeepsLookup(s, id, otherUser, otherId);
    }
    if otherUser != userId {
      WithoutIdKeepsOthers(s, id, userId, otherUser);
    }
  }

  // ---- helpers for the two lemmas above ----

  lemma {:induction false} FindOwnedAt(s: seq<Transaction>, k: nat, userId: nat, id: nat)
    requires UniqueIds(s) && k < |s| && s[k].id == id && s[k].userId == userId
    ensures FindOwned(s, userId, id) == Some(s[k])
  {
    var init := s[..|s| - 1];
    if k < |s| - 1 {
      FindOwnedAt(init, k, userId, id);
    } else {
    }
  }

  /** Two tables with the same ids row by row, equal on every row that
      carries `id`, answer a lookup of `id` alike. */
  lemma {:induction false} FindOwnedUnchanged(s: seq<Transaction>, r: seq<Transaction>, userId: nat, id: nat)
    requires |r| == |s|
    requires forall i :: 0 <= i < |s| && (s[i].id == id || r[i].id == id) ==> r[i] == s[i]
    requires forall i :: 0 <= i < |s| ==> r[i].id == s[i].id
    ensures FindOwned(r, userId, id) == FindOwned(s, userId, id)
  {
    if s != [] {
      FindOwnedUnchanged(s[..|s| - 1], r[..|r| - 1], userId, id);
    }
  }

  lemma {:induction false} SelectUnchanged(s: seq<Transaction>, r: seq<Transaction>, c: Criteria)
    requires |r| == |s|
    requires forall i :: 0 <= i < |s| && (s[i].userId == c.userId || r[i].userId == c.userId) ==> r[i] == s[i]
    requires forall i :: 0 <= i < |s| ==> r[i].userId == s[i].userId
    ensures Select(r, c) == Select(s, c)
  {
    if s != [] {
      SelectUnchanged(s[..|s| - 1], r[..|r| - 1], c);
    }
  }

  lemma {:induction false} WithoutIdShape(s: seq<Transaction>, id: nat)
    requires UniqueIds(s)
    ensures UniqueIds(WithoutId(s, id))
  {
    if s != [] {
      var init, last := s[..|s| - 1], s[|s| - 1];
      WithoutIdShape(init, id);
      var w := WithoutId(init, id);
      if last.id != id {
        forall j | 0 <= j < |w| ensures w[j].id != last.id {
          assert w[j] in init;
        }
      }
    }
  }

  lemma {:induction false} WithoutIdRemovesOne(s: seq<Transaction>, id: nat, t: Transaction)
    requires UniqueIds(s) && t in s && t.id == id
    ensures multiset(WithoutId(s, id)) + multiset{t} == multiset(s)
  {
    var init, last := s[..|s| - 1], s[|s| - 1];
    assert s == init + [last];
    if last == t {
      forall u | u in init ensures u.id != id {
        var j :| 0 <= j < |init| && init[j] == u;
      }
      WithoutIdNone(init, id);
    } else {
      assert t in init;
      WithoutIdRemovesOne(init, id, t);
    }
  }

  lemma {:induction false} WithoutIdNone(s: seq<Transaction>, id: nat)
    requires forall u :: u in s ==> u.id != id
    ensures WithoutId(s, id) == s
  {
    if s != [] {
      var init := s[..|s| - 1];
      assert s == init + [s[|s| - 1]];
      WithoutIdNone(init, id);
    }
  }

  lemma {:induction false} WithoutIdKeepsLookup(s: seq<Transaction>, id: nat, userId: nat, otherId: nat)
    requires otherId != id
    ensures FindOwned(WithoutId(s, id), userId, otherId) == FindOwned(s, userId, otherId)
  {
    if s != [] {
      var init, last := s[..|s| - 1], s[|s| - 1];
      WithoutIdKeepsLookup(init, id, userId, otherId);
      if last.id != id {
        FindOwnedSnoc(WithoutId(init, id), last, userId, otherId);
      }
    }
  }

  lemma {:induction false} WithoutIdKeepsOthers(s: seq<Transaction>, id: nat, owner: nat, otherUser: nat)
    requires otherUser != owner
    requires forall t :: t in s && t.id == id ==> t.userId == owner
    ensures Select(WithoutId(s, id), ByOwner(otherUser)) == Select(s, ByOwner(otherUser))
  {
    if s != [] {
      var init, last := s[..|s| - 1], s[|s| - 1];
      assert s == init + [last];
      WithoutIdKeepsOthers(init, id, owner, otherUser);
      if last.id != id {
        SelectSnoc(WithoutId(init, id), last, ByOwner(otherUser));
      }
    }
  }

  /** With unique ids the selected rows are distinct, so their number is the
      number of matching rows of the table. */
  lemma {:induction false} SelectCount(s: seq<Transaction>, c: Criteria)
    requires UniqueIds(s)
    ensures |Select(s, c)| == |MatchingRows(s, c)|
  {
    if s != [] {
      var init, last := s[..|s| - 1], s[|s| - 1];
      assert s == init + [last];
      SelectCount(init, c);
      MatchingRowsSnoc(init, last, c);
      if Matches(last, c) {
        forall j | 0 <= j < |init| ensures init[j] != last {
          assert s[j].id != s[|s| - 1].id;
        }
      }
    }
  }

  /** The distinct rows of the table that satisfy a WHERE clause. */
  ghost function MatchingRows(s: seq<Transaction>, c: Criteria): set<Transaction>
  {
    set t | t in s && Matches(t, c)
  }

  lemma MatchingRowsSnoc(s: seq<Transaction>, x: Transaction, c: Criteria)
    ensures MatchingRows(s + [x], c) == if Matches(x, c) then MatchingRows(s, c) + {x} else MatchingRows(s, c)
  {
  }

  /** When every row matches, the selection is the whole table. */
  lemma {:induction false} SelectAll(s: seq<Transaction>, c: Criteria)
    requires forall t :: t in s ==> Matches(t, c)
    ensures Select(s, c) == s
  {
    if s != [] {
      var init := s[..|s| - 1];
      assert s == init + [s[|s| - 1]];
      SelectAll(init, c);
    }
  }

  /** When no row matches, the selection is empty. */
  lemma {:induction false} SelectNone(s: seq<Transaction>, c: Criteria)
    requires forall t :: t in s ==> !Matches(t, c)
    ensures Select(s, c) == []
  {
    if s != [] {
      var init := s[..|s| - 1];
      assert s == init + [s[|s| - 1]];
      SelectNone(init, c);
    }
  }
}
