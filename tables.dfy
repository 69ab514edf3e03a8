/** The records of the `users` and `transactions` tables and the value-level meaning of the
    statements app.py runs against them: the credential lookup, the WHERE clause that
    get_transactions builds, the orphan UPDATE and the `user_id` column migration. */
module Tables {
  import opened Dates

  datatype Option<T> = None | Some(value: T)

  /** A row of `users`; `password` holds the stored digest. */
  datatype User = User(id: int, username: string, password: string)

  /** A row of `transactions`. `userId` is `None` while the table has no `user_id` column;
      `kind` is the `type` column, which the store does not restrict. */
  datatype Transaction = Transaction(
    id: int, userId: Option<int>, date: string, kind: string,
    category: string, description: string, amount: real)

  /** The columns get_transactions selects: date, type, category, description, amount. */
  datatype Row = Row(date: string, kind: string, category: string, description: string, amount: real)

  // ---------------------------------------------------------------- users

  predicate UsernameTaken(users: seq<User>, name: string)
  {
    exists i :: 0 <= i < |users| && users[i].username == name
  }

  /** The `UNIQUE` constraint on `users.username`. */
  predicate UniqueUsernames(users: seq<User>)
  {
    forall i, j :: 0 <= i < j < |users| ==> users[i].username != users[j].username
  }

  predicate HasCredentials(u: User, name: string, digest: string)
  {
    u.username == name && u.password == digest
  }

  /** `SELECT * FROM users WHERE username=? AND password=?` followed by `fetchone()`. */
  function FindCredentials(users: seq<User>, name: string, digest: string): (r: Option<User>)
    ensures r.Some? <==> exists i :: 0 <= i < |users| && HasCredentials(users[i], name, digest)
    ensures r.Some? ==> r.value in users && HasCredentials(r.value, name, digest)
  {
    if users == [] then None
    else if HasCredentials(users[0], name, digest) then Some(users[0])
    else
      var r := FindCredentials(users[1..], name, digest);
      assert forall i :: 1 <= i < |users| ==> users[i] == users[1..][i - 1];
      r
  }

  /** With unique usernames, a user whose username and digest match is the one the lookup returns. */
  lemma CredentialsDetermineUser(users: seq<User>, name: string, digest: string, i: int)
    requires UniqueUsernames(users)
    requires 0 <= i < |users| && HasCredentials(users[i], name, digest)
    ensures FindCredentials(users, name, digest) == Some(users[i])
  {
  }

  /** `SELECT id FROM users WHERE username=?` followed by `fetchone()[0]`. */
  function IdOf(users: seq<User>, name: string): (id: int)
    requires UsernameTaken(users, name)
    ensures exists i :: 0 <= i < |users| && users[i].username == name && users[i].id == id
  {
    if users[0].username == name then users[0].id
    else
      assert UsernameTaken(users[1..], name) by {
        var i :| 0 <= i < |users| && users[i].username == name;
        assert users[1..][i - 1] == users[i];
      }
      var id := IdOf(users[1..], name);
      assert forall i :: 1 <= i < |users| ==> users[i] == users[1..][i - 1];
      id
  }

  // ---------------------------------------------------------------- retrieval

  /** Python truthiness of the optional `month` and `year` arguments: not `None` and not 0. */
  predicate Truthy(o: Option<int>) { o.Some? && o.value != 0 }

  /** One conjunct of the WHERE clause with its bound parameter. */
  datatype Condition =
    | OwnerIs(userId: int)     // user_id=?
    | MonthIs(month: string)   // strftime('%m', date) = ?
    | YearIs(year: string)     // strftime('%Y', date) = ?

  /** A condition on one row; strftime of a string that is not a date is NULL, and NULL = ? never holds. */
  predicate Holds(c: Condition, t: Transaction)
  {
    match c
    case OwnerIs(u) => t.userId == Some(u)
    case MonthIs(m) => IsDateShape(t.date) && t.date[5..7] == m
    case YearIs(y) => IsDateShape(t.date) && t.date[0..4] == y
  }

  predicate HoldsAll(conds: seq<Condition>, t: Transaction)
  {
    forall i :: 0 <= i < |conds| ==> Holds(conds[i], t)
  }

  /** The WHERE clause get_transactions sends: the owner, then the month and the year when truthy. */
  function QueryConditions(userId: int, month: Option<int>, year: Option<int>): seq<Condition>
  {
    [OwnerIs(userId)]
    + (if Truthy(month) then [MonthIs(ZeroPad(month.value, 2))] else [])
    + (if Truthy(year) then [YearIs(Decimal(year.value))] else [])
  }

  /** The rows of `ts` that satisfy every condition, in table order. */
  function Where(ts: seq<Transaction>, conds: seq<Condition>): (r: seq<Transaction>)
    ensures |r| <= |ts|
    ensures forall i :: 0 <= i < |r| ==> r[i] in ts && HoldsAll(conds, r[i])
  {
    if ts == [] then []
    else (if HoldsAll(conds, ts[0]) then [ts[0]] else []) + Where(ts[1..], conds)
  }

  /** What the listing is meant to contain, stated on the calendar fields of the date. */
  predicate Matches(t: Transaction, userId: int, month: Option<int>, year: Option<int>)
  {
    && t.userId == Some(userId)
    && (Truthy(month) ==> IsDateShape(t.date) && MonthOf(t.date) == month.value)
    && (Truthy(year) ==> IsDateShape(t.date) && 1000 <= year.value && YearOf(t.date) == year.value)
  }

  function Selected(ts: seq<Transaction>, userId: int, month: Option<int>, year: Option<int>): seq<Transaction>
  {
    if ts == [] then []
    else (if Matches(ts[0], userId, month, year) then [ts[0]] else []) + Selected(ts[1..], userId, month, year)
  }

  function RowOf(t: Transaction): Row
  {
    Row(t.date, t.kind, t.category, t.description, t.amount)
  }

  function Project(ts: seq<Transaction>): seq<Row>
  {
    if ts == [] then [] else [RowOf(ts[0])] + Project(ts[1..])
  }

  predicate AllDatesWellFormed(ts: seq<Transaction>)
  {
    forall i :: 0 <= i < |ts| ==> IsFullDate(ts[i].date)
  }

  /** The SQL query selects exactly the rows the calendar-level description selects, in the same order. */
  lemma {:induction false} QueryMatchesSelected(ts: seq<Transaction>, userId: int, month: Option<int>, year: Option<int>)
    requires AllDatesWellFormed(ts)
    ensures Where(ts, QueryConditions(userId, month, year)) == Selected(ts, userId, month, year)
  {
    if ts != [] {
      var t, conds := ts[0], QueryConditions(userId, month, year);
      assert IsFullDate(t.date);
      if month.Some? { MonthFilterExact(t.date, month.value); }
      if year.Some? { YearFilterExact(t.date, year.value); }
      assert HoldsAll(conds, t) <==> Matches(t, userId, month, year) by {
        if HoldsAll(conds, t) {
          assert Holds(conds[0], t);
          if Truthy(month) { assert Holds(conds[1], t); }
          if Truthy(year) { assert Holds(conds[|conds| - 1], t); }
        }
      }
      assert AllDatesWellFormed(ts[1..]) by {
        forall i | 0 <= i < |ts| - 1 ensures IsFullDate(ts[1..][i].date) { assert ts[1..][i] == ts[i + 1]; }
      }
      QueryMatchesSelected(ts[1..], userId, month, year);
    }
  }

  /** Soundness and completeness of the listing: a row is listed iff it is in the table and matches. */
  lemma {:induction false} SelectedMembership(ts: seq<Transaction>, userId: int, month: Option<int>, year: Option<int>, t: Transaction)
    ensures t in Selected(ts, userId, month, year) <==> t in ts && Matches(t, userId, month, year)
  {
    if ts != [] {
      SelectedMembership(ts[1..], userId, month, year, t);
      assert ts == [ts[0]] + ts[1..];
    }
  }

  /** The listing keeps the table's rows in table order (a subsequence, each row at most as often). */
  lemma {:induction false} SelectedIsSubMultiset(ts: seq<Transaction>, userId: int, month: Option<int>, year: Option<int>)
    ensures multiset(Selected(ts, userId, month, year)) <= multiset(ts)
  {
    if ts != [] {
      SelectedIsSubMultiset(ts[1..], userId, month, year);
      assert ts == [ts[0]] + ts[1..];
    }
  }

  lemma {:induction false} SelectedAppend(a: seq<Transaction>, b: seq<Transaction>, userId: int, month: Option<int>, year: Option<int>)
    ensures Selected(a + b, userId, month, year) == Selected(a, userId, month, year) + Selected(b, userId, month, year)
  {
    if a != [] {
      assert (a + b)[1..] == a[1..] + b;
      SelectedAppend(a[1..], b, userId, month, year);
    } else {
      assert a + b == b;
    }
  }

  lemma {:induction false} ProjectAppend(a: seq<Transaction>, b: seq<Transaction>)
    ensures Project(a + b) == Project(a) + Project(b)
  {
    if a != [] {
      assert (a + b)[1..] == a[1..] + b;
      ProjectAppend(a[1..], b);
    } else {
      assert a + b == b;
    }
  }

  // ---------------------------------------------------------------- orphans and migration

  /** `UPDATE transactions SET user_id=? WHERE user_id=0`, on one row. */
  function ClaimOrphan(t: Transaction, owner: int): Transaction
  {
    if t.userId == Some(0) then t.(userId := Some(owner)) else t
  }

  function ClaimOrphans(ts: seq<Transaction>, owner: int): (r: seq<Transaction>)
    ensures |r| == |ts|
  {
    if ts == [] then [] else [ClaimOrphan(ts[0], owner)] + ClaimOrphans(ts[1..], owner)
  }

  /** Every orphan row (user_id 0) gets the new owner and nothing else changes: no row is added,
      dropped or moved, and rows with another user_id are untouched. */
  lemma {:induction false} ClaimOrphansEffect(ts: seq<Transaction>, owner: int)
    ensures |ClaimOrphans(ts, owner)| == |ts|
    ensures forall i :: 0 <= i < |ts| && ts[i].userId == Some(0) ==> ClaimOrphans(ts, owner)[i] == ts[i].(userId := Some(owner))
    ensures forall i :: 0 <= i < |ts| && ts[i].userId != Some(0) ==> ClaimOrphans(ts, owner)[i] == ts[i]
  {
    if ts != [] {
      ClaimOrphansEffect(ts[1..], owner);
      var r := ClaimOrphans(ts, owner);
      assert forall i :: 1 <= i < |ts| ==> r[i] == ClaimOrphans(ts[1..], owner)[i - 1] && ts[i] == ts[1..][i - 1];
    }
  }

  /** Running the orphan UPDATE a second time changes nothing. */
  lemma {:induction false} ClaimOrphansIdempotent(ts: seq<Transaction>, owner: int)
    ensures ClaimOrphans(ClaimOrphans(ts, owner), owner) == ClaimOrphans(ts, owner)
  {
    if ts != [] {
      ClaimOrphansIdempotent(ts[1..], owner);
    }
  }

  /** After the UPDATE with a non-zero owner no orphan is left. */
  lemma {:induction false} ClaimOrphansLeavesNoOrphan(ts: seq<Transaction>, owner: int)
    requires owner != 0
    ensures forall i :: 0 <= i < |ClaimOrphans(ts, owner)| ==> ClaimOrphans(ts, owner)[i].userId != Some(0)
  {
    ClaimOrphansEffect(ts, owner);
  }

  /** Another user's listing is the same before and after the orphans are claimed. */
  lemma {:induction false} ClaimOrphansKeepsOtherListings(ts: seq<Transaction>, owner: int, other: int, month: Option<int>, year: Option<int>)
    requires other != 0 && other != owner
    ensures Selected(ClaimOrphans(ts, owner), other, month, year) == Selected(ts, other, month, year)
  {
    if ts != [] {
      ClaimOrphansKeepsOtherListings(ts[1..], owner, other, month, year);
    }
  }

  /** The claiming user's full listing after the UPDATE holds its own old rows and every former
      orphan, now owned by it, and nothing else. */
  lemma {:induction false} ClaimOrphansJoinOwnerListing(ts: seq<Transaction>, owner: int, t: Transaction)
    ensures t in Selected(ClaimOrphans(ts, owner), owner, None, None)
        <==> t.userId == Some(owner) && (t in ts || t.(userId := Some(0)) in ts)
  {
    SelectedMembership(ClaimOrphans(ts, owner), owner, None, None, t);
    if t.userId == Some(owner) {
      ClaimOrphansMembership(ts, owner, t);
    }
  }

  lemma {:induction false} ClaimOrphansMembership(ts: seq<Transaction>, owner: int, t: Transaction)
    requires t.userId == Some(owner)
    ensures t in ClaimOrphans(ts, owner) <==> t in ts || t.(userId := Some(0)) in ts
  {
    if ts != [] {
      ClaimOrphansMembership(ts[1..], owner, t);
      assert ts == [ts[0]] + ts[1..];
      if ts[0].userId == Some(0) && ClaimOrphan(ts[0], owner) == t {
        assert t.(userId := Some(0)) == ts[0];
      }
    }
  }

  /** `ALTER TABLE transactions ADD COLUMN user_id INTEGER DEFAULT 0`: the new column reads 0 on every row. */
  function AddUserIdColumn(ts: seq<Transaction>): (r: seq<Transaction>)
    ensures |r| == |ts|
  {
    if ts == [] then [] else [ts[0].(userId := Some(0))] + AddUserIdColumn(ts[1..])
  }

  lemma {:induction false} AddUserIdColumnEffect(ts: seq<Transaction>)
    ensures |AddUserIdColumn(ts)| == |ts|
    ensures forall i :: 0 <= i < |ts| ==> AddUserIdColumn(ts)[i] == ts[i].(userId := Some(0))
  {
    if ts != [] {
      AddUserIdColumnEffect(ts[1..]);
      var r := AddUserIdColumn(ts);
      assert forall i :: 1 <= i < |ts| ==> r[i] == AddUserIdColumn(ts[1..])[i - 1] && ts[i] == ts[1..][i - 1];
    }
  }
}
