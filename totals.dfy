/** The income and expense totals shown under the transaction listing:
    `df[df['Type'] == kind]['Amount'].sum()` over the rows get_transactions returned. */
module Totals {
  import opened Tables

  /** The sum of `amount` over the rows whose type is `kind`. */
  function Total(rows: seq<Row>, kind: string): real
  {
    if rows == [] then 0.0
    else (if rows[0].kind == kind then rows[0].amount else 0.0) + Total(rows[1..], kind)
  }

  function TotalIncome(rows: seq<Row>): real { Total(rows, "Income") }

  function TotalExpense(rows: seq<Row>): real { Total(rows, "Expense") }

  /** The sum of `amount` over all rows. */
  function Amounts(rows: seq<Row>): real
  {
    if rows == [] then 0.0 else rows[0].amount + Amounts(rows[1..])
  }

  lemma {:induction false} TotalAppend(a: seq<Row>, b: seq<Row>, kind: string)
    ensures Total(a + b, kind) == Total(a, kind) + Total(b, kind)
  {
    if a != [] {
      assert (a + b)[1..] == a[1..] + b;
      TotalAppend(a[1..], b, kind);
    } else {
      assert a + b == b;
    }
  }

  /** The total does not depend on the order of the rows, which the SQL query leaves unspecified. */
  lemma {:induction false} TotalPermutation(a: seq<Row>, b: seq<Row>, kind: string)
    requires multiset(a) == multiset(b)
    ensures Total(a, kind) == Total(b, kind)
    decreases |a|
  {
    if a != [] {
      var x := a[0];
      assert x in multiset(b);
      var j :| 0 <= j < |b| && b[j] == x;
      var rest := b[..j] + b[j + 1..];
      assert b == b[..j] + [x] + b[j + 1..];
      assert a == [x] + a[1..];
      assert multiset(b) == multiset(b[..j]) + multiset([x]) + multiset(b[j + 1..]);
      assert multiset(a) == multiset([x]) + multiset(a[1..]);
      assert multiset(rest) == multiset(b[..j]) + multiset(b[j + 1..]);
      assert multiset(a[1..]) == multiset(a) - multiset([x]);
      assert multiset(rest) == multiset(b) - multiset([x]);
      TotalPermutation(a[1..], rest, kind);
      TotalAppend(b[..j] + [x], b[j + 1..], kind);
      TotalAppend(b[..j], [x], kind);
      TotalAppend(b[..j], b[j + 1..], kind);
    } else {
      assert b == [];
    }
  }

  /** With no row of type `kind` (in particular with no row at all) the total is 0. */
  lemma {:induction false} TotalWithoutKind(rows: seq<Row>, kind: string)
    requires forall i :: 0 <= i < |rows| ==> rows[i].kind != kind
    ensures Total(rows, kind) == 0.0
  {
    if rows != [] {
      TotalWithoutKind(rows[1..], kind);
    }
  }

  /** Non-negative amounts (the form's minimum is 0) give a non-negative total. */
  lemma {:induction false} TotalNonNegative(rows: seq<Row>, kind: string)
    requires forall i :: 0 <= i < |rows| ==> rows[i].amount >= 0.0
    ensures Total(rows, kind) >= 0.0
  {
    if rows != [] {
      TotalNonNegative(rows[1..], kind);
    }
  }

  /** When every row is an Income or an Expense (what the form offers), the two totals split the sum of all amounts. */
  lemma {:induction false} IncomeAndExpenseSplitAmounts(rows: seq<Row>)
    requires forall i :: 0 <= i < |rows| ==> rows[i].kind == "Income" || rows[i].kind == "Expense"
    ensures TotalIncome(rows) + TotalExpense(rows) == Amounts(rows)
  {
    if rows != [] {
      IncomeAndExpenseSplitAmounts(rows[1..]);
    }
  }

  /** A new transaction changes its owner's unfiltered totals by its amount, under its own type only. */
  lemma AddedTransactionTotal(ts: seq<Transaction>, t: Transaction, userId: int, kind: string)
    requires t.userId == Some(userId)
    ensures Total(Project(Selected(ts + [t], userId, None, None)), kind)
         == Total(Project(Selected(ts, userId, None, None)), kind) + (if t.kind == kind then t.amount else 0.0)
  {
    SelectedAppend(ts, [t], userId, None, None);
    assert Selected([t], userId, None, None) == [t];
    ProjectAppend(Selected(ts, userId, None, None), [t]);
    assert Project([t]) == [RowOf(t)];
    assert Total([RowOf(t)], kind) == if t.kind == kind then t.amount else 0.0;
    TotalAppend(Project(Selected(ts, userId, None, None)), [RowOf(t)], kind);
  }
}
