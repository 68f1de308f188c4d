/**
 * The accounts table: host bankrolls. Rows are kept in ascending owner order, the order
 * a table keyed by owner is scanned in, so an owner has at most one row.
 */
module Ledger {
  import opened Tables

  predicate SortedByOwner(rows: seq<Account>)
  {
    forall i, j :: 0 <= i < j < |rows| ==> rows[i].owner < rows[j].owner
  }

  /** The bankroll of every host that has a row. */
  ghost function Bankroll(rows: seq<Account>): map<Name, int>
  {
    if rows == [] then map[] else Bankroll(rows[1..])[rows[0].owner := rows[0].balance]
  }

  /** A host's bankroll, zero when it has no row. */
  ghost function BalanceOf(rows: seq<Account>, owner: Name): int
  {
    if owner in Bankroll(rows) then Bankroll(rows)[owner] else 0
  }

  /** Lookup through the byowner index. */
  function Find(rows: seq<Account>, owner: Name): (r: Option<nat>)
    ensures r.Some? ==> r.value < |rows| && rows[r.value].owner == owner
    ensures r.None? ==> forall i :: 0 <= i < |rows| ==> rows[i].owner != owner
  {
    if rows == [] then None
    else if rows[0].owner == owner then Some(0)
    else match Find(rows[1..], owner)
      case None => None
      case Some(i) => Some(i + 1)
  }

  /** The row of `owner` in a sorted table is the only one, so the lookup finds that row. */
  lemma FindUnique(rows: seq<Account>, owner: Name, i: nat)
    requires SortedByOwner(rows)
    requires i < |rows| && rows[i].owner == owner
    ensures Find(rows, owner) == Some(i)
  {
  }

  /** The owners with a bankroll are exactly the owners the byowner index finds. */
  lemma {:induction false} BankrollKeys(rows: seq<Account>, owner: Name)
    ensures owner in Bankroll(rows) <==> Find(rows, owner).Some?
  {
    if rows != [] {
      BankrollKeys(rows[1..], owner);
    }
  }

  /** In a sorted table the bankroll of a row's owner is that row's balance. */
  lemma {:induction false} BankrollAt(rows: seq<Account>, i: nat)
    requires SortedByOwner(rows) && i < |rows|
    ensures rows[i].owner in Bankroll(rows) && Bankroll(rows)[rows[i].owner] == rows[i].balance
  {
    if i > 0 {
      BankrollAt(rows[1..], i - 1);
      assert rows[1..][i - 1] == rows[i];
    }
  }

  /** Inserts the row of a new owner at its place in owner order. */
  function InsertByOwner(rows: seq<Account>, a: Account): (r: seq<Account>)
    requires SortedByOwner(rows)
    requires forall i :: 0 <= i < |rows| ==> rows[i].owner != a.owner
    ensures SortedByOwner(r)
    ensures |r| == |rows| + 1
    ensures forall x :: x in r <==> x == a || x in rows
  {
    if rows == [] || a.owner < rows[0].owner then [a] + rows
    else
      var tail := InsertByOwner(rows[1..], a);
      assert forall x :: x in tail ==> rows[0].owner < x.owner by {
        forall x | x in tail ensures rows[0].owner < x.owner {
          if x != a {
            var j :| 0 <= j < |rows[1..]| && rows[1..][j] == x;
            assert rows[j + 1] == x;
          }
        }
      }
      [rows[0]] + tail
  }

  function RemoveAt(rows: seq<Account>, i: nat): (r: seq<Account>)
    requires i < |rows|
  {
    rows[..i] + rows[i + 1..]
  }

  /** Inserting a new owner's row adds exactly that entry to the bankroll. */
  lemma {:induction false} BankrollInsert(rows: seq<Account>, a: Account)
    requires SortedByOwner(rows)
    requires forall i :: 0 <= i < |rows| ==> rows[i].owner != a.owner
    ensures Bankroll(InsertByOwner(rows, a)) == Bankroll(rows)[a.owner := a.balance]
  {
    var r := InsertByOwner(rows, a);
    if rows == [] || a.owner < rows[0].owner {
      assert r[1..] == rows;
    } else {
      BankrollInsert(rows[1..], a);
      assert r[1..] == InsertByOwner(rows[1..], a);
    }
  }

  /** Overwriting one row's balance changes only that owner's bankroll. */
  lemma {:induction false} BankrollUpdate(rows: seq<Account>, i: nat, balance: int)
    requires SortedByOwner(rows) && i < |rows|
    ensures SortedByOwner(rows[i := Account(rows[i].owner, balance)])
    ensures Bankroll(rows[i := Account(rows[i].owner, balance)]) == Bankroll(rows)[rows[i].owner := balance]
  {
    var r := rows[i := Account(rows[i].owner, balance)];
    if i == 0 {
      assert r[1..] == rows[1..];
    } else {
      BankrollUpdate(rows[1..], i - 1, balance);
      assert r[1..] == rows[1..][i - 1 := Account(rows[i].owner, balance)];
      assert rows[0].owner != rows[i].owner;
    }
  }

  lemma MapRemoveUpdate(m: map<Name, int>, gone: Name, k: Name, v: int)
    requires gone != k
    ensures (m - {gone})[k := v] == m[k := v] - {gone}
  {
  }

  /** Removing a row keeps the table in owner order. */
  lemma RemoveKeepsSorted(rows: seq<Account>, i: nat)
    requires SortedByOwner(rows) && i < |rows|
    ensures SortedByOwner(RemoveAt(rows, i))
  {
    var r := RemoveAt(rows, i);
    assert forall j :: 0 <= j < |r| ==> r[j] == if j < i then rows[j] else rows[j + 1];
  }

  /** Removing the first row removes exactly its owner from the bankroll. */
  lemma BankrollRemoveFirst(rows: seq<Account>)
    requires SortedByOwner(rows) && rows != []
    ensures Bankroll(rows[1..]) == Bankroll(rows) - {rows[0].owner}
  {
    var m := Bankroll(rows[1..]);
    BankrollKeys(rows[1..], rows[0].owner);
    assert rows[0].owner !in m;
    assert m[rows[0].owner := rows[0].balance] - {rows[0].owner} == m;
  }

  /** Removing a row removes exactly that owner from the bankroll. */
  lemma {:induction false} BankrollRemove(rows: seq<Account>, i: nat)
    requires SortedByOwner(rows) && i < |rows|
    ensures SortedByOwner(RemoveAt(rows, i))
    ensures Bankroll(RemoveAt(rows, i)) == Bankroll(rows) - {rows[i].owner}
  {
    RemoveKeepsSorted(rows, i);
    var r := RemoveAt(rows, i);
    if i == 0 {
      assert r == rows[1..];
      BankrollRemoveFirst(rows);
    } else {
      var tail := RemoveAt(rows[1..], i - 1);
      BankrollRemove(rows[1..], i - 1);
      assert r[1..] == tail && r[0] == rows[0];
      assert rows[0].owner != rows[i].owner;
      calc {
        Bankroll(r);
        Bankroll(tail)[rows[0].owner := rows[0].balance];
        (Bankroll(rows[1..]) - {rows[i].owner})[rows[0].owner := rows[0].balance];
        { MapRemoveUpdate(Bankroll(rows[1..]), rows[i].owner, rows[0].owner, rows[0].balance); }
        Bankroll(rows[1..])[rows[0].owner := rows[0].balance] - {rows[i].owner};
      }
    }
  }

  /**
   * `add_balance`, with the table keyed by owner: an existing owner's bankroll grows by `value`;
   * a new owner gets a row holding `value`, unless the minimum is enforced and not met.
   */
  function Credit(rows: seq<Account>, owner: Name, value: int, enforceMin: bool): (r: Result<seq<Account>>)
    requires SortedByOwner(rows)
    ensures r.Err? <==> owner !in Bankroll(rows) && enforceMin && value < MIN_BALANCE
    ensures r.Err? ==> r.error == BelowMinimumBalance
    ensures r.Ok? ==> SortedByOwner(r.value)
    ensures r.Ok? ==> Bankroll(r.value) == Bankroll(rows)[owner := BalanceOf(rows, owner) + value]
  {
    BankrollKeys(rows, owner);
    match Find(rows, owner)
    case Some(i) =>
      BankrollAt(rows, i);
      BankrollUpdate(rows, i, rows[i].balance + value);
      Ok(rows[i := Account(owner, rows[i].balance + value)])
    case None =>
      if enforceMin && value < MIN_BALANCE then Err(BelowMinimumBalance)
      else
        BankrollInsert(rows, Account(owner, value));
        Ok(InsertByOwner(rows, Account(owner, value)))
  }

  /** A deposit meeting the minimum always opens a row, whoever else has one. */
  lemma CreditOpensAccount(rows: seq<Account>, owner: Name, value: int)
    requires SortedByOwner(rows)
    requires owner !in Bankroll(rows) && value >= MIN_BALANCE
    ensures Credit(rows, owner, value, true).Ok?
    ensures var r := Credit(rows, owner, value, true).value;
      owner in Bankroll(r) && Bankroll(r)[owner] == value && |r| == |rows| + 1
  {
    BankrollKeys(rows, owner);
  }

  /**
   * `add_balance` as written: every row's primary key is the symbol code, so `emplace` of a
   * second row violates the table's uniqueness and aborts.
   */
  function CreditAsWritten(rows: seq<Account>, owner: Name, value: int, enforceMin: bool): (r: Result<seq<Account>>)
    ensures r.Ok? && |rows| <= 1 ==> |r.value| <= 1
    ensures r.Ok? ==> exists i :: 0 <= i < |r.value| && r.value[i].owner == owner
  {
    match Find(rows, owner)
    case Some(i) =>
      var r := rows[i := Account(owner, rows[i].balance + value)];
      assert r[i].owner == owner;
      Ok(r)
    case None =>
      if enforceMin && value < MIN_BALANCE then Err(BelowMinimumBalance)
      else if exists a :: a in rows && AccountPrimaryKey(a) == AccountPrimaryKey(Account(owner, value)) then
        Err(DuplicatePrimaryKey)
      else
        assert rows != [] ==> rows[0] in rows && AccountPrimaryKey(rows[0]) == AccountPrimaryKey(Account(owner, value));
        var r := rows + [Account(owner, value)];
        assert r[|rows|].owner == owner;
        Ok(r)
  }

  /** As written, a second host's first deposit aborts while the corrected ledger accepts it. */
  lemma SecondHostDepositAborts(first: Name, second: Name)
    requires first < second
    ensures CreditAsWritten([Account(first, MIN_BALANCE)], second, MIN_BALANCE, true) == Err(DuplicatePrimaryKey)
    ensures Credit([Account(first, MIN_BALANCE)], second, MIN_BALANCE, true).Ok?
  {
    assert Account(first, MIN_BALANCE) in [Account(first, MIN_BALANCE)];
    BankrollKeys([Account(first, MIN_BALANCE)], second);
  }

  /**
   * The account-row half of `sub_balance`: the checks, in the contract's order, and the new rows.
   * A balance brought to exactly zero deletes the row.
   */
  function Debit(rows: seq<Account>, owner: Name, value: int, enforceMin: bool): (r: Result<seq<Account>>)
    requires SortedByOwner(rows)
    ensures r == Err(NoAccount) <==> owner !in Bankroll(rows)
    ensures owner in Bankroll(rows) ==> (r == Err(Overdrawn) <==> value > Bankroll(rows)[owner])
    ensures r.Ok? ==> SortedByOwner(r.value) && owner in Bankroll(rows) && value <= Bankroll(rows)[owner]
    ensures r.Ok? && value == Bankroll(rows)[owner] ==> Bankroll(r.value) == Bankroll(rows) - {owner}
    ensures r.Ok? && value != Bankroll(rows)[owner] ==> Bankroll(r.value) == Bankroll(rows)[owner := Bankroll(rows)[owner] - value]
    ensures r.Ok? && enforceMin && value != Bankroll(rows)[owner] ==>
      Bankroll(rows)[owner] - value >= MIN_BALANCE && value >= MIN_TRANSFER_SHELLS
    ensures !enforceMin && owner in Bankroll(rows) && value <= Bankroll(rows)[owner] ==> r.Ok?
    ensures enforceMin && owner in Bankroll(rows) && value <= Bankroll(rows)[owner] ==>
      (r.Ok? <==> value == Bankroll(rows)[owner]
                  || (Bankroll(rows)[owner] - value >= MIN_BALANCE && value >= MIN_TRANSFER_SHELLS))
    ensures owner in Bankroll(rows) ==>
      (r == Err(RemainderBelowMinimum) <==> enforceMin && 0 < Bankroll(rows)[owner] - value < MIN_BALANCE)
    ensures owner in Bankroll(rows) ==>
      (r == Err(BelowMinimumWithdrawal) <==>
         enforceMin && Bankroll(rows)[owner] - value >= MIN_BALANCE && value < MIN_TRANSFER_SHELLS)
  {
    BankrollKeys(rows, owner);
    match Find(rows, owner)
    case None => Err(NoAccount)
    case Some(i) =>
      BankrollAt(rows, i);
      var result := rows[i].balance - value;
      if result < 0 then Err(Overdrawn)
      else if result == 0 then
        BankrollRemove(rows, i);
        Ok(RemoveAt(rows, i))
      else if enforceMin && result < MIN_BALANCE then Err(RemainderBelowMinimum)
      else if enforceMin && value < MIN_TRANSFER_SHELLS then Err(BelowMinimumWithdrawal)
      else
        BankrollUpdate(rows, i, result);
        Ok(rows[i := Account(owner, result)])
  }

  /** A debit that leaves a positive balance, without the withdrawal minimums, rewrites that one row. */
  lemma DebitInPlace(rows: seq<Account>, i: nat, value: int)
    requires SortedByOwner(rows) && i < |rows|
    requires 0 < value < rows[i].balance
    ensures Debit(rows, rows[i].owner, value, false) == Ok(rows[i := Account(rows[i].owner, rows[i].balance - value)])
  {
    FindUnique(rows, rows[i].owner, i);
  }

  /** Deposits and debits keep every bankroll positive. */
  lemma LedgerKeepsPositive(rows: seq<Account>, owner: Name, value: int, enforceMin: bool)
    requires SortedByOwner(rows)
    requires forall o :: o in Bankroll(rows) ==> Bankroll(rows)[o] > 0
    requires value > 0
    ensures var c := Credit(rows, owner, value, enforceMin);
      c.Ok? ==> forall o :: o in Bankroll(c.value) ==> Bankroll(c.value)[o] > 0
    ensures var d := Debit(rows, owner, value, enforceMin);
      d.Ok? ==> forall o :: o in Bankroll(d.value) ==> Bankroll(d.value)[o] > 0
  {
  }
}
