/**
 * `class Account` of cpp_files/lib01.cpp: a named, numbered account whose
 * balance a deposit raises and a withdrawal lowers when the balance covers
 * it.  Every operation appends a line to transactions.log; the model keeps
 * those lines as the sequence `log` of `Entry` values.  The `double`
 * balance is an exact `real`.
 */
module Accounts {
  /** One line of transactions.log. */
  datatype Entry =
    | Deposited(amount: real, newBalance: real)
    | Withdrew(amount: real, newBalance: real)
    | FailedWithdrawal(amount: real)

  /** The balance that the entries of `log` lead to from `opening`. */
  function Replay(opening: real, log: seq<Entry>): real
  {
    if log == [] then opening
    else
      var before := Replay(opening, log[..|log| - 1]);
      match log[|log| - 1]
      case Deposited(a, _) => before + a
      case Withdrew(a, _) => before - a
      case FailedWithdrawal(_) => before
  }

  /**
   * `e` is a true report of an operation on the balance `before`: the new
   * balance it reports is the right one, a withdrawal was covered and a
   * failed one was not.
   */
  predicate Reports(before: real, e: Entry)
  {
    match e
    case Deposited(a, nb) => nb == before + a
    case Withdrew(a, nb) => nb == before - a && before >= a
    case FailedWithdrawal(a) => before < a
  }

  /** Entry `k` of the log truly reports an operation on the balance the entries before it lead to. */
  predicate TruthfulAt(opening: real, log: seq<Entry>, k: int)
    requires 0 <= k < |log|
  {
    Reports(Replay(opening, log[..k]), log[k])
  }

  predicate Truthful(opening: real, log: seq<Entry>)
  {
    forall k :: 0 <= k < |log| ==> TruthfulAt(opening, log, k)
  }

  /** Entries before `n` do not see what follows them. */
  lemma TruthfulPrefix(opening: real, log: seq<Entry>, n: int)
    requires 0 <= n <= |log|
    ensures forall k :: 0 <= k < n ==> (TruthfulAt(opening, log[..n], k) <==> TruthfulAt(opening, log, k))
  {
    forall k | 0 <= k < n
      ensures TruthfulAt(opening, log[..n], k) <==> TruthfulAt(opening, log, k)
    {
      assert log[..n][..k] == log[..k] && log[..n][k] == log[k];
    }
  }

  /** A truthful log stays truthful with a true report appended, and replays to the reported balance. */
  lemma TruthfulAppend(opening: real, log: seq<Entry>, e: Entry)
    requires Truthful(opening, log) && Reports(Replay(opening, log), e)
    ensures Truthful(opening, log + [e])
    ensures e.Deposited? || e.Withdrew? ==> Replay(opening, log + [e]) == e.newBalance
    ensures e.FailedWithdrawal? ==> Replay(opening, log + [e]) == Replay(opening, log)
  {
    var l := log + [e];
    assert l[..|log|] == log;
    TruthfulPrefix(opening, l, |log|);
  }

  /**
   * With a non-negative opening balance and no negative deposit, a
   * truthful log never shows a negative balance.
   */
  lemma {:induction false} NeverNegative(opening: real, log: seq<Entry>)
    requires opening >= 0.0 && Truthful(opening, log)
    requires forall k :: 0 <= k < |log| && log[k].Deposited? ==> log[k].amount >= 0.0
    ensures Replay(opening, log) >= 0.0
    decreases |log|
  {
    if log != [] {
      var p := log[..|log| - 1];
      TruthfulPrefix(opening, log, |log| - 1);
      assert TruthfulAt(opening, log, |log| - 1);
      assert log[..|log|] == log;
      NeverNegative(opening, p);
    }
  }

  class Account {
    const name: string
    const accountNumber: int
    var balance: real
    /** The lines written to transactions.log, oldest first. */
    var log: seq<Entry>
    /** The balance the account was opened with. */
    ghost const opening: real

    ghost predicate Valid()
      reads this
    {
      balance == Replay(opening, log) && Truthful(opening, log)
    }

    constructor(name: string, accountNumber: int, initialBalance: real)
      ensures Valid()
      ensures this.name == name && this.accountNumber == accountNumber
      ensures balance == initialBalance && log == []
    {
      this.name := name;
      this.accountNumber := accountNumber;
      balance := initialBalance;
      log := [];
      opening := initialBalance;
    }

    /** Adds `amount`, whatever its sign, and logs it. */
    method Deposit(amount: real)
      requires Valid()
      modifies this
      ensures Valid()
      ensures balance == old(balance) + amount
      ensures log == old(log) + [Deposited(amount, balance)]
      ensures old(balance) >= 0.0 && amount >= 0.0 ==> balance >= 0.0
    {
      balance := balance + amount;
      TruthfulAppend(opening, log, Deposited(amount, balance));
      log := log + [Deposited(amount, balance)];
    }

    /** Subtracts `amount` when the balance covers it; logs the outcome either way. */
    method Withdraw(amount: real)
      requires Valid()
      modifies this
      ensures Valid()
      ensures old(balance) >= amount ==> balance == old(balance) - amount && log == old(log) + [Withdrew(amount, balance)]
      ensures old(balance) < amount ==> balance == old(balance) && log == old(log) + [FailedWithdrawal(amount)]
      ensures balance >= 0.0 || balance == old(balance)
    {
      if balance >= amount {
        balance := balance - amount;
        TruthfulAppend(opening, log, Withdrew(amount, balance));
        log := log + [Withdrew(amount, balance)];
      } else {
        TruthfulAppend(opening, log, FailedWithdrawal(amount));
        log := log + [FailedWithdrawal(amount)];
      }
    }
  }

  /** The source's `main`: 1000, +500, -200, and -1500 refused, leaves 1300. */
  method Example() returns (account: Account)
    ensures account.balance == 1300.0
    ensures account.name == "John Doe" && account.accountNumber == 123456
    ensures account.log == [Deposited(500.0, 1500.0), Withdrew(200.0, 1300.0), FailedWithdrawal(1500.0)]
  {
    account := new Account("John Doe", 123456, 1000.0);
    account.Deposit(500.0);
    account.Withdraw(200.0);
    account.Withdraw(1500.0);
  }
}
