/** The ledger side of `Database`: the `Users.Balance` column as a map from
    account id to a BIGINT UNSIGNED balance (the column type inferred from
    `reader.GetUInt64(0)` at `Database.cs:100`, as no schema is given), the
    `Transactions` table as a sequence, `TryGetBalance`, and `TryTransact` as
    written.

    Each SQL statement becomes the map update it performs. MySQL rejects an
    UPDATE whose new unsigned value would fall below 0 or reach 2^64 ("BIGINT
    UNSIGNED value is out of range"): the statement changes nothing and the
    command throws, after the statements before it have taken effect. An
    UPDATE reports the rows its WHERE clause found (the connector's default).
    A command that cannot reach the server at all is an outage, chosen by the
    caller. */
module Database {
  import opened Basics
  import Guids
  import Transactions

  type Balances = map<Guids.Guid, uint64>

  /** The environment's say on the two executions of the transfer command:
      whether each one is lost (throws before any statement runs). */
  datatype Outages = Outages(firstLost: bool, secondLost: bool)

  /** What executing SQL did: the balances afterwards, the rows found, and
      whether the command threw. */
  datatype Execution = Execution(after: Balances, rows: nat, threw: bool)

  /** `UPDATE Users SET Balance=Balance-amount WHERE GUID='user'`. */
  function Debit(b: Balances, user: Guids.Guid, amount: uint64): Execution
  {
    if user !in b then Execution(b, 0, false)
    else if b[user] < amount then Execution(b, 0, true)
    else Execution(b[user := b[user] - amount], 1, false)
  }

  /** `UPDATE Users SET Balance=Balance+amount WHERE GUID='user'`. */
  function Credit(b: Balances, user: Guids.Guid, amount: uint64): Execution
  {
    if user !in b then Execution(b, 0, false)
    else if b[user] + amount >= UInt64Limit then Execution(b, 0, true)
    else Execution(b[user := b[user] + amount], 1, false)
  }

  /** The two-statement transfer command: the debit, then the credit; when
      the credit throws the debit stays applied. */
  function TransferCommand(b: Balances, from: Guids.Guid, to: Guids.Guid, amount: uint64): Execution
  {
    var debit := Debit(b, from, amount);
    if debit.threw then debit
    else
      var credit := Credit(debit.after, to, amount);
      Execution(credit.after, debit.rows + credit.rows, credit.threw)
  }

  datatype Outcome = Outcome(ok: bool, balances: Balances)

  /** `TryTransact` as written: both lookups, the balance check, the transfer
      command, then (line 128) the same transfer command once more, whose
      failure is swallowed. */
  function Transact(b: Balances, from: Guids.Guid, to: Guids.Guid, amount: uint64, outages: Outages): Outcome
  {
    if from !in b || to !in b || b[from] < amount || outages.firstLost then Outcome(false, b)
    else
      var first := TransferCommand(b, from, to, amount);
      if first.threw || first.rows == 0 then Outcome(false, first.after)
      else if outages.secondLost then Outcome(true, first.after)
      else Outcome(true, TransferCommand(first.after, from, to, amount).after)
  }

  /** One application of a transfer: `from` loses `amount`, `to` gains it. */
  function Moved(b: Balances, from: Guids.Guid, to: Guids.Guid, amount: uint64): Balances
    requires from in b && to in b && amount <= b[from]
    requires from == to || b[to] + amount < UInt64Limit
  {
    var debited := b[from := b[from] - amount];
    debited[to := debited[to] + amount]
  }

  /** A transfer with a missing sender or recipient fails and changes nothing. */
  lemma RejectsMissingAccount(b: Balances, from: Guids.Guid, to: Guids.Guid, amount: uint64, outages: Outages)
    requires from !in b || to !in b
    ensures Transact(b, from, to, amount, outages) == Outcome(false, b)
  {
  }

  /** A transfer of more than the sender holds fails and changes nothing. */
  lemma RejectsInsufficientBalance(b: Balances, from: Guids.Guid, to: Guids.Guid, amount: uint64, outages: Outages)
    requires from in b && b[from] < amount
    ensures Transact(b, from, to, amount, outages) == Outcome(false, b)
  {
  }

  /** The result is true exactly when both accounts exist, the sender can pay,
      the first command reaches the server and the credit stays in range;
      the transfer command then always finds rows. */
  lemma SucceedsExactly(b: Balances, from: Guids.Guid, to: Guids.Guid, amount: uint64, outages: Outages)
    ensures Transact(b, from, to, amount, outages).ok <==>
      from in b && to in b && amount <= b[from] && !outages.firstLost &&
      (from == to || b[to] + amount < UInt64Limit)
  {
    if from in b && to in b && amount <= b[from] && !outages.firstLost {
      var first := TransferCommand(b, from, to, amount);
      assert !first.threw ==> first.rows == 2;
    }
  }

  /** The first application moves exactly `amount` from the sender to the
      recipient and nothing else: the two balances keep their sum, a
      transfer to oneself leaves the balance alone, and other accounts are
      untouched. This is the whole effect when the second execution is lost. */
  lemma {:induction false} FirstApplication(b: Balances, from: Guids.Guid, to: Guids.Guid, amount: uint64)
    requires from in b && to in b && amount <= b[from]
    requires from == to || b[to] + amount < UInt64Limit
    ensures var first := TransferCommand(b, from, to, amount);
      && !first.threw && first.rows == 2
      && first.after == Moved(b, from, to, amount)
    ensures var m := Moved(b, from, to, amount);
      && m.Keys == b.Keys
      && (from != to ==> m[from] == b[from] - amount && m[to] == b[to] + amount)
      && m[from] as int + m[to] as int == b[from] as int + b[to] as int
      && (from == to ==> m == b)
      && forall g :: g in b && g != from && g != to ==> m[g] == b[g]
  {
    var m := Moved(b, from, to, amount);
    if from == to {
      assert m == b;
    }
  }

  lemma {:induction false} SecondLostAppliesOnce(b: Balances, from: Guids.Guid, to: Guids.Guid, amount: uint64)
    requires from in b && to in b && amount <= b[from]
    requires from == to || b[to] + amount < UInt64Limit
    ensures Transact(b, from, to, amount, Outages(false, true)) == Outcome(true, Moved(b, from, to, amount))
  {
    FirstApplication(b, from, to, amount);
  }

  /** Line 128 runs the transfer command a second time without checking the
      balance again: when the sender can pay twice (and the recipient stays
      in range) the amount is moved twice; when the sender can pay twice but
      the second credit would overflow, the sender pays twice and the
      recipient is credited once; when the sender cannot pay twice, the
      second debit throws, is swallowed, and the first application stands.
      The result is true in every case. */
  lemma {:induction false} SecondApplication(b: Balances, from: Guids.Guid, to: Guids.Guid, amount: uint64)
    requires from in b && to in b && from != to && amount <= b[from]
    requires b[to] + amount < UInt64Limit
    ensures var r := Transact(b, from, to, amount, Outages(false, false));
      && r.ok
      && (2 * amount <= b[from] && b[to] + 2 * amount < UInt64Limit ==>
            r.balances == Moved(Moved(b, from, to, amount), from, to, amount) &&
            r.balances[from] == b[from] - 2 * amount && r.balances[to] == b[to] + 2 * amount)
      && (2 * amount <= b[from] && b[to] + 2 * amount >= UInt64Limit ==>
            r.balances == b[from := b[from] - 2 * amount][to := b[to] + amount])
      && (b[from] < 2 * amount ==> r.balances == Moved(b, from, to, amount))
  {
    FirstApplication(b, from, to, amount);
    var m := Moved(b, from, to, amount);
    if 2 * amount <= b[from] && b[to] + 2 * amount < UInt64Limit {
      FirstApplication(m, from, to, amount);
    } else if 2 * amount <= b[from] {
      SecondCreditOverflows(b, from, to, amount);
    }
  }

  /** The second run's debit succeeds and its credit overflows: the sender
      has paid twice, the recipient is credited once. */
  lemma SecondCreditOverflows(b: Balances, from: Guids.Guid, to: Guids.Guid, amount: uint64)
    requires from in b && to in b && from != to && 2 * amount <= b[from]
    requires b[to] + amount < UInt64Limit <= b[to] + 2 * amount
    ensures Transact(b, from, to, amount, Outages(false, false)).balances ==
      b[from := b[from] - 2 * amount][to := b[to] + amount]
  {
    FirstApplication(b, from, to, amount);
    var m := Moved(b, from, to, amount);
    OverflowingRun(m, from, to, amount);
    PaidTwice(b, from, to, amount);
  }

  /** A run of the transfer command whose credit overflows leaves only its
      debit. */
  lemma OverflowingRun(b: Balances, from: Guids.Guid, to: Guids.Guid, amount: uint64)
    requires from in b && to in b && from != to && amount <= b[from]
    requires b[to] + amount >= UInt64Limit
    ensures TransferCommand(b, from, to, amount).after == b[from := b[from] - amount]
  {
    var debited := b[from := b[from] - amount];
    assert Debit(b, from, amount) == Execution(debited, 1, false);
    assert debited[to] == b[to];
  }

  /** The debit of a second run after one application. */
  lemma PaidTwice(b: Balances, from: Guids.Guid, to: Guids.Guid, amount: uint64)
    requires from in b && to in b && from != to && 2 * amount <= b[from]
    requires b[to] + amount < UInt64Limit
    ensures var m := Moved(b, from, to, amount);
      m[from := m[from] - amount] == b[from := b[from] - 2 * amount][to := b[to] + amount]
  {
  }

  /** A transfer to oneself, as written: both runs of the command debit and
      credit the same account, so the result is true and nothing changes. */
  lemma {:induction false} SelfTransfer(b: Balances, from: Guids.Guid, amount: uint64)
    requires from in b && amount <= b[from]
    ensures Transact(b, from, from, amount, Outages(false, false)) == Outcome(true, b)
  {
    FirstApplication(b, from, from, amount);
  }

  /** A credit that would leave the recipient's unsigned range makes the
      command throw after its debit has run: the transfer reports failure,
      yet the sender has paid. */
  lemma {:induction false} CreditOverflowKeepsDebit(b: Balances, from: Guids.Guid, to: Guids.Guid, amount: uint64)
    requires from in b && to in b && from != to && amount <= b[from]
    requires b[to] + amount >= UInt64Limit
    ensures Transact(b, from, to, amount, Outages(false, false)) ==
      Outcome(false, b[from := b[from] - amount])
  {
  }

  /** `TryTransact` with the log insert of line 126 executed in place of line
      128, given the connection that line 126 leaves out (and its column
      names quoted): one application, then one row appended to the log
      (lost, and swallowed, when the insert does not reach the server). */
  function TransactLogged(b: Balances, log: seq<Transactions.Transaction>, from: Guids.Guid, to: Guids.Guid,
                          amount: uint64, outages: Outages): (Outcome, seq<Transactions.Transaction>)
  {
    if from !in b || to !in b || b[from] < amount || outages.firstLost then (Outcome(false, b), log)
    else
      var first := TransferCommand(b, from, to, amount);
      if first.threw || first.rows == 0 then (Outcome(false, first.after), log)
      else if outages.secondLost then (Outcome(true, first.after), log)
      else (Outcome(true, first.after), log + [Transactions.Transaction(from, to, amount)])
  }

  /** With the log insert in place a successful transfer moves the amount
      exactly once and appends exactly one log row for it; a failed one
      changes neither balances nor log, unless the credit overflowed. */
  lemma {:induction false} LoggedTransferSpec(b: Balances, log: seq<Transactions.Transaction>, from: Guids.Guid,
                                              to: Guids.Guid, amount: uint64)
    ensures var (r, log') := TransactLogged(b, log, from, to, amount, Outages(false, false));
      && r.ok == Transact(b, from, to, amount, Outages(false, false)).ok
      && (r.ok ==> r.balances == Moved(b, from, to, amount) &&
                   log' == log + [Transactions.Transaction(from, to, amount)])
      && (!r.ok ==> log' == log &&
                    (from !in b || to !in b || b[from] < amount ==> r.balances == b))
  {
    SucceedsExactly(b, from, to, amount, Outages(false, false));
    if from in b && to in b && amount <= b[from] && (from == to || b[to] + amount < UInt64Limit) {
      FirstApplication(b, from, to, amount);
    }
  }

  /** Two distinct accounts for the worked example. */
  const Alice: Guids.Guid := [1,0,0,0,0,0,0,0, 0,0,0,0, 0,0,0,0, 0,0,0,0, 0,0,0,0,0,0,0,0,0,0,0,0]
  const Bob: Guids.Guid := [2,0,0,0,0,0,0,0, 0,0,0,0, 0,0,0,0, 0,0,0,0, 0,0,0,0,0,0,0,0,0,0,0,0]

  /** From balances 100 and 100, moving 40 leaves 20 and 180 as written
      (the amount is moved twice) where 60 and 140 are intended; moving 1000
      afterwards fails and changes nothing. */
  lemma WorkedExample()
    ensures var b := map[Alice := 100, Bob := 100];
      && Transact(b, Alice, Bob, 40, Outages(false, false)) == Outcome(true, map[Alice := 20, Bob := 180])
      && TransactLogged(b, [], Alice, Bob, 40, Outages(false, false)) ==
           (Outcome(true, map[Alice := 60, Bob := 140]), [Transactions.Transaction(Alice, Bob, 40)])
      && Transact(map[Alice := 60, Bob := 140], Alice, Bob, 1000, Outages(false, false)) ==
           Outcome(false, map[Alice := 60, Bob := 140])
  {
    var b := map[Alice := 100, Bob := 100];
    assert Alice != Bob by { assert Alice[0] != Bob[0]; }
    assert Moved(b, Alice, Bob, 40) == map[Alice := 60, Bob := 140];
    assert Moved(map[Alice := 60, Bob := 140], Alice, Bob, 40) == map[Alice := 20, Bob := 180];
    SecondApplication(b, Alice, Bob, 40);
    FirstApplication(b, Alice, Bob, 40);
    assert TransferCommand(b, Alice, Bob, 40).after == map[Alice := 60, Bob := 140];
    var none: seq<Transactions.Transaction> := [];
    assert none + [Transactions.Transaction(Alice, Bob, 40)] == [Transactions.Transaction(Alice, Bob, 40)];
    assert TransactLogged(b, none, Alice, Bob, 40, Outages(false, false)).0 == Outcome(true, map[Alice := 60, Bob := 140]);
  }

  /** The MySQL connection's view of the ledger: the `Users.Balance` column
      and the `Transactions` table. */
  class Ledger {
    var balances: Balances
    var log: seq<Transactions.Transaction>

    constructor (initial: Balances)
      ensures balances == initial && log == []
    {
      balances := initial;
      log := [];
    }

    /** `SELECT (Balance) FROM Users WHERE GUID='user'`: a missing row makes
        the read throw, which is reported as false with a balance of 0. */
    method TryGetBalance(user: Guids.Guid) returns (found: bool, balance: uint64)
      ensures found <==> user in balances
      ensures found ==> balance == balances[user]
      ensures !found ==> balance == 0
    {
      if user in balances {
        found, balance := true, balances[user];
      } else {
        found, balance := false, 0;
      }
    }

    /** The transfer command run once against the table. */
    method ExecuteTransfer(from: Guids.Guid, to: Guids.Guid, amount: uint64) returns (rows: nat, threw: bool)
      modifies this
      ensures Execution(balances, rows, threw) == TransferCommand(old(balances), from, to, amount)
      ensures log == old(log)
    {
      rows, threw := 0, false;
      if from in balances {
        if balances[from] < amount {
          threw := true;
          return;
        }
        balances := balances[from := balances[from] - amount];
        rows := rows + 1;
      }
      if to in balances {
        if balances[to] + amount >= UInt64Limit {
          threw := true;
          return;
        }
        balances := balances[to := balances[to] + amount];
        rows := rows + 1;
      }
    }

    /** `Database.TryTransact` as written. */
    method TryTransact(from: Guids.Guid, to: Guids.Guid, amount: uint64, outages: Outages) returns (ok: bool)
      modifies this
      ensures Outcome(ok, balances) == Transact(old(balances), from, to, amount, outages)
      ensures log == old(log)
    {
      var fromFound, balance := TryGetBalance(from);
      var toFound := false;
      if fromFound {
        var toBalance;
        toFound, toBalance := TryGetBalance(to);
      }
      if fromFound && toFound && balance >= amount {
        if outages.firstLost {
          return false;
        }
        var rows, threw := ExecuteTransfer(from, to, amount);
        if threw {
          return false;
        }
        if rows > 0 {
          if !outages.secondLost {
            // the log command is built but the transfer command runs again;
            // whatever it throws is swallowed
            var _, _ := ExecuteTransfer(from, to, amount);
          }
          return true;
        }
      }
      return false;
    }

    /** `TryTransact` with the log insert executed in place of the second
        transfer command. */
    method TryTransactLogged(from: Guids.Guid, to: Guids.Guid, amount: uint64, outages: Outages) returns (ok: bool)
      modifies this
      ensures (Outcome(ok, balances), log) == TransactLogged(old(balances), old(log), from, to, amount, outages)
    {
      var fromFound, balance := TryGetBalance(from);
      var toFound := false;
      if fromFound {
        var toBalance;
        toFound, toBalance := TryGetBalance(to);
      }
      if fromFound && toFound && balance >= amount {
        if outages.firstLost {
          return false;
        }
        var rows, threw := ExecuteTransfer(from, to, amount);
        if threw {
          return false;
        }
        if rows > 0 {
          if !outages.secondLost {
            log := log + [Transactions.Transaction(from, to, amount)];
          }
          return true;
        }
      }
      return false;
    }
  }
}
