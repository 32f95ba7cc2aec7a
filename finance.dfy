/** The finance dashboard's bank ledger: the transaction modal's guard, and
    the balance update applied when a transaction is saved. */
module Finance {
  import opened Seqs
  import opened School

  datatype TransactionType = Deposit | Withdrawal

  /** What the modal hands to the dashboard. */
  datatype Transaction = Transaction(accountId: Id, kind: TransactionType, amount: int, description: string, date: string)

  /** The account preselected in the modal: the first account's id, or empty. */
  function InitialAccountId(accounts: seq<BankAccount>): (id: Id)
    ensures |accounts| > 0 ==> id == accounts[0].id
    ensures |accounts| == 0 ==> id == ""
  {
    if |accounts| > 0 then accounts[0].id else ""
  }

  /** `handleSubmit`: with no account chosen or an amount that is not
      positive the modal alerts and sends nothing; otherwise it sends the
      transaction as entered. */
  function SubmitTransaction(accountId: Id, kind: TransactionType, amount: int, description: string, date: string)
    : (r: Option<Transaction>)
    ensures r.Some? <==> accountId != "" && amount > 0
    ensures r.Some? ==> r.value == Transaction(accountId, kind, amount, description, date)
  {
    if accountId == "" || amount <= 0 then None
    else Some(Transaction(accountId, kind, amount, description, date))
  }

  /** The signed change a transaction makes to its account. */
  function Delta(t: Transaction): int {
    match t.kind
    case Deposit => t.amount
    case Withdrawal => -t.amount
  }

  /** `handleSaveTransaction`: every account with the transaction's id has
      its balance moved by the amount (up for a deposit, down for a
      withdrawal, with no overdraft check); every other account, the number
      of accounts and their order stay as they were. */
  function ApplyTransaction(accounts: seq<BankAccount>, t: Transaction): (r: seq<BankAccount>)
    ensures |r| == |accounts|
    ensures forall i :: 0 <= i < |accounts| && accounts[i].id != t.accountId ==> r[i] == accounts[i]
    ensures forall i :: 0 <= i < |accounts| && accounts[i].id == t.accountId ==>
      r[i] == accounts[i].(balance := accounts[i].balance + Delta(t))
  {
    seq(|accounts|, i requires 0 <= i < |accounts| =>
      if accounts[i].id == t.accountId then accounts[i].(balance := accounts[i].balance + Delta(t))
      else accounts[i])
  }

  /** A transaction on an account that does not exist changes nothing. */
  lemma UnknownAccount(accounts: seq<BankAccount>, t: Transaction)
    requires forall i :: 0 <= i < |accounts| ==> accounts[i].id != t.accountId
    ensures ApplyTransaction(accounts, t) == accounts
  {
  }

  /** A deposit followed by a withdrawal of the same amount on the same
      account restores every balance. */
  lemma DepositThenWithdraw(accounts: seq<BankAccount>, accountId: Id, amount: int, d1: string, t1: string, d2: string, t2: string)
    ensures ApplyTransaction(ApplyTransaction(accounts, Transaction(accountId, Deposit, amount, d1, t1)),
                             Transaction(accountId, Withdrawal, amount, d2, t2)) == accounts
  {
    var after := ApplyTransaction(ApplyTransaction(accounts, Transaction(accountId, Deposit, amount, d1, t1)),
                                  Transaction(accountId, Withdrawal, amount, d2, t2));
    forall i | 0 <= i < |accounts| ensures after[i] == accounts[i] {
    }
  }

  /** A transaction that passed the modal strictly raises (deposit) or
      strictly lowers (withdrawal) the balance of its account. */
  lemma SubmittedMoves(accounts: seq<BankAccount>, accountId: Id, kind: TransactionType, amount: int,
                       description: string, date: string, i: nat)
    requires SubmitTransaction(accountId, kind, amount, description, date).Some?
    requires i < |accounts| && accounts[i].id == accountId
    ensures var r := ApplyTransaction(accounts, SubmitTransaction(accountId, kind, amount, description, date).value);
      if kind == Deposit then r[i].balance > accounts[i].balance else r[i].balance < accounts[i].balance
  {
  }

  /** Withdrawing more than the balance is accepted and leaves it negative. */
  lemma NoOverdraftCheck(accounts: seq<BankAccount>, t: Transaction, i: nat)
    requires t.kind == Withdrawal && i < |accounts| && accounts[i].id == t.accountId
    requires t.amount > accounts[i].balance
    ensures ApplyTransaction(accounts, t)[i].balance < 0
  {
  }

  /** The dashboard's totals: the sums of the earnings' and of the expenses' amounts. */
  function TotalEarnings(earnings: seq<Earning>): int {
    SumOf(earnings, (e: Earning) => e.amount)
  }

  function TotalExpenses(expenses: seq<Expense>): int {
    SumOf(expenses, (e: Expense) => e.amount)
  }
}
