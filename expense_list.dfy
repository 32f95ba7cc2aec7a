/** The expense list screen: save (edit in place or create with the next
    `X`-prefixed id, padded to three digits, placed FIRST) and delete by
    id. */
module ExpenseList {
  import opened Seqs
  import opened School
  import opened RecordIds
  import Collections
  import Finance

  function IdOfExpense(e: Expense): Id { e.id }

  function WithExpenseId(e: Expense, id: Id): Expense { e.(id := id) }

  function ExpenseIds(expenses: seq<Expense>): seq<Id> {
    Collections.IdsOf(expenses, IdOfExpense)
  }

  /** The id a new expense receives: `X` then the next number, at least three digits. */
  function NewExpenseId(expenses: seq<Expense>): (id: Id)
    requires AllIdsNumbered(ExpenseIds(expenses), 1)
    ensures id !in ExpenseIds(expenses)
    ensures StartsWith(id, "X") && |id| >= 4 && AllDigits(id[1..])
    ensures IdNumber(id, 1) == MaxIdNumber(ExpenseIds(expenses), 1) + 1
  {
    NextId(ExpenseIds(expenses), "X", 3)
  }

  /** `handleSaveExpense`: edit in place by id, or put the new record in front
      of the existing ones under a new id; the ids stay distinct and readable. */
  function SaveExpense(expenses: seq<Expense>, data: Expense): (r: seq<Expense>)
    requires data.id == "" ==> AllIdsNumbered(ExpenseIds(expenses), 1)
    ensures data.id != "" ==> r == Collections.UpdateById(expenses, IdOfExpense, data)
    ensures data.id == "" ==> r == [data.(id := NewExpenseId(expenses))] + expenses
    ensures NoDuplicates(ExpenseIds(expenses)) && AllIdsNumbered(ExpenseIds(expenses), 1) ==>
      NoDuplicates(ExpenseIds(r)) && AllIdsNumbered(ExpenseIds(r), 1)
  {
    assert Collections.StoresId(IdOfExpense, WithExpenseId);
    Collections.SaveKeepsIds(expenses, IdOfExpense, WithExpenseId, data, "X", 3, true);
    Collections.Save(expenses, IdOfExpense, WithExpenseId, data, "X", 3, true)
  }

  /** `handleDeleteExpense`: only the records with that id go, in order. */
  function DeleteExpense(expenses: seq<Expense>, id: Id): (r: seq<Expense>)
    ensures forall e :: e in r <==> e in expenses && e.id != id
    ensures ExpenseIds(r) == Without(ExpenseIds(expenses), id)
  {
    Collections.RemoveById(expenses, IdOfExpense, id)
  }

  /** An edit keeps every id, and changes nothing when its id is unknown. */
  lemma EditExpense(expenses: seq<Expense>, data: Expense)
    requires data.id != ""
    ensures ExpenseIds(SaveExpense(expenses, data)) == ExpenseIds(expenses)
    ensures data.id in ExpenseIds(expenses) ==> data in SaveExpense(expenses, data)
    ensures data.id !in ExpenseIds(expenses) ==> SaveExpense(expenses, data) == expenses
  {
    if data.id in ExpenseIds(expenses) {
      Collections.UpdateKnownId(expenses, IdOfExpense, data);
    } else {
      Collections.UpdateUnknownId(expenses, IdOfExpense, data);
    }
  }

  /** Creating a record raises the list's total by its amount;
      deleting it again by its new id restores the list. */
  lemma CreateExpense(expenses: seq<Expense>, data: Expense)
    requires data.id == "" && AllIdsNumbered(ExpenseIds(expenses), 1)
    ensures Finance.TotalExpenses(SaveExpense(expenses, data)) == Finance.TotalExpenses(expenses) + data.amount
    ensures DeleteExpense(SaveExpense(expenses, data), NewExpenseId(expenses)) == expenses
  {
    var created := data.(id := NewExpenseId(expenses));
    SumOfConcat([created], expenses, (e: Expense) => e.amount);
    assert Collections.StoresId(IdOfExpense, WithExpenseId);
    Collections.CreateThenDelete(expenses, IdOfExpense, WithExpenseId, data, "X", 3, true);
  }
}
