/** The employee list screen: save (edit in place or create with the next
    `E`-prefixed id, padded to two digits, at the end) and delete by id. */
module EmployeeList {
  import opened Seqs
  import opened School
  import opened RecordIds
  import Collections

  function IdOfEmployee(e: Employee): Id { e.id }

  function WithEmployeeId(e: Employee, id: Id): Employee { e.(id := id) }

  function EmployeeIds(employees: seq<Employee>): seq<Id> {
    Collections.IdsOf(employees, IdOfEmployee)
  }

  /** The id a new employee receives: `E` then the next number, at least two digits. */
  function NewEmployeeId(employees: seq<Employee>): (id: Id)
    requires AllIdsNumbered(EmployeeIds(employees), 1)
    ensures id !in EmployeeIds(employees)
    ensures StartsWith(id, "E") && |id| >= 3 && AllDigits(id[1..])
    ensures IdNumber(id, 1) == MaxIdNumber(EmployeeIds(employees), 1) + 1
  {
    NextId(EmployeeIds(employees), "E", 2)
  }

  /** `handleSaveEmployee`: edit in place by id, or append under a new id;
      the ids stay distinct and readable. */
  function SaveEmployee(employees: seq<Employee>, data: Employee): (r: seq<Employee>)
    requires data.id == "" ==> AllIdsNumbered(EmployeeIds(employees), 1)
    ensures data.id != "" ==> r == Collections.UpdateById(employees, IdOfEmployee, data)
    ensures data.id == "" ==> r == employees + [data.(id := NewEmployeeId(employees))]
    ensures NoDuplicates(EmployeeIds(employees)) && AllIdsNumbered(EmployeeIds(employees), 1) ==>
      NoDuplicates(EmployeeIds(r)) && AllIdsNumbered(EmployeeIds(r), 1)
  {
    assert Collections.StoresId(IdOfEmployee, WithEmployeeId);
    Collections.SaveKeepsIds(employees, IdOfEmployee, WithEmployeeId, data, "E", 2, false);
    Collections.Save(employees, IdOfEmployee, WithEmployeeId, data, "E", 2, false)
  }

  /** `handleDeleteEmployee`: only the employees with that id go, in order. */
  function DeleteEmployee(employees: seq<Employee>, employeeId: Id): (r: seq<Employee>)
    ensures forall e :: e in r <==> e in employees && e.id != employeeId
    ensures EmployeeIds(r) == Without(EmployeeIds(employees), employeeId)
  {
    Collections.RemoveById(employees, IdOfEmployee, employeeId)
  }

  /** An edit keeps every id, and changes nothing when its id is unknown. */
  lemma EditEmployee(employees: seq<Employee>, data: Employee)
    requires data.id != ""
    ensures EmployeeIds(SaveEmployee(employees, data)) == EmployeeIds(employees)
    ensures data.id in EmployeeIds(employees) ==> data in SaveEmployee(employees, data)
    ensures data.id !in EmployeeIds(employees) ==> SaveEmployee(employees, data) == employees
  {
    if data.id in EmployeeIds(employees) {
      Collections.UpdateKnownId(employees, IdOfEmployee, data);
    } else {
      Collections.UpdateUnknownId(employees, IdOfEmployee, data);
    }
  }
}
