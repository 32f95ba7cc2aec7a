/** The departments screen: save (edit in place or create with the next
    `D`-prefixed id, padded to two digits, at the end), delete by id with no
    cascade, the single open panel, and what each panel lists. Classes and
    subjects belong to a department by its id, students by its name. */
module Departments {
  import opened Seqs
  import opened School
  import opened RecordIds
  import Collections

  function IdOfDepartment(d: Department): Id { d.id }

  function NameOfDepartment(d: Department): string { d.name }

  function WithDepartmentId(d: Department, id: Id): Department { d.(id := id) }

  function DepartmentIds(departments: seq<Department>): seq<Id> {
    Collections.IdsOf(departments, IdOfDepartment)
  }

  /** The id a new department receives: `D` then the next number, at least two digits. */
  function NewDepartmentId(departments: seq<Department>): (id: Id)
    requires AllIdsNumbered(DepartmentIds(departments), 1)
    ensures id !in DepartmentIds(departments)
    ensures StartsWith(id, "D") && |id| >= 3 && AllDigits(id[1..])
    ensures IdNumber(id, 1) == MaxIdNumber(DepartmentIds(departments), 1) + 1
  {
    NextId(DepartmentIds(departments), "D", 2)
  }

  /** `handleSaveDepartment`: edit in place by id, or append under a new id;
      the ids stay distinct and readable. */
  function SaveDepartment(departments: seq<Department>, data: Department): (r: seq<Department>)
    requires data.id == "" ==> AllIdsNumbered(DepartmentIds(departments), 1)
    ensures data.id != "" ==> r == Collections.UpdateById(departments, IdOfDepartment, data)
    ensures data.id == "" ==> r == departments + [data.(id := NewDepartmentId(departments))]
    ensures NoDuplicates(DepartmentIds(departments)) && AllIdsNumbered(DepartmentIds(departments), 1) ==>
      NoDuplicates(DepartmentIds(r)) && AllIdsNumbered(DepartmentIds(r), 1)
  {
    assert Collections.StoresId(IdOfDepartment, WithDepartmentId);
    Collections.SaveKeepsIds(departments, IdOfDepartment, WithDepartmentId, data, "D", 2, false);
    Collections.Save(departments, IdOfDepartment, WithDepartmentId, data, "D", 2, false)
  }

  /** `handleDeleteDepartment`: only the departments with that id go, in
      order. Classes, subjects and students are not touched. */
  function DeleteDepartment(departments: seq<Department>, departmentId: Id): (r: seq<Department>)
    ensures forall d :: d in r <==> d in departments && d.id != departmentId
    ensures DepartmentIds(r) == Without(DepartmentIds(departments), departmentId)
  {
    Collections.RemoveById(departments, IdOfDepartment, departmentId)
  }

  /** An edit keeps every id, and changes nothing when its id is unknown. */
  lemma EditDepartment(departments: seq<Department>, data: Department)
    requires data.id != ""
    ensures DepartmentIds(SaveDepartment(departments, data)) == DepartmentIds(departments)
    ensures data.id in DepartmentIds(departments) ==> data in SaveDepartment(departments, data)
    ensures data.id !in DepartmentIds(departments) ==> SaveDepartment(departments, data) == departments
  {
    if data.id in DepartmentIds(departments) {
      Collections.UpdateKnownId(departments, IdOfDepartment, data);
    } else {
      Collections.UpdateUnknownId(departments, IdOfDepartment, data);
    }
  }

  /** The department name shown for a class or a subject: that of the first
      department with the id, or "Unknown" (the same lookup on both screens). */
  function DepartmentName(departments: seq<Department>, departmentId: Id): (name: string)
    ensures forall i :: Collections.FirstWithId(departments, IdOfDepartment, departmentId, i) ==>
      name == if departments[i].name == "" then "Unknown" else departments[i].name
    ensures departmentId !in DepartmentIds(departments) ==> name == "Unknown"
  {
    Collections.NameOrDefault(departments, IdOfDepartment, NameOfDepartment, departmentId, "Unknown")
  }

  /** Deleting a department does not cascade: its classes and subjects keep
      their `departmentId` and are then shown under "Unknown". */
  lemma DeleteOrphans(departments: seq<Department>, departmentId: Id)
    ensures DepartmentName(DeleteDepartment(departments, departmentId), departmentId) == "Unknown"
  {
  }

  /** The open panel: the first department's id when there is one with a
      non-empty id (`departments[0]?.id || null`), else none. */
  function InitialOpen(departments: seq<Department>): (open: Option<Id>)
    ensures open.Some? <==> |departments| > 0 && departments[0].id != ""
    ensures open.Some? ==> open.value == departments[0].id
  {
    if |departments| > 0 && departments[0].id != "" then Some(departments[0].id) else None
  }

  /** `toggleDepartment`: clicking the open panel closes it, clicking
      another opens that one and closes the first, so at most one is open. */
  function ToggleDepartment(open: Option<Id>, id: Id): (r: Option<Id>)
    ensures open == Some(id) ==> r == None
    ensures open != Some(id) ==> r == Some(id)
  {
    if open == Some(id) then None else Some(id)
  }

  /** Two clicks on the same panel restore the state when it started closed
      or was that panel; when another panel was open, they close everything. */
  lemma ToggleDepartmentTwice(open: Option<Id>, id: Id)
    ensures ToggleDepartment(ToggleDepartment(open, id), id) == if open.Some? && open.value != id then None else open
  {
  }

  /** A panel's classes: `classes.filter(c => c.departmentId === dept.id)`. */
  function ClassesOf(classes: seq<ClassInfo>, dept: Department): (r: seq<ClassInfo>)
    ensures forall c :: c in r <==> c in classes && c.departmentId == dept.id
  {
    Filter(classes, (c: ClassInfo) => c.departmentId == dept.id)
  }

  /** A panel's subjects: by `departmentId` as well. */
  function SubjectsOf(subjects: seq<Subject>, dept: Department): (r: seq<Subject>)
    ensures forall s :: s in r <==> s in subjects && s.departmentId == dept.id
  {
    Filter(subjects, (s: Subject) => s.departmentId == dept.id)
  }

  /** A panel's students: by the department's NAME, `s.department === dept.name`. */
  function StudentsOf(students: seq<Student>, dept: Department): (r: seq<Student>)
    ensures forall s :: s in r <==> s in students && s.department == dept.name
  {
    Filter(students, (s: Student) => s.department == dept.name)
  }

  /** Renaming a department keeps its classes and subjects on its panel but
      drops the students filed under the old name. */
  lemma RenameDropsStudents(classes: seq<ClassInfo>, subjects: seq<Subject>, students: seq<Student>,
                            dept: Department, newName: string)
    requires newName != dept.name
    ensures ClassesOf(classes, dept.(name := newName)) == ClassesOf(classes, dept)
    ensures SubjectsOf(subjects, dept.(name := newName)) == SubjectsOf(subjects, dept)
    ensures forall s :: s in students && s.department == dept.name ==>
      s in StudentsOf(students, dept) && s !in StudentsOf(students, dept.(name := newName))
  {
    FilterCongruent(classes, (c: ClassInfo) => c.departmentId == dept.(name := newName).id,
      (c: ClassInfo) => c.departmentId == dept.id);
    FilterCongruent(subjects, (s: Subject) => s.departmentId == dept.(name := newName).id,
      (s: Subject) => s.departmentId == dept.id);
  }
}
