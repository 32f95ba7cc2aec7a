/** The teacher list screen: save (edit in place or create with the next
    `T`-prefixed id, padded to two digits, at the end), delete by id, the
    subject shown for a teacher and the total salary on each row. */
module TeacherList {
  import opened Seqs
  import opened School
  import opened RecordIds
  import Collections
  import LineItems

  function IdOfTeacher(t: Teacher): Id { t.id }

  function WithTeacherId(t: Teacher, id: Id): Teacher { t.(id := id) }

  function TeacherIds(teachers: seq<Teacher>): seq<Id> {
    Collections.IdsOf(teachers, IdOfTeacher)
  }

  /** The id a new teacher receives: `T` then the next number, at least two digits. */
  function NewTeacherId(teachers: seq<Teacher>): (id: Id)
    requires AllIdsNumbered(TeacherIds(teachers), 1)
    ensures id !in TeacherIds(teachers)
    ensures StartsWith(id, "T") && |id| >= 3 && AllDigits(id[1..])
    ensures IdNumber(id, 1) == MaxIdNumber(TeacherIds(teachers), 1) + 1
  {
    NextId(TeacherIds(teachers), "T", 2)
  }

  /** `handleSaveTeacher`: edit in place by id, or append under a new id;
      the ids stay distinct and readable. */
  function SaveTeacher(teachers: seq<Teacher>, data: Teacher): (r: seq<Teacher>)
    requires data.id == "" ==> AllIdsNumbered(TeacherIds(teachers), 1)
    ensures data.id != "" ==> r == Collections.UpdateById(teachers, IdOfTeacher, data)
    ensures data.id == "" ==> r == teachers + [data.(id := NewTeacherId(teachers))]
    ensures NoDuplicates(TeacherIds(teachers)) && AllIdsNumbered(TeacherIds(teachers), 1) ==>
      NoDuplicates(TeacherIds(r)) && AllIdsNumbered(TeacherIds(r), 1)
  {
    assert Collections.StoresId(IdOfTeacher, WithTeacherId);
    Collections.SaveKeepsIds(teachers, IdOfTeacher, WithTeacherId, data, "T", 2, false);
    Collections.Save(teachers, IdOfTeacher, WithTeacherId, data, "T", 2, false)
  }

  /** `handleDeleteTeacher`: only the teachers with that id go, in order. */
  function DeleteTeacher(teachers: seq<Teacher>, teacherId: Id): (r: seq<Teacher>)
    ensures forall t :: t in r <==> t in teachers && t.id != teacherId
    ensures TeacherIds(r) == Without(TeacherIds(teachers), teacherId)
  {
    Collections.RemoveById(teachers, IdOfTeacher, teacherId)
  }

  /** An edit keeps every id, and changes nothing when its id is unknown. */
  lemma EditTeacher(teachers: seq<Teacher>, data: Teacher)
    requires data.id != ""
    ensures TeacherIds(SaveTeacher(teachers, data)) == TeacherIds(teachers)
    ensures data.id in TeacherIds(teachers) ==> data in SaveTeacher(teachers, data)
    ensures data.id !in TeacherIds(teachers) ==> SaveTeacher(teachers, data) == teachers
  {
    if data.id in TeacherIds(teachers) {
      Collections.UpdateKnownId(teachers, IdOfTeacher, data);
    } else {
      Collections.UpdateUnknownId(teachers, IdOfTeacher, data);
    }
  }

  function IdOfSubject(s: Subject): Id { s.id }

  function NameOfSubject(s: Subject): string { s.name }

  /** `getSubjectName`: the name of the first subject with that id, or N/A. */
  function SubjectName(subjects: seq<Subject>, subjectId: Id): (name: string)
    ensures forall i :: Collections.FirstWithId(subjects, IdOfSubject, subjectId, i) ==>
      name == if subjects[i].name == "" then "N/A" else subjects[i].name
    ensures (forall i :: 0 <= i < |subjects| ==> subjects[i].id != subjectId) ==> name == "N/A"
  {
    Collections.NameOrDefault(subjects, IdOfSubject, NameOfSubject, subjectId, "N/A")
  }

  /** The total salary on a row: base salary less the residential deduction,
      plus every adjustment, negative ones included. */
  function TotalSalary(t: Teacher): (total: int)
    ensures t.adjustments == [] ==> total == t.baseSalary - t.residentialDeduction
  {
    t.baseSalary - t.residentialDeduction + LineItems.Sum(t.adjustments)
  }

  /** Each adjustment adds its amount to the total, a negative one lowering
      it, so with the empty case of `TotalSalary` the total is base salary
      less the deduction plus every adjustment. */
  lemma TotalSalaryAddsAdjustment(t: Teacher, adjustment: LineItem)
    ensures TotalSalary(t.(adjustments := t.adjustments + [adjustment])) ==
      TotalSalary(t) + adjustment.amount
    ensures adjustment.amount < 0 ==>
      TotalSalary(t.(adjustments := t.adjustments + [adjustment])) < TotalSalary(t)
  {
    LineItems.SumAppend(t.adjustments, adjustment);
  }
}
