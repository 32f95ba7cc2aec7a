/** The student list screen: save (edit in place or create with the next
    `S`-prefixed id, padded to three digits, at the end), delete by id, and
    the total fee shown on each row. */
module StudentList {
  import opened Seqs
  import opened School
  import opened RecordIds
  import Collections
  import LineItems

  function IdOfStudent(s: Student): Id { s.id }

  function WithStudentId(s: Student, id: Id): Student { s.(id := id) }

  function StudentIds(students: seq<Student>): seq<Id> {
    Collections.IdsOf(students, IdOfStudent)
  }

  /** The id a new student receives: `S` then the next number, at least three digits. */
  function NewStudentId(students: seq<Student>): (id: Id)
    requires AllIdsNumbered(StudentIds(students), 1)
    ensures id !in StudentIds(students)
    ensures StartsWith(id, "S") && |id| >= 4 && AllDigits(id[1..])
    ensures IdNumber(id, 1) == MaxIdNumber(StudentIds(students), 1) + 1
  {
    NextId(StudentIds(students), "S", 3)
  }

  /** `handleSaveStudent`: a record with an id replaces the student(s) with
      that id, keeping length and order; one without is appended under a
      new id. Saving keeps the ids distinct and readable. */
  function SaveStudent(students: seq<Student>, data: Student): (r: seq<Student>)
    requires data.id == "" ==> AllIdsNumbered(StudentIds(students), 1)
    ensures data.id != "" ==> r == Collections.UpdateById(students, IdOfStudent, data)
    ensures data.id == "" ==> r == students + [data.(id := NewStudentId(students))]
    ensures NoDuplicates(StudentIds(students)) && AllIdsNumbered(StudentIds(students), 1) ==>
      NoDuplicates(StudentIds(r)) && AllIdsNumbered(StudentIds(r), 1)
  {
    assert Collections.StoresId(IdOfStudent, WithStudentId);
    Collections.SaveKeepsIds(students, IdOfStudent, WithStudentId, data, "S", 3, false);
    Collections.Save(students, IdOfStudent, WithStudentId, data, "S", 3, false)
  }

  /** `handleDeleteStudent`: every student with that id goes, the rest stay
      in order. Room rosters are separate state and keep the id. */
  function DeleteStudent(students: seq<Student>, studentId: Id): (r: seq<Student>)
    ensures forall s :: s in r <==> s in students && s.id != studentId
    ensures StudentIds(r) == Without(StudentIds(students), studentId)
  {
    Collections.RemoveById(students, IdOfStudent, studentId)
  }

  /** Editing a student whose id is listed puts the submitted record in the
      list without changing any id; an unknown id changes nothing. */
  lemma EditStudent(students: seq<Student>, data: Student)
    requires data.id != ""
    ensures StudentIds(SaveStudent(students, data)) == StudentIds(students)
    ensures data.id in StudentIds(students) ==> data in SaveStudent(students, data)
    ensures data.id !in StudentIds(students) ==> SaveStudent(students, data) == students
  {
    if data.id in StudentIds(students) {
      Collections.UpdateKnownId(students, IdOfStudent, data);
    } else {
      Collections.UpdateUnknownId(students, IdOfStudent, data);
    }
  }

  /** Deleting a student just created, by its new id, restores the list. */
  lemma CreateThenDeleteStudent(students: seq<Student>, data: Student)
    requires data.id == "" && AllIdsNumbered(StudentIds(students), 1)
    ensures DeleteStudent(SaveStudent(students, data), NewStudentId(students)) == students
  {
    assert Collections.StoresId(IdOfStudent, WithStudentId);
    Collections.CreateThenDelete(students, IdOfStudent, WithStudentId, data, "S", 3, false);
  }

  /** The total fee on a row: tuition plus hostel fee plus every extra fee. */
  function TotalFee(s: Student): (total: int)
    ensures s.extraFees == [] ==> total == s.tuitionFee + s.hostelFee
  {
    s.tuitionFee + s.hostelFee + LineItems.Sum(s.extraFees)
  }

  /** Each extra fee adds its amount to the total, so with the empty case of
      `TotalFee` the total is tuition plus hostel fee plus every extra fee. */
  lemma TotalFeeAddsFee(s: Student, fee: LineItem)
    ensures TotalFee(s.(extraFees := s.extraFees + [fee])) == TotalFee(s) + fee.amount
  {
    LineItems.SumAppend(s.extraFees, fee);
  }
}
