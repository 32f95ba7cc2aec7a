/** The subject list screen: save (edit in place or create with the next
    `SUB`-prefixed id, padded to two digits, at the end; the number is read
    after the three-letter prefix), delete by id, and the department shown
    for a subject (`Departments.DepartmentName`). */
module SubjectList {
  import opened Seqs
  import opened School
  import opened RecordIds
  import Collections
  import TeacherList

  function WithSubjectId(s: Subject, id: Id): Subject { s.(id := id) }

  function SubjectIds(subjects: seq<Subject>): seq<Id> {
    Collections.IdsOf(subjects, TeacherList.IdOfSubject)
  }

  /** The id a new subject receives: `SUB` then the next number, at least two digits. */
  function NewSubjectId(subjects: seq<Subject>): (id: Id)
    requires AllIdsNumbered(SubjectIds(subjects), 3)
    ensures id !in SubjectIds(subjects)
    ensures StartsWith(id, "SUB") && |id| >= 5 && AllDigits(id[3..])
    ensures IdNumber(id, 3) == MaxIdNumber(SubjectIds(subjects), 3) + 1
  {
    NextId(SubjectIds(subjects), "SUB", 2)
  }

  /** `handleSaveSubject`: edit in place by id, or append under a new id;
      the ids stay distinct and readable. */
  function SaveSubject(subjects: seq<Subject>, data: Subject): (r: seq<Subject>)
    requires data.id == "" ==> AllIdsNumbered(SubjectIds(subjects), 3)
    ensures data.id != "" ==> r == Collections.UpdateById(subjects, TeacherList.IdOfSubject, data)
    ensures data.id == "" ==> r == subjects + [data.(id := NewSubjectId(subjects))]
    ensures NoDuplicates(SubjectIds(subjects)) && AllIdsNumbered(SubjectIds(subjects), 3) ==>
      NoDuplicates(SubjectIds(r)) && AllIdsNumbered(SubjectIds(r), 3)
  {
    assert Collections.StoresId(TeacherList.IdOfSubject, WithSubjectId);
    Collections.SaveKeepsIds(subjects, TeacherList.IdOfSubject, WithSubjectId, data, "SUB", 2, false);
    Collections.Save(subjects, TeacherList.IdOfSubject, WithSubjectId, data, "SUB", 2, false)
  }

  /** `handleDeleteSubject`: only the subjects with that id go, in order. */
  function DeleteSubject(subjects: seq<Subject>, subjectId: Id): (r: seq<Subject>)
    ensures forall s :: s in r <==> s in subjects && s.id != subjectId
    ensures SubjectIds(r) == Without(SubjectIds(subjects), subjectId)
  {
    Collections.RemoveById(subjects, TeacherList.IdOfSubject, subjectId)
  }

  /** An edit keeps every id, and changes nothing when its id is unknown. */
  lemma EditSubject(subjects: seq<Subject>, data: Subject)
    requires data.id != ""
    ensures SubjectIds(SaveSubject(subjects, data)) == SubjectIds(subjects)
    ensures data.id in SubjectIds(subjects) ==> data in SaveSubject(subjects, data)
    ensures data.id !in SubjectIds(subjects) ==> SaveSubject(subjects, data) == subjects
  {
    if data.id in SubjectIds(subjects) {
      Collections.UpdateKnownId(subjects, TeacherList.IdOfSubject, data);
    } else {
      Collections.UpdateUnknownId(subjects, TeacherList.IdOfSubject, data);
    }
  }
}
