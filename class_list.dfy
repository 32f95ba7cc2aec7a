/** The class list screen: save (edit in place or create with the next
    `C`-prefixed id, padded to two digits, at the end), delete by id, the
    department shown for a class (`Departments.DepartmentName`) and the
    comma-separated names of its subjects. */
module ClassList {
  import opened Seqs
  import opened School
  import opened RecordIds
  import Collections
  import TeacherList

  function IdOfClass(c: ClassInfo): Id { c.id }

  function WithClassId(c: ClassInfo, id: Id): ClassInfo { c.(id := id) }

  function ClassIds(classes: seq<ClassInfo>): seq<Id> {
    Collections.IdsOf(classes, IdOfClass)
  }

  /** The id a new class receives: `C` then the next number, at least two digits. */
  function NewClassId(classes: seq<ClassInfo>): (id: Id)
    requires AllIdsNumbered(ClassIds(classes), 1)
    ensures id !in ClassIds(classes)
    ensures StartsWith(id, "C") && |id| >= 3 && AllDigits(id[1..])
    ensures IdNumber(id, 1) == MaxIdNumber(ClassIds(classes), 1) + 1
  {
    NextId(ClassIds(classes), "C", 2)
  }

  /** `handleSaveClass`: edit in place by id, or append under a new id;
      the ids stay distinct and readable. */
  function SaveClass(classes: seq<ClassInfo>, data: ClassInfo): (r: seq<ClassInfo>)
    requires data.id == "" ==> AllIdsNumbered(ClassIds(classes), 1)
    ensures data.id != "" ==> r == Collections.UpdateById(classes, IdOfClass, data)
    ensures data.id == "" ==> r == classes + [data.(id := NewClassId(classes))]
    ensures NoDuplicates(ClassIds(classes)) && AllIdsNumbered(ClassIds(classes), 1) ==>
      NoDuplicates(ClassIds(r)) && AllIdsNumbered(ClassIds(r), 1)
  {
    assert Collections.StoresId(IdOfClass, WithClassId);
    Collections.SaveKeepsIds(classes, IdOfClass, WithClassId, data, "C", 2, false);
    Collections.Save(classes, IdOfClass, WithClassId, data, "C", 2, false)
  }

  /** `handleDeleteClass`: only the classes with that id go, in order. */
  function DeleteClass(classes: seq<ClassInfo>, classId: Id): (r: seq<ClassInfo>)
    ensures forall c :: c in r <==> c in classes && c.id != classId
    ensures ClassIds(r) == Without(ClassIds(classes), classId)
  {
    Collections.RemoveById(classes, IdOfClass, classId)
  }

  /** An edit keeps every id, and changes nothing when its id is unknown. */
  lemma EditClass(classes: seq<ClassInfo>, data: ClassInfo)
    requires data.id != ""
    ensures ClassIds(SaveClass(classes, data)) == ClassIds(classes)
    ensures data.id in ClassIds(classes) ==> data in SaveClass(classes, data)
    ensures data.id !in ClassIds(classes) ==> SaveClass(classes, data) == classes
  {
    if data.id in ClassIds(classes) {
      Collections.UpdateKnownId(classes, IdOfClass, data);
    } else {
      Collections.UpdateUnknownId(classes, IdOfClass, data);
    }
  }

  /** `subjects.find(s => s.id === id)?.name`, with a missing subject read as
      the empty name (both are dropped by `filter(Boolean)`). */
  function LookupName(subjects: seq<Subject>, id: Id): (name: string)
    ensures forall i :: Collections.FirstWithId(subjects, TeacherList.IdOfSubject, id, i) ==> name == subjects[i].name
    ensures (forall i :: 0 <= i < |subjects| ==> subjects[i].id != id) ==> name == ""
  {
    Collections.NameOrDefault(subjects, TeacherList.IdOfSubject, TeacherList.NameOfSubject, id, "")
  }

  /** `subjectIds.map(id => lookup(id))`. */
  function LookedUp(subjects: seq<Subject>, ids: seq<Id>): (names: seq<string>)
    ensures |names| == |ids| && forall i :: 0 <= i < |ids| ==> names[i] == LookupName(subjects, ids[i])
  {
    if ids == [] then [] else [LookupName(subjects, ids[0])] + LookedUp(subjects, ids[1..])
  }

  /** `filter(Boolean)` on names: the empty name is falsy. */
  predicate NonEmpty(n: string) {
    n != ""
  }

  /** The names shown, in `subjectIds` order, unknown ids and empty names skipped. */
  function FoundNames(subjects: seq<Subject>, ids: seq<Id>): (names: seq<string>)
    ensures |names| <= |ids|
    ensures forall n :: n in names <==> n != "" && exists i :: 0 <= i < |ids| && n == LookupName(subjects, ids[i])
  {
    Filter(LookedUp(subjects, ids), NonEmpty)
  }

  /** `getSubjectNames`: the found names joined by ", ", in order. The cell
      is blank exactly when no name is found, shows a lone name as it is,
      and otherwise starts with the first found name. */
  function SubjectNames(subjects: seq<Subject>, ids: seq<Id>): (shown: string)
    ensures shown == Join(FoundNames(subjects, ids), ", ")
    ensures shown == "" <==> FoundNames(subjects, ids) == []
    ensures |FoundNames(subjects, ids)| == 1 ==> shown == FoundNames(subjects, ids)[0]
    ensures FoundNames(subjects, ids) != [] ==> StartsWith(shown, FoundNames(subjects, ids)[0])
  {
    var found := FoundNames(subjects, ids);
    assert found != [] ==> found[0] in found;
    Join(found, ", ")
  }

  lemma {:induction false} LookedUpConcat(subjects: seq<Subject>, a: seq<Id>, b: seq<Id>)
    ensures LookedUp(subjects, a + b) == LookedUp(subjects, a) + LookedUp(subjects, b)
  {
    if a == [] {
      assert a + b == b;
    } else {
      assert (a + b)[1..] == a[1..] + b;
      LookedUpConcat(subjects, a[1..], b);
    }
  }

  /** An id that names no subject leaves no trace in the shown names. */
  lemma UnknownIdSkipped(subjects: seq<Subject>, a: seq<Id>, x: Id, b: seq<Id>)
    requires forall i :: 0 <= i < |subjects| ==> subjects[i].id != x
    ensures FoundNames(subjects, a + [x] + b) == FoundNames(subjects, a + b)
  {
    var la, lb := LookedUp(subjects, a), LookedUp(subjects, b);
    assert LookupName(subjects, x) == "";
    assert LookedUp(subjects, [x]) == [""] by {
      assert [x][1..] == [];
    }
    LookedUpConcat(subjects, a + [x], b);
    LookedUpConcat(subjects, a, [x]);
    LookedUpConcat(subjects, a, b);
    FilterConcat(la + [""], lb, NonEmpty);
    FilterConcat(la, [""], NonEmpty);
    FilterConcat(la, lb, NonEmpty);
    assert Filter([""], NonEmpty) == [] by {
      assert [""][1..] == [];
    }
    assert Filter(la + [""], NonEmpty) == Filter(la, NonEmpty);
  }

  /** When every id names a subject with a non-empty name, one name is
      shown per id, in `subjectIds` order. */
  lemma AllKnownShown(subjects: seq<Subject>, ids: seq<Id>)
    requires forall i :: 0 <= i < |ids| ==> LookupName(subjects, ids[i]) != ""
    ensures FoundNames(subjects, ids) == LookedUp(subjects, ids)
    ensures |FoundNames(subjects, ids)| == |ids|
  {
    FilterKeepsAll(LookedUp(subjects, ids), NonEmpty);
  }
}
