/** The class form: its text inputs, the subject checkboxes (a toggle on
    `subjectIds`) and the subjects it offers, those of the chosen department. */
module ClassForm {
  import opened Seqs
  import opened School

  /** The inputs, by their `name` attribute: `name`, `departmentId`, `remarks`. */
  datatype Field = Name | DepartmentId | Remarks

  /** `handleChange`: the named input's value is stored as typed; nothing
      else changes, in particular the chosen subjects are kept when the
      department changes. */
  function HandleChange(form: ClassInfo, field: Field, value: string): (r: ClassInfo)
    ensures r.id == form.id && r.subjectIds == form.subjectIds
    ensures r.name == (if field == Name then value else form.name)
    ensures r.departmentId == (if field == DepartmentId then value else form.departmentId)
    ensures r.remarks == (if field == Remarks then value else form.remarks)
  {
    match field
    case Name => form.(name := value)
    case DepartmentId => form.(departmentId := value)
    case Remarks => form.(remarks := value)
  }

  /** `handleSubjectChange`: an unchecked subject is appended at the end, a
      checked one is removed wherever it occurs; no other subject id and no
      other field changes. */
  function ToggleSubject(form: ClassInfo, subjectId: Id): (r: ClassInfo)
    ensures r == form.(subjectIds := r.subjectIds)
    ensures subjectId !in form.subjectIds ==> r.subjectIds == form.subjectIds + [subjectId]
    ensures subjectId in form.subjectIds ==> r.subjectIds == Without(form.subjectIds, subjectId)
    ensures forall x :: x != subjectId ==> (x in r.subjectIds <==> x in form.subjectIds)
  {
    form.(subjectIds := Toggle(form.subjectIds, subjectId))
  }

  /** Checking and unchecking a subject that was not chosen restores the form
      exactly; unchecking and re-checking one that was restores the set. */
  lemma ToggleSubjectTwice(form: ClassInfo, subjectId: Id)
    ensures subjectId !in form.subjectIds ==> ToggleSubject(ToggleSubject(form, subjectId), subjectId) == form
    ensures forall x :: x in ToggleSubject(ToggleSubject(form, subjectId), subjectId).subjectIds <==> x in form.subjectIds
  {
    ToggleTwice(form.subjectIds, subjectId);
  }

  /** `availableSubjects`: the subjects of the form's department, in order. */
  function AvailableSubjects(subjects: seq<Subject>, form: ClassInfo): (r: seq<Subject>)
    ensures forall s :: s in r <==> s in subjects && s.departmentId == form.departmentId
  {
    Filter(subjects, (s: Subject) => s.departmentId == form.departmentId)
  }

  /** After switching department, a subject chosen under the old one stays
      chosen though it is no longer offered. */
  lemma SwitchKeepsStaleSubject(subjects: seq<Subject>, form: ClassInfo, newDepartmentId: Id, s: Subject)
    requires s in subjects && s.id in form.subjectIds && s.departmentId != newDepartmentId
    ensures var r := HandleChange(form, DepartmentId, newDepartmentId);
      s.id in r.subjectIds && s !in AvailableSubjects(subjects, r)
  {
  }
}
