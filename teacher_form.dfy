/** The teacher form: its inputs (base salary and residential deduction
    converted to numbers), the salary-adjustment rows, and what submit hands
    to the teacher list. Unlike the student form, changing the type resets
    nothing. `toNumber` stands for JavaScript's `Number` on the typed text. */
module TeacherForm {
  import opened Seqs
  import opened School
  import opened RecordIds
  import LineItems
  import TeacherList

  /** The inputs, by their `name` attribute (`type` is `StaffType` here). */
  datatype Field = Name | SubjectId | Phone | Email | JoiningDate | StaffType
                 | BaseSalary | ResidentialDeduction | Remarks

  /** The form's starting contents: the teacher being edited, or a blank
      Regular teacher with empty text fields and no salary. */
  function InitialForm(teacher: Option<Teacher>): (form: Teacher)
    ensures teacher.Some? ==> form == teacher.value
    ensures teacher.None? ==> form.id == "" && form.staffType == "Regular" && form.adjustments == []
    ensures teacher.None? ==> form.baseSalary == 0 && form.residentialDeduction == 0
    ensures teacher.None? ==>
      form.name == "" && form.subjectId == "" && form.phone == "" &&
      form.email == "" && form.joiningDate == "" && form.remarks == ""
  {
    if teacher.Some? then teacher.value
    else Teacher("", "", "", "", "", "", "Regular", 0, 0, [], "")
  }

  /** `handleChange`: the two salary inputs store a number, the others the
      raw text, and no other field changes. */
  function HandleChange(form: Teacher, field: Field, value: string, toNumber: string -> int): (r: Teacher)
    ensures r.baseSalary == if field == BaseSalary then toNumber(value) else form.baseSalary
    ensures r.residentialDeduction == if field == ResidentialDeduction then toNumber(value) else form.residentialDeduction
    ensures r.staffType == if field == StaffType then value else form.staffType
    ensures r.name == if field == Name then value else form.name
    ensures r.subjectId == if field == SubjectId then value else form.subjectId
    ensures r.phone == if field == Phone then value else form.phone
    ensures r.email == if field == Email then value else form.email
    ensures r.joiningDate == if field == JoiningDate then value else form.joiningDate
    ensures r.remarks == if field == Remarks then value else form.remarks
    ensures r.id == form.id && r.adjustments == form.adjustments
  {
    match field
    case Name => form.(name := value)
    case SubjectId => form.(subjectId := value)
    case Phone => form.(phone := value)
    case Email => form.(email := value)
    case JoiningDate => form.(joiningDate := value)
    case StaffType => form.(staffType := value)
    case BaseSalary => form.(baseSalary := toNumber(value))
    case ResidentialDeduction => form.(residentialDeduction := toNumber(value))
    case Remarks => form.(remarks := value)
  }

  /** Switching a teacher to Regular keeps the residential deduction, so the
      list's total salary still subtracts it. */
  lemma RegularKeepsDeduction(form: Teacher, toNumber: string -> int)
    ensures var r := HandleChange(form, StaffType, "Regular", toNumber);
      r.staffType == "Regular" && r.residentialDeduction == form.residentialDeduction &&
      TeacherList.TotalSalary(r) == TeacherList.TotalSalary(form)
  {
  }

  /** `addAdjustment`: a blank adjustment at the end; the total salary is unchanged. */
  function AddAdjustment(form: Teacher): (r: Teacher)
    ensures r == form.(adjustments := r.adjustments)
    ensures |r.adjustments| == |form.adjustments| + 1 && r.adjustments[|form.adjustments|] == LineItem("", 0)
    ensures r.adjustments[..|form.adjustments|] == form.adjustments
    ensures TeacherList.TotalSalary(r) == TeacherList.TotalSalary(form)
  {
    form.(adjustments := LineItems.AddItem(form.adjustments))
  }

  /** `removeAdjustment(i)`: the adjustment at `i` goes; the total salary
      moves by minus its amount. */
  function RemoveAdjustment(form: Teacher, index: int): (r: Teacher)
    ensures r == form.(adjustments := r.adjustments)
    ensures 0 <= index < |form.adjustments| ==>
      |r.adjustments| == |form.adjustments| - 1 &&
      (forall j :: 0 <= j < index ==> r.adjustments[j] == form.adjustments[j]) &&
      (forall j :: index <= j < |r.adjustments| ==> r.adjustments[j] == form.adjustments[j + 1]) &&
      TeacherList.TotalSalary(r) == TeacherList.TotalSalary(form) - form.adjustments[index].amount
    ensures !(0 <= index < |form.adjustments|) ==> r == form
  {
    form.(adjustments := LineItems.RemoveItemAt(form.adjustments, index))
  }

  /** `handleAdjustmentChange`, with the row copied rather than written in
      place (see `LineItems.ChangeEntryInPlace`): only that row's field
      changes, and the total moves by the change in its amount. */
  function ChangeAdjustment(form: Teacher, index: nat, field: LineItems.ItemField, value: string, toNumber: string -> int): (r: Teacher)
    requires index < |form.adjustments|
    ensures r == form.(adjustments := r.adjustments)
    ensures |r.adjustments| == |form.adjustments|
    ensures forall j :: 0 <= j < |form.adjustments| && j != index ==> r.adjustments[j] == form.adjustments[j]
    ensures field == LineItems.Description ==> r.adjustments[index] == form.adjustments[index].(description := value)
    ensures field == LineItems.Amount ==> r.adjustments[index] == form.adjustments[index].(amount := toNumber(value))
    ensures TeacherList.TotalSalary(r) == TeacherList.TotalSalary(form) - form.adjustments[index].amount + r.adjustments[index].amount
  {
    form.(adjustments := LineItems.ChangeItem(form.adjustments, index, field, value, toNumber))
  }

  /** `handleSubmit`: the form's contents with the edited teacher's id, or
      with no id for a new teacher. */
  function Submit(form: Teacher, teacher: Option<Teacher>): (data: Teacher)
    ensures data == form.(id := data.id)
    ensures data.id == if teacher.Some? then teacher.value.id else ""
  {
    form.(id := if teacher.Some? then teacher.value.id else "")
  }

  /** Submitting a new teacher makes the list one longer under a new id;
      submitting an edited teacher keeps the list's ids and puts the
      submitted record in it. */
  lemma SubmitThenSave(teachers: seq<Teacher>, form: Teacher, teacher: Option<Teacher>)
    requires teacher.None? ==> AllIdsNumbered(TeacherList.TeacherIds(teachers), 1)
    requires teacher.Some? ==> teacher.value.id != "" && teacher.value.id in TeacherList.TeacherIds(teachers)
    ensures teacher.None? ==>
      var after := TeacherList.SaveTeacher(teachers, Submit(form, teacher));
      |after| == |teachers| + 1 && after[..|teachers|] == teachers && after[|teachers|].id !in TeacherList.TeacherIds(teachers)
    ensures teacher.Some? ==>
      var after := TeacherList.SaveTeacher(teachers, Submit(form, teacher));
      TeacherList.TeacherIds(after) == TeacherList.TeacherIds(teachers) && Submit(form, teacher) in after
  {
    if teacher.Some? {
      TeacherList.EditTeacher(teachers, Submit(form, teacher));
    }
  }
}
