/** The student form: its inputs (the two fee inputs converted to numbers,
    a hostel fee cleared by any type other than Residential), the extra-fee
    rows, and what submit hands to the student list. `toNumber` stands for
    JavaScript's `Number` on the typed text. */
module StudentForm {
  import opened Seqs
  import opened School
  import opened RecordIds
  import LineItems
  import StudentList

  /** The inputs, by their `name` attribute (`class` is `ClassName` here). */
  datatype Field = Name | Department | ClassName | Section | GuardianName | GuardianPhone
                 | AdmissionDate | StudentType | TuitionFee | HostelFee | Remarks

  /** The form's starting contents: the student being edited, or a blank
      Regular student in section A with empty text fields and no fees. */
  function InitialForm(student: Option<Student>): (form: Student)
    ensures student.Some? ==> form == student.value
    ensures student.None? ==> form.id == "" && form.studentType == "Regular" && form.section == "A"
    ensures student.None? ==> form.tuitionFee == 0 && form.hostelFee == 0 && form.extraFees == []
    ensures student.None? ==>
      form.name == "" && form.department == "" && form.className == "" &&
      form.guardianName == "" && form.guardianPhone == "" && form.admissionDate == "" && form.remarks == ""
  {
    if student.Some? then student.value
    else Student("", "", "", "", "A", "", "", "", "Regular", 0, 0, [], "")
  }

  /** `{[name]: isNumeric ? Number(value) : value}`. */
  function Store(form: Student, field: Field, value: string, toNumber: string -> int): Student {
    match field
    case Name => form.(name := value)
    case Department() => form.(department := value)
    case ClassName => form.(className := value)
    case Section => form.(section := value)
    case GuardianName => form.(guardianName := value)
    case GuardianPhone => form.(guardianPhone := value)
    case AdmissionDate => form.(admissionDate := value)
    case StudentType => form.(studentType := value)
    case TuitionFee => form.(tuitionFee := toNumber(value))
    case HostelFee => form.(hostelFee := toNumber(value))
    case Remarks => form.(remarks := value)
  }

  /** `handleChange`. The two fee inputs store a number, the others the raw
      text. Choosing any type but Residential also sets the hostel fee to 0;
      nothing else touches the hostel fee. */
  function HandleChange(form: Student, field: Field, value: string, toNumber: string -> int): (r: Student)
    ensures field == StudentType && value != "Residential" ==> r.hostelFee == 0
    ensures field != HostelFee && !(field == StudentType && value != "Residential") ==> r.hostelFee == form.hostelFee
    ensures field == HostelFee ==> r.hostelFee == toNumber(value)
    ensures r.tuitionFee == if field == TuitionFee then toNumber(value) else form.tuitionFee
    ensures r.studentType == if field == StudentType then value else form.studentType
    ensures r.name == if field == Name then value else form.name
    ensures r.department == if field == Field.Department then value else form.department
    ensures r.className == if field == ClassName then value else form.className
    ensures r.section == if field == Section then value else form.section
    ensures r.guardianName == if field == GuardianName then value else form.guardianName
    ensures r.guardianPhone == if field == GuardianPhone then value else form.guardianPhone
    ensures r.admissionDate == if field == AdmissionDate then value else form.admissionDate
    ensures r.remarks == if field == Remarks then value else form.remarks
    ensures r.id == form.id && r.extraFees == form.extraFees
  {
    var stored := Store(form, field, value, toNumber);
    if field == StudentType && value != "Residential" then stored.(hostelFee := 0) else stored
  }

  /** A Lillah Boarding student lives in the hostel but the form clears its
      hostel fee, so its total fee is tuition plus extra fees. */
  lemma LillahBoardingPaysNoHostelFee(form: Student, toNumber: string -> int)
    ensures var r := HandleChange(form, StudentType, "Lillah Boarding", toNumber);
      HostelEligible(r) && r.hostelFee == 0 &&
      StudentList.TotalFee(r) == form.tuitionFee + LineItems.Sum(form.extraFees)
  {
  }

  /** `addFee`: a blank extra fee at the end; the total fee is unchanged. */
  function AddFee(form: Student): (r: Student)
    ensures r == form.(extraFees := r.extraFees)
    ensures |r.extraFees| == |form.extraFees| + 1 && r.extraFees[|form.extraFees|] == LineItem("", 0)
    ensures r.extraFees[..|form.extraFees|] == form.extraFees
    ensures StudentList.TotalFee(r) == StudentList.TotalFee(form)
  {
    form.(extraFees := LineItems.AddItem(form.extraFees))
  }

  /** `removeFee(i)`: the fee at `i` goes; the total drops by its amount. */
  function RemoveFee(form: Student, index: int): (r: Student)
    ensures r == form.(extraFees := r.extraFees)
    ensures 0 <= index < |form.extraFees| ==>
      |r.extraFees| == |form.extraFees| - 1 &&
      (forall j :: 0 <= j < index ==> r.extraFees[j] == form.extraFees[j]) &&
      (forall j :: index <= j < |r.extraFees| ==> r.extraFees[j] == form.extraFees[j + 1]) &&
      StudentList.TotalFee(r) == StudentList.TotalFee(form) - form.extraFees[index].amount
    ensures !(0 <= index < |form.extraFees|) ==> r == form
  {
    form.(extraFees := LineItems.RemoveItemAt(form.extraFees, index))
  }

  /** `handleFeeChange`, with the row copied rather than written in place
      (see `LineItems.ChangeEntryInPlace`): only that row's field changes,
      and the total moves by the change in its amount. */
  function ChangeFee(form: Student, index: nat, field: LineItems.ItemField, value: string, toNumber: string -> int): (r: Student)
    requires index < |form.extraFees|
    ensures r == form.(extraFees := r.extraFees)
    ensures |r.extraFees| == |form.extraFees|
    ensures forall j :: 0 <= j < |form.extraFees| && j != index ==> r.extraFees[j] == form.extraFees[j]
    ensures field == LineItems.Description ==> r.extraFees[index] == form.extraFees[index].(description := value)
    ensures field == LineItems.Amount ==> r.extraFees[index] == form.extraFees[index].(amount := toNumber(value))
    ensures StudentList.TotalFee(r) == StudentList.TotalFee(form) - form.extraFees[index].amount + r.extraFees[index].amount
  {
    form.(extraFees := LineItems.ChangeItem(form.extraFees, index, field, value, toNumber))
  }

  /** `handleSubmit`: the form's contents with the edited student's id, or
      with no id for a new student. */
  function Submit(form: Student, student: Option<Student>): (data: Student)
    ensures data == form.(id := data.id)
    ensures data.id == if student.Some? then student.value.id else ""
  {
    form.(id := if student.Some? then student.value.id else "")
  }

  /** Submitting a new student makes the list one longer under a new id;
      submitting an edited student keeps the list's ids and puts the
      submitted record in it. */
  lemma SubmitThenSave(students: seq<Student>, form: Student, student: Option<Student>)
    requires student.None? ==> AllIdsNumbered(StudentList.StudentIds(students), 1)
    requires student.Some? ==> student.value.id != "" && student.value.id in StudentList.StudentIds(students)
    ensures student.None? ==>
      var after := StudentList.SaveStudent(students, Submit(form, student));
      |after| == |students| + 1 && after[..|students|] == students && after[|students|].id !in StudentList.StudentIds(students)
    ensures student.Some? ==>
      var after := StudentList.SaveStudent(students, Submit(form, student));
      StudentList.StudentIds(after) == StudentList.StudentIds(students) && Submit(form, student) in after
  {
    if student.Some? {
      StudentList.EditStudent(students, Submit(form, student));
    }
  }
}
