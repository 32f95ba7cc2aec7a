/** The warden list of the hostel module: the staff whose id is in the
    warden ids, teachers first, and its name search. */
module Wardens {
  import opened Seqs
  import opened School

  /** A teacher or an employee, as the list holds both. */
  datatype Staff = TeacherStaff(teacher: Teacher) | EmployeeStaff(employee: Employee)

  function StaffId(s: Staff): Id {
    match s
    case TeacherStaff(t) => t.id
    case EmployeeStaff(e) => e.id
  }

  function StaffName(s: Staff): string {
    match s
    case TeacherStaff(t) => t.name
    case EmployeeStaff(e) => e.name
  }

  function AsStaff(teachers: seq<Teacher>, employees: seq<Employee>): (all: seq<Staff>)
    ensures |all| == |teachers| + |employees|
    ensures forall i :: 0 <= i < |teachers| ==> all[i] == TeacherStaff(teachers[i])
    ensures forall i :: 0 <= i < |employees| ==> all[|teachers| + i] == EmployeeStaff(employees[i])
  {
    seq(|teachers|, i requires 0 <= i < |teachers| => TeacherStaff(teachers[i])) +
    seq(|employees|, i requires 0 <= i < |employees| => EmployeeStaff(employees[i]))
  }

  predicate IsWarden(wardenIds: seq<Id>, s: Staff) {
    StaffId(s) in wardenIds
  }

  /** `[...teachers, ...employees].filter(staff => wardenIds.includes(staff.id))`. */
  function WardenList(wardenIds: seq<Id>, teachers: seq<Teacher>, employees: seq<Employee>): (r: seq<Staff>)
    ensures forall s :: s in r <==> s in AsStaff(teachers, employees) && StaffId(s) in wardenIds
  {
    Filter(AsStaff(teachers, employees), s => IsWarden(wardenIds, s))
  }

  /** Listed teachers come first, then listed employees, each in their own
      order. */
  lemma TeachersFirst(wardenIds: seq<Id>, teachers: seq<Teacher>, employees: seq<Employee>)
    ensures WardenList(wardenIds, teachers, employees) ==
      Filter(AsStaff(teachers, []), s => IsWarden(wardenIds, s)) +
      Filter(AsStaff([], employees), s => IsWarden(wardenIds, s))
  {
    assert AsStaff(teachers, employees) == AsStaff(teachers, []) + AsStaff([], employees);
    FilterConcat(AsStaff(teachers, []), AsStaff([], employees), s => IsWarden(wardenIds, s));
  }

  /** No Residential filter applies here: a Regular teacher whose id is a
      warden id is listed. An id naming no staff record lists nobody. */
  lemma ListedByIdOnly(wardenIds: seq<Id>, teachers: seq<Teacher>, employees: seq<Employee>, i: nat)
    requires i < |teachers| && teachers[i].id in wardenIds
    ensures TeacherStaff(teachers[i]) in WardenList(wardenIds, teachers, employees)
    ensures forall s :: s in WardenList(wardenIds, teachers, employees) ==>
      StaffId(s) in wardenIds &&
      exists j :: 0 <= j < |teachers| + |employees| && AsStaff(teachers, employees)[j] == s
  {
    assert AsStaff(teachers, employees)[i] == TeacherStaff(teachers[i]);
  }

  /** The name search over the warden list. */
  function SearchWardens(wardens: seq<Staff>, term: string, lower: string -> string): (r: seq<Staff>)
    ensures forall s :: s in r <==> s in wardens && Matches(StaffName(s), term, lower)
  {
    Search(wardens, StaffName, term, lower)
  }
}
