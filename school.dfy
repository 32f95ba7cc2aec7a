/** The records of the school's in-memory state. Money is an `int` number of
    the smallest currency unit; every "type" field that the source declares as a
    union of string literals is kept as the string, because the source compares
    it as a string. An optional `remarks` is the empty string when absent. */
module School {

  type Id = string

  /** One `{description, amount}` entry: an extra fee of a student or a salary
      adjustment of a teacher (the two shapes are identical). */
  datatype LineItem = LineItem(description: string, amount: int)

  datatype Student = Student(
    id: Id,
    name: string,
    department: string,
    className: string,
    section: string,
    guardianName: string,
    guardianPhone: string,
    admissionDate: string,
    studentType: string,        // "Regular" | "Residential" | "Lillah Boarding"
    tuitionFee: int,
    hostelFee: int,
    extraFees: seq<LineItem>,
    remarks: string)

  datatype Teacher = Teacher(
    id: Id,
    name: string,
    subjectId: Id,
    phone: string,
    email: string,
    joiningDate: string,
    staffType: string,          // "Regular" | "Residential"
    baseSalary: int,
    residentialDeduction: int,
    adjustments: seq<LineItem>,
    remarks: string)

  datatype Employee = Employee(
    id: Id,
    name: string,
    role: string,
    phone: string,
    email: string,
    joiningDate: string,
    staffType: string,          // "Regular" | "Residential"
    salary: int,
    remarks: string)

  datatype Department = Department(id: Id, name: string, remarks: string)

  datatype ClassInfo = ClassInfo(id: Id, name: string, departmentId: Id, subjectIds: seq<Id>, remarks: string)

  datatype Subject = Subject(id: Id, name: string, departmentId: Id, remarks: string)

  datatype Earning = Earning(
    id: Id, date: string, source: string, description: string,
    amount: int, paymentMethod: string, remarks: string)

  datatype Expense = Expense(
    id: Id, date: string, category: string, description: string,
    amount: int, paymentMethod: string, remarks: string)

  datatype BankAccount = BankAccount(id: Id, name: string, balance: int)

  /** A hostel room; `studentIds` is its roster in insertion order. */
  datatype HostelRoom = HostelRoom(id: Id, roomNumber: string, capacity: int, studentIds: seq<Id>)

  /** Only Residential and Lillah Boarding students may live in the hostel. */
  predicate HostelEligible(s: Student) {
    s.studentType == "Residential" || s.studentType == "Lillah Boarding"
  }
}
