# Madrasha management: a verified model of its record screens

The Madrasha Management System is a single-page school administration app.
It keeps lists of students, teachers, employees, departments, classes and
subjects; runs a hostel whose rooms carry rosters of student ids; keeps a
set of warden ids; and shows a small finance section with earnings,
expenses and bank accounts. All state lives in React component state and
changes through handlers that compute a new list or record from the old
one.

This project models those handlers in Dafny. It has one module per
screen, plus shared modules:

- `School`: the record types.
- `Seqs`: sequence helpers such as filter, without, toggle and search.
- `RecordIds`: the `prefix + padded number` id scheme.
- `Collections`: save-or-create and delete-by-id, shared by every list screen.
- `LineItems`: fee and salary-adjustment entries.

The hostel modules are the following:

- `Rooms`: the allocation relation and every room and roster update.
- `AllocationView`: the student-allocation screen.
- `RoomEditor`: the per-room allocation editor.
- `RoomPicker`: the assign-room picker.
- `ManageRooms` and `HostelDashboard`: the room table and the dashboard.
- `WardenEditor`: the warden editor.
- `Wardens`: the warden list.

The hostel's central invariant is `Rooms.UniqueAllocation`: no student id is
listed twice, in one room or across rooms. The lemmas show which
handlers keep it unconditionally and which keep it only when their caller
takes care. Assigning keeps it provided that at most one room carries the
target id. Replacing a roster keeps it provided that the new roster brings
in only free students. `Rooms.ReplaceRosterCanDuplicate` shows how the
replace path breaks it.

The list screens share one id scheme: the largest number found after the
prefix, plus one, padded with zeros. The model proves the following:

- The new id is fresh.
- The new id reads back as that number.
- Saving keeps ids distinct.
- Deleting a record just created restores the list.

The forms are modelled as pure functions from the old form and an input
event to the new form, and their totals are tied to the list rows' totals.

The edit handlers of the fee and adjustment rows write into entry objects
that the form shares with the stored record. Imperative Dafny models that
as written, with a class and a method. The rest of the model uses a
value-based version that changes only the form's copy (see Findings).

## Model

| member | source | states |
|---|---|---|
| Rooms.Rosters | components/Hostel.tsx:24 | definition (`flatMap` of the rosters, no contract): `InRosters` and `RostersConcat` state its content |
| Rooms.InRosters | components/Hostel.tsx:24 | an id is in the flattened rosters exactly when some room lists it |
| Rooms.RostersConcat | components/Hostel.tsx:24 | flattening distributes over concatenation of room lists |
| Rooms.AllocatedIds | components/Hostel.tsx:24 | the allocated-id set holds exactly the ids of the flattened rosters |
| Rooms.RoomIds | types.ts:122-127 | room ids in room order, one per room |
| Rooms.NoDuplicatesConcat | components/Hostel.tsx:24 | a concatenation is repeat-free iff both halves are and they share no element |
| Rooms.UniqueAllocationPerRoom | components/Hostel.tsx:24 | the allocation invariant holds iff each roster is repeat-free and no two rooms share an id |
| Rooms.Unassigned | components/Hostel.tsx:23-30 | unassigned = the Residential or Lillah Boarding students in no roster, both directions |
| Rooms.RoomStudents | components/Hostel.tsx:106 | a room card shows exactly the students its roster lists |
| Rooms.RegularNeverUnassigned | components/Hostel.tsx:25-28 | a Regular student never appears as unassigned |
| Rooms.RemoveStudent | components/hostel/StudentAllocationView.tsx:44-51 | removal keeps the number of rooms |
| Rooms.RemoveStudentRosters | components/hostel/StudentAllocationView.tsx:46-49 | the flattened rosters lose exactly the student's occurrences, and the student is listed nowhere |
| Rooms.RemoveStudentRooms | components/hostel/StudentAllocationView.tsx:46-49 | room by room, the student's count drops to zero and every other count is kept; id, number and capacity are kept |
| Rooms.RemoveStudentIdempotent | components/hostel/StudentAllocationView.tsx:46-49 | removing twice equals removing once |
| Rooms.RemoveStudentKeepsUnique | components/hostel/StudentAllocationView.tsx:44-51 | removal preserves the allocation invariant |
| Rooms.AppendTo | components/Hostel.tsx:81-85 | the append step keeps the number of rooms |
| Rooms.AppendToCount | components/Hostel.tsx:81-85 | the student's count in the rosters rises by the number of rooms with the target id |
| Rooms.AppendToWithout | components/Hostel.tsx:81-85 | apart from the student, the append step leaves the rosters unchanged |
| Rooms.Assign | components/Hostel.tsx:74-88 | assignment keeps the number of rooms |
| Rooms.AssignRoster | components/Hostel.tsx:76-85 | room k's roster after assignment is the old one without the student, plus the student iff its id is the target |
| Rooms.AssignRoom | components/Hostel.tsx:76-85 | the student is in room k iff k has the target id, and then last; apart from the student the roster is unchanged; id, number and capacity are kept |
| Rooms.AssignRosters | components/Hostel.tsx:74-88 | across all rosters the student is listed once per room with the target id; nobody else moves |
| Rooms.AssignPlacesOnce | components/Hostel.tsx:74-88 | a target id carried by one room places the student exactly once; an unknown room id unassigns the student |
| Rooms.AssignKeepsUnique | components/Hostel.tsx:74-88 | assignment preserves the invariant when at most one room has the target id |
| Rooms.ReplaceRoster | components/Hostel.tsx:64-67 | saving an allocation keeps the number of rooms |
| Rooms.ReplaceRosterRooms | components/Hostel.tsx:65 | only the matching rooms change, and only in their roster, which becomes the new ids |
| Rooms.RostersUpdate | components/Hostel.tsx:65 | swapping one room swaps its roster's multiset inside the flattened rosters |
| Rooms.ReplaceRosterCount | components/Hostel.tsx:65 | with a unique room id, the flattened rosters lose the old roster and gain the new one |
| Rooms.ReplaceRosterKeepsUnique | components/Hostel.tsx:64-67 | the save keeps the invariant when the new roster is repeat-free and brings in only free students |
| Rooms.ReplaceRosterCanDuplicate | components/Hostel.tsx:64-67 | saving room R1's student into R2 lists that student twice, breaking the invariant |
| Rooms.DeleteRoom | components/Hostel.tsx:42-46 | exactly the rooms with another id survive |
| Rooms.DeleteRoomRosters | components/Hostel.tsx:44 | the rosters only shrink; an id stays listed iff a surviving room lists it |
| Rooms.DeleteRoomKeepsUnique | components/Hostel.tsx:42-46 | deleting rooms preserves the invariant |
| Rooms.DeleteRoomFreesOccupants | components/Hostel.tsx:43 | an eligible student housed only in the deleted room becomes unassigned |
| Rooms.EditRoom | components/Hostel.tsx:50 | editing keeps the number of rooms |
| Rooms.EditRoomKeepsRosters | components/Hostel.tsx:50 | only number and capacity of matching rooms change; ids and rosters are kept |
| Rooms.RostersByRoster | components/Hostel.tsx:24 | the flattened rosters depend on the rosters only |
| Rooms.LexLe | components/Hostel.tsx:54 | definition (no contract): code-point order standing in for `localeCompare`; `LexLeTotal` and `LexLeTrans` make it a total preorder |
| Rooms.LexLeTotal | components/Hostel.tsx:54 | the room-number order is total |
| Rooms.LexLeTrans | components/Hostel.tsx:54 | the room-number order is transitive |
| Rooms.InsertByNumber | components/Hostel.tsx:54 | an insertion step adds exactly the room (multiset) |
| Rooms.InsertKeepsSorted | components/Hostel.tsx:54 | inserting into a sorted list keeps it sorted by room number |
| Rooms.SortByNumber | components/Hostel.tsx:54 | the sort is a permutation and sorted by room number |
| Rooms.CreateRoom | components/Hostel.tsx:52-54 | creation yields a sorted list with exactly one more room, the new one with an empty roster |
| AllocationView.RoomEntries | components/hostel/StudentAllocationView.tsx:20-22 | one room maps exactly its students to its number |
| AllocationView.RoomMapOf | components/hostel/StudentAllocationView.tsx:18-23 | the room map's keys are exactly the listed ids |
| AllocationView.RoomMapOfLastRoom | components/hostel/StudentAllocationView.tsx:19-23 | a listed student maps to the number of the last room listing them |
| AllocationView.SetRoomEntries | components/hostel/StudentAllocationView.tsx:20-22 | the inner loop over one room's roster leaves the map as before overridden by that room's entries |
| AllocationView.BuildRoomMap | components/hostel/StudentAllocationView.tsx:18-23 | the nested loop builds exactly the room map |
| AllocationView.ShownRoom | components/hostel/StudentAllocationView.tsx:29 | N/A is shown iff the entry is missing, empty or itself N/A; otherwise the entry is shown |
| AllocationView.Label | components/hostel/StudentAllocationView.tsx:29 | one row per resident, carrying that student and the shown room |
| AllocationView.Residential | components/hostel/StudentAllocationView.tsx:25 | exactly the Residential and Lillah Boarding students |
| AllocationView.Allocated | components/hostel/StudentAllocationView.tsx:27-29 | definition (no contract): `PartitionExact` and `AllocatedShowsLastRoom` state which students it holds and the room each shows |
| AllocationView.UnassignedStudents | components/hostel/StudentAllocationView.tsx:31 | definition (no contract): `PartitionExact` and `UnassignedAgrees` state its content |
| AllocationView.Partition | components/hostel/StudentAllocationView.tsx:16-34 | the memo computes the allocated table and the unassigned list |
| AllocationView.PartitionExact | components/hostel/StudentAllocationView.tsx:27-31 | each eligible student is in exactly one list; a Regular student is in neither |
| AllocationView.UnassignedAgrees | components/hostel/StudentAllocationView.tsx:31 | this screen's unassigned list equals the hostel page's |
| AllocationView.AllocatedShowsLastRoom | components/hostel/StudentAllocationView.tsx:27-29 | each row is an eligible student shown with the last room listing them, or N/A |
| AllocationView.AssignShowsRoom | components/hostel/StudentAllocationView.tsx:53-69 | after assignment to a uniquely named room, the student is listed in that room |
| AllocationView.SearchAllocated | components/hostel/StudentAllocationView.tsx:36 | exactly the rows whose lowered name includes the lowered term |
| AllocationView.SearchUnassigned | components/hostel/StudentAllocationView.tsx:37 | exactly the students whose lowered name includes the lowered term |
| RoomEditor.Step | components/AllocateStudentModal.tsx:26-36 | add appends only below capacity, else keeps the roster; remove filters every occurrence |
| RoomEditor.EditsKeepCapacity | components/AllocateStudentModal.tsx:27 | a roster within capacity stays within it whatever is pressed; an over-full one never grows |
| RoomEditor.EditsOnlyAdd | components/AllocateStudentModal.tsx:26-36 | every id on the working roster was on the room's roster or was added |
| RoomEditor.AddTwiceDuplicates | components/AllocateStudentModal.tsx:26-32 | adding the same id twice with room lists it twice |
| RoomEditor.AvailableStudents | components/AllocateStudentModal.tsx:18-21 | exactly the eligible students absent from the opening snapshot |
| RoomEditor.AvailableIsUnassigned | components/AllocateStudentModal.tsx:18-21 | opened from the hostel page, the offered students are exactly its unassigned list and in no roster |
| RoomEditor.AssignedStudents | components/AllocateStudentModal.tsx:16 | exactly the students whose id is on the working roster |
| RoomEditor.SaveKeepsUnique | components/AllocateStudentModal.tsx:38-40 | saving the edits keeps the invariant when added students were free and the result is repeat-free |
| RoomEditor.Editor.constructor | components/AllocateStudentModal.tsx:13 | the working roster starts as the room's roster |
| RoomEditor.Editor.AddStudent | components/AllocateStudentModal.tsx:26-32 | appends below capacity, else unchanged; the edit history stays in step |
| RoomEditor.Editor.RemoveStudent | components/AllocateStudentModal.tsx:34-36 | the roster loses every occurrence of the id |
| RoomEditor.Editor.SaveChanges | components/AllocateStudentModal.tsx:38-40 | hands over the room id and roster; within capacity if the room started within it |
| RoomEditor.Editor.Assigned | components/AllocateStudentModal.tsx:16 | exactly the students on the working roster |
| RoomEditor.Editor.Available | components/AllocateStudentModal.tsx:18-21 | exactly the eligible students outside the snapshot |
| RoomPicker.HasSpace | components/AssignRoomToStudentModal.tsx:14 | definition (no contract): roster shorter than capacity; `AvailableRooms` filters by it and `PickerKeepsCapacity` assumes it of the chosen room |
| RoomPicker.AvailableRooms | components/AssignRoomToStudentModal.tsx:14 | exactly the rooms below capacity |
| RoomPicker.NoSpaceNoOffer | components/AssignRoomToStudentModal.tsx:45 | when every room is full, nothing is offered |
| RoomPicker.Submit | components/AssignRoomToStudentModal.tsx:16-21 | an assignment is produced iff a room is selected, for that student and room |
| RoomPicker.PickerKeepsCapacity | components/AssignRoomToStudentModal.tsx:14 | assigning into an offered, uniquely named room keeps every room within capacity |
| RoomPicker.ChooseOwnRoom | components/AssignRoomToStudentModal.tsx:14 | re-picking the student's own room keeps its roster length and moves the student to the end |
| ManageRooms.Occupancy | components/hostel/ManageRoomsView.tsx:80 | occupancy is the roster length |
| ManageRooms.RoomStatus | components/hostel/ManageRoomsView.tsx:81-89 | Full iff occupancy reaches capacity |
| ManageRooms.StatusMatchesPicker | components/hostel/ManageRoomsView.tsx:81 | a room is shown Available iff the picker offers it |
| ManageRooms.UnknownIdsOccupy | components/hostel/ManageRoomsView.tsx:80-81 | an id of no student still fills a place |
| ManageRooms.SearchRooms | components/hostel/ManageRoomsView.tsx:43-46 | exactly the rooms whose lowered number includes the lowered term |
| HostelDashboard.TotalCapacity | components/hostel/HostelDashboardView.tsx:24 | definition (no contract): `TotalCapacitySplit` and `StudentsWithinCapacity` state its properties |
| HostelDashboard.StudentsInHostel | components/hostel/HostelDashboardView.tsx:25 | definition (no contract): `StudentsInHostelCount` bounds it by the roster entries |
| HostelDashboard.UnassignedCount | components/hostel/HostelDashboardView.tsx:26-31 | definition (no contract): `UnassignedCountAgrees` equates it with the hostel page's list |
| HostelDashboard.TotalCapacitySplit | components/hostel/HostelDashboardView.tsx:24 | total capacity adds over concatenation |
| HostelDashboard.StudentsInHostelCount | components/hostel/HostelDashboardView.tsx:25 | occupied ≤ roster entries, with equality iff the invariant holds |
| HostelDashboard.RostersLength | components/hostel/HostelDashboardView.tsx:25 | roster entries = sum of roster lengths |
| HostelDashboard.SumOfBounded | components/hostel/HostelDashboardView.tsx:24 | with every room within capacity, the entries are at most total capacity |
| HostelDashboard.StudentsWithinCapacity | components/hostel/HostelDashboardView.tsx:24-25 | occupied never exceeds capacity when rooms are within capacity |
| HostelDashboard.UnassignedCountAgrees | components/hostel/HostelDashboardView.tsx:26-31 | the count equals the length of the hostel page's unassigned list |
| Seqs.Toggle | components/hostel/ManageWardensModal.tsx:22-32 | the toggled id flips membership; every other id keeps it |
| Seqs.ToggleKeepsDistinct | components/hostel/ManageWardensModal.tsx:22-32 | toggling keeps a repeat-free list repeat-free |
| Seqs.ToggleTwice | components/hostel/ManageWardensModal.tsx:22-32 | toggling twice restores membership, and the exact list when the id was absent |
| Seqs.Search | components/hostel/ManageRoomsView.tsx:43-46 | exactly the items whose lowered key includes the lowered term |
| Seqs.SearchEmptyTerm | components/hostel/ManageRoomsView.tsx:43-46 | an empty lowered term shows every item |
| WardenEditor.Dedup | components/hostel/ManageWardensModal.tsx:13 | the initial set: repeat-free, same members, led by the first id; a repeat-free list comes back unchanged |
| WardenEditor.Editor.constructor | components/hostel/ManageWardensModal.tsx:13 | the selection starts as the deduplicated current wardens |
| WardenEditor.Editor.ToggleWarden | components/hostel/ManageWardensModal.tsx:22-32 | the selection becomes the toggle of the old one and stays repeat-free |
| WardenEditor.Editor.SaveChanges | components/hostel/ManageWardensModal.tsx:34-36 | hands over the selection, free of repeats |
| WardenEditor.Editor.ResidentialTeachers | components/hostel/ManageWardensModal.tsx:17 | exactly the Residential teachers |
| WardenEditor.Editor.ResidentialEmployees | components/hostel/ManageWardensModal.tsx:18 | exactly the Residential employees |
| WardenEditor.ToggleAllKeepsUntouched | components/hostel/ManageWardensModal.tsx:22-32 | any toggle sequence keeps the set repeat-free and leaves untoggled ids as they were |
| Wardens.AsStaff | components/hostel/ManageWardensView.tsx:17 | teachers first, then employees, in order |
| Wardens.WardenList | components/hostel/ManageWardensView.tsx:16-19 | exactly the staff whose id is a warden id |
| Wardens.TeachersFirst | components/hostel/ManageWardensView.tsx:17-18 | the list is the warden teachers followed by the warden employees |
| Wardens.ListedByIdOnly | components/hostel/ManageWardensView.tsx:18 | a teacher with a warden id is listed; everyone listed has a warden id and is one of the staff records |
| Wardens.SearchWardens | components/hostel/ManageWardensView.tsx:26-29 | exactly the wardens whose lowered name includes the lowered term |
| RecordIds.DigitChar | components/StudentList.tsx:47 | a digit value maps to a digit character |
| RecordIds.Decimal | components/StudentList.tsx:47 | String(n) is a non-empty digit string whose value is n |
| RecordIds.Zeros | components/StudentList.tsx:47 | k zero characters |
| RecordIds.PadStart | components/StudentList.tsx:47 | padded to width with zeros in front, never truncated, ending in the input |
| RecordIds.ZerosValue | components/StudentList.tsx:46-47 | a zero run is digits of value 0 |
| RecordIds.LeadingZerosValue | components/StudentList.tsx:46-47 | leading zeros do not change a digit string's value |
| RecordIds.LeadingDigits | components/StudentList.tsx:46 | the longest run of decimal digits at the front: all digits, a prefix, maximal |
| RecordIds.IdNumberReadsAllDigits | components/StudentList.tsx:46 | on an id that is the prefix followed by decimal digits only, the leading digit run parseInt reads is the whole suffix, so it reads IdNumber |
| RecordIds.IdNumber | components/StudentList.tsx:46 | definition (no contract): `parseInt(id.substring(k))` on an id whose suffix is all decimal digits; `IdNumberReadsAllDigits` ties it to the leading digit run and `FormatIdNumber` reads a formatted id back |
| RecordIds.MaxIdNumber | components/StudentList.tsx:46 | Math.max(0, ...): an upper bound attained by some id, or 0 |
| RecordIds.FormatIdNumber | components/StudentList.tsx:46-47 | a formatted id parses back to its number |
| RecordIds.NextId | components/StudentList.tsx:46-47 | the new id is fresh, carries the prefix and digits, parses to max + 1, and has the padded length |
| RecordIds.NextIdKeepsIdsDistinct | components/StudentList.tsx:46-52 | appending the new id keeps the ids distinct |
| Collections.IdsOf | components/StudentList.tsx:46 | one id per record, in order |
| Collections.IdsOfConcat | components/StudentList.tsx:46 | ids distribute over concatenation |
| Collections.UpdateById | components/StudentList.tsx:43 | same length and ids; matching records become the data, others stay |
| Collections.UpdateUnknownId | components/StudentList.tsx:43 | an unknown id leaves the list unchanged |
| Collections.UpdateKnownId | components/StudentList.tsx:43 | a known id puts the data in the list, and a second save changes nothing |
| Collections.RemoveById | components/StudentList.tsx:36 | exactly the records with another id survive; ids lose exactly that id |
| Collections.RemoveIds | components/StudentList.tsx:36 | the ids after deletion are the old ids without that id |
| Collections.RemoveAbsent | components/StudentList.tsx:36 | deleting an absent id changes nothing |
| Collections.NewId | components/StudentList.tsx:46-47 | fresh, prefixed, numbered max + 1 |
| Collections.Save | components/StudentList.tsx:40-56 | edit is update-by-id; create appends (or prepends) the data under the new id and keeps the rest |
| Collections.SaveIds | components/StudentList.tsx:40-56 | edit keeps the ids; create adds exactly the new id at its end |
| Collections.SaveKeepsIds | components/StudentList.tsx:40-56 | saving keeps ids distinct and parseable |
| Collections.AddIdKeeps | components/StudentList.tsx:46-52 | adding a fresh numbered id keeps ids distinct and parseable |
| Collections.RemoveKeepsIds | components/StudentList.tsx:34-38 | deleting keeps ids distinct and parseable |
| Collections.CreateThenDelete | components/StudentList.tsx:34-56 | deleting the record just created restores the list |
| Collections.NameOrDefault | components/ClassList.tsx:49-51 | the first match's name, or the fallback when it is empty or nothing matches |
| StudentList.NewStudentId | components/StudentList.tsx:46-47 | fresh, S then at least three digits, numbered max + 1 |
| StudentList.SaveStudent | components/StudentList.tsx:40-56 | edit replaces by id; create appends under the new id; ids stay distinct and parseable |
| StudentList.DeleteStudent | components/StudentList.tsx:34-38 | exactly the other students survive; ids lose that id |
| StudentList.EditStudent | components/StudentList.tsx:43 | editing keeps ids; a known id stores the data, an unknown id changes nothing |
| StudentList.CreateThenDeleteStudent | components/StudentList.tsx:34-56 | create then delete by the new id restores the list |
| StudentList.TotalFee | components/StudentList.tsx:96 | with no extra fees the total is tuition plus hostel fee |
| StudentList.TotalFeeAddsFee | components/StudentList.tsx:96 | one more extra fee raises the total by exactly its amount; with TotalFee's empty case, the total is tuition plus hostel fee plus every extra fee |
| TeacherList.NewTeacherId | components/TeacherList.tsx:46-47 | fresh, T then at least two digits, numbered max + 1 |
| TeacherList.SaveTeacher | components/TeacherList.tsx:40-56 | edit replaces by id; create appends under the new id; ids stay distinct and parseable |
| TeacherList.DeleteTeacher | components/TeacherList.tsx:36 | exactly the other teachers survive; ids lose that id |
| TeacherList.EditTeacher | components/TeacherList.tsx:43 | editing keeps ids; known id stores the data, unknown changes nothing |
| TeacherList.SubjectName | components/TeacherList.tsx:58-60 | the first matching subject's name, N/A when empty or unmatched |
| TeacherList.TotalSalary | components/TeacherList.tsx:87 | with no adjustments the total is base salary minus deduction |
| TeacherList.TotalSalaryAddsAdjustment | components/TeacherList.tsx:87 | one more adjustment moves the total by exactly its amount, and a negative one lowers it; with TotalSalary's empty case, the total is base salary minus deduction plus every adjustment |
| EmployeeList.NewEmployeeId | components/EmployeeList.tsx:35-36 | fresh, E then at least two digits, numbered max + 1 |
| EmployeeList.SaveEmployee | components/EmployeeList.tsx:31-42 | edit replaces by id; create appends under the new id; ids stay distinct and parseable |
| EmployeeList.DeleteEmployee | components/EmployeeList.tsx:25-29 | exactly the other employees survive; ids lose that id |
| EmployeeList.EditEmployee | components/EmployeeList.tsx:33 | editing keeps ids; known id stores the data, unknown changes nothing |
| Departments.NewDepartmentId | components/Department.tsx:43-44 | fresh, D then at least two digits, numbered max + 1 |
| Departments.SaveDepartment | components/Department.tsx:39-53 | edit replaces by id; create appends under the new id; ids stay distinct and parseable |
| Departments.DeleteDepartment | components/Department.tsx:33-37 | exactly the other departments survive; ids lose that id |
| Departments.EditDepartment | components/Department.tsx:41 | editing keeps ids; known id stores the data, unknown changes nothing |
| Departments.DepartmentName | components/ClassList.tsx:49-51 | the first matching department's name, Unknown when empty or unmatched |
| Departments.DeleteOrphans | components/SubjectList.tsx:48-50 | after deleting a department, its id shows as Unknown |
| Departments.InitialOpen | components/Department.tsx:15 | the first department is open when there is one with a non-empty id |
| Departments.ToggleDepartment | components/Department.tsx:19-21 | clicking the open department closes it; any other click opens that one |
| Departments.ToggleDepartmentTwice | components/Department.tsx:19-21 | two clicks restore the state, except that another open department ends closed |
| Departments.ClassesOf | components/Department.tsx:68 | exactly the classes with that department id |
| Departments.SubjectsOf | components/Department.tsx:70 | exactly the subjects with that department id |
| Departments.StudentsOf | components/Department.tsx:69 | exactly the students whose department is that name |
| Departments.RenameDropsStudents | components/Department.tsx:68-70 | renaming keeps classes and subjects but drops the students filed under the old name |
| ClassList.NewClassId | components/ClassList.tsx:37-38 | fresh, C then at least two digits, numbered max + 1 |
| ClassList.SaveClass | components/ClassList.tsx:33-47 | edit replaces by id; create appends under the new id; ids stay distinct and parseable |
| ClassList.DeleteClass | components/ClassList.tsx:27-31 | exactly the other classes survive; ids lose that id |
| ClassList.EditClass | components/ClassList.tsx:35 | editing keeps ids; known id stores the data, unknown changes nothing |
| ClassList.LookupName | components/ClassList.tsx:54 | the first matching subject's name, or empty when none matches |
| ClassList.LookedUp | components/ClassList.tsx:54 | one looked-up name per id, in order |
| ClassList.FoundNames | components/ClassList.tsx:54 | no more names than ids; exactly the non-empty looked-up names |
| ClassList.SubjectNames | components/ClassList.tsx:53-55 | the found names joined by ", " in order: blank exactly when no name is found, a lone name shown as it is, otherwise led by the first found name |
| Seqs.Join | components/ClassList.tsx:54 | empty for no parts, a lone part as it is, led by the first part; with `JoinAppend` this fixes the whole string |
| Seqs.JoinAppend | components/ClassList.tsx:54 | one more part adds the separator and that part at the end |
| ClassList.LookedUpConcat | components/ClassList.tsx:54 | lookup distributes over concatenation |
| ClassList.UnknownIdSkipped | components/ClassList.tsx:53-55 | an id naming no subject contributes nothing |
| ClassList.AllKnownShown | components/ClassList.tsx:53-55 | when every id names a subject with a name, every name is shown, one per id |
| SubjectList.NewSubjectId | components/SubjectList.tsx:36-37 | fresh, SUB then at least two digits, numbered max + 1 |
| SubjectList.SaveSubject | components/SubjectList.tsx:32-46 | edit replaces by id; create appends under the new id; ids stay distinct and parseable |
| SubjectList.DeleteSubject | components/SubjectList.tsx:26-30 | exactly the other subjects survive; ids lose that id |
| SubjectList.EditSubject | components/SubjectList.tsx:34 | editing keeps ids; known id stores the data, unknown changes nothing |
| EarningsList.NewEarningId | components/finance/EarningsList.tsx:32-33 | fresh, E then at least three digits, numbered max + 1 |
| EarningsList.SaveEarning | components/finance/EarningsList.tsx:28-39 | edit replaces by id; create puts the new earning first; ids stay distinct and parseable |
| EarningsList.DeleteEarning | components/finance/EarningsList.tsx:22-26 | exactly the other earnings survive; ids lose that id |
| EarningsList.EditEarning | components/finance/EarningsList.tsx:30 | editing keeps ids; known id stores the data, unknown changes nothing |
| EarningsList.CreateEarning | components/finance/EarningsList.tsx:28-39 | creating raises the total by the amount; deleting it again restores the list |
| ExpenseList.NewExpenseId | components/finance/ExpenseList.tsx:32-33 | fresh, X then at least three digits, numbered max + 1 |
| ExpenseList.SaveExpense | components/finance/ExpenseList.tsx:28-39 | edit replaces by id; create puts the new expense first; ids stay distinct and parseable |
| ExpenseList.DeleteExpense | components/finance/ExpenseList.tsx:22-26 | exactly the other expenses survive; ids lose that id |
| ExpenseList.EditExpense | components/finance/ExpenseList.tsx:30 | editing keeps ids; known id stores the data, unknown changes nothing |
| ExpenseList.CreateExpense | components/finance/ExpenseList.tsx:28-39 | creating raises the total by the amount; deleting it again restores the list |
| Finance.TotalEarnings | components/finance/FinanceDashboard.tsx:28 | definition (no contract): `EarningsList.CreateEarning` states how a create moves it |
| Finance.TotalExpenses | components/finance/FinanceDashboard.tsx:29 | definition (no contract): `ExpenseList.CreateExpense` states how a create moves it |
| Finance.InitialAccountId | components/finance/BankTransactionModal.tsx:12 | the first account's id, or empty without accounts |
| Finance.SubmitTransaction | components/finance/BankTransactionModal.tsx:17-24 | a transaction is produced iff an account is chosen and the amount is positive, carrying the inputs |
| Finance.ApplyTransaction | components/finance/FinanceDashboard.tsx:33-46 | same accounts; matching ones move by the signed amount, the others are unchanged |
| Finance.UnknownAccount | components/finance/FinanceDashboard.tsx:36 | an unknown account id changes nothing |
| Finance.DepositThenWithdraw | components/finance/FinanceDashboard.tsx:37-39 | a deposit then a withdrawal of the same amount restores the accounts |
| Finance.SubmittedMoves | components/finance/FinanceDashboard.tsx:37-39 | a submitted deposit strictly raises, and a submitted withdrawal strictly lowers, the chosen account's balance |
| Finance.NoOverdraftCheck | components/finance/FinanceDashboard.tsx:37-39 | withdrawing more than the balance leaves it negative |
| LineItems.Sum | components/StudentList.tsx:96 | definition (the `reduce`, no contract): `SumAppend` gives its step, `AddItem`, `RemoveItemAt` and `SumUpdate` how edits move it |
| LineItems.SumAppend | components/StudentList.tsx:96 | the reduce adds one more entry's amount, whatever its sign |
| LineItems.AddItem | components/StudentForm.tsx:45-47 | one blank entry at the end; the total is unchanged |
| LineItems.RemoveItemAt | components/StudentForm.tsx:49-51 | exactly the entry at the index goes, order kept, total drops by its amount; an index outside the list changes nothing |
| LineItems.SetField | components/StudentForm.tsx:41 | the chosen field gets the value (amount through Number), the other is kept |
| LineItems.ChangeItem | components/StudentForm.tsx:38-43 | on a copy: only that entry's field changes, and the total moves by the change in its amount |
| LineItems.SumUpdate | components/StudentForm.tsx:38-43 | replacing one entry moves the total by the difference |
| LineItems.Entry.constructor | components/StudentForm.tsx:38-43 | an entry object holding a description and an amount |
| LineItems.ChangeEntryInPlace | components/StudentForm.tsx:38-43 | as written: the copy is the same entry list, and the shared entry object is written |
| LineItems.EditLeaksIntoRecord | components/StudentForm.tsx:19-21 | an amount typed into a loaded form changes the stored record's entry |
| ClassForm.HandleChange | components/ClassForm.tsx:23-26 | the named field takes the value; id, subjects and the other fields are kept |
| ClassForm.ToggleSubject | components/ClassForm.tsx:28-35 | absent id appended, present id filtered out, other fields and memberships kept |
| ClassForm.ToggleSubjectTwice | components/ClassForm.tsx:28-35 | two toggles restore membership, and the list when the id was absent |
| ClassForm.AvailableSubjects | components/ClassForm.tsx:42 | exactly the subjects of the chosen department |
| ClassForm.SwitchKeepsStaleSubject | components/ClassForm.tsx:23-26 | changing department keeps a checked subject no longer offered |
| StudentForm.InitialForm | components/StudentForm.tsx:13-23 | a loaded student, or a blank form: every text field empty, section A, Regular, zero fees, no extra fees |
| StudentForm.HandleChange | components/StudentForm.tsx:24-36 | the named field takes the value (fees through Number); a non-Residential type zeroes the hostel fee |
| StudentForm.LillahBoardingPaysNoHostelFee | components/StudentForm.tsx:31-33 | choosing Lillah Boarding zeroes the hostel fee |
| StudentForm.AddFee | components/StudentForm.tsx:45-47 | the existing fees kept in order with a blank fee row after them; other fields and the total fee unchanged |
| StudentForm.RemoveFee | components/StudentForm.tsx:49-51 | exactly fee i goes, the others keep their order, and the total drops by its amount; other fields kept; an index outside the list changes nothing |
| StudentForm.ChangeFee | components/StudentForm.tsx:38-43 | fee `index` gets the value in the named field (amount through Number), its other field and every other fee are kept; the total moves by its amount's change |
| StudentForm.Submit | components/StudentForm.tsx:53-56 | the form with the edited student's id, or none |
| StudentForm.SubmitThenSave | components/StudentForm.tsx:53-56 | a new student is appended under a fresh id; an edit stores the form under its id |
| TeacherForm.InitialForm | components/TeacherForm.tsx:12-21 | a loaded teacher, or a blank form: every text field empty, Regular, zero salary and deduction, no adjustments |
| TeacherForm.HandleChange | components/TeacherForm.tsx:23-26 | the named field takes the value (salary fields through Number); others kept |
| TeacherForm.RegularKeepsDeduction | components/TeacherForm.tsx:23-26 | switching to Regular keeps the residential deduction |
| TeacherForm.AddAdjustment | components/TeacherForm.tsx:35-37 | the existing adjustments kept in order with a blank row after them; other fields and the salary unchanged |
| TeacherForm.RemoveAdjustment | components/TeacherForm.tsx:39-41 | exactly adjustment i goes, the others keep their order, and the salary moves by minus its amount; an index outside the list changes nothing |
| TeacherForm.ChangeAdjustment | components/TeacherForm.tsx:28-33 | adjustment `index` gets the value in the named field (amount through Number), its other field and every other adjustment are kept; the salary moves by its amount's change |
| TeacherForm.Submit | components/TeacherForm.tsx:43-46 | the form with the edited teacher's id, or none (the same step as `StudentForm.Submit`, on the teacher record) |
| TeacherForm.SubmitThenSave | components/TeacherForm.tsx:43-46 | a new teacher is appended under a fresh id; an edit stores the form under its id |

## Left out

- New room ids: `HR` plus the last four digits of `Date.now()`. The clock is not modelled, so `Rooms.CreateRoom` takes the id as a parameter. Two rooms created in the same clock tick, or 10 000 ticks apart, share an id. That is why the assignment lemmas assume at most one room per id.
- `localeCompare` is replaced by code-point order on room numbers. `Rooms.SortByNumber` is proved sorted and a permutation, but not stable.
- `toLowerCase` and `Number` are left out. The model takes them as parameters, `lower` and `toNumber`. `Number`'s NaN is not represented: money is an unbounded integer in the smallest unit.
- `ManageRooms.StatusMatchesPicker`: room capacity is an integer here. The room form stores `parseInt(value, 10)`, which is NaN for a cleared field. With a NaN capacity both comparisons are false: the status shows Available while the picker does not offer the room. That case is not modelled.
- `RecordIds.IdNumber`: reads only ids whose part after the prefix is a non-empty run of decimal digits. That is a well-formedness condition chosen by the model, not the boundary of `parseInt`'s NaN. The create path requires it of every existing id (`AllIdsNumbered`), and `Collections.SaveKeepsIds` proves that the screens' own saves keep it true, since every generated id has that form. Suffixes it excludes, which `parseInt` reads in its own way, are not modelled:
  - an empty suffix, or one with no leading digit such as `x1` (NaN, so `Math.max` gives NaN);
  - leading whitespace (`" 7"` reads 7);
  - a sign (`"+7"` reads 7, `"-7"` reads -7, which `Math.max(0, ...)` then ignores);
  - a `0x`/`0X` hex form (`"0x10"` reads 16);
  - trailing non-digits (`"12a"` reads 12).
- The edit path spreads the form record over the stored one. The forms always submit a full record, so the model replaces the record outright.
- `window.confirm` and `alert` are dialogs and are not modelled. A delete or removal is modelled as confirmed. An add to a full room keeps the roster unchanged.
- `FinanceDashboard` computes its totals from the constant seed arrays in constants.ts, not from the list screens' state. The model defines the totals over a list (`Finance.TotalEarnings`, `Finance.TotalExpenses`), and the list lemmas relate them to saves.
- `handleSaveWardens` (ManageWardensView) replaces the warden id list wholesale. It has no member of its own; `WardenEditor.Editor.SaveChanges` gives the list it stores.
- `ClassForm`'s submit is the same `{...formData, id}` step as the student and teacher forms. It is not repeated.
- An input whose name is not a field of the record would add a stray property in JavaScript. The model enumerates the fields as a datatype instead.
- The TypeScript field names `class` and `type` are renamed `className` and `staffType`.
- Room card percentages and colours, the reports view, attendance, the detail modals, routing, the plain department/subject/employee/earning forms and the Gemini service are not part of this model.
- `LineItems.ChangeItem`, `StudentForm.ChangeFee`, `TeacherForm.ChangeAdjustment`: the handlers write into the entry objects shared with the stored record. These value-level members model only the intended copy (see Findings). The aliasing itself is modelled by `LineItems.ChangeEntryInPlace`.

## Findings

| source | as written | input that shows it | evidently intended | confidence | as-written member | corrected member |
|---|---|---|---|---|---|---|
| components/StudentForm.tsx:38-43 (likewise components/TeacherForm.tsx:28-33) | the fee array is copied, but the entry at `index` is written in place; that entry object is the one held by the student in the list, since the form was loaded with the record itself | open an existing student with an extra fee of 100, type 250 into its amount, then cancel: the student in the list already shows 250 | write a fresh entry into the copied array, so that the stored record changes only on save | not executed | LineItems.EditLeaksIntoRecord | LineItems.ChangeItem |
