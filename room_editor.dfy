/** The per-room allocation editor: a working copy of one room's roster that
    the add and remove buttons change step by step, and that the save button
    hands back to `Rooms.ReplaceRoster`. Adding is guarded by the room's
    capacity only; it does not check whether the id is already listed. */
module RoomEditor {
  import opened Seqs
  import opened School
  import Rooms

  /** One button press in the editor. */
  datatype Edit = Add(studentId: Id) | Remove(studentId: Id)

  /** The effect of one press on the working roster: an add appends only
      while the roster is below capacity (a full room shows an alert and
      keeps the roster), a remove filters out every occurrence. */
  function Step(ids: seq<Id>, capacity: int, e: Edit): (r: seq<Id>)
    ensures e.Add? && |ids| < capacity ==> r == ids + [e.studentId]
    ensures e.Add? && |ids| >= capacity ==> r == ids
    ensures e.Remove? ==> r == Without(ids, e.studentId)
  {
    match e
    case Add(x) => if |ids| < capacity then ids + [x] else ids
    case Remove(x) => Without(ids, x)
  }

  /** The working roster after a sequence of presses. */
  function ApplyEdits(ids: seq<Id>, capacity: int, edits: seq<Edit>): seq<Id> {
    if edits == [] then ids
    else Step(ApplyEdits(ids, capacity, edits[..|edits| - 1]), capacity, edits[|edits| - 1])
  }

  /** A roster that starts within capacity stays within capacity, whatever
      is pressed; one that starts above it never grows. */
  lemma {:induction false} EditsKeepCapacity(ids: seq<Id>, capacity: int, edits: seq<Edit>)
    ensures |ApplyEdits(ids, capacity, edits)| <= if |ids| <= capacity then capacity else |ids|
  {
    if edits != [] {
      EditsKeepCapacity(ids, capacity, edits[..|edits| - 1]);
    }
  }

  /** Every id on the working roster was on the room's roster or was added. */
  lemma {:induction false} EditsOnlyAdd(ids: seq<Id>, capacity: int, edits: seq<Edit>, x: Id)
    requires x in ApplyEdits(ids, capacity, edits)
    ensures x in ids || Add(x) in edits
  {
    if edits != [] {
      var front := edits[..|edits| - 1];
      if x in ApplyEdits(ids, capacity, front) {
        EditsOnlyAdd(ids, capacity, front, x);
      }
    }
  }

  /** The add button does not check membership: pressing it twice for the
      same student, with room for both, lists that student twice. */
  lemma AddTwiceDuplicates(ids: seq<Id>, capacity: int, x: Id)
    requires |ids| + 2 <= capacity
    ensures multiset(ApplyEdits(ids, capacity, [Add(x), Add(x)]))[x] == multiset(ids)[x] + 2
    ensures !NoDuplicates(ApplyEdits(ids, capacity, [Add(x), Add(x)]))
  {
    var edits := [Add(x), Add(x)];
    assert edits[..1][..0] == [];
    assert ApplyEdits(ids, capacity, edits[..1]) == ids + [x];
    var r := ApplyEdits(ids, capacity, edits);
    assert r == ids + [x] + [x];
    assert multiset(r)[x] >= 2;
  }

  /** The students offered for adding: eligible and in no roster when the
      editor opened. It is not recomputed after an add. */
  function AvailableStudents(allStudents: seq<Student>, allocatedStudentIds: set<Id>): (r: seq<Student>)
    ensures forall s :: s in r <==> s in allStudents && HostelEligible(s) && s.id !in allocatedStudentIds
  {
    Filter(allStudents, (s: Student) => HostelEligible(s) && s.id !in allocatedStudentIds)
  }

  /** Opened from the hostel page, the offered students are exactly that
      page's unassigned list, so each offered id was in no roster. */
  lemma AvailableIsUnassigned(allStudents: seq<Student>, rooms: seq<HostelRoom>)
    ensures AvailableStudents(allStudents, Rooms.AllocatedIds(rooms)) == Rooms.Unassigned(allStudents, rooms)
    ensures forall s, k :: s in AvailableStudents(allStudents, Rooms.AllocatedIds(rooms)) && 0 <= k < |rooms| ==>
      s.id !in rooms[k].studentIds
  {
    forall s, k | s in AvailableStudents(allStudents, Rooms.AllocatedIds(rooms)) && 0 <= k < |rooms|
      ensures s.id !in rooms[k].studentIds
    {
      Rooms.InRosters(rooms, s.id);
    }
  }

  /** The students on a roster, in student-list order. */
  function AssignedStudents(allStudents: seq<Student>, ids: seq<Id>): (r: seq<Student>)
    ensures forall s :: s in r <==> s in allStudents && s.id in ids
  {
    Filter(allStudents, (s: Student) => s.id in ids)
  }

  /** Saving an editor opened on room `k` (the only room with its id) keeps
      the allocation unique when every added student was free and the
      final roster has no repeats. */
  lemma SaveKeepsUnique(rooms: seq<HostelRoom>, k: nat, edits: seq<Edit>)
    requires k < |rooms|
    requires forall j :: 0 <= j < |rooms| && j != k ==> rooms[j].id != rooms[k].id
    requires Rooms.UniqueAllocation(rooms)
    requires forall x :: Add(x) in edits ==> x !in Rooms.Rosters(rooms)
    requires NoDuplicates(ApplyEdits(rooms[k].studentIds, rooms[k].capacity, edits))
    ensures Rooms.UniqueAllocation(
      Rooms.ReplaceRoster(rooms, rooms[k].id, ApplyEdits(rooms[k].studentIds, rooms[k].capacity, edits)))
  {
    var ids := ApplyEdits(rooms[k].studentIds, rooms[k].capacity, edits);
    forall x | x in ids ensures x !in Rooms.Rosters(rooms) || x in rooms[k].studentIds {
      EditsOnlyAdd(rooms[k].studentIds, rooms[k].capacity, edits, x);
    }
    Rooms.ReplaceRosterKeepsUnique(rooms, k, ids);
  }

  /** The editor's state: the room it was opened on, the student list, the
      allocated-id snapshot taken when it opened, and the working roster. */
  class Editor {
    const room: HostelRoom
    const allStudents: seq<Student>
    const allocatedStudentIds: set<Id>
    var currentStudentIds: seq<Id>
    /** The presses so far; the working roster is always their effect. */
    ghost var edits: seq<Edit>

    ghost predicate Valid()
      reads this
    {
      currentStudentIds == ApplyEdits(room.studentIds, room.capacity, edits)
    }

    /** The working roster starts as the room's roster. */
    constructor(room: HostelRoom, allStudents: seq<Student>, allocatedStudentIds: set<Id>)
      ensures this.room == room && this.allStudents == allStudents
      ensures this.allocatedStudentIds == allocatedStudentIds
      ensures currentStudentIds == room.studentIds && edits == []
      ensures Valid()
    {
      this.room := room;
      this.allStudents := allStudents;
      this.allocatedStudentIds := allocatedStudentIds;
      currentStudentIds := room.studentIds;
      edits := [];
    }

    lemma Record(e: Edit)
      ensures ApplyEdits(room.studentIds, room.capacity, edits + [e]) ==
        Step(ApplyEdits(room.studentIds, room.capacity, edits), room.capacity, e)
    {
      assert (edits + [e])[..|edits|] == edits;
    }

    /** Append `studentId` when the roster is below capacity, else keep it. */
    method AddStudent(studentId: Id)
      requires Valid()
      modifies this
      ensures Valid() && edits == old(edits) + [Add(studentId)]
      ensures currentStudentIds ==
        if |old(currentStudentIds)| < room.capacity then old(currentStudentIds) + [studentId] else old(currentStudentIds)
    {
      Record(Add(studentId));
      if |currentStudentIds| < room.capacity {
        currentStudentIds := currentStudentIds + [studentId];
      }
      edits := edits + [Add(studentId)];
    }

    /** Filter every occurrence of `studentId` out of the roster. */
    method RemoveStudent(studentId: Id)
      requires Valid()
      modifies this
      ensures Valid() && edits == old(edits) + [Remove(studentId)]
      ensures currentStudentIds == Without(old(currentStudentIds), studentId)
    {
      Record(Remove(studentId));
      currentStudentIds := Without(currentStudentIds, studentId);
      edits := edits + [Remove(studentId)];
    }

    /** The room id and the working roster, as handed to the save handler. */
    method SaveChanges() returns (roomId: Id, newStudentIds: seq<Id>)
      requires Valid()
      ensures roomId == room.id && newStudentIds == currentStudentIds
      ensures |room.studentIds| <= room.capacity ==> |newStudentIds| <= room.capacity
    {
      EditsKeepCapacity(room.studentIds, room.capacity, edits);
      roomId := room.id;
      newStudentIds := currentStudentIds;
    }

    function Assigned(): (r: seq<Student>)
      reads this
      ensures forall s :: s in r <==> s in allStudents && s.id in currentStudentIds
    {
      AssignedStudents(allStudents, currentStudentIds)
    }

    function Available(): (r: seq<Student>)
      reads this
      ensures forall s :: s in r <==> s in allStudents && HostelEligible(s) && s.id !in allocatedStudentIds
    {
      AvailableStudents(allStudents, allocatedStudentIds)
    }
  }
}
