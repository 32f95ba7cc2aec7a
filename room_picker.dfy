/** The room picker opened for one unassigned student: it offers the rooms
    with spare capacity and submits the chosen room to `Rooms.Assign`. */
module RoomPicker {
  import opened Seqs
  import opened School
  import Rooms

  /** A room has spare capacity when its roster is strictly shorter than
      its capacity. */
  predicate HasSpace(room: HostelRoom) {
    |room.studentIds| < room.capacity
  }

  /** `rooms.filter(r => r.studentIds.length < r.capacity)`: full and
      over-full rooms are never offered. */
  function AvailableRooms(rooms: seq<HostelRoom>): (r: seq<HostelRoom>)
    ensures forall room :: room in r <==> room in rooms && |room.studentIds| < room.capacity
  {
    Filter(rooms, HasSpace)
  }

  /** When no room has spare capacity, nothing is offered. */
  lemma NoSpaceNoOffer(rooms: seq<HostelRoom>)
    requires forall k :: 0 <= k < |rooms| ==> |rooms[k].studentIds| >= rooms[k].capacity
    ensures AvailableRooms(rooms) == []
  {
    FilterNone(rooms, HasSpace);
  }

  /** What the submit button hands to the assignment handler. */
  datatype Assignment = Assignment(studentId: Id, roomId: Id)

  /** Submit calls the handler only when a room is selected, with the
      student's id and the selected room id. */
  function Submit(student: Student, selectedRoomId: Id): (r: Option<Assignment>)
    ensures r.Some? <==> selectedRoomId != ""
    ensures r.Some? ==> r.value.studentId == student.id && r.value.roomId == selectedRoomId
  {
    if selectedRoomId != "" then Some(Assignment(student.id, selectedRoomId)) else None
  }

  predicate WithinCapacity(rooms: seq<HostelRoom>) {
    forall k :: 0 <= k < |rooms| ==> |rooms[k].studentIds| <= rooms[k].capacity
  }

  /** Assigning through the picker to an offered room (`k`, the only room
      with its id) never pushes any room above its capacity. */
  lemma PickerKeepsCapacity(rooms: seq<HostelRoom>, studentId: Id, k: nat)
    requires k < |rooms| && HasSpace(rooms[k])
    requires forall j :: 0 <= j < |rooms| && j != k ==> rooms[j].id != rooms[k].id
    requires WithinCapacity(rooms)
    ensures WithinCapacity(Rooms.Assign(rooms, studentId, rooms[k].id))
  {
    var after := Rooms.Assign(rooms, studentId, rooms[k].id);
    forall j | 0 <= j < |after| ensures |after[j].studentIds| <= after[j].capacity {
      Rooms.AssignRoster(rooms, studentId, rooms[k].id, j);
      Rooms.AssignRoom(rooms, studentId, rooms[k].id, j);
    }
  }

  /** Choosing the room the student already lives in (listed there once)
      moves the student to the end of that roster without changing its
      length. */
  lemma ChooseOwnRoom(rooms: seq<HostelRoom>, studentId: Id, k: nat)
    requires k < |rooms|
    requires multiset(rooms[k].studentIds)[studentId] == 1
    ensures var roster := Rooms.Assign(rooms, studentId, rooms[k].id)[k].studentIds;
      |roster| == |rooms[k].studentIds| && roster[|roster| - 1] == studentId
  {
    Rooms.AssignRoster(rooms, studentId, rooms[k].id, k);
  }
}
