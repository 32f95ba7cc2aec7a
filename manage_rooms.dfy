/** The room-management table of the hostel module: each room's occupancy
    and Full/Available status, and the search by room number. Its delete,
    edit and create handlers are `Rooms.DeleteRoom`, `Rooms.EditRoom` and
    `Rooms.CreateRoom`. */
module ManageRooms {
  import opened Seqs
  import opened School
  import Rooms
  import RoomPicker

  datatype Status = Full | Available

  /** The occupancy column: the raw roster length, counting every listed id
      whether or not it names a current student. */
  function Occupancy(room: HostelRoom): (n: nat)
    ensures n == |room.studentIds|
  {
    |room.studentIds|
  }

  /** A room is Full when its occupancy has reached its capacity. */
  function RoomStatus(room: HostelRoom): (st: Status)
    ensures st == Full <==> Occupancy(room) >= room.capacity
  {
    if Occupancy(room) >= room.capacity then Full else Available
  }

  /** The table shows a room as Available exactly when the room picker
      would offer it. */
  lemma StatusMatchesPicker(rooms: seq<HostelRoom>, room: HostelRoom)
    requires room in rooms
    ensures RoomStatus(room) == Available <==> room in RoomPicker.AvailableRooms(rooms)
  {
  }

  /** Ids that name no student still count: a room of capacity one listing
      an unknown id is Full while its card shows no student. */
  lemma UnknownIdsOccupy()
    ensures var room := HostelRoom("HR1", "101", 1, ["S999"]);
      RoomStatus(room) == Full && Rooms.RoomStudents([], room) == []
  {
  }

  /** The search by room number: order kept, a room stays iff its lower-cased
      number contains the lower-cased term. */
  function SearchRooms(rooms: seq<HostelRoom>, term: string, lower: string -> string): (r: seq<HostelRoom>)
    ensures forall room :: room in r <==> room in rooms && Matches(room.roomNumber, term, lower)
  {
    Search(rooms, (room: HostelRoom) => room.roomNumber, term, lower)
  }
}
