/** The student-allocation screen of the hostel module: the eligible
    students split into allocated (with the room number each is shown in)
    and unassigned, the map from student id to room number that it builds
    with two nested loops, and its name search. Its remove and assign
    handlers are `Rooms.RemoveStudent` and `Rooms.Assign`. */
module AllocationView {
  import opened Seqs
  import opened School
  import Rooms

  /** The map entries one room contributes: each of its students to its number. */
  function RoomEntries(room: HostelRoom): (m: map<Id, string>)
    ensures forall x :: x in m <==> x in room.studentIds
    ensures forall x :: x in m ==> m[x] == room.roomNumber
  {
    map x | x in room.studentIds :: room.roomNumber
  }

  /** The contents of `studentRoomMap` after visiting `rooms` in order:
      a later room overwrites the entry of an earlier one. */
  function RoomMapOf(rooms: seq<HostelRoom>): (m: map<Id, string>)
    ensures forall x :: x in m <==> x in Rooms.Rosters(rooms)
  {
    if rooms == [] then map[]
    else
      var front := rooms[..|rooms| - 1];
      assert rooms == front + [rooms[|rooms| - 1]];
      Rooms.RostersConcat(front, [rooms[|rooms| - 1]]);
      RoomMapOf(front) + RoomEntries(rooms[|rooms| - 1])
  }

  /** Room `k` lists `x` and no later room does. */
  predicate LastRoomListing(rooms: seq<HostelRoom>, x: Id, k: int) {
    0 <= k < |rooms| && x in rooms[k].studentIds &&
    forall j :: k < j < |rooms| ==> x !in rooms[j].studentIds
  }

  /** A room that lists `x` last stays last when a room without `x` follows. */
  lemma LastRoomListingExtends(rooms: seq<HostelRoom>, x: Id, k: int)
    requires rooms != [] && x !in rooms[|rooms| - 1].studentIds
    requires LastRoomListing(rooms[..|rooms| - 1], x, k)
    ensures LastRoomListing(rooms, x, k)
  {
    var front := rooms[..|rooms| - 1];
    assert rooms[k] == front[k];
    forall j | k < j < |rooms| ensures x !in rooms[j].studentIds {
      if j < |front| {
        assert rooms[j] == front[j];
      }
    }
  }

  /** The number the map holds for a listed student is that of the last
      room, in room order, whose roster contains it. */
  lemma {:induction false} RoomMapOfLastRoom(rooms: seq<HostelRoom>, x: Id)
    requires x in RoomMapOf(rooms)
    ensures exists k :: LastRoomListing(rooms, x, k) && RoomMapOf(rooms)[x] == rooms[k].roomNumber
  {
    assert rooms != [];
    var front := rooms[..|rooms| - 1];
    var last := rooms[|rooms| - 1];
    var m := RoomMapOf(rooms);
    assert m == RoomMapOf(front) + RoomEntries(last);
    if x !in last.studentIds {
      assert x in RoomMapOf(front) && m[x] == RoomMapOf(front)[x];
      RoomMapOfLastRoom(front, x);
      var k :| LastRoomListing(front, x, k) && RoomMapOf(front)[x] == front[k].roomNumber;
      LastRoomListingExtends(rooms, x, k);
    } else {
      assert m[x] == last.roomNumber;
      assert LastRoomListing(rooms, x, |rooms| - 1);
    }
  }

  /** The inner loop: every student of `room` is set to its number. */
  method SetRoomEntries(before: map<Id, string>, room: HostelRoom) returns (m: map<Id, string>)
    ensures m == before + RoomEntries(room)
  {
    m := before;
    var j := 0;
    while j < |room.studentIds|
      invariant 0 <= j <= |room.studentIds|
      invariant forall x :: x in m <==> x in before || x in room.studentIds[..j]
      invariant forall x :: x in m ==> m[x] == if x in room.studentIds[..j] then room.roomNumber else before[x]
    {
      assert room.studentIds[..j + 1] == room.studentIds[..j] + [room.studentIds[j]];
      m := m[room.studentIds[j] := room.roomNumber];
      j := j + 1;
    }
    assert room.studentIds[..j] == room.studentIds;
  }

  /** `studentRoomMap`, filled by `rooms.forEach(room => room.studentIds.forEach(id => map.set(id, room.roomNumber)))`. */
  method BuildRoomMap(rooms: seq<HostelRoom>) returns (m: map<Id, string>)
    ensures m == RoomMapOf(rooms)
  {
    m := map[];
    var i := 0;
    while i < |rooms|
      invariant 0 <= i <= |rooms|
      invariant m == RoomMapOf(rooms[..i])
    {
      assert rooms[..i + 1][..i] == rooms[..i];
      m := SetRoomEntries(m, rooms[i]);
      i := i + 1;
    }
    assert rooms[..i] == rooms;
  }

  /** A row of the allocated table: the student and the room number shown. */
  datatype AllocatedStudent = AllocatedStudent(student: Student, roomNumber: string)

  /** `roomMap.get(id) || 'N/A'`: a missing entry or an empty number shows as N/A. */
  function ShownRoom(roomMap: map<Id, string>, id: Id): (shown: string)
    ensures shown == "N/A" <==> id !in roomMap || roomMap[id] == "" || roomMap[id] == "N/A"
    ensures shown != "N/A" ==> shown == roomMap[id]
  {
    if id in roomMap && roomMap[id] != "" then roomMap[id] else "N/A"
  }

  function Label(residents: seq<Student>, roomMap: map<Id, string>): (rows: seq<AllocatedStudent>)
    ensures |rows| == |residents|
    ensures forall i :: 0 <= i < |rows| ==>
      rows[i] == AllocatedStudent(residents[i], ShownRoom(roomMap, residents[i].id))
  {
    seq(|residents|, i requires 0 <= i < |residents| =>
      AllocatedStudent(residents[i], ShownRoom(roomMap, residents[i].id)))
  }

  /** `allResidential`: the Residential and Lillah Boarding students. */
  function Residential(students: seq<Student>): (r: seq<Student>)
    ensures forall s :: s in r <==> s in students && HostelEligible(s)
  {
    Filter(students, HostelEligible)
  }

  /** The allocated table, from a room map. */
  function AllocatedWith(students: seq<Student>, rooms: seq<HostelRoom>, roomMap: map<Id, string>): seq<AllocatedStudent> {
    var housed := Rooms.AllocatedIds(rooms);
    Label(Filter(Residential(students), (s: Student) => s.id in housed), roomMap)
  }

  /** The allocated table as the screen computes it. */
  function Allocated(students: seq<Student>, rooms: seq<HostelRoom>): seq<AllocatedStudent> {
    AllocatedWith(students, rooms, RoomMapOf(rooms))
  }

  /** The unassigned list of this screen. */
  function UnassignedStudents(students: seq<Student>, rooms: seq<HostelRoom>): seq<Student> {
    var housed := Rooms.AllocatedIds(rooms);
    Filter(Residential(students), (s: Student) => s.id !in housed)
  }

  /** The screen's memo: build the map, then both lists. */
  method Partition(students: seq<Student>, rooms: seq<HostelRoom>)
    returns (placed: seq<AllocatedStudent>, unassigned: seq<Student>)
    ensures placed == Allocated(students, rooms)
    ensures unassigned == UnassignedStudents(students, rooms)
  {
    var roomMap := BuildRoomMap(rooms);
    placed := AllocatedWith(students, rooms, roomMap);
    unassigned := UnassignedStudents(students, rooms);
  }

  /** The two lists partition the eligible students: each Residential or
      Lillah Boarding student is in exactly one of them, and a Regular
      student is in neither. */
  lemma PartitionExact(students: seq<Student>, rooms: seq<HostelRoom>, s: Student)
    requires s in students
    ensures var placed := Allocated(students, rooms);
      var listed := exists i :: 0 <= i < |placed| && placed[i].student == s;
      (HostelEligible(s) ==> (listed <==> s !in UnassignedStudents(students, rooms))) &&
      (!HostelEligible(s) ==> !listed && s !in UnassignedStudents(students, rooms))
  {
    var housed := Rooms.AllocatedIds(rooms);
    var residents := Filter(Residential(students), (t: Student) => t.id in housed);
    var placed := Allocated(students, rooms);
    if HostelEligible(s) && s.id in housed {
      var i :| 0 <= i < |residents| && residents[i] == s;
      assert placed[i].student == s;
    }
  }

  /** This screen's unassigned list is the hostel page's unassigned list. */
  lemma UnassignedAgrees(students: seq<Student>, rooms: seq<HostelRoom>)
    ensures UnassignedStudents(students, rooms) == Rooms.Unassigned(students, rooms)
  {
    var housed := Rooms.AllocatedIds(rooms);
    FilterFilter(students, HostelEligible, (s: Student) => s.id !in housed,
      (s: Student) => HostelEligible(s) && s.id !in housed);
  }

  /** Each allocated row shows the number of the last room listing the
      student, or N/A when that number is empty. */
  lemma AllocatedShowsLastRoom(students: seq<Student>, rooms: seq<HostelRoom>, i: nat)
    requires i < |Allocated(students, rooms)|
    ensures var row := Allocated(students, rooms)[i];
      HostelEligible(row.student) && row.student in students &&
      exists k :: LastRoomListing(rooms, row.student.id, k) &&
        row.roomNumber == (if rooms[k].roomNumber == "" then "N/A" else rooms[k].roomNumber)
  {
    var housed := Rooms.AllocatedIds(rooms);
    var residents := Filter(Residential(students), (t: Student) => t.id in housed);
    var row := Allocated(students, rooms)[i];
    assert row.student == residents[i] && residents[i] in residents;
    RoomMapOfLastRoom(rooms, row.student.id);
  }

  /** After an assignment to room `k`, the only room with its id, an
      eligible student is listed as allocated, in that room. */
  lemma AssignShowsRoom(students: seq<Student>, rooms: seq<HostelRoom>, s: Student, k: nat)
    requires s in students && HostelEligible(s)
    requires k < |rooms|
    requires forall j :: 0 <= j < |rooms| && j != k ==> rooms[j].id != rooms[k].id
    ensures AllocatedStudent(s, if rooms[k].roomNumber == "" then "N/A" else rooms[k].roomNumber)
      in Allocated(students, Rooms.Assign(rooms, s.id, rooms[k].id))
  {
    var after := Rooms.Assign(rooms, s.id, rooms[k].id);
    Rooms.AssignRoom(rooms, s.id, rooms[k].id, k);
    assert s.id in after[k].studentIds;
    Rooms.InRosters(after, s.id);
    var housed := Rooms.AllocatedIds(after);
    var residents := Filter(Residential(students), (t: Student) => t.id in housed);
    assert s in residents;
    var i :| 0 <= i < |residents| && residents[i] == s;
    var rows := Allocated(students, after);
    AllocatedShowsLastRoom(students, after, i);
    var k' :| LastRoomListing(after, s.id, k') &&
      rows[i].roomNumber == (if after[k'].roomNumber == "" then "N/A" else after[k'].roomNumber);
    Rooms.AssignRoom(rooms, s.id, rooms[k].id, k');
    assert k' == k;
    assert rows[i] in rows;
  }

  /** The name search over either list. */
  function SearchAllocated(rows: seq<AllocatedStudent>, term: string, lower: string -> string): (r: seq<AllocatedStudent>)
    ensures forall row :: row in r <==> row in rows && Matches(row.student.name, term, lower)
  {
    Search(rows, (row: AllocatedStudent) => row.student.name, term, lower)
  }

  function SearchUnassigned(students: seq<Student>, term: string, lower: string -> string): (r: seq<Student>)
    ensures forall s :: s in r <==> s in students && Matches(s.name, term, lower)
  {
    Search(students, (s: Student) => s.name, term, lower)
  }
}
