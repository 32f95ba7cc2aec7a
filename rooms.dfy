/** The hostel's room-allocation relation: a sequence of rooms whose rosters
    say which student lives where, and the whole-array updates the hostel
    screens apply to it (assign, replace a roster, remove a student, delete,
    edit and create a room). Every update returns a new sequence of rooms, as
    `setRooms` replaces the state whole. The central invariant is
    `UniqueAllocation`: no student id occurs twice across all rosters. */
module Rooms {
  import opened Seqs
  import opened School

  /** `rooms.flatMap(r => r.studentIds)`: every roster, in room order. */
  function Rosters(rooms: seq<HostelRoom>): seq<Id> {
    if rooms == [] then [] else rooms[0].studentIds + Rosters(rooms[1..])
  }

  /** An id is in the flattened rosters exactly when some room lists it. */
  lemma {:induction false} InRosters(rooms: seq<HostelRoom>, x: Id)
    ensures x in Rosters(rooms) <==> exists k :: 0 <= k < |rooms| && x in rooms[k].studentIds
  {
    if rooms != [] {
      InRosters(rooms[1..], x);
      if x in Rosters(rooms[1..]) {
        var k :| 0 <= k < |rooms[1..]| && x in rooms[1..][k].studentIds;
        assert x in rooms[k + 1].studentIds;
      }
      if exists k :: 0 <= k < |rooms| && x in rooms[k].studentIds {
        var k :| 0 <= k < |rooms| && x in rooms[k].studentIds;
        if k > 0 {
          assert x in rooms[1..][k - 1].studentIds;
        }
      }
    }
  }

  lemma {:induction false} RostersConcat(a: seq<HostelRoom>, b: seq<HostelRoom>)
    ensures Rosters(a + b) == Rosters(a) + Rosters(b)
  {
    if a == [] {
      assert a + b == b;
    } else {
      assert (a + b)[1..] == a[1..] + b;
      RostersConcat(a[1..], b);
    }
  }

  /** `new Set(rooms.flatMap(r => r.studentIds))`. */
  function AllocatedIds(rooms: seq<HostelRoom>): (ids: set<Id>)
    ensures forall x :: x in ids <==> x in Rosters(rooms)
  {
    set x | x in Rosters(rooms)
  }

  /** No student id is listed twice, in one room or across rooms. */
  ghost predicate UniqueAllocation(rooms: seq<HostelRoom>) {
    NoDuplicates(Rosters(rooms))
  }

  /** The room ids, in room order. */
  function RoomIds(rooms: seq<HostelRoom>): (ids: seq<Id>)
    ensures |ids| == |rooms| && forall k :: 0 <= k < |rooms| ==> ids[k] == rooms[k].id
  {
    seq(|rooms|, k requires 0 <= k < |rooms| => rooms[k].id)
  }

  lemma NoDuplicatesConcat<T(!new)>(a: seq<T>, b: seq<T>)
    ensures NoDuplicates(a + b) <==> NoDuplicates(a) && NoDuplicates(b) && forall x :: x in a ==> x !in b
  {
    var m := multiset(a + b);
    assert m == multiset(a) + multiset(b);
    if NoDuplicates(a + b) {
      forall x ensures multiset(a)[x] <= 1 && multiset(b)[x] <= 1 && (x in a ==> x !in b) {
        assert m[x] == multiset(a)[x] + multiset(b)[x];
      }
    }
    if NoDuplicates(a) && NoDuplicates(b) && forall x :: x in a ==> x !in b {
      forall x ensures m[x] <= 1 {
        assert m[x] == multiset(a)[x] + multiset(b)[x];
        if x in a {
          assert multiset(b)[x] == 0;
        } else {
          assert multiset(a)[x] == 0;
        }
      }
    }
  }

  /** Every roster is free of repeats and no two rooms share a student. */
  ghost predicate RostersApart(rooms: seq<HostelRoom>) {
    (forall k :: 0 <= k < |rooms| ==> NoDuplicates(rooms[k].studentIds)) &&
    (forall j, k, x :: 0 <= j < k < |rooms| && x in rooms[j].studentIds ==> x !in rooms[k].studentIds)
  }

  /** `RostersApart` split into the first room and the rest. */
  lemma RostersApartFirst(rooms: seq<HostelRoom>)
    requires rooms != []
    ensures RostersApart(rooms) <==>
      NoDuplicates(rooms[0].studentIds) && RostersApart(rooms[1..]) &&
      forall x :: x in rooms[0].studentIds ==> x !in Rosters(rooms[1..])
  {
    var rest := rooms[1..];
    forall x ensures x in Rosters(rest) <==> exists k :: 0 <= k < |rest| && x in rest[k].studentIds {
      InRosters(rest, x);
    }
    if RostersApart(rooms) {
      forall k | 0 <= k < |rest| ensures NoDuplicates(rest[k].studentIds) {
        assert rest[k] == rooms[k + 1];
      }
      forall j, k, x | 0 <= j < k < |rest| && x in rest[j].studentIds
        ensures x !in rest[k].studentIds
      {
        assert rest[j] == rooms[j + 1] && rest[k] == rooms[k + 1];
      }
      forall x | x in rooms[0].studentIds ensures x !in Rosters(rest) {
        forall k | 0 <= k < |rest| ensures x !in rest[k].studentIds {
          assert rest[k] == rooms[k + 1];
        }
      }
    }
    if NoDuplicates(rooms[0].studentIds) && RostersApart(rest) &&
       forall x :: x in rooms[0].studentIds ==> x !in Rosters(rest)
    {
      forall k | 0 <= k < |rooms| ensures NoDuplicates(rooms[k].studentIds) {
        if k > 0 {
          assert rooms[k] == rest[k - 1];
        }
      }
      forall j, k, x | 0 <= j < k < |rooms| && x in rooms[j].studentIds
        ensures x !in rooms[k].studentIds
      {
        assert rooms[k] == rest[k - 1];
        if j > 0 {
          assert rooms[j] == rest[j - 1];
        }
      }
    }
  }

  /** The invariant, room by room: every roster is free of repeats and no
      two rooms share a student. */
  lemma {:induction false} UniqueAllocationPerRoom(rooms: seq<HostelRoom>)
    ensures UniqueAllocation(rooms) <==> RostersApart(rooms)
  {
    if rooms != [] {
      UniqueAllocationPerRoom(rooms[1..]);
      NoDuplicatesConcat(rooms[0].studentIds, Rosters(rooms[1..]));
      RostersApartFirst(rooms);
    }
  }

  // ---------------------------------------------------------------------
  // Derived views

  /** The hostel-eligible students who are in no roster, in student-list
      order: the "Unassigned Students" list. */
  function Unassigned(students: seq<Student>, rooms: seq<HostelRoom>): (r: seq<Student>)
    ensures forall s :: s in r <==> s in students && HostelEligible(s) && s.id !in Rosters(rooms)
  {
    var housed := AllocatedIds(rooms);
    Filter(students, (s: Student) => HostelEligible(s) && s.id !in housed)
  }

  /** The students a room card shows: those listed in its roster, in
      student-list order (ids of unknown students are not shown). */
  function RoomStudents(students: seq<Student>, room: HostelRoom): (r: seq<Student>)
    ensures forall s :: s in r <==> s in students && s.id in room.studentIds
  {
    Filter(students, (s: Student) => s.id in room.studentIds)
  }

  /** A Regular student never shows up as unassigned. */
  lemma RegularNeverUnassigned(students: seq<Student>, rooms: seq<HostelRoom>, s: Student)
    requires s.studentType == "Regular"
    ensures s !in Unassigned(students, rooms)
  {
  }

  // ---------------------------------------------------------------------
  // Removing a student from every room

  /** Every roster with all occurrences of `studentId` filtered out. */
  function RemoveStudent(rooms: seq<HostelRoom>, studentId: Id): (r: seq<HostelRoom>)
    ensures |r| == |rooms|
  {
    seq(|rooms|, k requires 0 <= k < |rooms| =>
      rooms[k].(studentIds := Without(rooms[k].studentIds, studentId)))
  }

  /** Removal strips the student from the flattened rosters and nothing
      else: every other id keeps its place relative to the others. */
  lemma {:induction false} RemoveStudentRosters(rooms: seq<HostelRoom>, studentId: Id)
    ensures Rosters(RemoveStudent(rooms, studentId)) == Without(Rosters(rooms), studentId)
    ensures studentId !in Rosters(RemoveStudent(rooms, studentId))
  {
    if rooms != [] {
      assert RemoveStudent(rooms, studentId)[1..] == RemoveStudent(rooms[1..], studentId);
      RemoveStudentRosters(rooms[1..], studentId);
      WithoutConcat(rooms[0].studentIds, Rosters(rooms[1..]), studentId);
    }
  }

  /** Room by room, removal filters the student out of the roster and keeps
      every other field. */
  lemma RemoveStudentRooms(rooms: seq<HostelRoom>, studentId: Id)
    ensures var r := RemoveStudent(rooms, studentId);
      forall k :: 0 <= k < |rooms| ==>
        studentId !in r[k].studentIds &&
        multiset(r[k].studentIds) == multiset(rooms[k].studentIds)[studentId := 0] &&
        r[k].id == rooms[k].id && r[k].roomNumber == rooms[k].roomNumber && r[k].capacity == rooms[k].capacity
  {
  }

  /** Removing twice is removing once. */
  lemma RemoveStudentIdempotent(rooms: seq<HostelRoom>, studentId: Id)
    ensures RemoveStudent(RemoveStudent(rooms, studentId), studentId) == RemoveStudent(rooms, studentId)
  {
    var once := RemoveStudent(rooms, studentId);
    forall k | 0 <= k < |rooms|
      ensures RemoveStudent(once, studentId)[k] == once[k]
    {
      WithoutAppended(rooms[k].studentIds, studentId);
    }
  }

  /** Removal keeps the invariant. */
  lemma RemoveStudentKeepsUnique(rooms: seq<HostelRoom>, studentId: Id)
    requires UniqueAllocation(rooms)
    ensures UniqueAllocation(RemoveStudent(rooms, studentId))
  {
    RemoveStudentRosters(rooms, studentId);
  }

  // ---------------------------------------------------------------------
  // Assigning a student to a room (strip, then append)

  /** `studentId` appended to the roster of every room whose id is `roomId`. */
  function AppendTo(rooms: seq<HostelRoom>, studentId: Id, roomId: Id): (r: seq<HostelRoom>)
    ensures |r| == |rooms|
  {
    seq(|rooms|, k requires 0 <= k < |rooms| =>
      if rooms[k].id == roomId then rooms[k].(studentIds := rooms[k].studentIds + [studentId]) else rooms[k])
  }

  /** The append step on the first room and on the rest. */
  lemma AppendToFirst(rooms: seq<HostelRoom>, studentId: Id, roomId: Id)
    requires rooms != []
    ensures AppendTo(rooms, studentId, roomId)[0] ==
      if rooms[0].id == roomId then rooms[0].(studentIds := rooms[0].studentIds + [studentId]) else rooms[0]
    ensures AppendTo(rooms, studentId, roomId)[1..] == AppendTo(rooms[1..], studentId, roomId)
  {
  }

  lemma {:induction false} AppendToCount(rooms: seq<HostelRoom>, studentId: Id, roomId: Id)
    ensures multiset(Rosters(AppendTo(rooms, studentId, roomId))) ==
      multiset(Rosters(rooms))[studentId := multiset(Rosters(rooms))[studentId] + multiset(RoomIds(rooms))[roomId]]
  {
    if rooms != [] {
      var rest := rooms[1..];
      AppendToFirst(rooms, studentId, roomId);
      assert RoomIds(rooms) == [rooms[0].id] + RoomIds(rest);
      AppendToCount(rest, studentId, roomId);
    }
  }

  lemma {:induction false} AppendToWithout(rooms: seq<HostelRoom>, studentId: Id, roomId: Id)
    ensures Without(Rosters(AppendTo(rooms, studentId, roomId)), studentId) == Without(Rosters(rooms), studentId)
  {
    if rooms != [] {
      var rest := rooms[1..];
      var a := AppendTo(rooms, studentId, roomId);
      AppendToFirst(rooms, studentId, roomId);
      AppendToWithout(rest, studentId, roomId);
      WithoutConcat(a[0].studentIds, Rosters(a[1..]), studentId);
      WithoutConcat(rooms[0].studentIds, Rosters(rest), studentId);
      WithoutAppended(rooms[0].studentIds, studentId);
      assert Without(a[0].studentIds, studentId) == Without(rooms[0].studentIds, studentId);
    }
  }

  /** The assignment handler: the student is filtered out of every roster,
      then appended to the room(s) with id `roomId`. */
  function Assign(rooms: seq<HostelRoom>, studentId: Id, roomId: Id): (r: seq<HostelRoom>)
    ensures |r| == |rooms|
  {
    AppendTo(RemoveStudent(rooms, studentId), studentId, roomId)
  }

  /** Room `k`'s roster after an assignment. */
  lemma AssignRoster(rooms: seq<HostelRoom>, studentId: Id, roomId: Id, k: nat)
    requires k < |rooms|
    ensures Assign(rooms, studentId, roomId)[k].studentIds ==
      if rooms[k].id == roomId then Without(rooms[k].studentIds, studentId) + [studentId]
      else Without(rooms[k].studentIds, studentId)
  {
    assert RemoveStudent(rooms, studentId)[k].studentIds == Without(rooms[k].studentIds, studentId);
  }

  /** What an assignment does to room `k`: the student is in it exactly
      when it carries the target id, and then as the last entry; the room
      loses nothing but the student; id, number and capacity stay. */
  lemma AssignRoom(rooms: seq<HostelRoom>, studentId: Id, roomId: Id, k: nat)
    requires k < |rooms|
    ensures var room := Assign(rooms, studentId, roomId)[k];
      room.id == rooms[k].id && room.roomNumber == rooms[k].roomNumber &&
      room.capacity == rooms[k].capacity &&
      (studentId in room.studentIds <==> rooms[k].id == roomId) &&
      (rooms[k].id == roomId ==> room.studentIds[|room.studentIds| - 1] == studentId) &&
      Without(room.studentIds, studentId) == Without(rooms[k].studentIds, studentId)
  {
    var w := Without(rooms[k].studentIds, studentId);
    var stripped := RemoveStudent(rooms, studentId);
    assert stripped[k] == rooms[k].(studentIds := w);
    var room := AppendTo(stripped, studentId, roomId)[k];
    assert room.studentIds == if rooms[k].id == roomId then w + [studentId] else w;
    WithoutAppended(rooms[k].studentIds, studentId);
    WithoutAppended(w, studentId);
  }

  /** Across all rosters, an assignment leaves the student listed exactly
      once per room carrying the target id, changes no other id's count and
      keeps every other id in its relative order. */
  lemma AssignRosters(rooms: seq<HostelRoom>, studentId: Id, roomId: Id)
    ensures multiset(Rosters(Assign(rooms, studentId, roomId))) ==
      multiset(Rosters(rooms))[studentId := multiset(RoomIds(rooms))[roomId]]
    ensures Without(Rosters(Assign(rooms, studentId, roomId)), studentId) == Without(Rosters(rooms), studentId)
  {
    var stripped := RemoveStudent(rooms, studentId);
    var w := Rosters(stripped);
    RemoveStudentRosters(rooms, studentId);
    assert multiset(w) == multiset(Rosters(rooms))[studentId := 0];
    assert RoomIds(stripped) == RoomIds(rooms);
    AppendToCount(stripped, studentId, roomId);
    assert multiset(Rosters(Assign(rooms, studentId, roomId))) ==
      multiset(w)[studentId := multiset(RoomIds(rooms))[roomId]];
    AppendToWithout(stripped, studentId, roomId);
    WithoutAppended(Rosters(rooms), studentId);
  }

  /** Assigning to a room id that exists once leaves the student in exactly
      one roster; to an id no room has, in none. */
  lemma AssignPlacesOnce(rooms: seq<HostelRoom>, studentId: Id, roomId: Id)
    ensures multiset(RoomIds(rooms))[roomId] == 1 ==>
      multiset(Rosters(Assign(rooms, studentId, roomId)))[studentId] == 1
    ensures roomId !in RoomIds(rooms) ==> studentId !in Rosters(Assign(rooms, studentId, roomId))
  {
    AssignRosters(rooms, studentId, roomId);
  }

  /** Assignment restores the invariant whenever the target id names at most
      one room, including a move between rooms and a re-assignment to the
      student's own room. */
  lemma AssignKeepsUnique(rooms: seq<HostelRoom>, studentId: Id, roomId: Id)
    requires UniqueAllocation(rooms)
    requires multiset(RoomIds(rooms))[roomId] <= 1
    ensures UniqueAllocation(Assign(rooms, studentId, roomId))
  {
    AssignRosters(rooms, studentId, roomId);
  }

  // ---------------------------------------------------------------------
  // Replacing one roster wholesale

  /** The allocation editor's save: the roster of every room with id
      `roomId` becomes `newStudentIds`, verbatim. */
  function ReplaceRoster(rooms: seq<HostelRoom>, roomId: Id, newStudentIds: seq<Id>): (r: seq<HostelRoom>)
    ensures |r| == |rooms|
  {
    seq(|rooms|, k requires 0 <= k < |rooms| =>
      if rooms[k].id == roomId then rooms[k].(studentIds := newStudentIds) else rooms[k])
  }

  /** Only the matching rooms change, and only their roster. The new ids are
      not stripped from other rooms. */
  lemma ReplaceRosterRooms(rooms: seq<HostelRoom>, roomId: Id, newStudentIds: seq<Id>)
    ensures var r := ReplaceRoster(rooms, roomId, newStudentIds);
      forall k :: 0 <= k < |rooms| ==>
        r[k].(studentIds := rooms[k].studentIds) == rooms[k] &&
        r[k].studentIds == (if rooms[k].id == roomId then newStudentIds else rooms[k].studentIds)
  {
  }

  /** Swapping one room for another swaps its roster in the flattened
      rosters, whose multiset contains every single roster. */
  lemma RostersUpdate(rooms: seq<HostelRoom>, k: nat, room: HostelRoom)
    requires k < |rooms|
    ensures multiset(rooms[k].studentIds) <= multiset(Rosters(rooms))
    ensures multiset(Rosters(rooms[k := room])) ==
      multiset(Rosters(rooms)) - multiset(rooms[k].studentIds) + multiset(room.studentIds)
  {
    var pre := rooms[..k];
    var post := rooms[k + 1..];
    assert rooms == pre + [rooms[k]] + post;
    assert rooms[k := room] == pre + [room] + post;
    RostersConcat(pre + [rooms[k]], post);
    RostersConcat(pre, [rooms[k]]);
    RostersConcat(pre + [room], post);
    RostersConcat(pre, [room]);
    assert Rosters([rooms[k]]) == rooms[k].studentIds;
    assert Rosters([room]) == room.studentIds;
    var a := multiset(Rosters(pre));
    var c := multiset(Rosters(post));
    assert multiset(Rosters(rooms)) == a + multiset(rooms[k].studentIds) + c;
    assert multiset(Rosters(rooms[k := room])) == a + multiset(room.studentIds) + c;
  }

  /** When room `k` is the only one with id `roomId`, its roster is swapped
      for the new one in the flattened rosters. */
  lemma ReplaceRosterCount(rooms: seq<HostelRoom>, k: nat, newStudentIds: seq<Id>)
    requires k < |rooms|
    requires forall j :: 0 <= j < |rooms| && j != k ==> rooms[j].id != rooms[k].id
    ensures multiset(rooms[k].studentIds) <= multiset(Rosters(rooms))
    ensures multiset(Rosters(ReplaceRoster(rooms, rooms[k].id, newStudentIds))) ==
      multiset(Rosters(rooms)) - multiset(rooms[k].studentIds) + multiset(newStudentIds)
  {
    var room := rooms[k].(studentIds := newStudentIds);
    assert ReplaceRoster(rooms, rooms[k].id, newStudentIds) == rooms[k := room];
    RostersUpdate(rooms, k, room);
  }

  /** The replace path trusts its caller: it keeps the invariant when the new
      roster has no repeats and takes no student listed in another room. */
  lemma ReplaceRosterKeepsUnique(rooms: seq<HostelRoom>, k: nat, newStudentIds: seq<Id>)
    requires k < |rooms|
    requires forall j :: 0 <= j < |rooms| && j != k ==> rooms[j].id != rooms[k].id
    requires UniqueAllocation(rooms)
    requires NoDuplicates(newStudentIds)
    requires forall x :: x in newStudentIds ==> x !in Rosters(rooms) || x in rooms[k].studentIds
    ensures UniqueAllocation(ReplaceRoster(rooms, rooms[k].id, newStudentIds))
  {
    ReplaceRosterCount(rooms, k, newStudentIds);
    var total := multiset(Rosters(rooms));
    var before := multiset(rooms[k].studentIds);
    var after := multiset(newStudentIds);
    forall x ensures (total - before + after)[x] <= 1 {
      assert (total - before)[x] == total[x] - before[x];
      if x in newStudentIds && x in rooms[k].studentIds {
        assert before[x] >= 1;
      }
    }
  }

  /** Without that care the invariant breaks: a student of room R1 saved into
      the roster of room R2 is then listed twice. */
  lemma ReplaceRosterCanDuplicate()
    ensures var rooms := [HostelRoom("R1", "101", 2, ["S1"]), HostelRoom("R2", "102", 2, [])];
      UniqueAllocation(rooms) && !UniqueAllocation(ReplaceRoster(rooms, "R2", ["S1"]))
  {
    var rooms := [HostelRoom("R1", "101", 2, ["S1"]), HostelRoom("R2", "102", 2, [])];
    var r := ReplaceRoster(rooms, "R2", ["S1"]);
    assert Rosters(rooms[1..]) == [] + Rosters(rooms[1..][1..]);
    assert Rosters(rooms) == ["S1"];
    assert r == [rooms[0], HostelRoom("R2", "102", 2, ["S1"])];
    assert Rosters(r[1..]) == ["S1"] + Rosters(r[1..][1..]);
    assert Rosters(r) == ["S1", "S1"];
    assert multiset(Rosters(r))["S1"] == 2;
  }

  // ---------------------------------------------------------------------
  // Room definitions: delete, edit, create

  /** Delete every room with id `roomId`; the rest keep their order. */
  function DeleteRoom(rooms: seq<HostelRoom>, roomId: Id): (r: seq<HostelRoom>)
    ensures forall room :: room in r <==> room in rooms && room.id != roomId
  {
    Filter(rooms, (room: HostelRoom) => room.id != roomId)
  }

  /** Deleting rooms only takes ids out of the flattened rosters. */
  lemma {:induction false} DeleteRoomShrinks(rooms: seq<HostelRoom>, roomId: Id)
    ensures multiset(Rosters(DeleteRoom(rooms, roomId))) <= multiset(Rosters(rooms))
  {
    if rooms != [] {
      var rest := rooms[1..];
      var first := if rooms[0].id != roomId then [rooms[0]] else [];
      DeleteRoomShrinks(rest, roomId);
      assert DeleteRoom(rooms, roomId) == first + DeleteRoom(rest, roomId);
      RostersConcat(first, DeleteRoom(rest, roomId));
    }
  }

  /** A student of a surviving room is still listed. */
  lemma DeleteRoomKeepsListed(rooms: seq<HostelRoom>, roomId: Id, x: Id, k: nat)
    requires k < |rooms| && rooms[k].id != roomId && x in rooms[k].studentIds
    ensures x in Rosters(DeleteRoom(rooms, roomId))
  {
    var d := DeleteRoom(rooms, roomId);
    assert rooms[k] in rooms;
    var j :| 0 <= j < |d| && d[j] == rooms[k];
    InRosters(d, x);
  }

  /** A student still listed lives in a surviving room. */
  lemma DeleteRoomListedSurvivor(rooms: seq<HostelRoom>, roomId: Id, x: Id)
    requires x in Rosters(DeleteRoom(rooms, roomId))
    ensures exists k :: 0 <= k < |rooms| && rooms[k].id != roomId && x in rooms[k].studentIds
  {
    var d := DeleteRoom(rooms, roomId);
    InRosters(d, x);
    var k :| 0 <= k < |d| && x in d[k].studentIds;
    assert d[k] in d;
    var j :| 0 <= j < |rooms| && rooms[j] == d[k];
    assert rooms[j].id != roomId && x in rooms[j].studentIds;
  }

  /** After a delete, a student is listed exactly when a surviving room lists it. */
  lemma DeleteRoomRosters(rooms: seq<HostelRoom>, roomId: Id)
    ensures multiset(Rosters(DeleteRoom(rooms, roomId))) <= multiset(Rosters(rooms))
    ensures forall x :: x in Rosters(DeleteRoom(rooms, roomId)) <==>
      exists k :: 0 <= k < |rooms| && rooms[k].id != roomId && x in rooms[k].studentIds
  {
    DeleteRoomShrinks(rooms, roomId);
    forall x ensures x in Rosters(DeleteRoom(rooms, roomId)) <==>
      exists k :: 0 <= k < |rooms| && rooms[k].id != roomId && x in rooms[k].studentIds
    {
      if x in Rosters(DeleteRoom(rooms, roomId)) {
        DeleteRoomListedSurvivor(rooms, roomId, x);
      } else {
        forall k | 0 <= k < |rooms| && rooms[k].id != roomId ensures x !in rooms[k].studentIds {
          if x in rooms[k].studentIds {
            DeleteRoomKeepsListed(rooms, roomId, x, k);
          }
        }
      }
    }
  }

  /** Deleting rooms keeps the invariant. */
  lemma DeleteRoomKeepsUnique(rooms: seq<HostelRoom>, roomId: Id)
    requires UniqueAllocation(rooms)
    ensures UniqueAllocation(DeleteRoom(rooms, roomId))
  {
    DeleteRoomRosters(rooms, roomId);
  }

  /** An eligible occupant of a deleted room who lives in no other room is
      listed as unassigned afterwards. */
  lemma DeleteRoomFreesOccupants(students: seq<Student>, rooms: seq<HostelRoom>, roomId: Id, s: Student)
    requires s in students && HostelEligible(s)
    requires forall k :: 0 <= k < |rooms| && s.id in rooms[k].studentIds ==> rooms[k].id == roomId
    ensures s in Unassigned(students, DeleteRoom(rooms, roomId))
  {
    DeleteRoomRosters(rooms, roomId);
  }

  /** Edit the number and capacity of every room with id `roomId`. */
  function EditRoom(rooms: seq<HostelRoom>, roomId: Id, roomNumber: string, capacity: int): (r: seq<HostelRoom>)
    ensures |r| == |rooms|
  {
    seq(|rooms|, k requires 0 <= k < |rooms| =>
      if rooms[k].id == roomId then rooms[k].(roomNumber := roomNumber, capacity := capacity) else rooms[k])
  }

  /** An edit touches only number and capacity of the matching rooms; every
      roster is kept, even one now longer than the new capacity. */
  lemma EditRoomKeepsRosters(rooms: seq<HostelRoom>, roomId: Id, roomNumber: string, capacity: int)
    ensures var r := EditRoom(rooms, roomId, roomNumber, capacity);
      Rosters(r) == Rosters(rooms) && RoomIds(r) == RoomIds(rooms) &&
      forall k :: 0 <= k < |rooms| ==>
        r[k].studentIds == rooms[k].studentIds &&
        (rooms[k].id == roomId ==> r[k].roomNumber == roomNumber && r[k].capacity == capacity) &&
        (rooms[k].id != roomId ==> r[k] == rooms[k])
  {
    var r := EditRoom(rooms, roomId, roomNumber, capacity);
    RostersByRoster(r, rooms);
  }

  /** Rosters depend on the rosters only. */
  lemma {:induction false} RostersByRoster(a: seq<HostelRoom>, b: seq<HostelRoom>)
    requires |a| == |b| && forall k :: 0 <= k < |a| ==> a[k].studentIds == b[k].studentIds
    ensures Rosters(a) == Rosters(b)
  {
    if a != [] {
      RostersByRoster(a[1..], b[1..]);
    }
  }

  /** `a.localeCompare(b) <= 0`, taken as the code-point order on strings. */
  predicate LexLe(a: string, b: string) {
    a == [] || (b != [] && (a[0] < b[0] || (a[0] == b[0] && LexLe(a[1..], b[1..]))))
  }

  lemma {:induction false} LexLeTotal(a: string, b: string)
    ensures LexLe(a, b) || LexLe(b, a)
  {
    if a != [] && b != [] && a[0] == b[0] {
      LexLeTotal(a[1..], b[1..]);
    }
  }

  lemma {:induction false} LexLeTrans(a: string, b: string, c: string)
    requires LexLe(a, b) && LexLe(b, c)
    ensures LexLe(a, c)
  {
    if a != [] && b != [] && c != [] && a[0] == b[0] && b[0] == c[0] {
      LexLeTrans(a[1..], b[1..], c[1..]);
    }
  }

  predicate SortedByNumber(rooms: seq<HostelRoom>) {
    forall i, j :: 0 <= i < j < |rooms| ==> LexLe(rooms[i].roomNumber, rooms[j].roomNumber)
  }

  /** One insertion step of a stable sort: `room` goes before the first room
      whose number is not below its own. */
  function InsertByNumber(room: HostelRoom, rooms: seq<HostelRoom>): (r: seq<HostelRoom>)
    ensures multiset(r) == multiset(rooms) + multiset{room}
  {
    if rooms == [] then [room]
    else if LexLe(room.roomNumber, rooms[0].roomNumber) then [room] + rooms
    else
      assert rooms == [rooms[0]] + rooms[1..];
      [rooms[0]] + InsertByNumber(room, rooms[1..])
  }

  /** A room whose number is not above any number of a sorted list can go in front. */
  lemma PrependKeepsSorted(first: HostelRoom, rooms: seq<HostelRoom>)
    requires SortedByNumber(rooms)
    requires forall k :: 0 <= k < |rooms| ==> LexLe(first.roomNumber, rooms[k].roomNumber)
    ensures SortedByNumber([first] + rooms)
  {
    var r := [first] + rooms;
    forall i, j | 0 <= i < j < |r| ensures LexLe(r[i].roomNumber, r[j].roomNumber) {
      assert r[j] == rooms[j - 1];
      if i > 0 {
        assert r[i] == rooms[i - 1];
      }
    }
  }

  lemma {:induction false} InsertKeepsSorted(room: HostelRoom, rooms: seq<HostelRoom>)
    requires SortedByNumber(rooms)
    ensures SortedByNumber(InsertByNumber(room, rooms))
  {
    if rooms == [] {
    } else if LexLe(room.roomNumber, rooms[0].roomNumber) {
      forall k | 0 <= k < |rooms| ensures LexLe(room.roomNumber, rooms[k].roomNumber) {
        if k > 0 {
          LexLeTrans(room.roomNumber, rooms[0].roomNumber, rooms[k].roomNumber);
        }
      }
      PrependKeepsSorted(room, rooms);
    } else {
      var rest := rooms[1..];
      var tail := InsertByNumber(room, rest);
      assert SortedByNumber(rest) by {
        forall i, j | 0 <= i < j < |rest| ensures LexLe(rest[i].roomNumber, rest[j].roomNumber) {
          assert rest[i] == rooms[i + 1] && rest[j] == rooms[j + 1];
        }
      }
      InsertKeepsSorted(room, rest);
      LexLeTotal(room.roomNumber, rooms[0].roomNumber);
      forall k | 0 <= k < |tail| ensures LexLe(rooms[0].roomNumber, tail[k].roomNumber) {
        var t := tail[k];
        assert t in multiset(tail);
        if t != room {
          assert t in multiset(rest);
          var m :| 0 <= m < |rest| && rest[m] == t;
          assert rooms[m + 1] == t;
        }
      }
      PrependKeepsSorted(rooms[0], tail);
    }
  }

  /** `rooms.sort((a, b) => a.roomNumber.localeCompare(b.roomNumber))`, as a
      stable insertion sort. */
  function SortByNumber(rooms: seq<HostelRoom>): (r: seq<HostelRoom>)
    ensures multiset(r) == multiset(rooms)
    ensures SortedByNumber(r)
  {
    if rooms == [] then []
    else
      assert rooms == [rooms[0]] + rooms[1..];
      InsertKeepsSorted(rooms[0], SortByNumber(rooms[1..]));
      InsertByNumber(rooms[0], SortByNumber(rooms[1..]))
  }

  /** Create a room with the given (clock-derived) id and an empty roster,
      then sort all rooms by number. */
  function CreateRoom(rooms: seq<HostelRoom>, newId: Id, roomNumber: string, capacity: int): (r: seq<HostelRoom>)
    ensures SortedByNumber(r)
    ensures multiset(r) == multiset(rooms) + multiset{HostelRoom(newId, roomNumber, capacity, [])}
    ensures |r| == |rooms| + 1
  {
    SortByNumber(rooms + [HostelRoom(newId, roomNumber, capacity, [])])
  }
}
