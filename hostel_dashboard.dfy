/** The hostel dashboard's counters: total capacity, students in the hostel
    (distinct ids across all rosters) and unassigned eligible students. Its
    room cards show `Rooms.RoomStudents` for each room. */
module HostelDashboard {
  import opened Seqs
  import opened School
  import Rooms
  import RoomPicker

  /** `rooms.reduce((acc, room) => acc + room.capacity, 0)`. */
  function TotalCapacity(rooms: seq<HostelRoom>): int {
    SumOf(rooms, (room: HostelRoom) => room.capacity)
  }

  /** Total capacity adds up over any split of the rooms. */
  lemma TotalCapacitySplit(a: seq<HostelRoom>, b: seq<HostelRoom>)
    ensures TotalCapacity(a + b) == TotalCapacity(a) + TotalCapacity(b)
  {
    SumOfConcat(a, b, (room: HostelRoom) => room.capacity);
  }

  /** `allocatedStudentIds.size`: every distinct listed id, whether or not it
      names a Residential or an existing student. */
  function StudentsInHostel(rooms: seq<HostelRoom>): nat {
    |Rooms.AllocatedIds(rooms)|
  }

  /** The count is at most the number of roster entries, and equal to it
      exactly when no id is listed twice. */
  lemma StudentsInHostelCount(rooms: seq<HostelRoom>)
    ensures StudentsInHostel(rooms) <= |Rooms.Rosters(rooms)|
    ensures StudentsInHostel(rooms) == |Rooms.Rosters(rooms)| <==> Rooms.UniqueAllocation(rooms)
  {
    var ids := Rooms.Rosters(rooms);
    assert Rooms.AllocatedIds(rooms) == set x | x in ids;
    DistinctCount(ids);
  }

  /** The number of roster entries is the sum of the roster lengths. */
  lemma {:induction false} RostersLength(rooms: seq<HostelRoom>)
    ensures |Rooms.Rosters(rooms)| == SumOf(rooms, (room: HostelRoom) => |room.studentIds|)
  {
    if rooms != [] {
      RostersLength(rooms[1..]);
    }
  }

  lemma {:induction false} SumOfBounded(rooms: seq<HostelRoom>)
    requires RoomPicker.WithinCapacity(rooms)
    ensures SumOf(rooms, (room: HostelRoom) => |room.studentIds|) <= TotalCapacity(rooms)
  {
    if rooms != [] {
      assert RoomPicker.WithinCapacity(rooms[1..]) by {
        forall k | 0 <= k < |rooms[1..]| ensures |rooms[1..][k].studentIds| <= rooms[1..][k].capacity {
          assert rooms[1..][k] == rooms[k + 1];
        }
      }
      SumOfBounded(rooms[1..]);
    }
  }

  /** With every room within capacity, students in the hostel never exceed
      the total capacity. */
  lemma StudentsWithinCapacity(rooms: seq<HostelRoom>)
    requires RoomPicker.WithinCapacity(rooms)
    ensures StudentsInHostel(rooms) <= TotalCapacity(rooms)
  {
    StudentsInHostelCount(rooms);
    RostersLength(rooms);
    SumOfBounded(rooms);
  }

  /** The unassigned counter, from the same filter the hostel page uses. */
  function UnassignedCount(students: seq<Student>, rooms: seq<HostelRoom>): nat {
    var housed := Rooms.AllocatedIds(rooms);
    |Filter(students, (s: Student) => HostelEligible(s) && s.id !in housed)|
  }

  /** The counter is the length of the hostel page's unassigned list. */
  lemma UnassignedCountAgrees(students: seq<Student>, rooms: seq<HostelRoom>)
    ensures UnassignedCount(students, rooms) == |Rooms.Unassigned(students, rooms)|
  {
  }
}
