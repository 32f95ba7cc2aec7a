/** The warden editor: a set of selected staff ids, kept in insertion order
    as a JavaScript `Set` is, toggled one id at a time and saved as an
    array. */
module WardenEditor {
  import opened Seqs
  import opened School

  /** `Array.from(new Set(ids))`: each id once, in the order of its first
      occurrence; a repeat-free list comes back as it was. */
  function Dedup(ids: seq<Id>): (r: seq<Id>)
    ensures NoDuplicates(r)
    ensures forall x :: x in r <==> x in ids
    ensures ids != [] ==> r != [] && r[0] == ids[0]
    ensures NoDuplicates(ids) ==> r == ids
  {
    if ids == [] then []
    else
      var prefix := ids[..|ids| - 1];
      var front := Dedup(prefix);
      var last := ids[|ids| - 1];
      assert ids == prefix + [last];
      assert multiset(ids) == multiset(prefix) + multiset{last};
      assert ids[0] in ids;
      assert NoDuplicates(ids) ==> NoDuplicates(prefix) && last !in prefix by {
        if NoDuplicates(ids) {
          forall x ensures multiset(prefix)[x] <= 1 {
            assert multiset(ids)[x] <= 1;
          }
          assert multiset(ids)[last] <= 1;
        }
      }
      if last in front then front
      else
        assert multiset(front + [last]) == multiset(front) + multiset{last};
        front + [last]
  }

  /** The editor. The staff lists are fixed while it is open. */
  class Editor {
    const allTeachers: seq<Teacher>
    const allEmployees: seq<Employee>
    var selectedIds: seq<Id>

    ghost predicate Valid()
      reads this
    {
      NoDuplicates(selectedIds)
    }

    /** The selection starts as the set of the current warden ids: repeats
        collapse, nothing else is dropped (not even ids outside the pool). */
    constructor(currentWardenIds: seq<Id>, allTeachers: seq<Teacher>, allEmployees: seq<Employee>)
      ensures Valid()
      ensures selectedIds == Dedup(currentWardenIds)
      ensures this.allTeachers == allTeachers && this.allEmployees == allEmployees
    {
      this.allTeachers := allTeachers;
      this.allEmployees := allEmployees;
      selectedIds := Dedup(currentWardenIds);
    }

    /** Flip the membership of `staffId`; every other id stays as it was. */
    method ToggleWarden(staffId: Id)
      requires Valid()
      modifies this
      ensures Valid()
      ensures selectedIds == Toggle(old(selectedIds), staffId)
    {
      ToggleKeepsDistinct(selectedIds, staffId);
      var newSet := selectedIds;
      if staffId in newSet {
        newSet := Without(newSet, staffId);
      } else {
        newSet := newSet + [staffId];
      }
      selectedIds := newSet;
    }

    /** `Array.from(selectedIds)`: each selected id exactly once. */
    method SaveChanges() returns (newWardenIds: seq<Id>)
      requires Valid()
      ensures newWardenIds == selectedIds
      ensures NoDuplicates(newWardenIds)
    {
      newWardenIds := selectedIds;
    }

    /** The selectable teachers. */
    function ResidentialTeachers(): (r: seq<Teacher>)
      ensures forall t :: t in r <==> t in allTeachers && t.staffType == "Residential"
    {
      Filter(allTeachers, (t: Teacher) => t.staffType == "Residential")
    }

    /** The selectable employees. */
    function ResidentialEmployees(): (r: seq<Employee>)
      ensures forall e :: e in r <==> e in allEmployees && e.staffType == "Residential"
    {
      Filter(allEmployees, (e: Employee) => e.staffType == "Residential")
    }
  }

  /** Any sequence of toggles from the opening selection keeps it free of
      repeats and changes only the toggled ids; ids outside the pool (never
      offered, so never toggled) survive to the save untouched. */
  function ToggleAll(ids: seq<Id>, toggles: seq<Id>): seq<Id>
    decreases |toggles|
  {
    if toggles == [] then ids else ToggleAll(Toggle(ids, toggles[0]), toggles[1..])
  }

  lemma {:induction false} ToggleAllKeepsUntouched(ids: seq<Id>, toggles: seq<Id>, x: Id)
    requires NoDuplicates(ids)
    requires x !in toggles
    ensures NoDuplicates(ToggleAll(ids, toggles))
    ensures x in ToggleAll(ids, toggles) <==> x in ids
    decreases |toggles|
  {
    if toggles != [] {
      ToggleKeepsDistinct(ids, toggles[0]);
      ToggleAllKeepsUntouched(Toggle(ids, toggles[0]), toggles[1..], x);
    }
  }
}
