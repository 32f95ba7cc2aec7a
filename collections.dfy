/** The record-list pattern every list screen repeats: saving a record whose
    id is set merges it into the record with that id; saving one without an
    id gives it a new id (`RecordIds.NextId`) and adds it at the end or,
    for the finance lists, at the front; deleting filters by id. The lists
    are generic in the record type: `idOf` reads a record's id and `withId`
    stores one. */
module Collections {
  import opened Seqs
  import opened RecordIds

  type Id = string

  /** `xs.map(x => x.id)`. */
  function IdsOf<T>(xs: seq<T>, idOf: T -> Id): (ids: seq<Id>)
    ensures |ids| == |xs|
    ensures forall i :: 0 <= i < |xs| ==> ids[i] == idOf(xs[i])
  {
    if xs == [] then [] else [idOf(xs[0])] + IdsOf(xs[1..], idOf)
  }

  lemma {:induction false} IdsOfConcat<T>(a: seq<T>, b: seq<T>, idOf: T -> Id)
    ensures IdsOf(a + b, idOf) == IdsOf(a, idOf) + IdsOf(b, idOf)
  {
    if a == [] {
      assert a + b == b;
    } else {
      assert (a + b)[1..] == a[1..] + b;
      IdsOfConcat(a[1..], b, idOf);
    }
  }

  /** `withId` stores the id that `idOf` reads back (`{...data, id}`). */
  ghost predicate StoresId<T(!new)>(idOf: T -> Id, withId: (T, Id) -> T) {
    forall t, id :: idOf(withId(t, id)) == id
  }

  /** The edit branch: `xs.map(x => x.id === data.id ? {...x, ...data} : x)`.
      The form hands back every field, so the merge is the submitted record. */
  function UpdateById<T>(xs: seq<T>, idOf: T -> Id, data: T): (r: seq<T>)
    ensures |r| == |xs|
    ensures IdsOf(r, idOf) == IdsOf(xs, idOf)
    ensures forall i :: 0 <= i < |xs| && idOf(xs[i]) != idOf(data) ==> r[i] == xs[i]
    ensures forall i :: 0 <= i < |xs| && idOf(xs[i]) == idOf(data) ==> r[i] == data
  {
    seq(|xs|, i requires 0 <= i < |xs| => if idOf(xs[i]) == idOf(data) then data else xs[i])
  }

  /** Editing a record whose id is on no record changes nothing. */
  lemma UpdateUnknownId<T>(xs: seq<T>, idOf: T -> Id, data: T)
    requires idOf(data) !in IdsOf(xs, idOf)
    ensures UpdateById(xs, idOf, data) == xs
  {
    var r := UpdateById(xs, idOf, data);
    forall i | 0 <= i < |xs| ensures r[i] == xs[i] {
      assert IdsOf(xs, idOf)[i] == idOf(xs[i]);
    }
  }

  /** Editing a record whose id is listed puts the submitted record in the
      list, and saving the same record twice is saving it once. */
  lemma UpdateKnownId<T>(xs: seq<T>, idOf: T -> Id, data: T)
    requires idOf(data) in IdsOf(xs, idOf)
    ensures data in UpdateById(xs, idOf, data)
    ensures UpdateById(UpdateById(xs, idOf, data), idOf, data) == UpdateById(xs, idOf, data)
  {
    var i :| 0 <= i < |xs| && IdsOf(xs, idOf)[i] == idOf(data);
    assert UpdateById(xs, idOf, data)[i] == data;
  }

  /** The delete handler: `xs.filter(x => x.id !== id)`. */
  function RemoveById<T(==,!new)>(xs: seq<T>, idOf: T -> Id, id: Id): (r: seq<T>)
    ensures forall x :: x in r <==> x in xs && idOf(x) != id
    ensures IdsOf(r, idOf) == Without(IdsOf(xs, idOf), id)
  {
    RemoveIds(xs, idOf, id);
    Filter(xs, (x: T) => idOf(x) != id)
  }

  lemma {:induction false} RemoveIds<T(!new)>(xs: seq<T>, idOf: T -> Id, id: Id)
    ensures IdsOf(Filter(xs, (x: T) => idOf(x) != id), idOf) == Without(IdsOf(xs, idOf), id)
  {
    if xs != [] {
      RemoveIds(xs[1..], idOf, id);
      var head: seq<T> := if idOf(xs[0]) != id then [xs[0]] else [];
      IdsOfConcat(head, Filter(xs[1..], (x: T) => idOf(x) != id), idOf);
    }
  }

  /** Deleting an id that no record carries changes nothing. */
  lemma RemoveAbsent<T(!new)>(xs: seq<T>, idOf: T -> Id, id: Id)
    requires id !in IdsOf(xs, idOf)
    ensures RemoveById(xs, idOf, id) == xs
  {
    forall x | x in xs ensures idOf(x) != id {
      var i :| 0 <= i < |xs| && xs[i] == x;
      assert IdsOf(xs, idOf)[i] == idOf(x);
    }
    FilterKeepsAll(xs, (x: T) => idOf(x) != id);
  }

  /** The id a new record receives: `prefix + String(max + 1).padStart(width, '0')`. */
  function NewId<T>(xs: seq<T>, idOf: T -> Id, prefix: string, width: nat): (id: Id)
    requires AllIdsNumbered(IdsOf(xs, idOf), |prefix|)
    ensures id !in IdsOf(xs, idOf)
    ensures StartsWith(id, prefix) && HasIdNumber(id, |prefix|)
    ensures IdNumber(id, |prefix|) == MaxIdNumber(IdsOf(xs, idOf), |prefix|) + 1
  {
    NextId(IdsOf(xs, idOf), prefix, width)
  }

  /** The save handler. A record with an id replaces the record(s) with that
      id in place; one without gets a new id and is added at the end, or at
      the front when `atFront`. Reading the existing numbers requires each
      id to be the prefix followed by decimal digits only, as every generated id is. */
  function Save<T(!new)>(xs: seq<T>, idOf: T -> Id, withId: (T, Id) -> T, data: T,
                         prefix: string, width: nat, atFront: bool): (r: seq<T>)
    requires StoresId(idOf, withId)
    requires idOf(data) == "" ==> AllIdsNumbered(IdsOf(xs, idOf), |prefix|)
    ensures idOf(data) != "" ==> r == UpdateById(xs, idOf, data)
    ensures idOf(data) == "" && !atFront ==>
      |r| == |xs| + 1 && r[..|xs|] == xs && r[|xs|] == withId(data, NewId(xs, idOf, prefix, width))
    ensures idOf(data) == "" && atFront ==>
      |r| == |xs| + 1 && r[1..] == xs && r[0] == withId(data, NewId(xs, idOf, prefix, width))
  {
    if idOf(data) != "" then UpdateById(xs, idOf, data)
    else
      var created := withId(data, NewId(xs, idOf, prefix, width));
      if atFront then [created] + xs else xs + [created]
  }

  /** The ids after a save: unchanged by an edit, and the old ids plus one
      new id, at the end or the front, by a create. */
  lemma SaveIds<T(!new)>(xs: seq<T>, idOf: T -> Id, withId: (T, Id) -> T, data: T,
                         prefix: string, width: nat, atFront: bool)
    requires StoresId(idOf, withId)
    requires idOf(data) == "" ==> AllIdsNumbered(IdsOf(xs, idOf), |prefix|)
    ensures idOf(data) != "" ==> IdsOf(Save(xs, idOf, withId, data, prefix, width, atFront), idOf) == IdsOf(xs, idOf)
    ensures idOf(data) == "" ==>
      var newId := NewId(xs, idOf, prefix, width);
      IdsOf(Save(xs, idOf, withId, data, prefix, width, atFront), idOf) ==
        if atFront then [newId] + IdsOf(xs, idOf) else IdsOf(xs, idOf) + [newId]
  {
    if idOf(data) == "" {
      var created := withId(data, NewId(xs, idOf, prefix, width));
      if atFront {
        IdsOfConcat([created], xs, idOf);
      } else {
        IdsOfConcat(xs, [created], idOf);
      }
    }
  }

  /** Saving keeps the ids distinct and keeps every id readable by the next
      create, so the precondition of the create branch is an invariant of
      the list screens. */
  lemma SaveKeepsIds<T(!new)>(xs: seq<T>, idOf: T -> Id, withId: (T, Id) -> T, data: T,
                              prefix: string, width: nat, atFront: bool)
    requires StoresId(idOf, withId)
    requires idOf(data) == "" ==> AllIdsNumbered(IdsOf(xs, idOf), |prefix|)
    ensures NoDuplicates(IdsOf(xs, idOf)) && AllIdsNumbered(IdsOf(xs, idOf), |prefix|) ==>
      NoDuplicates(IdsOf(Save(xs, idOf, withId, data, prefix, width, atFront), idOf)) &&
      AllIdsNumbered(IdsOf(Save(xs, idOf, withId, data, prefix, width, atFront), idOf), |prefix|)
  {
    SaveIds(xs, idOf, withId, data, prefix, width, atFront);
    if idOf(data) == "" && NoDuplicates(IdsOf(xs, idOf)) {
      AddIdKeeps(IdsOf(xs, idOf), NewId(xs, idOf, prefix, width), atFront, |prefix|);
    }
  }

  lemma AddIdKeeps(ids: seq<Id>, newId: Id, atFront: bool, skip: nat)
    requires AllIdsNumbered(ids, skip) && NoDuplicates(ids)
    requires newId !in ids && HasIdNumber(newId, skip)
    ensures NoDuplicates(if atFront then [newId] + ids else ids + [newId])
    ensures AllIdsNumbered(if atFront then [newId] + ids else ids + [newId], skip)
  {
    var r := if atFront then [newId] + ids else ids + [newId];
    assert multiset(r) == multiset(ids) + multiset{newId};
    forall i | 0 <= i < |r| ensures HasIdNumber(r[i], skip) {
      if atFront && i > 0 {
        assert r[i] == ids[i - 1];
      }
    }
  }

  /** Deleting keeps the ids distinct and readable. */
  lemma RemoveKeepsIds<T(!new)>(xs: seq<T>, idOf: T -> Id, id: Id, prefix: string)
    requires AllIdsNumbered(IdsOf(xs, idOf), |prefix|)
    requires NoDuplicates(IdsOf(xs, idOf))
    ensures NoDuplicates(IdsOf(RemoveById(xs, idOf, id), idOf))
    ensures AllIdsNumbered(IdsOf(RemoveById(xs, idOf, id), idOf), |prefix|)
  {
    var r := IdsOf(RemoveById(xs, idOf, id), idOf);
    forall i | 0 <= i < |r| ensures HasIdNumber(r[i], |prefix|) {
      assert r[i] in IdsOf(xs, idOf);
    }
  }

  /** Deleting a record just created, by its new id, restores the list. */
  lemma CreateThenDelete<T(!new)>(xs: seq<T>, idOf: T -> Id, withId: (T, Id) -> T, data: T,
                                 prefix: string, width: nat, atFront: bool)
    requires StoresId(idOf, withId)
    requires idOf(data) == ""
    requires AllIdsNumbered(IdsOf(xs, idOf), |prefix|)
    ensures RemoveById(Save(xs, idOf, withId, data, prefix, width, atFront), idOf, NewId(xs, idOf, prefix, width)) == xs
  {
    var newId := NewId(xs, idOf, prefix, width);
    var created := withId(data, newId);
    var p := (x: T) => idOf(x) != newId;
    RemoveAbsent(xs, idOf, newId);
    assert Filter([created], p) == [];
    if atFront {
      FilterConcat([created], xs, p);
    } else {
      FilterConcat(xs, [created], p);
    }
  }

  /** Position `i` holds the first record with id `id`. */
  predicate FirstWithId<T>(xs: seq<T>, idOf: T -> Id, id: Id, i: int) {
    0 <= i < |xs| && idOf(xs[i]) == id && forall j :: 0 <= j < i ==> idOf(xs[j]) != id
  }

  /** `xs.find(x => x.id === id)?.name || fallback`: the name of the first
      record with that id, unless there is none or its name is empty. */
  function NameOrDefault<T>(xs: seq<T>, idOf: T -> Id, nameOf: T -> string, id: Id, fallback: string): (name: string)
    ensures forall i :: FirstWithId(xs, idOf, id, i) ==>
      name == if nameOf(xs[i]) == "" then fallback else nameOf(xs[i])
    ensures id !in IdsOf(xs, idOf) ==> name == fallback
  {
    var i := FindIndex(xs, (x: T) => idOf(x) == id);
    if i < |xs| then
      assert FirstWithId(xs, idOf, id, i);
      if nameOf(xs[i]) != "" then nameOf(xs[i]) else fallback
    else
      assert forall j :: 0 <= j < |xs| ==> IdsOf(xs, idOf)[j] != id;
      fallback
  }
}
