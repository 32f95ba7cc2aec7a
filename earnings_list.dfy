/** The earnings list screen: save (edit in place or create with the next
    `E`-prefixed id, padded to three digits, placed FIRST) and delete by
    id. */
module EarningsList {
  import opened Seqs
  import opened School
  import opened RecordIds
  import Collections
  import Finance

  function IdOfEarning(e: Earning): Id { e.id }

  function WithEarningId(e: Earning, id: Id): Earning { e.(id := id) }

  function EarningIds(earnings: seq<Earning>): seq<Id> {
    Collections.IdsOf(earnings, IdOfEarning)
  }

  /** The id a new earning receives: `E` then the next number, at least three digits. */
  function NewEarningId(earnings: seq<Earning>): (id: Id)
    requires AllIdsNumbered(EarningIds(earnings), 1)
    ensures id !in EarningIds(earnings)
    ensures StartsWith(id, "E") && |id| >= 4 && AllDigits(id[1..])
    ensures IdNumber(id, 1) == MaxIdNumber(EarningIds(earnings), 1) + 1
  {
    NextId(EarningIds(earnings), "E", 3)
  }

  /** `handleSaveEarning`: edit in place by id, or put the new record in front
      of the existing ones under a new id; the ids stay distinct and readable. */
  function SaveEarning(earnings: seq<Earning>, data: Earning): (r: seq<Earning>)
    requires data.id == "" ==> AllIdsNumbered(EarningIds(earnings), 1)
    ensures data.id != "" ==> r == Collections.UpdateById(earnings, IdOfEarning, data)
    ensures data.id == "" ==> r == [data.(id := NewEarningId(earnings))] + earnings
    ensures NoDuplicates(EarningIds(earnings)) && AllIdsNumbered(EarningIds(earnings), 1) ==>
      NoDuplicates(EarningIds(r)) && AllIdsNumbered(EarningIds(r), 1)
  {
    assert Collections.StoresId(IdOfEarning, WithEarningId);
    Collections.SaveKeepsIds(earnings, IdOfEarning, WithEarningId, data, "E", 3, true);
    Collections.Save(earnings, IdOfEarning, WithEarningId, data, "E", 3, true)
  }

  /** `handleDeleteEarning`: only the records with that id go, in order. */
  function DeleteEarning(earnings: seq<Earning>, id: Id): (r: seq<Earning>)
    ensures forall e :: e in r <==> e in earnings && e.id != id
    ensures EarningIds(r) == Without(EarningIds(earnings), id)
  {
    Collections.RemoveById(earnings, IdOfEarning, id)
  }

  /** An edit keeps every id, and changes nothing when its id is unknown. */
  lemma EditEarning(earnings: seq<Earning>, data: Earning)
    requires data.id != ""
    ensures EarningIds(SaveEarning(earnings, data)) == EarningIds(earnings)
    ensures data.id in EarningIds(earnings) ==> data in SaveEarning(earnings, data)
    ensures data.id !in EarningIds(earnings) ==> SaveEarning(earnings, data) == earnings
  {
    if data.id in EarningIds(earnings) {
      Collections.UpdateKnownId(earnings, IdOfEarning, data);
    } else {
      Collections.UpdateUnknownId(earnings, IdOfEarning, data);
    }
  }

  /** Creating a record raises the list's total by its amount;
      deleting it again by its new id restores the list. */
  lemma CreateEarning(earnings: seq<Earning>, data: Earning)
    requires data.id == "" && AllIdsNumbered(EarningIds(earnings), 1)
    ensures Finance.TotalEarnings(SaveEarning(earnings, data)) == Finance.TotalEarnings(earnings) + data.amount
    ensures DeleteEarning(SaveEarning(earnings, data), NewEarningId(earnings)) == earnings
  {
    var created := data.(id := NewEarningId(earnings));
    SumOfConcat([created], earnings, (e: Earning) => e.amount);
    assert Collections.StoresId(IdOfEarning, WithEarningId);
    Collections.CreateThenDelete(earnings, IdOfEarning, WithEarningId, data, "E", 3, true);
  }
}
