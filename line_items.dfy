/** The `{description, amount}` entry lists of the student and teacher forms
    (a student's extra fees, a teacher's salary adjustments): their total,
    the add and remove buttons, and the change of one entry's field. The
    change is given twice: `ChangeItem` on values, the behaviour the forms
    evidently intend, and `ChangeEntryInPlace` on shared entry objects, the
    way the handlers write it. */
module LineItems {
  import opened Seqs
  import opened School

  /** `items.reduce((acc, item) => acc + item.amount, 0)`. */
  function Sum(items: seq<LineItem>): int {
    SumOf(items, (f: LineItem) => f.amount)
  }

  /** The reduce folds left to right: one more entry at the end adds its
      amount, whatever its sign. */
  lemma {:induction false} SumAppend(items: seq<LineItem>, item: LineItem)
    ensures Sum(items + [item]) == Sum(items) + item.amount
  {
    SumOfConcat(items, [item], (f: LineItem) => f.amount);
  }

  /** The entry field an input edits. */
  datatype ItemField = Description | Amount

  /** `addFee` / `addAdjustment`: one blank entry at the end; the total is unchanged. */
  function AddItem(items: seq<LineItem>): (r: seq<LineItem>)
    ensures |r| == |items| + 1 && r[..|items|] == items && r[|items|] == LineItem("", 0)
    ensures Sum(r) == Sum(items)
  {
    SumOfConcat(items, [LineItem("", 0)], (f: LineItem) => f.amount);
    items + [LineItem("", 0)]
  }

  /** `removeFee(i)` / `removeAdjustment(i)`: `items.filter((_, j) => j !== i)`.
      Exactly the entry at `index` goes, the rest keep their order; an index
      outside the list removes nothing. The total drops by that entry's amount. */
  function RemoveItemAt(items: seq<LineItem>, index: int): (r: seq<LineItem>)
    ensures 0 <= index < |items| ==> |r| == |items| - 1
    ensures 0 <= index < |items| ==> forall j :: 0 <= j < index ==> r[j] == items[j]
    ensures 0 <= index < |items| ==> forall j :: index <= j < |r| ==> r[j] == items[j + 1]
    ensures 0 <= index < |items| ==> Sum(r) == Sum(items) - items[index].amount
    ensures !(0 <= index < |items|) ==> r == items
  {
    if 0 <= index < |items| then
      assert items == items[..index] + [items[index]] + items[index + 1..];
      SumOfConcat(items[..index] + [items[index]], items[index + 1..], (f: LineItem) => f.amount);
      SumOfConcat(items[..index], [items[index]], (f: LineItem) => f.amount);
      SumOfConcat(items[..index], items[index + 1..], (f: LineItem) => f.amount);
      items[..index] + items[index + 1..]
    else items
  }

  /** The new value of one field: `amount` goes through `Number`, here `toNumber`. */
  function SetField(item: LineItem, field: ItemField, value: string, toNumber: string -> int): (r: LineItem)
    ensures field == Description ==> r.description == value && r.amount == item.amount
    ensures field == Amount ==> r.amount == toNumber(value) && r.description == item.description
  {
    match field
    case Description => item.(description := value)
    case Amount => item.(amount := toNumber(value))
  }

  /** One field of entry `index` changed on a copy of the list: no other
      entry and no other field changes, the list it was copied from stays
      as it was, and the total moves by the change in that entry's amount.
      The handlers index an existing entry; another index would throw. */
  function ChangeItem(items: seq<LineItem>, index: nat, field: ItemField, value: string, toNumber: string -> int): (r: seq<LineItem>)
    requires index < |items|
    ensures |r| == |items| && forall j :: 0 <= j < |items| && j != index ==> r[j] == items[j]
    ensures field == Description ==> r[index] == items[index].(description := value)
    ensures field == Amount ==> r[index] == items[index].(amount := toNumber(value))
    ensures Sum(r) == Sum(items) - items[index].amount + r[index].amount
  {
    var r := items[index := SetField(items[index], field, value, toNumber)];
    SumUpdate(items, index, r[index]);
    r
  }

  lemma SumUpdate(items: seq<LineItem>, index: nat, item: LineItem)
    requires index < |items|
    ensures Sum(items[index := item]) == Sum(items) - items[index].amount + item.amount
  {
    var r := items[index := item];
    assert items == items[..index] + [items[index]] + items[index + 1..];
    assert r == items[..index] + [item] + items[index + 1..];
    SumOfConcat(items[..index] + [items[index]], items[index + 1..], (f: LineItem) => f.amount);
    SumOfConcat(items[..index], [items[index]], (f: LineItem) => f.amount);
    SumOfConcat(items[..index] + [item], items[index + 1..], (f: LineItem) => f.amount);
    SumOfConcat(items[..index], [item], (f: LineItem) => f.amount);
  }

  /** An entry as the handlers see it: an object that the form's list and
      the record it was loaded from share. */
  class Entry {
    var description: string
    var amount: int

    constructor(description: string, amount: int)
      ensures this.description == description && this.amount == amount
    {
      this.description := description;
      this.amount := amount;
    }
  }

  /** `const copy = [...entries]; copy[index][field] = value`: the array is
      copied but the entry is written in place, so the copy holds the very
      objects of `entries`. */
  method ChangeEntryInPlace(entries: seq<Entry>, index: nat, field: ItemField, value: string, toNumber: string -> int)
    returns (copy: seq<Entry>)
    requires index < |entries|
    modifies entries[index]
    ensures copy == entries
    ensures field == Description ==>
      entries[index].description == value && entries[index].amount == old(entries[index].amount)
    ensures field == Amount ==>
      entries[index].amount == toNumber(value) && entries[index].description == old(entries[index].description)
  {
    copy := entries;
    var e := copy[index];
    match field
    case Description => e.description := value;
    case Amount => e.amount := toNumber(value);
  }

  /** The form is loaded with the record itself, so an amount typed into the
      form is already in the record the list holds, before any save and
      even if the form is cancelled. */
  method EditLeaksIntoRecord(record: seq<Entry>, index: nat, value: string, toNumber: string -> int)
    requires index < |record|
    requires toNumber(value) != record[index].amount
    modifies record[index]
    ensures record[index].amount != old(record[index].amount)
    ensures record[index].amount == toNumber(value)
  {
    var form := record;
    var copy := ChangeEntryInPlace(form, index, Amount, value, toNumber);
  }
}
