/**
 * The record store (services/storageService.ts): the whole collection of
 * records kept under one key of the browser's local storage. Saving,
 * deleting and an update that finds its id read the collection, change it
 * and write all of it back; an update of an unknown id writes nothing, and
 * clearing removes the key without reading it.
 */
module Storage {
  import opened Types
  import opened Seqs

  /**
   * What the storage key holds: nothing, a value that does not parse back
   * into records (or the empty string), or a saved collection.
   */
  datatype Slot = Missing | Unreadable | Saved(records: seq<Record>)

  /** `getRecords`: the saved collection, or the empty one when there is none to read. */
  function Load(slot: Slot): (rs: seq<Record>)
    ensures slot.Saved? ==> rs == slot.records
    ensures !slot.Saved? ==> rs == []
  {
    if slot.Saved? then slot.records else []
  }

  predicate HasId(r: Record, id: string) { r.id == id }

  /** `records.findIndex(r => r.id === id)`: the first position holding `id`, or -1. */
  function FirstIndexOf(rs: seq<Record>, id: string): (i: int)
    ensures -1 <= i < |rs|
    ensures 0 <= i ==> rs[i].id == id && forall j :: 0 <= j < i ==> rs[j].id != id
    ensures i < 0 <==> forall j :: 0 <= j < |rs| ==> rs[j].id != id
  {
    IndexWhere(rs, r => HasId(r, id))
  }

  /** The collection `updateRecord(u)` writes: the first record with `u`'s id replaced by `u`. */
  function Replaced(rs: seq<Record>, u: Record): (r: seq<Record>)
    ensures |r| == |rs|
    ensures forall j :: 0 <= j < |rs| && rs[j].id != u.id ==> r[j] == rs[j]
  {
    var i := FirstIndexOf(rs, u.id);
    if i < 0 then rs else rs[i := u]
  }

  /**
   * Replacing keeps the length and every id in place; at the first position
   * holding `u`'s id the record becomes `u`, every other position is kept,
   * and an id no record has leaves the collection as it was.
   */
  lemma ReplacedSpec(rs: seq<Record>, u: Record)
    ensures |Replaced(rs, u)| == |rs|
    ensures forall j :: 0 <= j < |rs| ==> Replaced(rs, u)[j].id == rs[j].id
    ensures forall j :: 0 <= j < |rs| ==>
      Replaced(rs, u)[j] == if j == FirstIndexOf(rs, u.id) then u else rs[j]
    ensures FirstIndexOf(rs, u.id) < 0 ==> Replaced(rs, u) == rs
  {
  }

  /** Replacing with the same record a second time changes nothing more. */
  lemma ReplacedIdempotent(rs: seq<Record>, u: Record)
    ensures Replaced(Replaced(rs, u), u) == Replaced(rs, u)
  {
    var i := FirstIndexOf(rs, u.id);
    if i >= 0 {
      var r := rs[i := u];
      assert FirstIndexOf(r, u.id) == i by {
        assert r[i].id == u.id;
        assert forall j :: 0 <= j < i ==> r[j].id != u.id;
      }
    }
  }

  /** `records.filter(r => r.id !== id)`. */
  function Without(rs: seq<Record>, id: string): (r: seq<Record>)
    ensures |r| <= |rs|
    ensures forall i :: 0 <= i < |r| ==> r[i] in rs && r[i].id != id
    ensures forall i :: 0 <= i < |rs| && rs[i].id != id ==> rs[i] in r
  {
    Filter(rs, r => !HasId(r, id))
  }

  /**
   * After deleting `id` no record carries it, every record with another id
   * stays with all its copies, and an id no record has changes nothing.
   */
  lemma WithoutSpec(rs: seq<Record>, id: string)
    ensures forall j :: 0 <= j < |Without(rs, id)| ==> Without(rs, id)[j].id != id
    ensures forall r: Record :: r.id != id ==> multiset(Without(rs, id))[r] == multiset(rs)[r]
    ensures (forall j :: 0 <= j < |rs| ==> rs[j].id != id) ==> Without(rs, id) == rs
  {
    forall r: Record | r.id != id ensures multiset(Without(rs, id))[r] == multiset(rs)[r] {
      FilterMultiplicity(rs, r' => !HasId(r', id), r);
    }
    if forall j :: 0 <= j < |rs| ==> rs[j].id != id {
      FilterKeepsAll(rs, r => !HasId(r, id));
    }
  }

  /** Deleting keeps the relative order: it acts on each part of a collection separately. */
  lemma WithoutKeepsOrder(a: seq<Record>, b: seq<Record>, id: string)
    ensures Without(a + b, id) == Without(a, id) + Without(b, id)
  {
    FilterConcat(a, b, r => !HasId(r, id));
  }

  /** The record store: the one persisted value behind `STORAGE_KEY`. */
  class RecordStore {
    var slot: Slot

    constructor (initial: Slot)
      ensures slot == initial
    {
      slot := initial;
    }

    /** The collection `getRecords` would return now. */
    function Records(): seq<Record>
      reads this
    {
      Load(slot)
    }

    /** `getRecords`: never fails; a missing or unreadable value reads as no records. */
    method GetRecords() returns (rs: seq<Record>)
      ensures rs == Records()
      ensures !slot.Saved? ==> rs == []
    {
      rs := Load(slot);
    }

    /** `saveRecord`: the collection afterwards is the old one followed by `r`. */
    method SaveRecord(r: Record)
      modifies this
      ensures slot == Saved(old(Records()) + [r])
      ensures Records() == old(Records()) + [r]
      ensures |Records()| == |old(Records())| + 1
    {
      var records := GetRecords();
      records := records + [r];
      slot := Saved(records);
    }

    /**
     * `updateRecord`: when some record has `u`'s id, the first such record is
     * replaced by `u` and the collection written back; otherwise nothing is
     * written and the stored value stays exactly as it was.
     */
    method UpdateRecord(u: Record)
      modifies this
      ensures FirstIndexOf(old(Records()), u.id) < 0 ==> slot == old(slot)
      ensures FirstIndexOf(old(Records()), u.id) >= 0 ==> slot == Saved(Replaced(old(Records()), u))
      ensures Records() == Replaced(old(Records()), u)
    {
      var records := GetRecords();
      var index := FirstIndexOf(records, u.id);
      if index != -1 {
        records := records[index := u];
        slot := Saved(records);
      }
    }

    /** `deleteRecord`: writes back the collection without the records carrying `id`. */
    method DeleteRecord(id: string)
      modifies this
      ensures slot == Saved(Without(old(Records()), id))
      ensures Records() == Without(old(Records()), id)
    {
      var records := GetRecords();
      var filtered := Without(records, id);
      slot := Saved(filtered);
    }

    /** `clearAllRecords`: removes the key, so the store reads as empty. */
    method ClearAllRecords()
      modifies this
      ensures slot == Missing
      ensures Records() == []
    {
      slot := Missing;
    }
  }
}
