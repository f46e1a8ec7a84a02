/**
 * The open-addressing table of asd_lab_8.c: `size` slots, each empty or
 * holding one (key, value) item, probed by double hashing: slot
 * (key % 100 + i * (7 - key % 7)) % size for i = 0 .. size - 1.
 */
module DoubleHashTable {
  import opened Common

  const TABLE_SIZE: int := 100
  const PRIME: int := 7

  datatype Status = Success | KeyNotFound | TableFull | MemoryError | KeyExists

  datatype HashItem = HashItem(key: int, value: int)

  /** C's `%` on int: the remainder takes the sign of the dividend. */
  function CRem(a: int, b: int): (r: int)
    requires b > 0
    ensures a >= 0 ==> r == a % b
    ensures -b < r < b
  {
    if a >= 0 then a % b else -((-a) % b)
  }

  /** primaryHash: key % TABLE_SIZE, a slot number for key >= 0. */
  function PrimaryHash(key: int): (r: int)
    ensures key >= 0 ==> 0 <= r < TABLE_SIZE
    ensures key < 0 ==> -TABLE_SIZE < r <= 0
  {
    CRem(key, TABLE_SIZE)
  }

  /** secondaryHash: PRIME - key % PRIME, a step in 1 .. PRIME for key >= 0, never 0. */
  function SecondaryHash(key: int): (r: int)
    ensures key >= 0 ==> 1 <= r <= PRIME
    ensures key < 0 ==> PRIME <= r < 2 * PRIME
  {
    PRIME - CRem(key, PRIME)
  }

  /** The slot of the i-th probe for `key`. */
  function Probe(key: int, i: nat, size: int): (p: nat)
    requires key >= 0 && size > 0
    ensures p < size
  {
    (PrimaryHash(key) + i * SecondaryHash(key)) % size
  }

  /** Slot `p` holds an item with this key. */
  predicate Holds(slots: seq<Option<HashItem>>, p: nat, key: int)
    requires p < |slots|
  {
    slots[p].Some? && slots[p].value.key == key
  }

  /**
   * Where insertItem stops, from probe `i` on: the first probe whose slot
   * is empty or holds the key, or None when every probe is taken by
   * another key.
   */
  function FirstStop(slots: seq<Option<HashItem>>, key: int, size: int, i: nat): (r: Option<nat>)
    requires key >= 0 && size > 0 && |slots| == size
    ensures r.Some? ==> i <= r.value < size
    ensures r.Some? ==> slots[Probe(key, r.value, size)].None? || Holds(slots, Probe(key, r.value, size), key)
    ensures forall j :: i <= j < size && (r.None? || j < r.value) ==>
      slots[Probe(key, j, size)].Some? && !Holds(slots, Probe(key, j, size), key)
    decreases size - i
  {
    if i >= size then None
    else if slots[Probe(key, i, size)].None? || Holds(slots, Probe(key, i, size), key) then Some(i)
    else FirstStop(slots, key, size, i + 1)
  }

  /**
   * What findItem and deleteItem look for, from probe `i` on: the first
   * probe whose slot holds the key; empty slots do not end the search.
   */
  function FirstMatch(slots: seq<Option<HashItem>>, key: int, size: int, i: nat): (r: Option<nat>)
    requires key >= 0 && size > 0 && |slots| == size
    ensures r.Some? ==> i <= r.value < size && Holds(slots, Probe(key, r.value, size), key)
    ensures forall j :: i <= j < size && (r.None? || j < r.value) ==> !Holds(slots, Probe(key, j, size), key)
    decreases size - i
  {
    if i >= size then None
    else if Holds(slots, Probe(key, i, size), key) then Some(i)
    else FirstMatch(slots, key, size, i + 1)
  }

  /** A key held by no slot is not found. */
  lemma NotHeldNotFound(slots: seq<Option<HashItem>>, key: int, size: int)
    requires key >= 0 && size > 0 && |slots| == size
    requires forall p :: 0 <= p < size ==> !Holds(slots, p, key)
    ensures FirstMatch(slots, key, size, 0) == None
  {
  }

  /**
   * In a table whose every slot holds some other key, insertItem finds no
   * stopping probe, so it answers HT_TABLE_FULL.
   */
  lemma FullTableRefuses(slots: seq<Option<HashItem>>, key: int, size: int)
    requires key >= 0 && size > 0 && |slots| == size
    requires forall p :: 0 <= p < size ==> slots[p].Some? && !Holds(slots, p, key)
    ensures FirstStop(slots, key, size, 0) == None
  {
  }

  /** No key is stored in two slots. */
  ghost predicate NoDuplicates(slots: seq<Option<HashItem>>)
  {
    forall p, q :: 0 <= p < q < |slots| && slots[p].Some? && slots[q].Some? ==> slots[p].value.key != slots[q].value.key
  }

  /** Every stored item sits on one of its own key's probes. */
  ghost predicate Placed(slots: seq<Option<HashItem>>, size: int)
    requires |slots| == size
  {
    forall p :: 0 <= p < size && slots[p].Some? ==>
      slots[p].value.key >= 0 && exists i :: 0 <= i < size && Probe(slots[p].value.key, i, size) == p
  }

  /** After an insertion at the key's stopping probe, a search finds the key there. */
  lemma {:induction false} FindAfterStop(slots: seq<Option<HashItem>>, key: int, value: int, size: int, s: nat, i: nat)
    requires key >= 0 && size > 0 && |slots| == size
    requires i <= s < size
    requires slots[Probe(key, s, size)].None?
    requires forall j :: i <= j < s ==> slots[Probe(key, j, size)].Some? && !Holds(slots, Probe(key, j, size), key)
    ensures FirstMatch(slots[Probe(key, s, size) := Some(HashItem(key, value))], key, size, i) == Some(s)
    decreases s - i
  {
    if i < s {
      FindAfterStop(slots, key, value, size, s, i + 1);
    }
  }

  /** With no duplicates, once the only match is cleared the key is not found. */
  lemma NotFoundAfterClear(slots: seq<Option<HashItem>>, key: int, size: int, p: nat)
    requires key >= 0 && size > 0 && |slots| == size && p < size
    requires NoDuplicates(slots) && Holds(slots, p, key)
    ensures FirstMatch(slots[p := None], key, size, 0) == None
  {
  }

  /** Storing a key that no probe finds, in an empty slot, keeps the keys distinct. */
  lemma NoDuplicatesAfterInsert(slots: seq<Option<HashItem>>, key: int, value: int, size: int, p: nat)
    requires key >= 0 && size > 0 && |slots| == size && p < size && slots[p].None?
    requires Placed(slots, size) && NoDuplicates(slots) && FirstMatch(slots, key, size, 0).None?
    ensures NoDuplicates(slots[p := Some(HashItem(key, value))])
  {
  }

  class Table {
    var items: array<Option<HashItem>>
    var size: int

    ghost predicate Valid()
      reads this
    {
      items.Length == (if size > 0 then size else 0) && size < 0x1000_0000
    }

    /** The slots as a sequence. */
    ghost function Slots(): seq<Option<HashItem>>
      reads this, items
    {
      items[..]
    }

    /** createTable: `size` empty slots. Sizes from 2^28 on could overflow the probe arithmetic. */
    constructor (size: int)
      requires size < 0x1000_0000
      ensures Valid() && fresh(items) && this.size == size
      ensures forall p :: 0 <= p < items.Length ==> items[p].None?
    {
      this.size := size;
      items := new Option<HashItem>[if size > 0 then size else 0](_ => None);
    }

    /**
     * insertItem: follow the probes; the first empty slot receives the item
     * (HT_SUCCESS), a slot with the key first gives HT_KEY_EXISTS, and if
     * every probe is taken by another key, HT_TABLE_FULL. A negative key
     * gives a negative index in C and is excluded.
     */
    method InsertItem(key: int, value: int) returns (status: Status)
      requires Valid() && key >= 0
      modifies items
      ensures size <= 0 ==> status == TableFull && Slots() == old(Slots())
      ensures size > 0 ==> var stop := FirstStop(old(Slots()), key, size, 0);
        && (stop.None? ==> status == TableFull && Slots() == old(Slots()))
        && (stop.Some? && Holds(old(Slots()), Probe(key, stop.value, size), key) ==>
              status == KeyExists && Slots() == old(Slots()))
        && (stop.Some? && old(Slots())[Probe(key, stop.value, size)].None? ==>
              status == Success && Slots() == old(Slots())[Probe(key, stop.value, size) := Some(HashItem(key, value))])
    {
      if size <= 0 {
        return TableFull;
      }
      var index := PrimaryHash(key);
      var step := SecondaryHash(key);
      for i := 0 to size
        invariant FirstStop(Slots(), key, size, 0) == FirstStop(Slots(), key, size, i)
        invariant Slots() == old(Slots())
      {
        var newIndex := (index + i * step) % size;
        assert newIndex == Probe(key, i, size);
        if items[newIndex].None? {
          items[newIndex] := Some(HashItem(key, value));
          return Success;
        } else if items[newIndex].value.key == key {
          return KeyExists;
        }
      }
      return TableFull;
    }

    /**
     * findItem: scan all `size` probes, stepping over empty slots, and
     * return the value of the first slot with the key, or HT_KEY_NOT_FOUND
     * with the caller's `prev` untouched.
     */
    method FindItem(key: int, prev: int) returns (status: Status, value: int)
      requires Valid() && key >= 0
      ensures size <= 0 ==> status == KeyNotFound && value == prev
      ensures size > 0 ==> var m := FirstMatch(Slots(), key, size, 0);
        && (m.None? ==> status == KeyNotFound && value == prev)
        && (m.Some? ==> status == Success && value == Slots()[Probe(key, m.value, size)].value.value)
    {
      if size <= 0 {
        return KeyNotFound, prev;
      }
      var index := PrimaryHash(key);
      var step := SecondaryHash(key);
      for i := 0 to size
        invariant FirstMatch(Slots(), key, size, 0) == FirstMatch(Slots(), key, size, i)
      {
        var newIndex := (index + i * step) % size;
        assert newIndex == Probe(key, i, size);
        if items[newIndex].Some? && items[newIndex].value.key == key {
          return Success, items[newIndex].value.value;
        }
      }
      return KeyNotFound, prev;
    }

    /** deleteItem: empty the first slot along the probes that holds the key, or HT_KEY_NOT_FOUND. */
    method DeleteItem(key: int) returns (status: Status)
      requires Valid() && key >= 0
      modifies items
      ensures size <= 0 ==> status == KeyNotFound && Slots() == old(Slots())
      ensures size > 0 ==> var m := FirstMatch(old(Slots()), key, size, 0);
        && (m.None? ==> status == KeyNotFound && Slots() == old(Slots()))
        && (m.Some? ==> status == Success && Slots() == old(Slots())[Probe(key, m.value, size) := None])
    {
      if size <= 0 {
        return KeyNotFound;
      }
      var index := PrimaryHash(key);
      var step := SecondaryHash(key);
      for i := 0 to size
        invariant FirstMatch(Slots(), key, size, 0) == FirstMatch(Slots(), key, size, i)
        invariant Slots() == old(Slots())
      {
        var newIndex := (index + i * step) % size;
        assert newIndex == Probe(key, i, size);
        if items[newIndex].Some? && items[newIndex].value.key == key {
          items[newIndex] := None;
          return Success;
        }
      }
      return KeyNotFound;
    }

    /**
     * The insertion the table evidently intends: refuse the key if any of
     * its probes holds it, and only then place it in the first empty slot.
     * Unlike InsertItem it never stores a key twice.
     */
    method InsertItemChecked(key: int, value: int) returns (status: Status)
      requires Valid() && key >= 0
      modifies items
      ensures size > 0 && Placed(old(Slots()), size) ==> Placed(Slots(), size)
      ensures size > 0 && Placed(old(Slots()), size) && NoDuplicates(old(Slots())) ==> NoDuplicates(Slots())
      ensures size > 0 && FirstMatch(old(Slots()), key, size, 0).Some? ==> status == KeyExists && Slots() == old(Slots())
      ensures size <= 0 ==> status == TableFull && Slots() == old(Slots())
      ensures size > 0 && FirstMatch(old(Slots()), key, size, 0).None? ==>
        var stop := FirstStop(old(Slots()), key, size, 0);
        && (stop.None? ==> status == TableFull && Slots() == old(Slots()))
        && (stop.Some? ==> status == Success && Slots() == old(Slots())[Probe(key, stop.value, size) := Some(HashItem(key, value))])
      ensures status == Success ==> size > 0 && FirstMatch(Slots(), key, size, 0).Some?
    {
      if size <= 0 {
        return TableFull;
      }
      var found, ignored := FindItem(key, 0);
      if found == Success {
        return KeyExists;
      }
      ghost var before := Slots();
      status := InsertItem(key, value);
      if status == Success {
        var s := FirstStop(before, key, size, 0).value;
        var p := Probe(key, s, size);
        FindAfterStop(before, key, value, size, s, 0);
        if Placed(before, size) && NoDuplicates(before) {
          NoDuplicatesAfterInsert(before, key, value, size, p);
        }
        forall q | 0 <= q < size && Slots()[q].Some?
          ensures Placed(before, size) ==> exists i :: 0 <= i < size && Probe(Slots()[q].value.key, i, size) == q
        {
          if q == p {
            assert Probe(key, s, size) == q;
          }
        }
      }
    }
  }

  /** testInsertItem, first part: keys 1 and 2 go in, a second key 1 is refused. */
  method InsertItemTest() returns (first: Status, second: Status, again: Status)
    ensures first == Success && second == Success && again == KeyExists
  {
    var table := new Table(TABLE_SIZE);
    FirstProbes();
    first := table.InsertItem(1, 100);
    second := table.InsertItem(2, 200);
    again := table.InsertItem(1, 300);
  }

  /** A table of TABLE_SIZE slots holding 1 with 100 in slot 1. */
  ghost function OneSlot(): seq<Option<HashItem>>
  {
    seq(TABLE_SIZE, _ => None)[1 := Some(HashItem(1, 100))]
  }

  /** OneSlot with 101 and 200 added in slot 5, the second probe of 101. */
  ghost function TwoSlots(): seq<Option<HashItem>>
  {
    OneSlot()[5 := Some(HashItem(101, 200))]
  }

  /** The first probes of 1 and of 101 in a table of TABLE_SIZE slots. */
  lemma FirstProbes()
    ensures Probe(1, 0, TABLE_SIZE) == 1 && Probe(2, 0, TABLE_SIZE) == 2
    ensures Probe(101, 0, TABLE_SIZE) == 1 && Probe(101, 1, TABLE_SIZE) == 5
  {
    assert PrimaryHash(101) == 1 && SecondaryHash(101) == 4;
  }

  /** In OneSlot, 1 is found at its first probe; in TwoSlots, 1 at its first and 101 at its second. */
  lemma TwoSlotsMatches()
    ensures FirstMatch(OneSlot(), 1, TABLE_SIZE, 0) == Some(0)
    ensures FirstMatch(TwoSlots(), 1, TABLE_SIZE, 0) == Some(0)
    ensures FirstMatch(TwoSlots(), 101, TABLE_SIZE, 0) == Some(1)
  {
    FirstProbes();
    assert FirstMatch(TwoSlots(), 101, TABLE_SIZE, 1) == Some(1);
  }

  /** In OneSlot, 101 is held nowhere and its probes stop at its second one, slot 5. */
  lemma OneSlotStop()
    ensures FirstMatch(OneSlot(), 101, TABLE_SIZE, 0) == None
    ensures FirstStop(OneSlot(), 101, TABLE_SIZE, 0) == Some(1)
  {
    FirstProbes();
    assert forall p :: 0 <= p < TABLE_SIZE ==> !Holds(OneSlot(), p, 101);
    NotHeldNotFound(OneSlot(), 101, TABLE_SIZE);
    assert FirstStop(OneSlot(), 101, TABLE_SIZE, 1) == Some(1);
  }

  /** insertItem(1, 100) into a new table fills slot 1. */
  method InsertOne() returns (table: Table)
    ensures fresh(table.items) && table.Valid() && table.size == TABLE_SIZE
    ensures table.Slots() == OneSlot()
  {
    table := new Table(TABLE_SIZE);
    FirstProbes();
    var status := table.InsertItem(1, 100);
  }

  /** insertItem(101, 200) after 1: slot 1 is taken by another key, so 101 lands in slot 5. */
  method InsertOneHundredOne(table: Table)
    requires table.Valid() && table.size == TABLE_SIZE && table.Slots() == OneSlot()
    modifies table.items
    ensures table.Slots() == TwoSlots()
  {
    FirstProbes();
    ghost var one := table.Slots();
    assert FirstStop(one, 101, TABLE_SIZE, 1) == Some(1);
    assert FirstStop(one, 101, TABLE_SIZE, 0) == Some(1);
    var status := table.InsertItem(101, 200);
  }

  /** testFindItem: 1 is found with 100, 99 is missing, TABLE_SIZE + 1 (same first slot as 1) is found with 200. */
  method FindItemTest() returns (v1: int, missing: Status, v101: int)
    ensures v1 == 100 && missing == KeyNotFound && v101 == 200
  {
    var table := InsertOne();
    FirstProbes();
    TwoSlotsMatches();
    var status;
    status, v1 := table.FindItem(1, 0);
    assert forall p :: 0 <= p < TABLE_SIZE ==> !Holds(OneSlot(), p, 99);
    NotHeldNotFound(OneSlot(), 99, TABLE_SIZE);
    var ignored;
    missing, ignored := table.FindItem(99, v1);
    InsertOneHundredOne(table);
    status, v101 := table.FindItem(101, v1);
  }

  /** testDeleteItem: 1 is deleted once; deleting 2 or deleting 1 again gives HT_KEY_NOT_FOUND. */
  method DeleteItemTest() returns (first: Status, absent: Status, again: Status)
    ensures first == Success && absent == KeyNotFound && again == KeyNotFound
  {
    var table := InsertOne();
    FirstProbes();
    TwoSlotsMatches();
    first := table.DeleteItem(1);
    assert forall p :: 0 <= p < TABLE_SIZE ==> table.Slots()[p].None?;
    NotHeldNotFound(table.Slots(), 2, TABLE_SIZE);
    NotHeldNotFound(table.Slots(), 1, TABLE_SIZE);
    absent := table.DeleteItem(2);
    again := table.DeleteItem(1);
  }

  /**
   * insertItem after deleteItem can store a key twice: 1 and 101 share their
   * first slot, 101 goes to slot 5; once 1 is deleted, inserting 101 again
   * fills slot 1. Deleting 101 then clears only slot 1, and findItem still
   * returns the old value from slot 5.
   */
  method DuplicateAfterDelete() returns (status: Status, value: int)
    ensures status == Success && value == 200
  {
    var table := InsertOne();
    InsertOneHundredOne(table);
    ghost var two := table.Slots();
    FirstProbes();
    TwoSlotsMatches();
    status := table.DeleteItem(1);
    ghost var three := table.Slots();
    assert three == two[1 := None];
    assert FirstStop(three, 101, TABLE_SIZE, 0) == Some(0);
    status := table.InsertItem(101, 300);
    assert status == Success;
    ghost var four := table.Slots();
    assert four == three[1 := Some(HashItem(101, 300))];
    assert FirstMatch(four, 101, TABLE_SIZE, 0) == Some(0);
    status := table.DeleteItem(101);
    ghost var five := table.Slots();
    assert five == four[1 := None];
    assert five[5] == Some(HashItem(101, 200));
    assert FirstMatch(five, 101, TABLE_SIZE, 1) == Some(1);
    assert FirstMatch(five, 101, TABLE_SIZE, 0) == Some(1);
    status, value := table.FindItem(101, 0);
  }

  /** The checked insertion of 1 into an empty table fills slot 1. */
  method CheckedInsertOne() returns (table: Table)
    ensures fresh(table.items) && table.Valid() && table.size == TABLE_SIZE
    ensures table.Slots() == OneSlot()
  {
    table := new Table(TABLE_SIZE);
    FirstProbes();
    ghost var zero := table.Slots();
    assert zero == seq(TABLE_SIZE, _ => None);
    NotHeldNotFound(zero, 1, TABLE_SIZE);
    var status := table.InsertItemChecked(1, 100);
  }

  /** The same steps with the checked insertion, up to the deletion of 1: only 101 is left, in slot 5. */
  method CheckedInsertThenDelete() returns (table: Table)
    ensures fresh(table.items) && table.Valid() && table.size == TABLE_SIZE
    ensures table.Slots() == seq(TABLE_SIZE, _ => None)[5 := Some(HashItem(101, 200))]
  {
    table := CheckedInsertTwo();
    FirstProbes();
    var status := table.DeleteItem(1);
    assert table.Slots() == TwoSlots()[1 := None];
  }

  /** The checked insertion of 1 and then of 101: they land in slots 1 and 5. */
  method CheckedInsertTwo() returns (table: Table)
    ensures fresh(table.items) && table.Valid() && table.size == TABLE_SIZE
    ensures table.Slots() == TwoSlots()
  {
    table := CheckedInsertOne();
    FirstProbes();
    OneSlotStop();
    TwoSlotsMatches();
    var status := table.InsertItemChecked(101, 200);
  }

  /** With the checked insertion the second 101 is refused, and 101 is gone after one delete. */
  method NoDuplicateWithCheckedInsert() returns (reinsert: Status, found: Status)
    ensures reinsert == KeyExists && found == KeyNotFound
  {
    var table := CheckedInsertThenDelete();
    FirstProbes();
    ghost var three := table.Slots();
    assert FirstMatch(three, 101, TABLE_SIZE, 1) == Some(1);
    assert FirstMatch(three, 101, TABLE_SIZE, 0) == Some(1);
    reinsert := table.InsertItemChecked(101, 300);
    assert table.Slots() == three;
    var status := table.DeleteItem(101);
    assert forall p :: 0 <= p < TABLE_SIZE ==> table.Slots()[p].None?;
    NotHeldNotFound(table.Slots(), 101, TABLE_SIZE);
    var value;
    found, value := table.FindItem(101, 0);
  }
}
