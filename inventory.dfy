/**
 * `Inventory`: a fixed number of item slots, each empty or holding one item.
 * A slot outside the array is an `ArrayIndexOutOfBoundsException`.
 */
module Inventory {
  import opened Java
  import Serializer

  type Item = Serializer.Transportable

  /** Every item comes before every empty slot. */
  predicate Condensed(slots: seq<Option<Item>>)
  {
    forall a, b | 0 <= a < b < |slots| && slots[a].None? :: slots[b].None?
  }

  /** The first empty slot, or the number of slots when every one is full. */
  function FirstEmpty(slots: seq<Option<Item>>): (r: int)
    ensures 0 <= r <= |slots|
    ensures r < |slots| ==> slots[r].None?
    ensures forall k | 0 <= k < r :: slots[k].Some?
  {
    if |slots| == 0 || slots[0].None? then 0 else 1 + FirstEmpty(slots[1..])
  }

  /**
   * One pass of `condense`'s outer loop on a slot holding an item: the item
   * moves to the first empty slot, if there is one. Items before slot `i`
   * were condensed, and so are those up to slot `i` after the move.
   */
  lemma CondenseStep(slots: seq<Option<Item>>, i: int)
    requires 0 <= i < |slots| && slots[i].Some? && Condensed(slots[..i])
    ensures FirstEmpty(slots) < |slots| ==> (
      var moved := slots[FirstEmpty(slots) := slots[i]][i := None];
      multiset(moved) == multiset(slots) && Condensed(moved[..i + 1]))
    ensures FirstEmpty(slots) == |slots| ==> Condensed(slots[..i + 1])
  {
    var j := FirstEmpty(slots);
    if j < |slots| {
      var once := slots[j := slots[i]];
      var moved := once[i := None];
      if j < i {
        assert forall k | j < k < i :: slots[k].None? by {
          forall k | j < k < i
            ensures slots[k].None?
          {
            assert slots[..i][j].None?;
            assert slots[..i][k] == slots[k];
          }
        }
      }
    }
  }

  /** A slot without an item leaves the slots before it, and it, condensed. */
  lemma EmptyStep(slots: seq<Option<Item>>, i: int)
    requires 0 <= i < |slots| && slots[i].None? && Condensed(slots[..i])
    ensures Condensed(slots[..i + 1])
  {
  }

  class Inventory {
    const items: array<Option<Item>>

    /** `new Inventory(capacity)`: that many empty slots. */
    constructor(capacity: int32)
      requires capacity >= 0
      ensures items.Length == capacity && fresh(items)
      ensures forall k | 0 <= k < items.Length :: items[k].None?
    {
      items := new Option<Item>[capacity](_ => None);
    }

    /** `get(slot)`: the slot's content. */
    function Get(slot: int): (r: Result<Option<Item>>)
      reads items
      ensures r.Ok? <==> 0 <= slot < items.Length
      ensures r.Ok? ==> r.value == items[slot]
      ensures r.Err? ==> r.error == IndexOutOfBounds
    {
      if 0 <= slot < items.Length then Ok(items[slot]) else Err(IndexOutOfBounds)
    }

    /** `isItem(slot)`: the slot is not empty, that is, `get(slot)` is not null. */
    function IsItem(slot: int): (r: Result<bool>)
      reads items
      ensures r.Ok? <==> Get(slot).Ok?
      ensures r.Ok? ==> (r.value <==> Get(slot).value.Some?)
      ensures r.Err? ==> r.error == IndexOutOfBounds
    {
      if 0 <= slot < items.Length then Ok(items[slot].Some?) else Err(IndexOutOfBounds)
    }

    /** `getSize()`: the capacity, which no operation changes. */
    function GetSize(): (r: int)
      ensures r == items.Length
    {
      items.Length
    }

    /** The first empty slot, searched from slot 0 as `add` and `condense` do. */
    method FirstEmptySlot() returns (j: int)
      ensures j == FirstEmpty(items[..])
    {
      j := 0;
      while j < items.Length && items[j].Some?
        invariant 0 <= j <= items.Length
        invariant forall k | 0 <= k < j :: items[k].Some?
      {
        j := j + 1;
      }
      FirstEmptyIs(items[..], j);
    }

    /**
     * `add(item)`: stores the item in the first empty slot and returns
     * true; with every slot full it returns false and changes nothing.
     */
    method Add(item: Option<Item>) returns (r: bool)
      modifies items
      ensures r <==> exists k | 0 <= k < items.Length :: old(items[k]).None?
      ensures r ==> items[..] == old(items[..])[FirstEmpty(old(items[..])) := item]
      ensures !r ==> items[..] == old(items[..])
    {
      var j := FirstEmptySlot();
      if j < items.Length {
        items[j] := item;
        return true;
      }
      return false;
    }

    /** `put(item, slot)`: returns the slot's previous content and changes only that slot. */
    method Put(item: Option<Item>, slot: int) returns (r: Result<Option<Item>>)
      modifies items
      ensures !(0 <= slot < items.Length) ==> r == Err(IndexOutOfBounds) && items[..] == old(items[..])
      ensures 0 <= slot < items.Length ==> r == Ok(old(items[slot])) && items[..] == old(items[..])[slot := item]
    {
      if !(0 <= slot < items.Length) {
        return Err(IndexOutOfBounds);
      }
      var previous := items[slot];
      items[slot] := item;
      return Ok(previous);
    }

    /** `remove(slot)`: returns the slot's previous content and leaves the slot empty. */
    method Remove(slot: int) returns (r: Result<Option<Item>>)
      modifies items
      ensures !(0 <= slot < items.Length) ==> r == Err(IndexOutOfBounds) && items[..] == old(items[..])
      ensures 0 <= slot < items.Length ==> r == Ok(old(items[slot])) && items[..] == old(items[..])[slot := None]
    {
      if !(0 <= slot < items.Length) {
        return Err(IndexOutOfBounds);
      }
      var item := items[slot];
      items[slot] := None;
      return Ok(item);
    }

    /**
     * `condense()`: each item in turn, from slot 0 up, moves to the first
     * empty slot, wherever that is, even a later one. The slots are only
     * permuted, so the same items remain, and every item ends up before every
     * empty slot; the items' order may change.
     */
    method Condense()
      modifies items
      ensures multiset(items[..]) == multiset(old(items[..]))
      ensures Condensed(items[..])
    {
      for i := 0 to items.Length
        invariant multiset(items[..]) == multiset(old(items[..]))
        invariant Condensed(items[..i])
      {
        if items[i].Some? {
          var j := FirstEmptySlot();
          ghost var before := items[..];
          CondenseStep(before, i);
          if j < items.Length {
            items[j] := items[i];
            items[i] := None;
            assert items[..] == before[j := before[i]][i := None];
          }
        } else {
          EmptyStep(items[..], i);
        }
      }
      assert items[..items.Length] == items[..];
    }
  }

  /** A search that stopped at the first empty slot found `FirstEmpty`. */
  lemma FirstEmptyIs(slots: seq<Option<Item>>, j: int)
    requires 0 <= j <= |slots| && (j < |slots| ==> slots[j].None?)
    requires forall k | 0 <= k < j :: slots[k].Some?
    ensures j == FirstEmpty(slots)
  {
  }
}
