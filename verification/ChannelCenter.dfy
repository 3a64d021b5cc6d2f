/** channelCenter_t of channelCenter_t.c: the allocator of ChannelTable in arrays.  The lock makes each
    method one step; createChannel stores the issued ID in the channel right after registering it. */
module ChannelCenter {
  import opened ChannelTable
  import opened Options

  class ChannelCenter {
    var slots: array<Option<Entry>>    // ppChannelHandleSlot
    var free: array<nat>               // pChannelHandleSlotIndex
    var freeCount: nat                 // iChannelHandleSlotIndexCount
    var sequence: nat                  // iSequence
    ghost var ids: seq<nat>

    ghost predicate Shaped()
      reads this, slots, free
    {
      freeCount <= free.Length && free.Length == slots.Length
    }

    ghost function Value(): Table
      requires Shaped()
      reads this, slots, free
    {
      Table(slots[..], free[..freeCount], sequence, ids)
    }

    ghost predicate Valid()
      reads this, slots, free
    {
      Shaped() && Inv(Value())
    }

    constructor ()
      ensures Valid() && Value() == Init() && fresh(slots) && fresh(free)
    {
      slots := new Option<Entry>[64](_ => None);
      free := new nat[64](i requires 0 <= i < 64 => 64 - i - 1);
      freeCount, sequence, ids := 64, 1, [];
      new;
      assert Value() == Init() by {
        assert slots[..] == Nones(64);
        assert free[..64] == Down(64, 64);
      }
      assert Inv(Value()) by { InitInv(); }
    }

    /** A larger table with the same slots in front. */
    method MoreSlots(size: nat) returns (newSlots: array<Option<Entry>>)
      requires size >= slots.Length
      ensures fresh(newSlots) && newSlots[..] == slots[..] + Nones(size - slots.Length)
    {
      newSlots := new Option<Entry>[size](_ => None);
      for i := 0 to slots.Length
        invariant forall k | 0 <= k < i :: newSlots[k] == slots[k]
        invariant forall k | i <= k < size :: newSlots[k] == None
      {
        newSlots[i] := slots[i];
      }
    }

    /** A stack that gives out `count` new indices, the lowest first. */
    method NewFree(size: nat, count: nat) returns (newFree: array<nat>)
      requires count <= size
      ensures fresh(newFree) && newFree.Length == size
      ensures newFree[..count] == Down(size, count)
    {
      newFree := new nat[size](_ => 0);
      for i := 0 to count
        invariant forall k | 0 <= k < i :: newFree[k] == size - k - 1
      {
        newFree[i] := size - i - 1;
      }
    }

    /** Doubling the table: the slots are moved, the free stack starts over with the new indices. */
    method Grow()
      requires Valid() && freeCount == 0 && slots.Length < MAX_CAPACITY
      modifies this`slots, this`free, this`freeCount
      ensures Valid() && Value() == Grown(old(Value())) && freeCount > 0
      ensures fresh(slots) && fresh(free)
    {
      GrownInv(Value());
      var size := Least(2 * slots.Length, MAX_CAPACITY);
      var count := size - slots.Length;
      var newSlots := MoreSlots(size);
      var newFree := NewFree(size, count);
      slots, free, freeCount := newSlots, newFree, count;
      assert Value() == Grown(old(Value()));
    }

    /** channelCenter_register */
    method Register(handle: nat) returns (id: nat)
      requires Valid() && handle == |ids|
      modifies this, slots, free
      ensures Valid() && (Value(), id) == ChannelTable.Register(old(Value()))
      ensures slots == old(slots) || fresh(slots)
      ensures free == old(free) || fresh(free)
    {
      RegisterInv(Value());
      if freeCount == 0 {
        if slots.Length == MAX_CAPACITY {
          return 0;
        }
        Grow();
      }
      id := Place(handle);
    }

    method Place(handle: nat) returns (id: nat)
      requires Valid() && freeCount > 0 && handle == |ids|
      modifies this`freeCount, this`sequence, this`ids, slots
      ensures Valid() && Value() == Placed(old(Value())) && id == Value().ids[handle]
    {
      PlacedInv(Value());
      ghost var placed := Placed(Value());
      freeCount := freeCount - 1;
      var index := free[freeCount];
      id := IdOf(index, sequence);
      slots[index] := Some(Entry(handle, id));
      ids := ids + [id];
      sequence := sequence + 1;
      if sequence == 0x7ff {
        sequence := 1;
      }
      assert slots[..] == placed.slots && free[..freeCount] == placed.free;
    }

    /** The test that gain and deregister share: the slot with that channel, or `ok` is false because the
        slot to look at is not in the table. */
    method Lookup(id: nat) returns (slot: Option<nat>, ok: bool)
      requires Valid()
      ensures ok <==> !Misses(id)
      ensures ok ==> Find(Value(), id) == Done(slot)
    {
      LookupInside(Value(), id);
      if id >= 0x80000000 {
        var index := IndexOf(id);
        if index < slots.Length {
          if index < 0 {
            return None, false;
          }
          if slots[index].Some? && slots[index].value.id == id {
            return Some(index), true;
          }
        }
      }
      return None, true;
    }

    /** channelCenter_deregister; nothing is known after it if `ok` is false. */
    method Deregister(id: nat) returns (found: bool, ok: bool)
      requires Valid()
      modifies this, slots, free
      ensures ok <==> !Misses(id)
      ensures ok ==> Valid() && ChannelTable.Deregister(old(Value()), id) == Done((Value(), found))
      ensures slots == old(slots) && free == old(free)
    {
      var slot: Option<nat>;
      slot, ok := Lookup(id);
      found := slot.Some?;
      if ok {
        DeregisterInv(Value(), id);
        if found {
          Release(slot.value);
        }
      }
    }

    method Release(index: nat)
      requires Valid() && index < slots.Length && slots[index].Some?
      modifies this`freeCount, slots, free
      ensures Shaped()
      ensures Value() == old(Value()).(slots := old(slots[..])[index := None], free := old(free[..freeCount]) + [index])
    {
      SomeOccupied(slots[..], index);
      slots[index] := None;
      free[freeCount] := index;
      freeCount := freeCount + 1;
    }

    /** channelCenter_gain; nothing is known after it if `ok` is false. */
    method Gain(id: nat) returns (handle: Option<nat>, ok: bool)
      requires Valid()
      ensures ok <==> !Misses(id)
      ensures ok ==> ChannelTable.Gain(Value(), id) == Done(handle)
    {
      var slot: Option<nat>;
      slot, ok := Lookup(id);
      handle := if ok && slot.Some? then Some(slots[slot.value].value.handle) else None;
    }

    /** channelCenter_getIds: an array of exactly as many IDs as there are occupied slots. */
    method GetIds() returns (out: array<nat>)
      requires Valid()
      ensures fresh(out) && out[..] == Ids(slots[..]) && out.Length == slots.Length - freeCount
    {
      var count := slots.Length - freeCount;
      out := new nat[count](_ => 0);
      FillIds(slots, out);
    }

    static method FillIds(slots: array<Option<Entry>>, out: array<nat>)
      requires out.Length == |Ids(slots[..])|
      modifies out
      ensures out[..] == Ids(slots[..])
    {
      var index := 0;
      ghost var s := slots[..];
      for i := 0 to slots.Length
        invariant index <= out.Length && out[..index] + Ids(s[i..]) == Ids(s)
      {
        IdsFrom(s, i);
        if slots[i].Some? {
          index := Append(out, index, slots[i].value.id, Ids(s[i + 1..]));
        }
      }
    }

    static method Append(out: array<nat>, index: nat, id: nat, ghost rest: seq<nat>) returns (next: nat)
      requires index + 1 + |rest| == out.Length
      modifies out
      ensures next == index + 1 && out[..next] + rest == old(out[..index]) + ([id] + rest)
    {
      out[index] := id;
      next := index + 1;
      assert out[..next] == out[..index] + [id];
    }
  }

  lemma {:induction false} IdsFrom(slots: seq<Option<Entry>>, i: nat)
    requires i < |slots|
    ensures Ids(slots[i..]) == (if slots[i].Some? then [slots[i].value.id] else []) + Ids(slots[i + 1..])
  {
    assert slots[i..][1..] == slots[i + 1..];
  }

  lemma {:induction false} SomeOccupied(slots: seq<Option<Entry>>, i: nat)
    requires i < |slots| && slots[i].Some?
    ensures |Ids(slots)| > 0
  {
    if i > 0 {
      SomeOccupied(slots[1..], i - 1);
    }
  }
}
