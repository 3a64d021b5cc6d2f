/** Which slot and which ID channelCenter_register gives out, and how large its table gets. */
module ChannelSlots {
  import opened ChannelTable
  import opened Options

  // ---------- The slot ----------

  /** Nothing was deregistered: the free indices are those above the number of channels, and channel h has
      slot h. */
  ghost predicate Untouched(t: Table) {
    && |t.ids| <= |t.slots|
    && t.free == Down(|t.slots|, |t.slots| - |t.ids|)
    && forall h | 0 <= h < |t.ids| :: t.ids[h] == 0x80000000 + (1 + h % 2046) * 0x100000 + h + 1
  }

  lemma {:induction false} Top(size: nat, count: nat)
    requires 0 < count <= size
    ensures Down(size, count)[..count - 1] == Down(size, count - 1) && Down(size, count)[count - 1] == size - count
  {}

  lemma RegisterPlaces(t: Table)
    requires Inv(t) && !Full(t)
    ensures t.free == [] ==> Grown(t).free != [] && Inv(Grown(t))
    ensures Register(t).0 == Placed(if t.free == [] then Grown(t) else t)
  {
    if t.free == [] {
      GrownInv(t);
    }
  }

  lemma GrownUntouched(t: Table)
    requires Inv(t) && Untouched(t) && t.free == [] && |t.slots| < 0xfffff
    ensures Untouched(Grown(t)) && Grown(t).ids == t.ids
  {
    assert |Down(|t.slots|, |t.slots| - |t.ids|)| == 0;
  }

  lemma RegisterUntouched(t: Table)
    requires Inv(t) && Untouched(t) && |t.ids| < 0xfffff
    ensures Untouched(Register(t).0) && |Register(t).0.ids| == |t.ids| + 1
  {
    RegisterPlaces(t);
    if t.free == [] {
      GrownUntouched(t);
      PlacedUntouched(Grown(t));
    } else {
      PlacedUntouched(t);
    }
  }

  lemma PlacedUntouched(t: Table)
    requires Inv(t) && Untouched(t) && t.free != []
    ensures Untouched(Placed(t)) && |Placed(t).ids| == |t.ids| + 1
  {
    Top(|t.slots|, |t.slots| - |t.ids|);
  }

  lemma {:induction false} AddsFrom(t: Table, ops: seq<Op>)
    requires Inv(t) && Untouched(t) && |t.ids| + |ops| <= 0xfffff && forall k | 0 <= k < |ops| :: ops[k] == Add
    ensures Run(t, ops).Done? && Untouched(Run(t, ops).value) && |Run(t, ops).value.ids| == |t.ids| + |ops|
    decreases |ops|
  {
    if ops != [] {
      RegisterInv(t);
      RegisterUntouched(t);
      AddsFrom(Register(t).0, ops[1..]);
    }
  }

  /** As long as nothing is deregistered, the IDs of the channels are these: slots in order, and the stamps from 1
      to 2046 over and over. */
  lemma {:induction false} FirstIds(ops: seq<Op>, h: nat)
    requires |ops| <= 0xfffff && (forall k | 0 <= k < |ops| :: ops[k] == Add) && h < |ops|
    ensures StaysInside(ops)
    ensures |Reached(ops).ids| == |ops|
    ensures Reached(ops).ids[h] == 0x80000000 + (1 + h % 2046) * 0x100000 + h + 1
  {
    InitInv();
    assert Untouched(Init());
    AddsFrom(Init(), ops);
    RunInside(Init(), ops);
  }

  /** The slot that was given back last is given out first. */
  lemma {:induction false} Reuses(ops: seq<Op>, id: nat)
    requires StaysInside(ops) && !Misses(id)
    ensures var t := Reached(ops);
            && Deregister(t, id).Done? && Inv(Deregister(t, id).value.0)
            && (Deregister(t, id).value.1 ==> Register(Deregister(t, id).value.0).1 % 0x100000 == id % 0x100000)
  {
    Always(ops);
    var t := Reached(ops);
    LookupInside(t, id);
    DeregisterInv(t, id);
    if Find(t, id).value.Some? {
      IdParts(Find(t, id).value.value, t.sequence);
    }
  }

  // ---------- The table ----------

  /** 64, 128, 256 and so on, and 0xfffff at last. */
  ghost predicate Size(n: nat) {
    n == 64 || n == 0xfffff || (n > 64 && n % 2 == 0 && Size(n / 2))
  }

  /** The table doubles only when it is full. */
  ghost predicate Sized(t: Table) {
    Size(|t.slots|) && |Ids(t.slots)| <= |t.ids| && (|t.slots| > 64 ==> |t.slots| < 2 * |t.ids|)
  }

  lemma RegisterSized(t: Table)
    requires Inv(t) && Sized(t)
    ensures Sized(Register(t).0)
  {
    RegisterInv(t);
    if t.free == [] && |t.slots| < 0xfffff {
      var n := |t.slots|;
      assert Size(2 * n) by { assert 2 * n / 2 == n; }
    }
  }

  lemma RemoveSized(t: Table, id: nat)
    requires Inv(t) && Sized(t) && !Misses(id)
    ensures Deregister(t, id).Done? && Sized(Deregister(t, id).value.0)
  {
    DeregisterInv(t, id);
  }

  lemma {:induction false} RunSized(t: Table, ops: seq<Op>)
    requires Inv(t) && Sized(t) && StaysInside(ops)
    ensures Run(t, ops).Done? && Sized(Run(t, ops).value)
    decreases |ops|
  {
    if ops != [] {
      StepInv(t, ops[0]);
      assert !Strays(ops[0]);
      Tail(ops);
      if ops[0].Add? {
        RegisterSized(t);
      } else {
        RemoveSized(t, ops[0].id);
      }
      RunSized(Step(t, ops[0]).value, ops[1..]);
    }
  }

  /** The table has 64 slots, doubled as often as needed, up to 0xfffff: fewer than twice as many as channels
      were ever registered. */
  lemma {:induction false} TableSize(ops: seq<Op>)
    requires StaysInside(ops)
    ensures var t := Reached(ops);
            Size(|t.slots|) && |t.slots| <= 0xfffff && (|t.slots| == 64 || |t.slots| < 2 * |t.ids|)
  {
    InitInv();
    RunSized(Init(), ops);
    Always(ops);
  }
}
