/** The handle allocator of channelCenter_t.c on values: a growing slot table, a stack of free indices
    and sequence-stamped IDs, which are uint32_t.  Each operation runs under the lock, so it is one step. */
module ChannelTable {
  import opened Options

  const MAX_CAPACITY := 0xfffff
  const SEQUENCES := 0x7fe         // iSequence runs from 1 to 0x7fe

  /** A registered channel: its number in the order of registration, and its uiID. */
  datatype Entry = Entry(handle: nat, id: nat)

  /** `ids` is history: the ID of every channel registered so far. */
  datatype Table = Table(slots: seq<Option<Entry>>, free: seq<nat>, sequence: nat, ids: seq<nat>)

  // ---------- IDs ----------

  /** (iIndex + 1) | 0x80000000 | iSequence << 20 */
  function IdOf(index: nat, sequence: nat): nat {
    0x80000000 + sequence * 0x100000 + index + 1
  }

  /** (uiChannelID & 0xfffff) - 1, as an int32_t: -1 if the low 20 bits are zero. */
  function IndexOf(id: nat): int {
    id % 0x100000 - 1
  }

  /** The sequence stamp of the n-th registration. */
  function Stamp(n: nat): nat {
    1 + n % SEQUENCES
  }

  lemma IdParts(index: nat, sequence: nat)
    requires index < MAX_CAPACITY && 1 <= sequence <= SEQUENCES
    ensures 0x80000000 <= IdOf(index, sequence) < 0x1_0000_0000
    ensures IndexOf(IdOf(index, sequence)) == index
    ensures IdOf(index, sequence) / 0x100000 % 0x800 == sequence
  {}

  /** Two IDs are equal exactly if they name the same slot and their registrations lie a multiple of
      2046 apart. */
  lemma SameId(i: nat, m: nat, j: nat, n: nat)
    requires i < MAX_CAPACITY && j < MAX_CAPACITY
    ensures IdOf(i, Stamp(m)) == IdOf(j, Stamp(n)) <==> i == j && m % 2046 == n % 2046
  {
    IdParts(i, Stamp(m));
    IdParts(j, Stamp(n));
  }

  /** The IDs for which the source looks at slot -1: it compares the index with the capacity only, and
      the index is signed. */
  predicate Misses(id: nat) {
    id >= 0x80000000 && id % 0x100000 == 0
  }

  lemma NextStamp(n: nat)
    ensures Stamp(n + 1) == if Stamp(n) + 1 == 0x7ff then 1 else Stamp(n) + 1
  {}

  // ---------- Operations ----------

  /** n empty slots, and a stack of the `count` indices below `size` that gives out the lowest first. */
  function Nones(n: nat): (s: seq<Option<Entry>>)
    ensures |s| == n && forall i | 0 <= i < n :: s[i] == None
  {
    seq(n, _ => None)
  }

  function Down(size: nat, count: nat): (s: seq<nat>)
    requires count <= size
    ensures |s| == count && forall i | 0 <= i < count :: s[i] == size - i - 1
  {
    seq(count, i requires 0 <= i < count => size - i - 1)
  }

  /** A table of n free slots. */
  function Fresh(n: nat): Table {
    Table(Nones(n), Down(n, n), 1, [])
  }

  /** channelCenter_init */
  function Init(): Table {
    Fresh(64)
  }

  function Least(a: nat, b: nat): nat {
    if a < b then a else b
  }

  /** Doubling the slots; the new ones are free, and their stack gives out the lowest first. */
  function Grown(t: Table): Table
    requires |t.slots| < MAX_CAPACITY
  {
    var size := Least(2 * |t.slots|, MAX_CAPACITY);
    t.(slots := t.slots + Nones(size - |t.slots|), free := Down(size, size - |t.slots|))
  }

  predicate Full(t: Table) {
    t.free == [] && |t.slots| == MAX_CAPACITY
  }

  /** channelCenter_register: the table and the ID, 0 when the table is full. */
  function Register(t: Table): (Table, nat)
    requires 0 < |t.slots| <= MAX_CAPACITY && forall k | 0 <= k < |t.free| :: t.free[k] < |t.slots|
  {
    if Full(t) then (t, 0)
    else
      var g := if t.free == [] then Grown(t) else t;
      var index := g.free[|g.free| - 1];
      var id := IdOf(index, g.sequence);
      (Table(g.slots[index := Some(Entry(|t.ids|, id))], g.free[..|g.free| - 1],
             if g.sequence + 1 == 0x7ff then 1 else g.sequence + 1, t.ids + [id]),
       id)
  }

  /** What an operation leads to: a value, or a look at memory outside the table, after which nothing is
      known. */
  datatype Outcome<T> = Done(value: T) | Outside

  /** The slot that an ID leads to, if a channel with that ID is there. */
  function Find(t: Table, id: nat): Outcome<Option<nat>> {
    var index := IndexOf(id);
    if id < 0x80000000 || index >= |t.slots| then Done(None)
    else if index < 0 then Outside
    else if t.slots[index].Some? && t.slots[index].value.id == id then Done(Some(index))
    else Done(None)
  }

  /** Emptying a slot and giving its index back. */
  function Released(t: Table, index: nat): Table
    requires index < |t.slots|
  {
    t.(slots := t.slots[index := None], free := t.free + [index])
  }

  /** channelCenter_deregister: the table, and whether a channel was found. */
  function Deregister(t: Table, id: nat): Outcome<(Table, bool)> {
    match Find(t, id)
    case Outside => Outside
    case Done(None) => Done((t, false))
    case Done(Some(index)) => Done((Released(t, index), true))
  }

  /** channelCenter_gain */
  function Gain(t: Table, id: nat): Outcome<Option<nat>> {
    match Find(t, id)
    case Outside => Outside
    case Done(None) => Done(None)
    case Done(Some(index)) => Done(Some(t.slots[index].value.handle))
  }

  /** A lookup leaves the table exactly for the IDs that miss it, whatever is in the table.  For every
      other ID it finds the one slot whose channel has that ID, if there is one. */
  lemma LookupInside(t: Table, id: nat)
    requires Inv(t)
    ensures Gain(t, id) == Outside <==> Misses(id)
    ensures Deregister(t, id) == Outside <==> Misses(id)
    ensures !Misses(id) && id >= 0x80000000 ==> 0 <= IndexOf(id)
    ensures !Misses(id) ==>
              forall i | 0 <= i < |t.slots| :: Find(t, id) == Done(Some(i)) <==> HasID(t.slots[i], id)
  {
    forall i | 0 <= i < |t.slots|
      ensures HasID(t.slots[i], id) ==> id >= 0x80000000 && IndexOf(id) == i
    {
      assert Holds(t, i);
      if HasID(t.slots[i], id) {
        IdParts(i, Stamp(t.slots[i].value.handle));
      }
    }
  }

  predicate HasID(slot: Option<Entry>, id: nat) {
    slot.Some? && slot.value.id == id
  }

  /** The first ID that misses. */
  lemma MissedID(t: Table)
    requires Inv(t)
    ensures IndexOf(0x80000000) == -1 && Gain(t, 0x80000000) == Outside && Deregister(t, 0x80000000) == Outside
    ensures forall id | id < 0x80000000 :: !Misses(id)
  {}

  /** The IDs of the registered channels, in slot order. */
  function Ids(slots: seq<Option<Entry>>): seq<nat> {
    if slots == [] then []
    else (if slots[0].Some? then [slots[0].value.id] else []) + Ids(slots[1..])
  }

  // ---------- The invariant ----------

  ghost predicate Holds(t: Table, i: int) {
    0 <= i < |t.slots| &&
    (t.slots[i].Some? ==>
       var e := t.slots[i].value;
       e.handle < |t.ids| && e.id == t.ids[e.handle] && e.id == IdOf(i, Stamp(e.handle)))
  }

  ghost predicate Issued(t: Table, h: int) {
    0 <= h < |t.ids| && exists i {:trigger IdOf(i, Stamp(h))} | 0 <= i < |t.slots| :: t.ids[h] == IdOf(i, Stamp(h))
  }

  /** The free stack and the occupied slots share out the table: no index is in both, twice in the
      stack, or in neither. */
  ghost predicate Partition(t: Table) {
    && 0 < |t.slots| <= MAX_CAPACITY
    && (forall k | 0 <= k < |t.free| :: t.free[k] < |t.slots|)
    && (forall k | 0 <= k < |t.free| :: t.slots[t.free[k]] == None)
    && (forall j, k | 0 <= j < k < |t.free| :: t.free[j] != t.free[k])
    && (forall i | 0 <= i < |t.slots| && t.slots[i] == None :: i in t.free)
    && |t.free| + |Ids(t.slots)| == |t.slots|
  }

  ghost predicate Inv(t: Table) {
    && Partition(t)
    && t.sequence == Stamp(|t.ids|)
    && (forall i {:trigger Holds(t, i)} | 0 <= i < |t.slots| :: Holds(t, i))
    && (forall h {:trigger Issued(t, h)} | 0 <= h < |t.ids| :: Issued(t, h))
  }

  lemma {:induction false} IdsUpdate(slots: seq<Option<Entry>>, i: nat, e: Option<Entry>)
    requires i < |slots|
    ensures |Ids(slots[i := e])| + (if slots[i].Some? then 1 else 0) == |Ids(slots)| + (if e.Some? then 1 else 0)
  {
    if i == 0 {
      assert slots[i := e][1..] == slots[1..];
    } else {
      assert slots[i := e][1..] == slots[1..][i - 1 := e];
      IdsUpdate(slots[1..], i - 1, e);
    }
  }

  lemma {:induction false} IdsMore(slots: seq<Option<Entry>>, more: seq<Option<Entry>>)
    requires forall i | 0 <= i < |more| :: more[i] == None
    ensures Ids(slots + more) == Ids(slots)
    decreases |slots|, |more|
  {
    if slots != [] {
      assert (slots + more)[1..] == slots[1..] + more;
      IdsMore(slots[1..], more);
    } else if more != [] {
      assert (slots + more)[1..] == [] + more[1..];
      IdsMore([], more[1..]);
    } else {
      assert slots + more == [];
    }
  }

  lemma {:induction false} DownHolds(n: nat, i: nat)
    requires i < n
    ensures i in Down(n, n)
  {
    assert Down(n, n)[n - i - 1] == i;
  }

  lemma {:induction false} FreshPartition(n: nat)
    requires 0 < n <= MAX_CAPACITY
    ensures Partition(Fresh(n))
  {
    var t := Fresh(n);
    assert Ids(t.slots) == [] by {
      IdsMore([], t.slots);
      assert [] + t.slots == t.slots;
    }
    forall i | 0 <= i < |t.slots| && t.slots[i] == None
      ensures i in t.free
    {
      DownHolds(n, i);
    }
  }

  lemma {:induction false} FreshInv(n: nat)
    requires 0 < n <= MAX_CAPACITY
    ensures Inv(Fresh(n))
  {
    FreshPartition(n);
    var t := Fresh(n);
    assert forall i | 0 <= i < |t.slots| :: Holds(t, i);
  }

  lemma InitInv()
    ensures Inv(Init())
  {
    FreshInv(64);
  }

  lemma GrownInv(t: Table)
    requires Inv(t) && t.free == [] && |t.slots| < MAX_CAPACITY
    ensures Inv(Grown(t)) && Grown(t).free != []
  {
    var g := Grown(t);
    IdsMore(t.slots, Nones(|g.slots| - |t.slots|));
    assert forall i | 0 <= i < |t.slots| :: t.slots[i] != None && g.slots[i] == t.slots[i];
    forall i | |t.slots| <= i < |g.slots|
      ensures i in g.free
    {
      assert g.free[|g.slots| - 1 - i] == i;
    }
    forall i | 0 <= i < |g.slots|
      ensures Holds(g, i)
    {
      if i < |t.slots| { assert Holds(t, i); }
    }
    forall h | 0 <= h < |g.ids|
      ensures Issued(g, h)
    {
      assert Issued(t, h);
      var i :| 0 <= i < |t.slots| && t.ids[h] == IdOf(i, Stamp(h));
      assert g.ids[h] == IdOf(i, Stamp(h));
    }
  }

  /** Taking the top of the free stack for the next channel. */
  function Placed(t: Table): Table
    requires t.free != [] && t.free[|t.free| - 1] < |t.slots|
  {
    var index := t.free[|t.free| - 1];
    var id := IdOf(index, t.sequence);
    Table(t.slots[index := Some(Entry(|t.ids|, id))], t.free[..|t.free| - 1],
          if t.sequence + 1 == 0x7ff then 1 else t.sequence + 1, t.ids + [id])
  }

  lemma PlacedPartition(t: Table)
    requires Inv(t) && t.free != []
    ensures Partition(Placed(t))
  {
    var n, p := |t.free| - 1, Placed(t);
    IdsUpdate(t.slots, t.free[n], p.slots[t.free[n]]);
    forall i | 0 <= i < |p.slots| && p.slots[i] == None
      ensures i in p.free
    {
      assert i in t.free && i != t.free[n];
      var k :| 0 <= k < |t.free| && t.free[k] == i;
      assert p.free[k] == i;
    }
  }

  lemma PlacedInv(t: Table)
    requires Inv(t) && t.free != []
    ensures Inv(Placed(t))
  {
    var p := Placed(t);
    PlacedPartition(t);
    NextStamp(|t.ids|);
    forall i | 0 <= i < |p.slots|
      ensures Holds(p, i)
    {
      assert Holds(t, i);
    }
    forall h | 0 <= h < |p.ids|
      ensures Issued(p, h)
    {
      if h < |t.ids| {
        assert Issued(t, h);
        var i :| 0 <= i < |t.slots| && t.ids[h] == IdOf(i, Stamp(h));
        assert p.ids[h] == IdOf(i, Stamp(h));
      } else {
        assert p.ids[h] == IdOf(t.free[|t.free| - 1], Stamp(h));
      }
    }
  }

  lemma RegisterInv(t: Table)
    requires Inv(t)
    ensures Inv(Register(t).0)
  {
    if !Full(t) {
      if t.free == [] {
        GrownInv(t);
        PlacedInv(Grown(t));
      } else {
        PlacedInv(t);
      }
    }
  }

  lemma DeregisterPartition(t: Table, index: nat)
    requires Inv(t) && index < |t.slots| && t.slots[index].Some?
    ensures Partition(Released(t, index))
  {
    var d := Released(t, index);
    IdsUpdate(t.slots, index, None);
    forall i | 0 <= i < |d.slots| && d.slots[i] == None
      ensures i in d.free
    {
      if i == index {
        assert d.free[|t.free|] == i;
      } else {
        assert i in t.free;
        var k :| 0 <= k < |t.free| && t.free[k] == i;
        assert d.free[k] == i;
      }
    }
  }

  lemma ReleasedInv(t: Table, index: nat)
    requires Inv(t) && index < |t.slots| && t.slots[index].Some?
    ensures Inv(Released(t, index))
  {
    var d := Released(t, index);
    DeregisterPartition(t, index);
    forall i | 0 <= i < |d.slots|
      ensures Holds(d, i)
    {
      assert Holds(t, i);
    }
    forall h | 0 <= h < |d.ids|
      ensures Issued(d, h)
    {
      assert Issued(t, h);
      var i :| 0 <= i < |t.slots| && t.ids[h] == IdOf(i, Stamp(h));
      assert d.ids[h] == IdOf(i, Stamp(h));
    }
  }

  lemma DeregisterInv(t: Table, id: nat)
    requires Inv(t) && !Misses(id)
    ensures Deregister(t, id).Done? && Inv(Deregister(t, id).value.0)
  {
    var found := Find(t, id);
    if found.Done? && found.value.Some? {
      ReleasedInv(t, found.value.value);
    }
  }

  // ---------- What holds in every run ----------

  datatype Op = Add | Remove(id: nat)

  predicate Strays(op: Op) {
    op.Remove? && Misses(op.id)
  }

  /** One operation on the table. */
  function Step(t: Table, op: Op): Outcome<Table>
    requires Inv(t)
  {
    match op
    case Add => Done(Register(t).0)
    case Remove(id) => if Deregister(t, id).Done? then Done(Deregister(t, id).value.0) else Outside
  }

  lemma StepInv(t: Table, op: Op)
    requires Inv(t)
    ensures Step(t, op) == Outside <==> Strays(op)
    ensures Step(t, op).Done? ==> Inv(Step(t, op).value)
  {
    match op
    case Add => RegisterInv(t);
    case Remove(id) =>
      LookupInside(t, id);
      if !Misses(id) { DeregisterInv(t, id); }
  }

  function Run(t: Table, ops: seq<Op>): Outcome<Table>
    requires Inv(t)
    decreases |ops|
  {
    if ops == [] then Done(t)
    else
      StepInv(t, ops[0]);
      match Step(t, ops[0])
      case Outside => Outside
      case Done(next) => Run(next, ops[1..])
  }

  ghost predicate StaysInside(ops: seq<Op>) {
    forall k | 0 <= k < |ops| :: !Strays(ops[k])
  }

  /** A run keeps to the table exactly if none of the IDs handed to channelCenter_deregister misses. */
  lemma {:induction false} RunInside(t: Table, ops: seq<Op>)
    requires Inv(t)
    ensures Run(t, ops).Done? <==> StaysInside(ops)
    ensures Run(t, ops).Done? ==> Inv(Run(t, ops).value)
    decreases |ops|
  {
    if ops != [] {
      StepInv(t, ops[0]);
      if Step(t, ops[0]).Done? {
        RunInside(Step(t, ops[0]).value, ops[1..]);
        Tail(ops);
      }
    }
  }

  lemma Tail(ops: seq<Op>)
    requires ops != []
    ensures StaysInside(ops) <==> !Strays(ops[0]) && StaysInside(ops[1..])
  {
    assert ops == [ops[0]] + ops[1..];
    if !Strays(ops[0]) && StaysInside(ops[1..]) {
      forall k | 0 <= k < |ops|
        ensures !Strays(ops[k])
      {
        if k > 0 { assert !Strays(ops[1..][k - 1]); }
      }
    }
  }

  /** The table after a run from channelCenter_init. */
  function Reached(ops: seq<Op>): Table
    requires StaysInside(ops)
  {
    InitInv();
    RunInside(Init(), ops);
    Run(Init(), ops).value
  }

  lemma {:induction false} Always(ops: seq<Op>)
    requires StaysInside(ops)
    ensures Inv(Reached(ops))
  {
    InitInv();
    RunInside(Init(), ops);
  }

  /** Whoever deregisters only IDs that were issued stays inside. */
  lemma {:induction false} IssuedIsInside(ops: seq<Op>, h: nat)
    requires StaysInside(ops) && h < |Reached(ops).ids|
    ensures !Misses(Reached(ops).ids[h]) && StaysInside(ops + [Remove(Reached(ops).ids[h])])
  {
    Always(ops);
    assert Issued(Reached(ops), h);
    var i :| 0 <= i < |Reached(ops).slots| && Reached(ops).ids[h] == IdOf(i, Stamp(h));
    IdParts(i, Stamp(h));
  }

  /** The free stack and the occupied slots partition the table, across all doublings, and the
      reported count of IDs is exact. */
  lemma {:induction false} FreeAndOccupied(ops: seq<Op>, i: nat)
    requires StaysInside(ops) && i < |Reached(ops).slots|
    ensures var t := Reached(ops);
            && |t.slots| <= MAX_CAPACITY
            && (t.slots[i] == None <==> i in t.free)
            && (forall j, k | 0 <= j < k < |t.free| :: t.free[j] != t.free[k])
            && |Ids(t.slots)| == |t.slots| - |t.free|
  {
    Always(ops);
  }

  /** Channel h is in the table. */
  ghost predicate Registered(t: Table, h: nat) {
    exists i | 0 <= i < |t.slots| :: t.slots[i].Some? && t.slots[i].value.handle == h
  }

  /** An issued ID leads to its channel exactly while that is registered; otherwise to none, or, after
      a multiple of 2046 registrations, to one that got the same ID again. */
  lemma {:induction false} GainFindsItsOwn(ops: seq<Op>, h: nat)
    requires StaysInside(ops) && h < |Reached(ops).ids|
    ensures var t := Reached(ops);
            && Gain(t, t.ids[h]).Done?
            && (Gain(t, t.ids[h]) == Done(Some(h)) <==> Registered(t, h))
            && (Gain(t, t.ids[h]) != Done(None) ==>
                 var g := Gain(t, t.ids[h]).value.value;
                 g < |t.ids| && t.ids[g] == t.ids[h] && g % 2046 == h % 2046)
  {
    Always(ops);
    FindsItsOwn(Reached(ops), h);
  }

  lemma FindsItsOwn(t: Table, h: nat)
    requires Inv(t) && h < |t.ids|
    ensures Gain(t, t.ids[h]).Done?
    ensures Gain(t, t.ids[h]) == Done(Some(h)) <==> Registered(t, h)
    ensures Gain(t, t.ids[h]) != Done(None) ==>
              var g := Gain(t, t.ids[h]).value.value;
              g < |t.ids| && t.ids[g] == t.ids[h] && g % 2046 == h % 2046
  {
    assert Issued(t, h);
    var j :| 0 <= j < |t.slots| && t.ids[h] == IdOf(j, Stamp(h));
    IdParts(j, Stamp(h));
    assert Holds(t, j);
    if t.slots[j].Some? {
      SameId(j, t.slots[j].value.handle, j, h);
    }
    if Registered(t, h) {
      var i :| 0 <= i < |t.slots| && t.slots[i].Some? && t.slots[i].value.handle == h;
      assert Holds(t, i);
      SameId(i, h, j, h);
    }
  }

  /** IDs issued within 2046 consecutive registrations are distinct. */
  lemma {:induction false} IdsDistinct(ops: seq<Op>, g: nat, h: nat)
    requires StaysInside(ops) && g < h < |Reached(ops).ids| && h - g < 2046
    ensures Reached(ops).ids[g] != Reached(ops).ids[h]
  {
    Always(ops);
    var t := Reached(ops);
    assert Issued(t, g) && Issued(t, h);
    var i :| 0 <= i < |t.slots| && t.ids[g] == IdOf(i, Stamp(g));
    var j :| 0 <= j < |t.slots| && t.ids[h] == IdOf(j, Stamp(h));
    SameId(i, g, j, h);
  }

  /** Registering fails exactly when all of 0xfffff slots hold channels; otherwise the new channel
      has the issued ID, and everybody else stays. */
  lemma {:induction false} RegisterAdds(ops: seq<Op>, h: nat)
    requires StaysInside(ops)
    ensures var t := Reached(ops);
            && Inv(t)
            && var (t', id) := Register(t);
               && (id == 0 <==> |Ids(t.slots)| == 0xfffff)
               && (id != 0 ==> t'.ids == t.ids + [id] && Gain(t', id) == Done(Some(|t.ids|)))
               && (Registered(t', h) <==> Registered(t, h) || (id != 0 && h == |t.ids|))
  {
    Always(ops);
    var t := Reached(ops);
    if !Full(t) {
      if t.free == [] {
        GrownInv(t);
        GrownKeeps(t, h);
        PlacedAdds(Grown(t), h);
      } else {
        PlacedAdds(t, h);
      }
    }
  }

  lemma GrownKeeps(t: Table, h: nat)
    requires Inv(t) && t.free == [] && |t.slots| < MAX_CAPACITY
    ensures Registered(Grown(t), h) <==> Registered(t, h)
  {
    var g := Grown(t);
    forall i | 0 <= i < |t.slots|
      ensures g.slots[i] == t.slots[i]
    {}
  }

  lemma PlacedAdds(t: Table, h: nat)
    requires Inv(t) && t.free != []
    ensures var p := Placed(t);
            && p.ids[|t.ids|] != 0 && Gain(p, p.ids[|t.ids|]) == Done(Some(|t.ids|))
            && (Registered(p, h) <==> Registered(t, h) || h == |t.ids|)
  {
    var p, index := Placed(t), t.free[|t.free| - 1];
    IdParts(index, t.sequence);
    assert p.slots[index] == Some(Entry(|t.ids|, IdOf(index, t.sequence)));
    if Registered(t, h) {
      var i :| 0 <= i < |t.slots| && t.slots[i].Some? && t.slots[i].value.handle == h;
      assert p.slots[i] == t.slots[i];
    }
    if Registered(p, h) && h != |t.ids| {
      var i :| 0 <= i < |p.slots| && p.slots[i].Some? && p.slots[i].value.handle == h;
      assert p.slots[i] == t.slots[i];
    }
  }

  /** Deregistering looks outside the table exactly for the IDs that miss it.  For every other ID, issued
      or not, it removes the channel that the ID leads to, and no other. */
  lemma {:induction false} DeregisterRemoves(ops: seq<Op>, id: nat, h: nat)
    requires StaysInside(ops)
    ensures var t := Reached(ops);
            && (Deregister(t, id).Done? <==> !Misses(id)) && (Gain(t, id).Done? <==> !Misses(id))
            && (!Misses(id) ==>
                 var (t', found) := Deregister(t, id).value;
                 && (found <==> Gain(t, id).value.Some?)
                 && (Registered(t', h) <==> Registered(t, h) && Gain(t, id) != Done(Some(h))))
  {
    Always(ops);
    var t := Reached(ops);
    LookupInside(t, id);
    if Find(t, id).Done? && Find(t, id).value.Some? {
      ReleasedRemoves(t, Find(t, id).value.value, h);
    }
  }

  lemma ReleasedRemoves(t: Table, index: nat, h: nat)
    requires Inv(t) && index < |t.slots| && t.slots[index].Some?
    ensures Registered(Released(t, index), h) <==> Registered(t, h) && h != t.slots[index].value.handle
  {
    var t' := Released(t, index);
    if Registered(t, h) && h != t.slots[index].value.handle {
      var i :| 0 <= i < |t.slots| && t.slots[i].Some? && t.slots[i].value.handle == h;
      assert t'.slots[i] == t.slots[i];
    }
    if Registered(t', h) {
      var i :| 0 <= i < |t'.slots| && t'.slots[i].Some? && t'.slots[i].value.handle == h;
      assert t.slots[i] == t'.slots[i];
      OneSlot(t, i, index);
    }
  }

  /** No channel is in two slots. */
  lemma OneSlot(t: Table, i: nat, j: nat)
    requires Inv(t) && i < |t.slots| && j < |t.slots| && i != j && t.slots[i].Some? && t.slots[j].Some?
    ensures t.slots[i].value.handle != t.slots[j].value.handle
  {
    assert Holds(t, i) && Holds(t, j);
    SameId(i, t.slots[i].value.handle, j, t.slots[j].value.handle);
  }
}
