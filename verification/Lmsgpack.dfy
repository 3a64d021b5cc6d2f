/** packValue, packTable, unpackValue, unpackTable and ldecode of lmsgpack_t.c, driving the encoder and
    the decoder.  The Lua stack is the values passed and returned. */
module Lmsgpack {
  import opened ByteRing
  import opened Msgpack
  import opened MsgpackCodec
  import opened Options

  // ---------- Packing ----------

  /** One more part of a whole is packed. */
  lemma {:induction false} PartPacked(base: seq<byte>, done: seq<byte>, part: Option<seq<byte>>,
                                      rest: Option<seq<byte>>, whole: Option<seq<byte>>)
    requires Join(Some(done), Join(part, rest)) == whole
    ensures part == None ==> whole == None
    ensures part.Some? ==> Join(Some(done + part.value), rest) == whole
    ensures part.Some? ==> (base + done) + part.value == base + (done + part.value)
  {
    if part.Some? && rest.Some? {
      assert done + (part.value + rest.value) == (done + part.value) + rest.value;
    }
  }

  lemma {:induction false} NothingPacked(base: seq<byte>, whole: Option<seq<byte>>)
    ensures Join(Some([]), whole) == whole && base + [] == base
  {
    assert whole.Some? ==> [] + whole.value == whole.value;
  }

  /** packValue; false is the error "can't pack > max depth table". */
  method PackValue(e: Encoder, v: Value, depth: nat) returns (ok: bool)
    requires e.Valid() && Fits(v)
    modifies e, e.buffer
    ensures e.Valid() && (e.buffer == old(e.buffer) || fresh(e.buffer))
    ensures ok <==> Pack(v, depth).Some?
    ensures ok ==> e.Written() == old(e.Written()) + Pack(v, depth).value
    decreases v, 1
  {
    if depth > MAX_DEPTH {
      return false;
    }
    ok := true;
    match v
    case Nil => e.Put([0xc0]);
    case Bool(b) => e.Put([if b then 0xc3 else 0xc2]);
    case Int(n) => e.WriteInteger(n);
    case Real(x) => e.WriteReal(x);
    case Str(s) => e.WriteString(s);
    case Ptr(p) => e.WriteUserPointer(p);
    case Table(_, _) => ok := PackTable(e, v, depth + 1);
  }

  function PackedTable(v: Value, depth: nat): Option<seq<byte>>
    requires Fits(v) && v.Table?
  {
    Join(Some(MapHead(|v.items|)), Join(PackAll(v.items, depth), PackPairs(v.pairs, |v.items|, depth)))
  }

  lemma {:induction false} JoinedBehind(base: seq<byte>, head: seq<byte>, items: seq<byte>, pairs: seq<byte>)
    ensures base + (head + (items + pairs)) == ((base + head) + items) + pairs
  {}

  /** packTable */
  method PackTable(e: Encoder, v: Value, depth: nat) returns (ok: bool)
    requires e.Valid() && Fits(v) && v.Table?
    modifies e, e.buffer
    ensures e.Valid() && (e.buffer == old(e.buffer) || fresh(e.buffer))
    ensures ok <==> PackedTable(v, depth).Some?
    ensures ok ==> e.Written() == old(e.Written()) + PackedTable(v, depth).value
    decreases v, 0
  {
    ghost var items, pairs := PackAll(v.items, depth), PackPairs(v.pairs, |v.items|, depth);
    ghost var head := MapHead(|v.items|);
    ghost var base := e.Written();
    e.WriteMap(|v.items|);
    ok := PackTableArray(e, v, depth);
    if ok {
      ok := PackTableHash(e, v, depth);
      if ok {
        JoinedBehind(base, head, items.value, pairs.value);
      }
    }
  }

  /** packTableArray, behind the head */
  method PackTableArray(e: Encoder, v: Value, depth: nat) returns (ok: bool)
    requires e.Valid() && Fits(v) && v.Table?
    modifies e, e.buffer
    ensures e.Valid() && (e.buffer == old(e.buffer) || fresh(e.buffer))
    ensures ok <==> PackAll(v.items, depth).Some?
    ensures ok ==> e.Written() == old(e.Written()) + PackAll(v.items, depth).value
    decreases v, 0, 1
  {
    ghost var base, done: seq<byte> := e.Written(), [];
    ghost var whole := PackAll(v.items, depth);
    assert v.items[0..] == v.items;
    NothingPacked(base, whole);
    for i := 0 to |v.items|
      invariant e.Valid() && (e.buffer == old(e.buffer) || fresh(e.buffer))
      invariant FitsAll(v.items[i..]) && Join(Some(done), PackAll(v.items[i..], depth)) == whole
      invariant e.Written() == base + done
    {
      assert v.items[i..][0] == v.items[i] && v.items[i..][1..] == v.items[i + 1..];
      ghost var first := Pack(v.items[i], depth);
      PartPacked(base, done, first, PackAll(v.items[i + 1..], depth), whole);
      ok := PackValue(e, v.items[i], depth);
      if !ok {
        return;
      }
      done := done + first.value;
    }
    assert whole == Some(done + []) && done + [] == done;
    ok := true;
  }

  /** packTableHash: the other entries, and a nil */
  method PackTableHash(e: Encoder, v: Value, depth: nat) returns (ok: bool)
    requires e.Valid() && Fits(v) && v.Table?
    modifies e, e.buffer
    ensures e.Valid() && (e.buffer == old(e.buffer) || fresh(e.buffer))
    ensures ok <==> PackPairs(v.pairs, |v.items|, depth).Some?
    ensures ok ==> e.Written() == old(e.Written()) + PackPairs(v.pairs, |v.items|, depth).value
    decreases v, 0, 1
  {
    ghost var base, done: seq<byte> := e.Written(), [];
    ghost var whole := PackPairs(v.pairs, |v.items|, depth);
    assert v.pairs[0..] == v.pairs;
    NothingPacked(base, whole);
    for i := 0 to |v.pairs|
      invariant e.Valid() && (e.buffer == old(e.buffer) || fresh(e.buffer))
      invariant FitsPairs(v.pairs[i..], |v.items|)
      invariant Join(Some(done), PackPairs(v.pairs[i..], |v.items|, depth)) == whole
      invariant e.Written() == base + done
    {
      assert v.pairs[i..][0] == v.pairs[i] && v.pairs[i..][1..] == v.pairs[i + 1..];
      ghost var first := PackPair(v.pairs[i], |v.items|, depth);
      PartPacked(base, done, first, PackPairs(v.pairs[i + 1..], |v.items|, depth), whole);
      ok := PackEntry(e, v, i, depth);
      if !ok {
        return;
      }
      done := done + first.value;
    }
    e.Put([0xc0]);
    assert whole == Some(done + [0xc0]);
    assert (base + done) + [0xc0] == base + (done + [0xc0]);
    ok := true;
  }

  method PackEntry(e: Encoder, v: Value, i: nat, depth: nat) returns (ok: bool)
    requires e.Valid() && Fits(v) && v.Table? && i < |v.pairs| && FitsPair(v.pairs[i], |v.items|)
    modifies e, e.buffer
    ensures e.Valid() && (e.buffer == old(e.buffer) || fresh(e.buffer))
    ensures ok <==> PackPair(v.pairs[i], |v.items|, depth).Some?
    ensures ok ==> e.Written() == old(e.Written()) + PackPair(v.pairs[i], |v.items|, depth).value
    decreases v, 0, 0
  {
    ghost var base := e.Written();
    var p := v.pairs[i];
    assert p < v && p.key < p && p.value < p;
    ghost var key, value := Pack(p.key, depth), Pack(p.value, depth);
    assert PackPair(p, |v.items|, depth) == Join(key, value);
    ok := PackValue(e, p.key, depth);
    if ok {
      ok := PackValue(e, p.value, depth);
      assert ok ==> (base + key.value) + value.value == base + (key.value + value.value);
    }
  }

  /** lencode: every argument, from depth 0, into a new buffer. */
  method Encode(vs: seq<Value>) returns (ok: bool, out: seq<byte>)
    requires FitsAll(vs)
    ensures ok <==> PackAll(vs, 0).Some?
    ensures ok ==> out == PackAll(vs, 0).value
  {
    var e := new Encoder(0);
    out := [];
    ghost var done: seq<byte>, whole := [], PackAll(vs, 0);
    assert vs[0..] == vs;
    NothingPacked([], whole);
    for i := 0 to |vs|
      invariant e.Valid() && fresh(e) && fresh(e.buffer)
      invariant FitsAll(vs[i..]) && Join(Some(done), PackAll(vs[i..], 0)) == whole && e.Written() == done
    {
      assert vs[i..][0] == vs[i] && vs[i..][1..] == vs[i + 1..];
      PartPacked([], done, Pack(vs[i], 0), PackAll(vs[i + 1..], 0), whole);
      ok := PackValue(e, vs[i], 0);
      if !ok {
        return;
      }
      done := done + Pack(vs[i], 0).value;
    }
    assert whole == Some(done + []) && done + [] == done;
    return true, e.buffer[..e.offset];
  }

  // ---------- Unpacking ----------

  /** The result so far in front of what the rest gives. */
  function Ahead<T>(done: seq<T>, u: Unpacked<seq<T>>): Unpacked<seq<T>> {
    if u.Done? then Done(done + u.value, u.rest) else u
  }

  lemma {:induction false} AheadOn<T>(done: seq<T>, x: T, u: Unpacked<seq<T>>)
    ensures Ahead(done, Ahead([x], u)) == Ahead(done + [x], u)
  {
    if u.Done? {
      assert done + ([x] + u.value) == (done + [x]) + u.value;
    }
  }

  lemma {:induction false} AheadNone<T>(u: Unpacked<seq<T>>)
    ensures Ahead([], u) == u
  {
    if u.Done? {
      assert [] + u.value == u.value;
    }
  }

  /** unpackValue */
  method UnpackValue(d: Decoder) returns (u: Unpacked<Value>)
    requires d.Valid()
    modifies d
    ensures d.Valid() && d.offset >= old(d.offset) && u == Unpack(old(d.Rest()))
    ensures u.Done? ==> d.Rest() == u.rest && d.offset > old(d.offset)
    decreases |d.input| - d.offset, 0
  {
    ghost var s := d.Rest();
    var kind := TypeOf(d.Rest());
    match kind
    case TInteger => var r := d.ReadInteger(); u := Lift(r, n => Int(n));
    case TReal => var r := d.ReadFloat(); u := Lift(r, x => Real(x));
    case TString => var r := d.ReadString(); u := Lift(r, b => Str(b));
    case TBinary => var r := d.ReadBinary(); u := Lift(r, b => Str(b));
    case TUserPointer => var r := d.ReadUserPointer(); u := Lift(r, q => Ptr(q));
    case TBoolean =>
      var b := d.input[d.offset] == 0xc3;
      d.SkipByte();
      u := Done(Bool(b), d.Rest());
    case TNil =>
      d.SkipByte();
      u := Done(Nil, d.Rest());
    case TMap =>
      var r := d.ReadMapHead();
      if r.Short? {
        return Failed;
      }
      u := UnpackTable(d, r.value);
    case TArray => u := Failed;
    case TInvalid => u := Failed;
  }

  /** What follows the head of a table. */
  function TableFrom(n: nat, s: seq<byte>): Unpacked<Value> {
    var items := UnpackAll(n, s);
    if !items.Done? then Garbled
    else
      var pairs := UnpackPairs(items.rest);
      if pairs.Done? then Done(Table(items.value, pairs.value), pairs.rest) else Garbled
  }

  /** unpackTable; unpackValue ignores its failure. */
  method UnpackTable(d: Decoder, n: nat) returns (u: Unpacked<Value>)
    requires d.Valid()
    modifies d
    ensures d.Valid() && d.offset >= old(d.offset) && u == TableFrom(n, old(d.Rest()))
    ensures u.Done? ==> d.Rest() == u.rest
    decreases |d.input| - d.offset, 3
  {
    var items := UnpackItems(d, n);
    if !items.Done? {
      return Garbled;
    }
    var pairs := UnpackEntries(d);
    u := if pairs.Done? then Done(Table(items.value, pairs.value), pairs.rest) else Garbled;
  }

  lemma {:induction false} ItemFirst(n: nat, s: seq<byte>, done: seq<Value>, whole: Unpacked<seq<Value>>)
    requires n > 0 && Ahead(done, UnpackAll(n, s)) == whole
    ensures Unpack(s).Failed? ==> whole == Failed
    ensures Unpack(s).Garbled? ==> whole == Garbled
    ensures Unpack(s).Done? ==> whole == Ahead(done + [Unpack(s).value], UnpackAll(n - 1, Unpack(s).rest))
  {
    if Unpack(s).Done? {
      AheadOn(done, Unpack(s).value, UnpackAll(n - 1, Unpack(s).rest));
    }
  }

  lemma {:induction false} NoItemLeft(s: seq<byte>, done: seq<Value>, whole: Unpacked<seq<Value>>)
    requires Ahead(done, UnpackAll(0, s)) == whole
    ensures whole == Done(done, s)
  {
    assert done + [] == done;
  }

  /** One item of several. */
  method UnpackItem(d: Decoder, ghost n: nat, ghost done: seq<Value>, ghost whole: Unpacked<seq<Value>>)
    returns (v: Unpacked<Value>)
    requires d.Valid() && n > 0 && Ahead(done, UnpackAll(n, d.Rest())) == whole
    modifies d
    ensures d.Valid() && d.offset >= old(d.offset)
    ensures v.Done? ==> Ahead(done + [v.value], UnpackAll(n - 1, d.Rest())) == whole
    ensures !v.Done? ==> whole == if v.Failed? then Failed else Garbled
    decreases |d.input| - d.offset, 1
  {
    ItemFirst(n, d.Rest(), done, whole);
    v := UnpackValue(d);
  }

  method UnpackItems(d: Decoder, n: nat) returns (u: Unpacked<seq<Value>>)
    requires d.Valid()
    modifies d
    ensures d.Valid() && d.offset >= old(d.offset) && u == UnpackAll(n, old(d.Rest()))
    ensures u.Done? ==> d.Rest() == u.rest
    decreases |d.input| - d.offset, 2
  {
    var start := d.offset;
    ghost var whole := UnpackAll(n, d.Rest());
    var done := [];
    AheadNone(whole);
    for i := 0 to n
      invariant d.Valid() && d.offset >= start
      invariant Ahead(done, UnpackAll(n - i, d.Rest())) == whole
    {
      var v := UnpackItem(d, n - i, done, whole);
      if !v.Done? {
        return if v.Failed? then Failed else Garbled;
      }
      done := done + [v.value];
    }
    NoItemLeft(d.Rest(), done, whole);
    u := Done(done, d.Rest());
  }

  method UnpackEntries(d: Decoder) returns (u: Unpacked<seq<Pair>>)
    requires d.Valid()
    modifies d
    ensures d.Valid() && d.offset >= old(d.offset) && u == UnpackPairs(old(d.Rest()))
    ensures u.Done? ==> d.Rest() == u.rest
    decreases |d.input| - d.offset, 1
  {
    var start := d.offset;
    ghost var whole := UnpackPairs(d.Rest());
    var done := [];
    AheadNone(whole);
    while true
      invariant d.Valid() && d.offset >= start
      invariant Ahead(done, UnpackPairs(d.Rest())) == whole
      decreases |d.input| - d.offset
    {
      ghost var rest := d.Rest();
      var k := UnpackValue(d);
      if !k.Done? {
        return if k.Failed? then Failed else Garbled;
      }
      if k.value == Nil {
        assert done + [] == done;
        return Done(done, d.Rest());
      }
      var v := UnpackValue(d);
      if !v.Done? {
        return if v.Failed? then Failed else Garbled;
      }
      AheadOn(done, Pair(k.value, v.value), UnpackPairs(d.Rest()));
      assert UnpackPairs(rest) == Ahead([Pair(k.value, v.value)], UnpackPairs(d.Rest()));
      done := done + [Pair(k.value, v.value)];
    }
  }

  lemma {:induction false} ValueFirst(s: seq<byte>, done: seq<Value>, whole: Unpacked<seq<Value>>)
    requires s != [] && Ahead(done, Decode(s)) == whole
    ensures Unpack(s).Failed? ==> whole == Failed
    ensures Unpack(s).Garbled? ==> whole == Garbled
    ensures Unpack(s).Done? ==> whole == Ahead(done + [Unpack(s).value], Decode(Unpack(s).rest))
  {
    if Unpack(s).Done? {
      AheadOn(done, Unpack(s).value, Decode(Unpack(s).rest));
    }
  }

  lemma {:induction false} NoneLeft(done: seq<Value>, whole: Unpacked<seq<Value>>)
    requires Ahead(done, Decode([])) == whole
    ensures whole == Done(done, [])
  {
    assert done + [] == done;
  }

  /** ldecode; an empty buffer gives no values. */
  method DecodeAll(input: seq<byte>) returns (u: Unpacked<seq<Value>>)
    ensures u == Decode(input)
  {
    var d := new Decoder(input);
    var done := [];
    ghost var whole := Decode(input);
    AheadNone(whole);
    while !d.IsEnd()
      invariant d.Valid() && fresh(d)
      invariant Ahead(done, Decode(d.Rest())) == whole
      decreases |d.input| - d.offset
    {
      ValueFirst(d.Rest(), done, whole);
      var v := UnpackValue(d);
      if !v.Done? {
        return if v.Failed? then Failed else Garbled;
      }
      done := done + [v.value];
    }
    NoneLeft(done, whole);
    u := Done(done, []);
  }
}
