/** A whole connection on real buffers: messages are encoded, arrive in any pieces at a connection, are split
    by its stream and reassembled by its service. */
module TpackConversation {
  import opened ByteRing
  import opened ByteQueue
  import opened EventConnection
  import opened Tpack
  import opened TpackFrames
  import opened TpackReassembly
  import opened Ltpack
  import TpackCodec
  import TpackEncoder

  // ---------- The service ----------

  lemma {:induction false} ConsumeBoth(a: Assembly, events: seq<Event>, more: seq<Event>)
    ensures var (b, out) := Consume(a, events);
            Consume(a, events + more) == (Consume(b, more).0, out + Consume(b, more).1)
    decreases |events|
  {
    if events == [] {
      assert events + more == more && [] + Consume(a, more).1 == Consume(a, more).1;
    } else {
      assert (events + more)[1..] == events[1..] + more;
      if events[0].Message? {
        ConsumeBoth(a, events[1..], more);
        InFront(Delivery(events[0].kind, events[0].token, events[0].payload), a, events[1..], more);
      } else {
        var (b, code) := Write(a, events[0].bytes);
        var c := if code == 1 then b.(data := []) else b;
        ConsumeBoth(c, events[1..], more);
        InFront(Delivery(b.event, b.token, b.data), c, events[1..], more);
      }
    }
  }

  lemma {:induction false} InFront(d: Delivery, a: Assembly, events: seq<Event>, more: seq<Event>)
    ensures var (b, out) := Consume(a, events);
            [d] + (out + Consume(b, more).1) == ([d] + out) + Consume(b, more).1
  {}

  /** What a service does with a raw frame: write it, and read the message out when it was the last. */
  method Collect(frame: LtpackFrame, bytes: seq<byte>) returns (out: seq<Delivery>)
    requires frame.Valid()
    modifies frame, frame.queue, frame.queue.buffer
    ensures frame.Valid() && fresh({frame.queue.buffer} - {old(frame.queue.buffer)})
    ensures (frame.Value(), out) == Consume(old(frame.Value()), [Raw(bytes)])
  {
    ghost var a := frame.Value();
    var buffer := new byte[|bytes|](i requires 0 <= i < |bytes| => bytes[i]);
    assert buffer[..] == bytes;
    ConsumeRaw(a, bytes, []);
    assert [Raw(bytes)] + [] == [Raw(bytes)];
    var code, _ := frame.Write(buffer);
    out := [];
    if code == 1 {
      var event, token := frame.event, frame.token;
      var _, data := frame.Read();
      out := [Delivery(event, token, data)];
      assert out + [] == out;
    }
  }

  method Handle(frame: LtpackFrame, events: seq<Event>) returns (out: seq<Delivery>)
    requires frame.Valid()
    modifies frame, frame.queue, frame.queue.buffer
    ensures frame.Valid() && fresh({frame.queue.buffer} - {old(frame.queue.buffer)})
    ensures (frame.Value(), out) == Consume(old(frame.Value()), events)
    decreases |events|
  {
    if events == [] {
      return [];
    }
    ConsumeBoth(frame.Value(), [events[0]], events[1..]);
    assert [events[0]] + events[1..] == events;
    if events[0].Message? {
      out := [Delivery(events[0].kind, events[0].token, events[0].payload)];
    } else {
      out := Collect(frame, events[0].bytes);
    }
    var more := Handle(frame, events[1..]);
    out := out + more;
  }

  // ---------- The connection ----------

  /** The rest of the stream makes the rest of the events. */
  ghost predicate Underway(wire: seq<byte>, room: nat, done: seq<Event>, held: seq<byte>, rest: seq<byte>) {
    |done| <= room && Same(Before(done, Split(held + rest, room - |done|)), Split(wire, room))
  }

  lemma {:induction false} UnderwayOn(wire: seq<byte>, room: nat, done: seq<Event>, held: seq<byte>, chunk: seq<byte>,
                                      rest: seq<byte>)
    requires Underway(wire, room, done, held, chunk + rest)
    ensures var p := Split(held + chunk, room - |done|);
            if p.good then Underway(wire, room, done + p.events, p.rest, rest)
            else Same(Before(done, p), Split(wire, room))
  {
    var s, r := held + chunk, room - |done|;
    assert held + (chunk + rest) == s + rest;
    SplitOn(s, rest, r);
    Further(Split(wire, room), done, Split(s, r), Split(s + rest, r), rest, room);
  }

  lemma {:induction false} Further(whole: Parsed, done: seq<Event>, p: Parsed, q: Parsed, rest: seq<byte>, room: nat)
    requires |done| + |p.events| <= room
    requires Same(Before(done, q), whole) && Same(q, Resumed(p, rest, room - |done|))
    ensures p.good ==> Same(Before(done + p.events, Split(p.rest + rest, room - |done + p.events|)), whole)
    ensures !p.good ==> Same(Before(done, p), whole)
  {
    if p.good {
      var t := Split(p.rest + rest, room - |done| - |p.events|);
      Joined(done, p.events, t, q, whole);
    } else {
      Resplit(done, p, q, whole);
    }
  }

  lemma {:induction false} Joined(done: seq<Event>, events: seq<Event>, p: Parsed, q: Parsed, whole: Parsed)
    requires Same(q, Before(events, p)) && Same(Before(done, q), whole)
    ensures Same(Before(done + events, p), whole)
  {
    BeforeBoth(done, events, p);
    BeforeSame(done, q, Before(events, p));
  }

  lemma {:induction false} Resplit(done: seq<Event>, p: Parsed, q: Parsed, whole: Parsed)
    requires Same(q, p) && Same(Before(done, q), whole)
    ensures Same(Before(done, p), whole)
  {
    BeforeSame(done, q, p);
  }

  lemma {:induction false} UnderwayEnds(wire: seq<byte>, room: nat, done: seq<Event>, held: seq<byte>)
    requires Underway(wire, room, done, held, []) && DecodeHead(held) == More
    ensures Same(Parsed(done, held, true), Split(wire, room))
  {
    assert held + [] == held && done + [] == done;
    assert Split(held, room - |done|) == Parsed([], held, true);
  }

  /** How far the connection has come, if it is still good; otherwise it has come as far as it can. */
  ghost predicate Goes(good: bool, wire: seq<byte>, room: nat, done: seq<Event>, held: seq<byte>, rest: seq<byte>) {
    if good then Underway(wire, room, done, held, rest) && DecodeHead(held) == More
    else done == Split(wire, room).events && !Split(wire, room).good
  }

  lemma {:induction false} GoesFrom(wire: seq<byte>, room: nat, done: seq<Event>, held: seq<byte>)
    requires done == [] && held == []
    ensures Goes(true, wire, room, done, held, wire)
  {
    assert Split(held + wire, room - |done|) == Split(wire, room) by {
      assert held + wire == wire && room - |done| == room;
    }
    AllToCome(done, Split(wire, room));
  }

  lemma {:induction false} AllToCome(done: seq<Event>, p: Parsed)
    requires done == []
    ensures Same(Before(done, p), p)
  {
    assert done + p.events == p.events;
  }

  lemma {:induction false} GoesOn(wire: seq<byte>, room: nat, done: seq<Event>, held: seq<byte>, left: seq<byte>,
                                  n: nat, r: int, good: bool, events: seq<Event>, held': seq<byte>)
    requires Goes(true, wire, room, done, held, left) && n <= |left| && r == room - |done|
    requires Parsed(events, held', good) == Split(held + left[..n], r)
    ensures Goes(good, wire, room, done + events, held', left[n..])
  {
    assert left[..n] + left[n..] == left;
    UnderwayOn(wire, room, done, held, left[..n], left[n..]);
    RestIsMore(held + left[..n], r);
  }

  lemma {:induction false} GoesEnds(good: bool, wire: seq<byte>, room: nat, done: seq<Event>, held: seq<byte>,
                                    rest: seq<byte>)
    requires Goes(good, wire, room, done, held, rest) && (good ==> rest == [])
    ensures var p := Split(wire, room); good == p.good && done == p.events && (good ==> held == p.rest)
  {
    if good {
      UnderwayEnds(wire, room, done, held);
    }
  }

  /** One readv and the receive callback behind it. */
  method Arrive(q: ByteQueue, scratch: array<byte>, chunk: seq<byte>, room: nat, least: nat)
    returns (good: bool, events: seq<Event>)
    requires q.Valid() && !q.Foreign() && scratch.Length == RECV_BUFFER_MAX_LENGTH && scratch != q.buffer
    requires |chunk| <= Space(Pieces(q.Now()))
    modifies q, q.buffer, scratch
    ensures q.Valid() && !q.Foreign() && fresh({q.buffer} - {old(q.buffer)})
    ensures Parsed(events, q.Bytes(), good) == Split(old(q.Bytes()) + chunk, room)
  {
    assert chunk == [] ==> q.Bytes() + chunk == q.Bytes();
    Receive(q, scratch, chunk);
    var readable := q.BytesReadable();
    good, events := TpackCodec.Receive(q, room);
    if good {
      AfterCallback(q, readable, least);
    }
  }

  /** The buffers of a connection and of its service are different ones. */
  ghost predicate Apart(q: ByteQueue, frame: LtpackFrame, scratch: array<byte>)
    reads q, frame, frame.queue
  {
    q != frame.queue && q.buffer != frame.queue.buffer && scratch != q.buffer && scratch != frame.queue.buffer
  }

  /** One readv, and what the stream and the service do with it. */
  method Round(q: ByteQueue, frame: LtpackFrame, scratch: array<byte>, chunk: seq<byte>, room: nat, least: nat)
    returns (good: bool, ghost events: seq<Event>, count: nat, out: seq<Delivery>)
    requires q.Valid() && !q.Foreign() && frame.Valid() && Apart(q, frame, scratch)
    requires scratch.Length == RECV_BUFFER_MAX_LENGTH && |chunk| <= Space(Pieces(q.Now()))
    modifies q, q.buffer, scratch, frame, frame.queue, frame.queue.buffer
    ensures q.Valid() && !q.Foreign() && frame.Valid() && Apart(q, frame, scratch)
    ensures fresh({q.buffer} - {old(q.buffer)}) && fresh({frame.queue.buffer} - {old(frame.queue.buffer)})
    ensures Parsed(events, q.Bytes(), good) == Split(old(q.Bytes()) + chunk, room) && count == |events|
    ensures (frame.Value(), out) == Consume(old(frame.Value()), events)
  {
    var made;
    good, made := Arrive(q, scratch, chunk, room, least);
    events, count := made, |made|;
    out := Handle(frame, made);
  }

  /** How much of what is still to come one readv finds. */
  method ChunkSize(q: ByteQueue, wanted: nat, left: nat) returns (n: nat)
    requires q.Valid() && left > 0
    ensures 0 < n <= left && n <= Space(Pieces(q.Now()))
    ensures 0 < wanted <= left && wanted <= Space(Pieces(q.Now())) ==> n == wanted
  {
    SpaceOffered(q.Now());
    Sizes(q.Now());
    var space := Space(Pieces(Ring(q.buffer[..], q.readIndex, q.writeIndex)));
    n := if wanted == 0 then 1 else wanted;
    n := if n > left then left else n;
    n := if n > space then space else n;
  }

  method Held(q: ByteQueue) returns (bytes: seq<byte>)
    requires q.Valid()
    ensures bytes == q.Bytes()
  {
    bytes := q.CopyOut(q.BytesReadable());
  }

  /** What a service has made of the events so far. */
  ghost predicate Made(done: seq<Event>, value: Assembly, out: seq<Delivery>) {
    Consume(Assembly([], 0, 0), done) == (value, out)
  }

  lemma {:induction false} MadeMore(done: seq<Event>, value: Assembly, out: seq<Delivery>, events: seq<Event>,
                                    value': Assembly, more: seq<Delivery>)
    requires Made(done, value, out) && (value', more) == Consume(value, events)
    ensures Made(done + events, value', out + more)
  {
    ConsumeBoth(Assembly([], 0, 0), done, events);
  }

  /** One turn of the loop over what arrives: `wanted` bytes are found, if there are so many. */
  method Turn(q: ByteQueue, frame: LtpackFrame, scratch: array<byte>, left: seq<byte>, wanted: nat, room: nat,
              count: nat, least: nat, out: seq<Delivery>, ghost wire: seq<byte>, ghost done: seq<Event>)
    returns (good: bool, left': seq<byte>, count': nat, out': seq<Delivery>, ghost done': seq<Event>)
    requires q.Valid() && !q.Foreign() && frame.Valid() && Apart(q, frame, scratch) && left != []
    requires scratch.Length == RECV_BUFFER_MAX_LENGTH && count == |done|
    requires Goes(true, wire, room, done, q.Bytes(), left) && Made(done, frame.Value(), out)
    modifies q, q.buffer, scratch, frame, frame.queue, frame.queue.buffer
    ensures q.Valid() && !q.Foreign() && frame.Valid() && Apart(q, frame, scratch) && |left'| < |left|
    ensures fresh({q.buffer} - {old(q.buffer)}) && fresh({frame.queue.buffer} - {old(frame.queue.buffer)})
    ensures Goes(good, wire, room, done', q.Bytes(), left') && Made(done', frame.Value(), out') && count' == |done'|
  {
    var n := ChunkSize(q, wanted, |left|);
    ghost var held, value, events := q.Bytes(), frame.Value(), [];
    var made, more;
    var r := room - count;
    good, events, made, more := Round(q, frame, scratch, left[..n], r, least);
    GoesOn(wire, room, done, held, left, n, r, good, events, q.Bytes());
    MadeMore(done, value, out, events, frame.Value(), more);
    left', count', out', done' := left[n..], count + made, out + more, done + events;
  }

  /** The buffers of a new connection and its service. */
  method Open(least: nat) returns (q: ByteQueue, frame: LtpackFrame, scratch: array<byte>)
    ensures fresh(q) && fresh(q.buffer) && fresh(scratch)
    ensures fresh(frame) && fresh(frame.queue) && fresh(frame.queue.buffer)
    ensures q.Valid() && !q.Foreign() && frame.Valid() && Apart(q, frame, scratch)
    ensures scratch.Length == RECV_BUFFER_MAX_LENGTH && q.Bytes() == [] && frame.Value() == Assembly([], 0, 0)
  {
    q := new ByteQueue(least);
    frame := new LtpackFrame(0);
    scratch := new byte[RECV_BUFFER_MAX_LENGTH];
  }

  /** The loop, until everything has arrived or the stream is bad. */
  method Drive(q: ByteQueue, frame: LtpackFrame, scratch: array<byte>, wire: seq<byte>, arrivals: nat -> nat, room: nat,
               least: nat)
    returns (good: bool, out: seq<Delivery>, ghost done: seq<Event>, ghost left: seq<byte>)
    requires q.Valid() && !q.Foreign() && frame.Valid() && Apart(q, frame, scratch)
    requires scratch.Length == RECV_BUFFER_MAX_LENGTH
    requires Goes(true, wire, room, [], q.Bytes(), wire) && Made([], frame.Value(), [])
    modifies q, q.buffer, scratch, frame, frame.queue, frame.queue.buffer
    ensures q.Valid() && frame.Valid() && (good ==> left == [])
    ensures Goes(good, wire, room, done, q.Bytes(), left) && Made(done, frame.Value(), out)
  {
    var rest, k, count := wire, 0, 0;
    good, out, done := true, [], [];
    while good && rest != []
      invariant q.Valid() && !q.Foreign() && frame.Valid() && Apart(q, frame, scratch)
      invariant fresh({q.buffer} - {old(q.buffer)}) && fresh({frame.queue.buffer} - {old(frame.queue.buffer)})
      invariant Goes(good, wire, room, done, q.Bytes(), rest) && Made(done, frame.Value(), out) && count == |done|
      decreases |rest|
    {
      good, rest, count, out, done := Turn(q, frame, scratch, rest, arrivals(k), room, count, least, out, wire, done);
      k := k + 1;
    }
    left := rest;
  }

  /** A connection from its start: `arrivals` says how many bytes each readv finds, at least one and no more
      than there is space for.  Whatever that is, the service makes of it what it makes of the stream. */
  method Serve(wire: seq<byte>, arrivals: nat -> nat, room: nat, least: nat)
    returns (good: bool, rest: seq<byte>, out: seq<Delivery>)
    ensures var p := Split(wire, room);
            && good == p.good && (good ==> rest == p.rest)
            && out == Consume(Assembly([], 0, 0), p.events).1
  {
    var q, frame, scratch := Open(least);
    GoesFrom(wire, room, [], q.Bytes());
    ghost var done, left;
    good, out, done, left := Drive(q, frame, scratch, wire, arrivals, room, least);
    rest := Held(q);
    GoesEnds(good, wire, room, done, rest, left);
  }

  // ---------- Conversations ----------

  /** The bytes that tpack_encodeVec makes of the messages, given with an empty buffer behind each payload. */
  method Encode(msgs: seq<Msg>) returns (wire: seq<byte>)
    ensures wire == Concat(AllFrames(msgs))
    decreases |msgs|
  {
    if msgs == [] {
      return [];
    }
    var m := msgs[0];
    OneMessage(m.payload);
    var inside, frames := TpackEncoder.EncodeVec([m.payload, []], m.flag, m.token);
    var more := Encode(msgs[1..]);
    ConcatSplit(FramesOf(m), AllFrames(msgs[1..]));
    var bytes := Flatten(frames);
    wire := bytes + more;
  }

  lemma {:induction false} OneMessage(payload: seq<byte>)
    ensures Concat([payload, []]) == payload && TpackEncoder.Gatherable([payload, []])
  {
    var empty: seq<byte> := [];
    ConcatSplit([payload], [empty]);
    TpackEncoder.OneBuffer([payload]);
    TpackEncoder.OneBuffer([empty]);
    assert [payload] + [empty] == [payload, empty];
  }

  method Flatten(frames: seq<seq<byte>>) returns (bytes: seq<byte>)
    ensures bytes == Concat(frames)
    decreases |frames|
  {
    if frames == [] {
      return [];
    }
    var more := Flatten(frames[1..]);
    bytes := frames[0] + more;
  }

  /** From the encoder to the service: messages of the kind that comes back, however their bytes arrive, are
      delivered exactly, and nothing is left in the connection. */
  method Converse(msgs: seq<Msg>, arrivals: nat -> nat, room: nat, least: nat)
    returns (good: bool, rest: seq<byte>, out: seq<Delivery>)
    requires AllSound(msgs) && |AllEvents(msgs)| <= room
    ensures good && rest == [] && out == Deliveries(msgs)
  {
    WholeTrip(msgs, Assembly([], 0, 0), room);
    var wire := Encode(msgs);
    good, rest, out := Serve(wire, arrivals, room, least);
  }
}
