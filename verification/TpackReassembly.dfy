/** The reassembly of ltpack_t.c on values, and the round trip of whole conversations: messages encoded,
    cut into arbitrary chunks, split into events and reassembled. */
module TpackReassembly {
  import opened ByteRing
  import opened Tpack
  import opened TpackFrames

  /** ltpackFrame_t: the bytes collected, and the token and event of the message. */
  datatype Assembly = Assembly(data: seq<byte>, token: nat, event: nat)

  /** lwrite: 1 for the last frame of a message, 2 for another frame, 0 for what is not a frame. */
  function Write(a: Assembly, buf: seq<byte>): (Assembly, nat) {
    match DecodeHead(buf)
    case Got(h) =>
      DecodeStable(buf, []);
      var starts := h.flag != 0 && h.flag != FRAME_FINAL;
      (Assembly((if starts then [] else a.data) + buf[h.offset..h.offset + h.length],
                Token(h, buf),
                if starts then h.flag + EVENT_MSG else a.event),
       if Final(h.flag) then 1 else 2)
    case _ => (a, 0)
  }

  /** A message as the service gets it. */
  datatype Delivery = Delivery(kind: nat, token: nat, payload: seq<byte>)

  /** A service that takes messages as they are, writes raw frames to its frame, and reads the frame
      out when the last one is written. */
  function Consume(a: Assembly, events: seq<Event>): (Assembly, seq<Delivery>)
    decreases |events|
  {
    if events == [] then (a, [])
    else if events[0].Message? then
      var (a', out) := Consume(a, events[1..]);
      (a', [Delivery(events[0].kind, events[0].token, events[0].payload)] + out)
    else
      var (b, code) := Write(a, events[0].bytes);
      if code == 1 then
        var (a', out) := Consume(b.(data := []), events[1..]);
        (a', [Delivery(b.event, b.token, b.data)] + out)
      else Consume(b, events[1..])
  }

  /** The outcome of writing a frame. */
  function Written(a: Assembly, first: byte, tok: seq<byte>, payload: seq<byte>): (Assembly, nat) {
    (Assembly((if first % 128 > 0 then [] else a.data) + payload, TokenOf(tok),
              if first % 128 > 0 then first % 128 * 16 + (if first >= 128 then FRAME_FINAL else 0) + EVENT_MSG
              else a.event),
     if first >= 128 then 1 else 2)
  }

  lemma {:induction false} WriteAs(a: Assembly, buf: seq<byte>, h: Head, token: nat, part: seq<byte>)
    requires DecodeHead(buf) == Got(h) && h.offset + h.length <= |buf|
    requires token == Token(h, buf) && part == buf[h.offset..h.offset + h.length]
    ensures var starts := h.flag != 0 && h.flag != FRAME_FINAL;
            Write(a, buf) == (Assembly((if starts then [] else a.data) + part, token,
                                       if starts then h.flag + EVENT_MSG else a.event),
                              if Final(h.flag) then 1 else 2)
  {}

  /** A frame on its own. */
  lemma {:induction false} FrameAlone(first: byte, tok: seq<byte>, payload: seq<byte>) returns (h: Head)
    requires |payload| <= FRAGMENT && first % 128 <= 7 && |tok| == TokenSize(first % 16 * 16)
    ensures var frame := Frame(first, tok, payload);
            && DecodeHead(frame) == Got(h) && h.offset + h.length == |frame|
            && Token(h, frame) == TokenOf(tok) && frame[h.offset..h.offset + h.length] == payload
    ensures h.flag == first % 128 * 16 + if first >= 128 then FRAME_FINAL else 0
  {
    var frame := Frame(first, tok, payload);
    FrameToken(first, tok, payload, []);
    assert frame + [] == frame;
    h := DecodeHead(frame).head;
  }

  lemma {:induction false} WriteFrame(a: Assembly, first: byte, tok: seq<byte>, payload: seq<byte>)
    requires |payload| <= FRAGMENT && first % 128 <= 7 && |tok| == TokenSize(first % 16 * 16)
    ensures Write(a, Frame(first, tok, payload)) == Written(a, first, tok, payload)
  {
    var h := FrameAlone(first, tok, payload);
    WriteAs(a, Frame(first, tok, payload), h, TokenOf(tok), payload);
  }

  /** A frame that is not the last. */
  lemma {:induction false} ConsumeFirst(a: Assembly, first: byte, tok: seq<byte>, part: seq<byte>,
                                        rest: seq<seq<byte>>, more: seq<Event>)
    requires |part| <= FRAGMENT && first <= 7 && |tok| == TokenSize(first % 16 * 16)
    ensures Consume(a, Raws([Frame(first, tok, part)] + rest) + more)
         == Consume(Written(a, first, tok, part).0, Raws(rest) + more)
  {
    WriteFrame(a, first, tok, part);
    ConsumeOther(a, Frame(first, tok, part), rest, more);
  }

  lemma {:induction false} ConsumeOther(a: Assembly, frame: seq<byte>, rest: seq<seq<byte>>, more: seq<Event>)
    requires Write(a, frame).1 == 2
    ensures Consume(a, Raws([frame] + rest) + more) == Consume(Write(a, frame).0, Raws(rest) + more)
  {
    MoreFrames(frame, rest);
    assert [Raw(frame)] + Raws(rest) + more == [Raw(frame)] + (Raws(rest) + more);
    ConsumeRaw(a, frame, Raws(rest) + more);
  }

  /** The continuation frames add their payload to what was collected. */
  lemma {:induction false} ConsumeRest(a: Assembly, payload: seq<byte>, more: seq<Event>)
    ensures var b := Assembly([], 0, a.event);
            Consume(a, Raws(Rest([], payload)) + more)
            == (Consume(b, more).0, [Delivery(a.event, 0, a.data + payload)] + Consume(b, more).1)
    decreases |payload|
  {
    if |payload| < FRAGMENT {
      ConsumeLast(a, payload, more);
    } else {
      var b := Assembly(a.data + payload[..FRAGMENT], 0, a.event);
      ConsumeNext(a, payload, more);
      ConsumeRest(b, payload[FRAGMENT..], more);
      assert a.data + payload == b.data + payload[FRAGMENT..];
    }
  }

  lemma {:induction false} ConsumeNext(a: Assembly, payload: seq<byte>, more: seq<Event>)
    requires |payload| >= FRAGMENT
    ensures Consume(a, Raws(Rest([], payload)) + more)
         == Consume(Assembly(a.data + payload[..FRAGMENT], 0, a.event), Raws(Rest([], payload[FRAGMENT..])) + more)
  {
    ConsumeFirst(a, 0, [], payload[..FRAGMENT], Rest([], payload[FRAGMENT..]), more);
  }

  lemma {:induction false} ConsumeLast(a: Assembly, payload: seq<byte>, more: seq<Event>)
    requires |payload| < FRAGMENT
    ensures var b := Assembly([], 0, a.event);
            Consume(a, Raws(Rest([], payload)) + more)
            == (Consume(b, more).0, [Delivery(a.event, 0, a.data + payload)] + Consume(b, more).1)
  {
    var frame := Frame(FRAME_FINAL, [], payload);
    OneFrame(frame);
    WriteFrame(a, FRAME_FINAL, [], payload);
    ConsumeRaw(a, frame, more);
  }

  lemma {:induction false} ConsumeRaw(a: Assembly, frame: seq<byte>, more: seq<Event>)
    ensures var (b, code) := Write(a, frame);
            Consume(a, [Raw(frame)] + more)
            == if code == 1 then
                 (Consume(b.(data := []), more).0,
                  [Delivery(b.event, b.token, b.data)] + Consume(b.(data := []), more).1)
               else Consume(b, more)
  {
    assert ([Raw(frame)] + more)[1..] == more;
  }

  /** A frame with an opcode starts over. */
  lemma {:induction false} ConsumeOpening(opcode: byte, tok: seq<byte>, part: seq<byte>, rest: seq<seq<byte>>,
                                          a: Assembly, more: seq<Event>)
    requires |part| <= FRAGMENT && 1 <= opcode <= 7 && |tok| == TokenSize(opcode as int * 16)
    ensures Consume(a, Raws([Frame(opcode, tok, part)] + rest) + more)
         == Consume(Assembly(part, TokenOf(tok), opcode * 16 + EVENT_MSG), Raws(rest) + more)
  {
    ConsumeFirst(a, opcode, tok, part, rest, more);
    WrittenOpening(a, opcode, tok, part);
  }

  lemma {:induction false} WrittenOpening(a: Assembly, opcode: byte, tok: seq<byte>, part: seq<byte>)
    requires 1 <= opcode <= 7
    ensures Written(a, opcode, tok, part) == (Assembly(part, TokenOf(tok), opcode * 16 + EVENT_MSG), 2)
  {
    assert [] + part == part;
  }

  lemma {:induction false} ConsumeFragments(opcode: byte, payload: seq<byte>, a: Assembly, more: seq<Event>)
    returns (b: Assembly)
    requires |payload| >= FRAGMENT && 1 <= opcode <= 2
    ensures var frames := [Frame(opcode, [], payload[..FRAGMENT])] + Rest([], payload[FRAGMENT..]);
            Consume(a, Raws(frames) + more)
            == (Consume(b, more).0, [Delivery(opcode * 16 + EVENT_MSG, 0, payload)] + Consume(b, more).1)
  {
    var c := Assembly(payload[..FRAGMENT], 0, opcode * 16 + EVENT_MSG);
    ConsumeOpening(opcode, [], payload[..FRAGMENT], Rest([], payload[FRAGMENT..]), a, more);
    ConsumeRest(c, payload[FRAGMENT..], more);
    assert c.data + payload[FRAGMENT..] == payload;
    b := Assembly([], 0, c.event);
  }

  /** Empty continuations change nothing but the token. */
  lemma {:induction false} ConsumeEmpty(a: Assembly, rest: seq<seq<byte>>, more: seq<Event>)
    ensures Consume(a, Raws([Empty()] + rest) + more) == Consume(a.(token := 0), Raws(rest) + more)
  {
    ConsumeFirst(a, 0, [], [], rest, more);
    assert a.data + [] == a.data;
  }

  lemma {:induction false} ConsumeTwoEmpty(a: Assembly, rest: seq<seq<byte>>, more: seq<Event>)
    ensures Consume(a, Raws([Empty(), Empty()] + rest) + more) == Consume(a.(token := 0), Raws(rest) + more)
  {
    assert [Empty(), Empty()] + rest == [Empty()] + ([Empty()] + rest);
    ConsumeEmpty(a, [Empty()] + rest, more);
    ConsumeEmpty(a.(token := 0), rest, more);
  }

  /** The zeros that the decoder sees add up to those that were sent. */
  lemma {:induction false} ConsumeSeen(a: Assembly, zeros: seq<byte>, more: seq<Event>)
    ensures var b := Assembly([], 0, a.event);
            Consume(a, Raws(SeenRest(zeros)) + more)
            == (Consume(b, more).0, [Delivery(a.event, 0, a.data + zeros)] + Consume(b, more).1)
    decreases |zeros|
  {
    if |zeros| < FRAGMENT {
      ConsumeSeenLast(a, zeros, more);
    } else {
      var b := Assembly(a.data + zeros[..FRAGMENT], 0, a.event);
      ConsumeSeenNext(a, zeros, more);
      ConsumeSeen(b, zeros[FRAGMENT..], more);
      assert a.data + zeros == b.data + zeros[FRAGMENT..];
    }
  }

  lemma {:induction false} ConsumeSeenNext(a: Assembly, zeros: seq<byte>, more: seq<Event>)
    requires |zeros| >= FRAGMENT
    ensures Consume(a, Raws(SeenRest(zeros)) + more)
         == Consume(Assembly(a.data + zeros[..FRAGMENT], 0, a.event), Raws(SeenRest(zeros[FRAGMENT..])) + more)
  {
    var rest := SeenRest(zeros[FRAGMENT..]);
    assert SeenRest(zeros) == [Frame(0, [], zeros[..FRAGMENT])] + ([Empty(), Empty()] + rest);
    ConsumeFirst(a, 0, [], zeros[..FRAGMENT], [Empty(), Empty()] + rest, more);
    ConsumeTwoEmpty(Assembly(a.data + zeros[..FRAGMENT], 0, a.event), rest, more);
  }

  lemma {:induction false} ConsumeSeenLast(a: Assembly, zeros: seq<byte>, more: seq<Event>)
    requires |zeros| < FRAGMENT
    ensures var b := Assembly([], 0, a.event);
            Consume(a, Raws(SeenRest(zeros)) + more)
            == (Consume(b, more).0, [Delivery(a.event, 0, a.data + zeros)] + Consume(b, more).1)
  {
    var frame, two, b := Frame(FRAME_FINAL, [], zeros), [Empty(), Empty()], Assembly([], 0, a.event);
    assert SeenRest(zeros) == [frame] + two;
    WriteFrame(a, FRAME_FINAL, [], zeros);
    ConsumeFinal(a, frame, two, more);
    assert Consume(b, Raws(two) + more) == Consume(b, more) by {
      assert two == two + [] && Raws([]) + more == more;
      ConsumeTwoEmpty(b, [], more);
    }
  }

  /** A last frame, and others after it. */
  lemma {:induction false} ConsumeFinal(a: Assembly, frame: seq<byte>, rest: seq<seq<byte>>, more: seq<Event>)
    requires Write(a, frame).1 == 1
    ensures var b := Write(a, frame).0;
            var c := Consume(b.(data := []), Raws(rest) + more);
            Consume(a, Raws([frame] + rest) + more) == (c.0, [Delivery(b.event, b.token, b.data)] + c.1)
  {
    MoreFrames(frame, rest);
    assert [Raw(frame)] + Raws(rest) + more == [Raw(frame)] + (Raws(rest) + more);
    ConsumeRaw(a, frame, Raws(rest) + more);
  }

  /** A message is delivered, whatever comes before and after it. */
  lemma {:induction false} ConsumeMessage(flag: nat, token: nat, payload: seq<byte>, a: Assembly, more: seq<Event>)
    returns (b: Assembly)
    requires Sound(flag, token, payload)
    ensures Consume(a, EventsOf(flag, token, payload) + more)
         == (Consume(b, more).0,
             [Delivery(flag + EVENT_MSG, if TokenSize(flag) == 0 then 0 else token, payload)] + Consume(b, more).1)
  {
    if |payload| < FRAGMENT {
      var e := EventsOf(flag, token, payload)[0];
      assert ([e] + more)[1..] == more;
      b := a;
    } else if TokenSize(flag) == 0 {
      b := ConsumeFragments(Opcode(flag), payload, a, more);
    } else {
      b := ConsumeZeros(flag, payload, a, more);
    }
  }

  lemma {:induction false} ConsumeZeros(flag: nat, payload: seq<byte>, a: Assembly, more: seq<Event>)
    returns (b: Assembly)
    requires Known(flag, 0) && Repeats(flag, payload)
    ensures Consume(a, Raws(Seen(flag, 0, payload)) + more)
         == (Consume(b, more).0, [Delivery(flag + EVENT_MSG, 0, payload)] + Consume(b, more).1)
  {
    OpcodeOf(flag);
    TokenComesBack(flag, 0);
    b := ConsumeSeenFrames(Opcode(flag), TokenBytes(flag, 0), payload, a, more);
  }

  lemma {:induction false} ConsumeSeenFrames(opcode: byte, tok: seq<byte>, payload: seq<byte>,
                                             a: Assembly, more: seq<Event>)
    returns (b: Assembly)
    requires |payload| >= FRAGMENT && 3 <= opcode <= 7 && |tok| == 4 && TokenOf(tok) == 0
    ensures var frames := [Frame(opcode, tok, payload[..FRAGMENT])] + SeenRest(payload[FRAGMENT..]);
            Consume(a, Raws(frames) + more)
            == (Consume(b, more).0, [Delivery(opcode * 16 + EVENT_MSG, 0, payload)] + Consume(b, more).1)
  {
    var c := Assembly(payload[..FRAGMENT], 0, opcode * 16 + EVENT_MSG);
    ConsumeOpening(opcode, tok, payload[..FRAGMENT], SeenRest(payload[FRAGMENT..]), a, more);
    ConsumeSeen(c, payload[FRAGMENT..], more);
    assert c.data + payload[FRAGMENT..] == payload;
    b := Assembly([], 0, c.event);
  }

  // ---------- Conversations ----------

  datatype Msg = Msg(flag: nat, token: nat, payload: seq<byte>)

  function FramesOf(m: Msg): seq<seq<byte>> {
    Frames(m.flag, m.token, m.payload)
  }

  function DeliveryOf(m: Msg): Delivery {
    Delivery(m.flag + EVENT_MSG, if TokenSize(m.flag) == 0 then 0 else m.token, m.payload)
  }

  /** All that a connection carries for a list of messages, what the decoder sees, and the events of it. */
  function AllFrames(msgs: seq<Msg>): seq<seq<byte>> {
    if msgs == [] then [] else FramesOf(msgs[0]) + AllFrames(msgs[1..])
  }

  function AllSeen(msgs: seq<Msg>): seq<seq<byte>> {
    if msgs == [] then [] else Seen(msgs[0].flag, msgs[0].token, msgs[0].payload) + AllSeen(msgs[1..])
  }

  function AllEvents(msgs: seq<Msg>): seq<Event> {
    if msgs == [] then []
    else EventsOf(msgs[0].flag, msgs[0].token, msgs[0].payload) + AllEvents(msgs[1..])
  }

  function Deliveries(msgs: seq<Msg>): seq<Delivery> {
    if msgs == [] then [] else [DeliveryOf(msgs[0])] + Deliveries(msgs[1..])
  }

  predicate AllSound(msgs: seq<Msg>) {
    forall m | m in msgs :: Sound(m.flag, m.token, m.payload)
  }

  lemma {:induction false} YieldsAll(msgs: seq<Msg>)
    requires AllSound(msgs)
    ensures Yields(AllSeen(msgs), AllEvents(msgs)) && Concat(AllSeen(msgs)) == Concat(AllFrames(msgs))
    ensures |AllSeen(msgs)| == |AllEvents(msgs)|
    decreases |msgs|
  {
    if msgs == [] {
      YieldsNone();
    } else {
      var m := msgs[0];
      var seen, events := Seen(m.flag, m.token, m.payload), EventsOf(m.flag, m.token, m.payload);
      YieldsMessage(m.flag, m.token, m.payload);
      RawsCount(seen);
      YieldsAll(msgs[1..]);
      YieldsBoth(seen, events, AllSeen(msgs[1..]), AllEvents(msgs[1..]));
      ConcatSplit(seen, AllSeen(msgs[1..]));
      ConcatSplit(FramesOf(m), AllFrames(msgs[1..]));
    }
  }

  lemma {:induction false} RawsCount(frames: seq<seq<byte>>)
    ensures |Raws(frames)| == |frames|
  {
    if frames != [] {
      RawsCount(frames[1..]);
    }
  }

  lemma YieldsNone()
    ensures Yields([], [])
  {
    forall t: seq<byte>, room: nat
      ensures SplitsTo([], [], t, room)
    {
      SplitsToNone([], [], t, room);
    }
  }

  lemma {:induction false} BeforeNone(events: seq<Event>, p: Parsed)
    requires events == []
    ensures Before(events, p) == p
  {
    assert events + p.events == p.events;
  }

  lemma {:induction false} SplitsToNone(frames: seq<seq<byte>>, events: seq<Event>, t: seq<byte>, room: nat)
    requires frames == [] && events == []
    ensures SplitsTo(frames, events, t, room)
  {
    assert Concat(frames) + t == t;
    BeforeNone(events, Split(t, room));
  }

  lemma {:induction false} ConsumeAll(msgs: seq<Msg>, a: Assembly)
    requires AllSound(msgs)
    ensures Consume(a, AllEvents(msgs)).1 == Deliveries(msgs)
    decreases |msgs|
  {
    if msgs != [] {
      var m := msgs[0];
      var b := ConsumeMessage(m.flag, m.token, m.payload, a, AllEvents(msgs[1..]));
      ConsumeAll(msgs[1..], b);
    }
  }

  /** The round trip: a conversation of messages of the kind that comes back, cut into any chunks, is
      delivered exactly: kinds, tokens and payloads, in order, with nothing left over. */
  lemma {:induction false} RoundTrip(msgs: seq<Msg>, chunks: seq<seq<byte>>, a: Assembly, room: nat)
    requires AllSound(msgs) && Concat(chunks) == Concat(AllFrames(msgs)) && |AllEvents(msgs)| <= room
    ensures var p := Feed([], chunks, room);
            p.good && p.rest == [] && Consume(a, p.events).1 == Deliveries(msgs)
  {
    WholeTrip(msgs, a, room);
    ChunkingIsInvisible([], chunks, room);
    assert [] + Concat(chunks) == Concat(chunks);
  }

  /** The same for the whole stream at once. */
  lemma {:induction false} WholeTrip(msgs: seq<Msg>, a: Assembly, room: nat)
    requires AllSound(msgs) && |AllEvents(msgs)| <= room
    ensures Split(Concat(AllFrames(msgs)), room) == Parsed(AllEvents(msgs), [], true)
    ensures Consume(a, AllEvents(msgs)).1 == Deliveries(msgs)
  {
    YieldsAll(msgs);
    ConsumeAll(msgs, a);
    SplitAll(Concat(AllFrames(msgs)), AllSeen(msgs), AllEvents(msgs), room);
  }

  lemma {:induction false} SplitEmpty(s: seq<byte>, room: nat)
    requires s == []
    ensures Split(s, room) == Parsed([], s, true)
  {}

  lemma {:induction false} SplitAll(wire: seq<byte>, frames: seq<seq<byte>>, events: seq<Event>, room: nat)
    requires Yields(frames, events) && wire == Concat(frames) && |frames| <= room
    ensures Split(wire, room) == Parsed(events, [], true)
  {
    assert SplitsTo(frames, events, [], room);
    assert wire + [] == wire;
    SplitEmpty([], room - |frames|);
    assert events + [] == events;
  }

}
