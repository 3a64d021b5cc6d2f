/** Which messages come back: the converse of the round trip of TpackReassembly.  The fragments of a long
    message repeat its token, but the decoder expects none in a continuation frame. */
module TpackTokens {
  import opened ByteRing
  import opened Tpack
  import opened TpackFrames
  import opened TpackReassembly

  /** What a continuation frame with a token is decoded to: it ends four bytes early, and its payload
      begins with the token. */
  lemma {:induction false} TokenContinuationIsCutShort(first: byte, tok: seq<byte>, payload: seq<byte>, t: seq<byte>)
    requires (first == 0 || first == FRAME_FINAL) && |tok| == 4 && |payload| <= FRAGMENT
    ensures var s := Frame(first, tok, payload) + t;
            && DecodeHead(s).Got?
            && var h := DecodeHead(s).head;
               && h.offset + h.length == |Frame(first, tok, payload)| - 4
               && s[h.offset..h.offset + h.length] == (tok + payload)[..|payload|]
  {
    var n := |payload|;
    Reframed(first, tok, payload, t);
    FrameToken(first, [], (tok + payload)[..n], (tok + payload)[n..] + t);
  }

  // ---------- What a stream can deliver ----------

  /** A frame of n bytes takes n + 2 bytes of the stream, and n + 4 from 0xff on: of 0x10003 bytes, 0xffff
      at most are payload. */
  predicate Fits(n: int, bytes: int) {
    0x10003 * n <= 0xffff * bytes
  }

  /** A payload delivered from n bytes: behind what was collected before and without a token, or from
      those bytes alone, and with a token from one frame. */
  ghost predicate From(d: Delivery, data: seq<byte>, n: int) {
    || (data <= d.payload && d.token == 0 && Fits(|d.payload| - |data|, n))
    || (Fits(|d.payload|, n) && (d.token != 0 ==> |d.payload| <= FRAGMENT))
  }

  ghost predicate AllFrom(out: seq<Delivery>, data: seq<byte>, n: int) {
    forall d {:trigger From(d, data, n)} | d in out :: From(d, data, n)
  }

  lemma {:induction false} HeadCost(s: seq<byte>)
    ensures DecodeHead(s).Got? ==>
              var h := DecodeHead(s).head;
              && 0 < h.offset + h.length <= |s| && h.length <= FRAGMENT && Fits(h.length, h.offset + h.length)
              && (h.flag == FRAME_FINAL ==> h.offset <= 4)
              && DecodeHead(s[..h.offset + h.length]) == Got(h)
  {}

  /** More bytes, and a delivery in front. */
  lemma {:induction false} OneMore(d: Delivery, out: seq<Delivery>, data: seq<byte>, m: int, n: int)
    requires AllFrom(out, data, m) && m <= n && From(d, data, n)
    ensures AllFrom([d] + out, data, n)
  {
    forall e | e in [d] + out
      ensures From(e, data, n)
    {
      if e in out { assert From(e, data, m); }
    }
  }

  /** Nothing was collected after a delivery. */
  lemma {:induction false} Anew(out: seq<Delivery>, part: seq<byte>, data: seq<byte>, m: int, n: int)
    requires AllFrom(out, part, m) && Fits(|part|, n - m) && m <= n
    ensures AllFrom(out, data, n)
  {
    forall d | d in out
      ensures From(d, data, n)
    {
      assert From(d, part, m);
    }
  }

  /** The bytes of a continuation. */
  lemma {:induction false} Joined(out: seq<Delivery>, data: seq<byte>, part: seq<byte>, m: int, n: int)
    requires AllFrom(out, data + part, m) && Fits(|part|, n - m) && m <= n
    ensures AllFrom(out, data, n)
  {
    forall d | d in out
      ensures From(d, data, n)
    {
      assert From(d, data + part, m);
      if data + part <= d.payload {
        assert data == (data + part)[..|data|] == d.payload[..|data|];
      }
    }
  }

  /** Events that deliver no more than n bytes can, whatever was collected before. */
  ghost predicate Tame(events: seq<Event>, n: int) {
    forall a: Assembly :: TameAfter(a, events, n)
  }

  ghost predicate TameAfter(a: Assembly, events: seq<Event>, n: int) {
    AllFrom(Consume(a, events).1, a.data, n)
  }

  /** Whatever a stream is, its events are of that kind. */
  lemma {:induction false} Origin(s: seq<byte>, room: nat)
    ensures Tame(Split(s, room).events, |s|)
    decreases |s|
  {
    if DecodeHead(s).Got? && room > 0 {
      var h, rest, more := FirstHead(s, room);
      Origin(rest, room - 1);
      OriginOne(s, h, more);
    } else {
      NoEvents(s, room);
      TameNone(|s|);
    }
  }

  lemma {:induction false} FirstHead(s: seq<byte>, room: nat) returns (h: Head, rest: seq<byte>, more: seq<Event>)
    requires DecodeHead(s).Got? && room > 0
    ensures DecodeHead(s) == Got(h) && h.offset + h.length <= |s| && |rest| == |s| - h.offset - h.length < |s|
    ensures more == Split(rest, room - 1).events && Split(s, room).events == [EventOf(h, s)] + more
  {
    h := DecodeHead(s).head;
    SplitOnce(s, room);
    rest := s[h.offset + h.length..];
    more := Split(rest, room - 1).events;
  }

  lemma {:induction false} NoEvents(s: seq<byte>, room: nat)
    requires !DecodeHead(s).Got? || room == 0
    ensures Split(s, room).events == []
  {
    EventCount(s, room);
  }

  lemma {:induction false} OriginOf(s: seq<byte>, room: nat, n: nat) returns (events: seq<Event>)
    requires |s| == n
    ensures events == Split(s, room).events && Tame(events, n)
  {
    Origin(s, room);
    events := Split(s, room).events;
  }

  lemma TameNone(n: nat)
    ensures Tame([], n)
  {}

  lemma {:induction false} OriginOne(s: seq<byte>, h: Head, more: seq<Event>)
    requires DecodeHead(s) == Got(h) && h.offset + h.length <= |s| && Tame(more, |s| - h.offset - h.length)
    ensures Tame([EventOf(h, s)] + more, |s|)
  {
    forall a: Assembly
      ensures TameAfter(a, [EventOf(h, s)] + more, |s|)
    {
      if Final(h.flag) && h.flag != FRAME_FINAL {
        OriginMessage(s, h, a, more);
      } else {
        OriginRaw(s, h, a, more);
      }
    }
  }

  lemma {:induction false} OriginMessage(s: seq<byte>, h: Head, a: Assembly, more: seq<Event>)
    requires DecodeHead(s) == Got(h) && h.offset + h.length <= |s| && Final(h.flag) && h.flag != FRAME_FINAL
    requires Tame(more, |s| - h.offset - h.length)
    ensures AllFrom(Consume(a, [EventOf(h, s)] + more).1, a.data, |s|)
  {
    HeadCost(s);
    var e := EventOf(h, s);
    assert ([e] + more)[1..] == more;
    assert TameAfter(a, more, |s| - h.offset - h.length);
    OneMore(Delivery(e.kind, e.token, e.payload), Consume(a, more).1, a.data, |s| - h.offset - h.length, |s|);
  }

  lemma {:induction false} OriginRaw(s: seq<byte>, h: Head, a: Assembly, more: seq<Event>)
    requires DecodeHead(s) == Got(h) && h.offset + h.length <= |s| && (Final(h.flag) ==> h.flag == FRAME_FINAL)
    requires Tame(more, |s| - h.offset - h.length)
    ensures AllFrom(Consume(a, [EventOf(h, s)] + more).1, a.data, |s|)
  {
    HeadCost(s);
    var frame, m := s[..h.offset + h.length], |s| - h.offset - h.length;
    var part := frame[h.offset..];
    WriteAs(a, frame, h, Token(h, frame), part);
    ConsumeRaw(a, frame, more);
    var b := Write(a, frame).0;
    if h.flag == FRAME_FINAL {
      var c := b.(data := []);
      assert TameAfter(c, more, m);
      Anew(Consume(c, more).1, [], a.data, m, m);
      OneMore(Delivery(b.event, b.token, b.data), Consume(c, more).1, a.data, m, |s|);
    } else if h.flag == 0 {
      assert TameAfter(b, more, m);
      Joined(Consume(b, more).1, a.data, part, m, |s|);
    } else {
      assert [] + part == part;
      assert TameAfter(b, more, m);
      Anew(Consume(b, more).1, part, a.data, m, |s|);
    }
  }

  // ---------- The events of a message of several fragments with a token ----------

  /** No stream at all delivers a token other than 0 with more than one fragment. */
  lemma {:induction false} TokenNeedsOneFrame(d: Delivery, s: seq<byte>, a: Assembly, room: nat)
    requires d.token != 0 && |d.payload| > FRAGMENT
    ensures d !in Consume(a, Split(s, room).events).1
  {
    Origin(s, room);
    NotFrom(Split(s, room).events, |s|, a, d);
  }

  lemma {:induction false} NotFrom(events: seq<Event>, n: int, a: Assembly, d: Delivery)
    requires Tame(events, n) && !From(d, a.data, n)
    ensures d !in Consume(a, events).1
  {
    assert TameAfter(a, events, n);
    assert d in Consume(a, events).1 ==> From(d, a.data, n);
  }

  /** No frames for n bytes of payload are longer. */
  function MostOf(n: nat): nat {
    n + 8 * (n / 0xffff) + 8
  }

  lemma MostOfBound(n: nat)
    ensures 0xffff * MostOf(n) <= 0x10007 * n + 8 * 0xffff
  {}

  lemma MostOfNext(n: nat)
    requires n >= 0xffff
    ensures MostOf(n) == MostOf(n - 0xffff) + 0x10007
  {}

  lemma {:induction false} RestLength(tok: seq<byte>, payload: seq<byte>)
    requires |tok| == 4
    ensures |Concat(Rest(tok, payload))| <= MostOf(|payload|)
    decreases |payload|
  {
    if |payload| < FRAGMENT {
      OneFrame(Frame(FRAME_FINAL, tok, payload));
    } else {
      RestLength(tok, payload[FRAGMENT..]);
      MostOfNext(|payload|);
      MoreFrames(Frame(0, tok, payload[..FRAGMENT]), Rest(tok, payload[FRAGMENT..]));
    }
  }

  /** A frame that the decoder hands over raw. */
  lemma {:induction false} RawEvent(first: byte, x: seq<byte>, y: seq<byte>, s: seq<byte>, room: nat)
    requires |x| <= FRAGMENT && first % 128 == 0 && room > 0 && s == Frame(first, [], x) + y
    ensures Split(s, room).events == [Raw(Frame(first, [], x))] + Split(y, room - 1).events
  {
    SplitFrame(first, [], x, y, room);
  }

  /** The first frame is handed over raw. */
  lemma {:induction false} FirstEvent(opcode: byte, tok: seq<byte>, part: seq<byte>, t: seq<byte>, s: seq<byte>,
                                      room: nat)
    requires |part| <= FRAGMENT && 3 <= opcode <= 7 && |tok| == 4 && room > 0 && s == Frame(opcode, tok, part) + t
    ensures Split(s, room).events == [Raw(Frame(opcode, tok, part))] + Split(t, room - 1).events
  {
    SplitFrame(opcode, tok, part, t, room);
  }

  lemma {:induction false} RawTail(first: byte, x: seq<byte>, y: seq<byte>, s: seq<byte>, room: nat)
    returns (more: seq<Event>)
    requires |x| <= FRAGMENT && first % 128 == 0 && room > 0 && s == Frame(first, [], x) + y
    ensures more == Split(y, room - 1).events
    ensures Split(s, room).events == [Raw(Frame(first, [], x))] + more && Tame(more, |y|)
  {
    RawEvent(first, x, y, s, room);
    more := OriginOf(y, room - 1, |y|);
  }

  /** The last one is handed over raw, cut short, and leaves four bytes. */
  lemma {:induction false} LastEvent(tok: seq<byte>, payload: seq<byte>, room: nat) returns (more: seq<Event>)
    requires |tok| == 4 && |payload| < FRAGMENT && room > 0
    ensures |(tok + payload)[..|payload|]| == |payload|
    ensures Split(Concat(Rest(tok, payload)), room).events
         == [Raw(Frame(FRAME_FINAL, [], (tok + payload)[..|payload|]))] + more
    ensures Tame(more, 4)
  {
    var x, y, s := (tok + payload)[..|payload|], (tok + payload)[|payload|..], Concat(Rest(tok, payload));
    assert s == Frame(FRAME_FINAL, [], x) + y by {
      var frame := Frame(FRAME_FINAL, tok, payload);
      OneFrame(frame);
      Reframed(FRAME_FINAL, tok, payload, []);
      assert frame + [] == frame && y + [] == y;
    }
    more := RawTail(FRAME_FINAL, x, y, s, room);
  }

  function Empties(n: nat): seq<Event> {
    if n == 0 then [] else [Raw(Empty())] + Empties(n - 1)
  }

  function UpTo2(n: nat): nat {
    if n < 2 then n else 2
  }

  function SplitAfter(t: seq<byte>, room: nat): seq<Event> {
    if room < 2 then [] else Split(t, room - 2).events
  }

  /** Four bytes of zeros are two empty continuations, as far as there is room. */
  lemma {:induction false} ZeroEvents(tok: seq<byte>, t: seq<byte>, room: nat)
    requires ZeroToken(tok)
    ensures Split(tok + t, room).events == Empties(UpTo2(room)) + SplitAfter(t, room)
  {
    TwoEmpty(tok);
    Twice(Empty(), tok, t);
    EmptyEvents(tok + t, Empty() + t, room);
    EmptyEvents(Empty() + t, t, room - 1);
    EmptiesOf([Raw(Empty())], SplitAfter(t, room));
  }

  lemma {:induction false} EmptyEvents(s: seq<byte>, t: seq<byte>, room: int)
    requires s == Empty() + t
    ensures room == 0 ==> Split(s, 0).events == []
    ensures room > 0 ==> Split(s, room).events == [Raw(Empty())] + Split(t, room - 1).events
  {
    if room > 0 {
      RawEvent(0, [], t, s, room);
    } else {
      EventCount(s, 0);
    }
  }

  lemma {:induction false} EmptiesOf(e: seq<Event>, more: seq<Event>)
    requires e == [Raw(Empty())]
    ensures e + (e + more) == Empties(2) + more && e + [] == Empties(1) + [] && [] + more == Empties(0) + more
    ensures |Empties(0)| == 0 && |Empties(1)| == 1 && |Empties(2)| == 2
  {
    assert Empties(1) == e + Empties(0);
    assert Empties(2) == e + Empties(1);
  }

  lemma {:induction false} AfterZeros(tok: seq<byte>, y: seq<byte>, tail: seq<byte>, room: nat)
    ensures y == tok && ZeroToken(tok) ==>
              Split(y + tail, room).events == Empties(UpTo2(room)) + SplitAfter(tail, room)
  {
    if y == tok && ZeroToken(tok) {
      ZeroEvents(tok, tail, room);
    }
  }

  lemma {:induction false} NextTail(tok: seq<byte>, x: seq<byte>, y: seq<byte>, tail: seq<byte>, s: seq<byte>,
                                    next: seq<Event>, room: nat)
    returns (events: seq<Event>)
    requires ZeroToken(tok) && |x| <= FRAGMENT && |y| == 4 && room > 0 && s == Frame(0, [], x) + (y + tail)
    requires next == SplitAfter(tail, room - 1)
    ensures Split(s, room).events == [Raw(Frame(0, [], x))] + events && Tame(events, 4 + |tail|)
    ensures y == tok ==> events == Empties(UpTo2(room - 1)) + next
  {
    events := RawTail(0, x, y + tail, s, room);
    AfterZeros(tok, y, tail, room - 1);
  }

  /** Those between are handed over raw, and leave four bytes. */
  lemma {:induction false} NextEvent(tok: seq<byte>, payload: seq<byte>, s: seq<byte>, tail: seq<byte>,
                                     next: seq<Event>, room: nat)
    returns (events: seq<Event>)
    requires ZeroToken(tok) && |payload| >= FRAGMENT && room > 0 && next == SplitAfter(tail, room - 1)
    requires s == Concat(Rest(tok, payload)) && tail == Concat(Rest(tok, payload[FRAGMENT..]))
    ensures Split(s, room).events == [Raw(Frame(0, [], (tok + payload[..FRAGMENT])[..FRAGMENT]))] + events
    ensures Tame(events, 4 + MostOf(|payload[FRAGMENT..]|))
    ensures Zeros(payload[..FRAGMENT]) ==> events == Empties(UpTo2(room - 1)) + next
  {
    var part := payload[..FRAGMENT];
    var x, y := (tok + part)[..FRAGMENT], (tok + part)[FRAGMENT..];
    assert s == Frame(0, [], x) + (y + tail) by {
      MoreFrames(Frame(0, tok, part), Rest(tok, payload[FRAGMENT..]));
      Reframed(0, tok, part, tail);
    }
    assert Zeros(part) ==> y == tok by {
      if Zeros(part) { ZerosShift(tok, part); }
    }
    events := NextTail(tok, x, y, tail, s, next, room);
    RestLength(tok, payload[FRAGMENT..]);
    TameWider(events, 4 + |tail|, 4 + MostOf(|payload[FRAGMENT..]|));
  }

  /** The events that the frames of `Rest` make behind a zero token, as far as there is room for them: every
      frame is shifted by four bytes, and those behind a fragment of zeros are two empty continuations. */
  ghost predicate ShiftedEvents(events: seq<Event>, tok: seq<byte>, payload: seq<byte>)
    requires |tok| == 4
    decreases |payload|
  {
    if events == [] then true
    else if |payload| < FRAGMENT then
      ShortOf(tok, payload);
      events[0] == Raw(Frame(FRAME_FINAL, [], (tok + payload)[..|payload|])) && Tame(events[1..], 4)
    else
      var part, more, k := payload[..FRAGMENT], payload[FRAGMENT..], UpTo2(|events| - 1);
      && events[0] == Raw(Frame(0, [], (tok + part)[..FRAGMENT])) && Tame(events[1..], 4 + MostOf(|more|))
      && (Zeros(part) ==>
            events[1..] == Empties(k) + events[1 + k..] && ShiftedEvents(events[1 + k..], tok, more))
  }

  lemma ShortOf(tok: seq<byte>, payload: seq<byte>)
    ensures |(tok + payload)[..|payload|]| == |payload|
  {}

  lemma {:induction false} TameWider(events: seq<Event>, m: int, n: int)
    requires Tame(events, m) && m <= n
    ensures Tame(events, n)
  {
    forall a: Assembly
      ensures TameAfter(a, events, n)
    {
      assert TameAfter(a, events, m);
      forall d | d in Consume(a, events).1
        ensures From(d, a.data, n)
      {
        assert From(d, a.data, m);
      }
    }
  }

  lemma {:induction false} AreShifted(tok: seq<byte>, payload: seq<byte>, s: seq<byte>, room: nat)
    requires ZeroToken(tok) && s == Concat(Rest(tok, payload))
    ensures ShiftedEvents(Split(s, room).events, tok, payload)
    decreases |payload|
  {
    if room == 0 {
      EventCount(s, room);
    } else if |payload| < FRAGMENT {
      AreShiftedLast(tok, payload, s, room);
    } else {
      var tail := Concat(Rest(tok, payload[FRAGMENT..]));
      var next := SplitAfter(tail, room - 1);
      if room >= 3 {
        AreShifted(tok, payload[FRAGMENT..], tail, room - 3);
      }
      AreShiftedNext(tok, payload, s, tail, next, room);
    }
  }

  lemma {:induction false} AreShiftedLast(tok: seq<byte>, payload: seq<byte>, s: seq<byte>, room: nat)
    requires |tok| == 4 && |payload| < FRAGMENT && room > 0 && s == Concat(Rest(tok, payload))
    ensures ShiftedEvents(Split(s, room).events, tok, payload)
  {
    var more := LastEvent(tok, payload, room);
    ShiftedLast(Split(s, room).events, tok, payload, more);
  }

  lemma {:induction false} AreShiftedNext(tok: seq<byte>, payload: seq<byte>, s: seq<byte>, tail: seq<byte>,
                                          next: seq<Event>, room: nat)
    requires ZeroToken(tok) && |payload| >= FRAGMENT && room > 0
    requires s == Concat(Rest(tok, payload)) && tail == Concat(Rest(tok, payload[FRAGMENT..]))
    requires next == SplitAfter(tail, room - 1) && ShiftedEvents(next, tok, payload[FRAGMENT..])
    ensures ShiftedEvents(Split(s, room).events, tok, payload)
  {
    var events := NextEvent(tok, payload, s, tail, next, room);
    ShiftedNext(Split(s, room).events, tok, payload, events, next, UpTo2(room - 1));
  }

  lemma {:induction false} ShiftedLast(events: seq<Event>, tok: seq<byte>, payload: seq<byte>, more: seq<Event>)
    requires |tok| == 4 && |payload| < FRAGMENT && Tame(more, 4) && |(tok + payload)[..|payload|]| == |payload|
    requires events == [Raw(Frame(FRAME_FINAL, [], (tok + payload)[..|payload|]))] + more
    ensures ShiftedEvents(events, tok, payload)
  {
    assert events[1..] == more;
  }

  lemma {:induction false} ShiftedNext(events: seq<Event>, tok: seq<byte>, payload: seq<byte>, more: seq<Event>,
                                       next: seq<Event>, k: nat)
    requires |tok| == 4 && |payload| >= FRAGMENT && Tame(more, 4 + MostOf(|payload[FRAGMENT..]|))
    requires events == [Raw(Frame(0, [], (tok + payload[..FRAGMENT])[..FRAGMENT]))] + more
    requires Zeros(payload[..FRAGMENT]) ==> more == Empties(k) + next
    requires k <= 2 && (k < 2 ==> next == []) && ShiftedEvents(next, tok, payload[FRAGMENT..])
    ensures ShiftedEvents(events, tok, payload)
  {
    assert events[1..] == more;
    if Zeros(payload[..FRAGMENT]) {
      EmptiesOf([Raw(Empty())], next);
      assert k == UpTo2(|events| - 1) && events[1 + k..] == next;
    }
  }

  // ---------- What they deliver ----------

  /** A raw frame that is not the last. */
  lemma {:induction false} RawNext(frame: seq<byte>, more: seq<Event>, a: Assembly, b: Assembly)
    requires Write(a, frame) == (b, 2)
    ensures Consume(a, [Raw(frame)] + more).1 == Consume(b, more).1
  {
    ConsumeRaw(a, frame, more);
  }

  /** Empty continuations deliver nothing. */
  lemma {:induction false} EmptiesDeliver(n: nat, more: seq<Event>, a: Assembly)
    requires a.token == 0
    ensures Consume(a, Empties(n) + more).1 == Consume(a, more).1
  {
    if n == 0 {
      assert Empties(n) + more == more;
    } else {
      assert Empties(n) + more == [Raw(Empty())] + (Empties(n - 1) + more);
      WriteFrame(a, 0, [], []);
      assert a.data + [] == a.data;
      RawNext(Empty(), Empties(n - 1) + more, a, a);
      EmptiesDeliver(n - 1, more, a);
    }
  }

  lemma {:induction false} ZerosBack(tok: seq<byte>, s: seq<byte>, i: nat)
    requires ZeroToken(tok) && (tok + s)[..|s|] == s && i < |s|
    ensures s[i] == 0
    decreases i
  {
    assert s[i] == (tok + s)[i];
    if i >= 4 {
      ZerosBack(tok, s, i - 4);
      assert (tok + s)[i] == s[i - 4];
    }
  }

  /** What equals itself shifted by four zeros is zero. */
  lemma {:induction false} OnlyZeros(tok: seq<byte>, s: seq<byte>)
    requires ZeroToken(tok) && (tok + s)[..|s|] == s
    ensures Zeros(s)
  {
    forall i | 0 <= i < |s|
      ensures s[i] == 0
    {
      ZerosBack(tok, s, i);
    }
  }

  /** Is `payload` among the deliveries? */
  ghost predicate Arrives(out: seq<Delivery>, payload: seq<byte>) {
    exists d | d in out :: d.payload == payload
  }

  lemma {:induction false} LastIsZero(tok: seq<byte>, a: Assembly, payload: seq<byte>, more: seq<Event>)
    requires ZeroToken(tok) && |a.data| >= FRAGMENT && |payload| < FRAGMENT && Tame(more, 4)
    requires |(tok + payload)[..|payload|]| == |payload|
    requires Arrives(Consume(a, [Raw(Frame(FRAME_FINAL, [], (tok + payload)[..|payload|]))] + more).1, a.data + payload)
    ensures Zeros(payload)
  {
    var x, c := (tok + payload)[..|payload|], Assembly([], 0, a.event);
    WriteFrame(a, FRAME_FINAL, [], x);
    ConsumeRaw(a, Frame(FRAME_FINAL, [], x), more);
    assert TameAfter(c, more, 4);
    LastArrives(tok, Consume(c, more).1, a, x, payload);
  }

  lemma {:induction false} LastArrives(tok: seq<byte>, out: seq<Delivery>, a: Assembly, x: seq<byte>,
                                       payload: seq<byte>)
    requires ZeroToken(tok) && AllFrom(out, [], 4) && |a.data| >= FRAGMENT && x == (tok + payload)[..|payload|]
    requires Arrives([Delivery(a.event, 0, a.data + x)] + out, a.data + payload)
    ensures Zeros(payload)
  {
    forall d | d in out
      ensures d.payload != a.data + payload
    {
      assert From(d, [], 4);
    }
    assert a.data + x == a.data + payload;
    assert x == (a.data + x)[|a.data|..] == (a.data + payload)[|a.data|..] == payload;
    OnlyZeros(tok, payload);
  }

  /** One fragment of several: the stream is too short to deliver the whole anew, so what it delivers
      continues what was collected. */
  lemma {:induction false} NextIsZero(tok: seq<byte>, a: Assembly, part: seq<byte>, more: seq<byte>, whole: seq<byte>,
                                      events: seq<Event>, n: nat)
    requires ZeroToken(tok) && |a.data| >= FRAGMENT && |part| == FRAGMENT && Tame(events, 4 + n)
    requires whole == a.data + (part + more) && |whole| < 0x8000_0000
    requires 0xffff * n <= 0x10007 * |more| + 8 * 0xffff
    requires Arrives(Consume(a, [Raw(Frame(0, [], (tok + part)[..FRAGMENT]))] + events).1, whole)
    ensures Zeros(part) && whole == a.data + part + more
    ensures Arrives(Consume(Assembly(a.data + part, 0, a.event), events).1, whole)
  {
    var x := (tok + part)[..FRAGMENT];
    var b := Assembly(a.data + x, 0, a.event);
    WriteFrame(a, 0, [], x);
    RawNext(Frame(0, [], x), events, a, b);
    assert TameAfter(b, events, 4 + n);
    Shifted(tok, Consume(b, events).1, a.data, part, more, whole, n);
    ZerosShift(tok, part);
  }

  lemma {:induction false} Shifted(tok: seq<byte>, out: seq<Delivery>, data: seq<byte>, part: seq<byte>,
                                   more: seq<byte>, whole: seq<byte>, n: nat)
    requires ZeroToken(tok) && |data| >= FRAGMENT && |part| == FRAGMENT && whole == data + (part + more)
    requires |whole| < 0x8000_0000 && 0xffff * n <= 0x10007 * |more| + 8 * 0xffff
    requires AllFrom(out, data + (tok + part)[..FRAGMENT], 4 + n) && Arrives(out, whole)
    ensures Zeros(part) && whole == data + part + more
  {
    var x := (tok + part)[..FRAGMENT];
    var d :| d in out && d.payload == whole;
    assert From(d, data + x, 4 + n);
    assert data + x == d.payload[..|data + x|];
    assert x == d.payload[|data|..|data| + FRAGMENT] == part;
    OnlyZeros(tok, part);
  }

  lemma {:induction false} NoArrival(k: nat, events: seq<Event>, b: Assembly, whole: seq<byte>)
    requires b.token == 0 && Arrives(Consume(b, events).1, whole)
    ensures events != Empties(k)
  {
    EmptiesDeliver(k, [], b);
    assert Empties(k) + [] == Empties(k);
  }

  /** If the whole arrives, what follows the first fragment is all zero. */
  lemma {:induction false} MustBeZeros(tok: seq<byte>, a: Assembly, payload: seq<byte>, whole: seq<byte>,
                                       events: seq<Event>)
    requires ZeroToken(tok) && a.token == 0 && |a.data| >= FRAGMENT && whole == a.data + payload
    requires |whole| < 0x8000_0000 && ShiftedEvents(events, tok, payload)
    requires Arrives(Consume(a, events).1, whole)
    ensures Zeros(payload)
    decreases |payload|, 0
  {
    NoArrival(0, events, a, whole);
    assert events == [events[0]] + events[1..];
    if |payload| < FRAGMENT {
      LastIsZero(tok, a, payload, events[1..]);
    } else {
      var part, more := payload[..FRAGMENT], payload[FRAGMENT..];
      assert payload == part + more;
      MostOfBound(|more|);
      NextIsZero(tok, a, part, more, whole, events[1..], MostOf(|more|));
      var k := UpTo2(|events| - 1);
      assert events[1..][k..] == events[1 + k..];
      MoreZeros(tok, Assembly(a.data + part, 0, a.event), more, whole, events[1..], k);
      ZerosBoth(payload, FRAGMENT);
    }
  }

  lemma {:induction false} MoreZeros(tok: seq<byte>, b: Assembly, payload: seq<byte>, whole: seq<byte>,
                                     events: seq<Event>, k: nat)
    requires ZeroToken(tok) && b.token == 0 && |b.data| >= FRAGMENT && whole == b.data + payload
    requires |whole| < 0x8000_0000 && Arrives(Consume(b, events).1, whole)
    requires k <= |events| && events == Empties(k) + events[k..] && ShiftedEvents(events[k..], tok, payload)
    ensures Zeros(payload)
    decreases |payload|, 1
  {
    EmptiesDeliver(k, events[k..], b);
    MustBeZeros(tok, b, payload, whole, events[k..]);
  }

  lemma {:induction false} ZerosBoth(s: seq<byte>, n: nat)
    requires n <= |s| && Zeros(s[..n]) && Zeros(s[n..])
    ensures Zeros(s)
  {
    assert s == s[..n] + s[n..];
  }

  // ---------- The exact condition ----------

  /** The events behind the first frame do not complete a message with the token 0. */
  lemma {:induction false} ZeroLost(tok: seq<byte>, d: Delivery, b: Assembly, payload: seq<byte>, events: seq<Event>,
                                    room: nat)
    requires ZeroToken(tok) && b.token == 0 && |b.data| == FRAGMENT
    requires events == Split(Concat(Rest(tok, payload)), room).events
    requires !Zeros(payload) && |b.data| + |payload| < 0x8000_0000 && d.payload == b.data + payload
    ensures d !in Consume(b, events).1
  {
    if d in Consume(b, events).1 {
      assert Arrives(Consume(b, events).1, d.payload);
      AreShifted(tok, payload, Concat(Rest(tok, payload)), room);
      MustBeZeros(tok, b, payload, d.payload, events);
    }
  }

  /** Nor one with another token. */
  lemma {:induction false} NonzeroLost(tok: seq<byte>, d: Delivery, b: Assembly, payload: seq<byte>, events: seq<Event>,
                                       room: nat)
    requires |tok| == 4 && |b.data| == FRAGMENT && events == Split(Concat(Rest(tok, payload)), room).events
    requires d.token != 0 && d.payload == b.data + payload
    ensures d !in Consume(b, events).1
  {
    Origin(Concat(Rest(tok, payload)), room);
    RestLength(tok, payload);
    NotFrom(events, |Concat(Rest(tok, payload))|, b, d);
  }

  lemma {:induction false} FirstWritten(opcode: byte, tok: seq<byte>, a: Assembly, b: Assembly)
    requires 3 <= opcode <= 7 && |tok| == 4 && |b.data| <= FRAGMENT
    requires b.token == TokenOf(tok) && b.event == opcode * 16 + EVENT_MSG
    ensures Write(a, Frame(opcode, tok, b.data)) == (b, 2)
  {
    WriteFrame(a, opcode, tok, b.data);
    WrittenOpening(a, opcode, tok, b.data);
  }

  /** The stream of the message, when what is behind the first frame does not deliver it. */
  lemma {:induction false} FirstStep(opcode: byte, tok: seq<byte>, s: seq<byte>, t: seq<byte>,
                                     a: Assembly, b: Assembly, d: Delivery, room: nat)
    requires 3 <= opcode <= 7 && |tok| == 4 && |b.data| <= FRAGMENT && room > 0
    requires b.token == TokenOf(tok) && b.event == opcode * 16 + EVENT_MSG
    requires s == Frame(opcode, tok, b.data) + t && d !in Consume(b, Split(t, room - 1).events).1
    ensures d !in Consume(a, Split(s, room).events).1
  {
    FirstEvent(opcode, tok, b.data, t, s, room);
    FirstWritten(opcode, tok, a, b);
    RawNext(Frame(opcode, tok, b.data), Split(t, room - 1).events, a, b);
  }

  lemma {:induction false} BehindLost(tok: seq<byte>, d: Delivery, b: Assembly, payload: seq<byte>, t: seq<byte>,
                                      room: nat)
    requires |tok| == 4 && |b.data| == FRAGMENT && t == Concat(Rest(tok, payload))
    requires d.token == 0 ==> ZeroToken(tok) && !Zeros(payload) && |d.payload| < 0x8000_0000
    requires d.token == b.token && d.payload == b.data + payload
    ensures d !in Consume(b, Split(t, room).events).1
  {
    if d.token == 0 {
      ZeroLost(tok, d, b, payload, Split(t, room).events, room);
    } else {
      NonzeroLost(tok, d, b, payload, Split(t, room).events, room);
    }
  }

  lemma {:induction false} LostFrames(opcode: byte, tok: seq<byte>, b: Assembly, payload: seq<byte>, d: Delivery,
                                      a: Assembly, s: seq<byte>, room: nat)
    requires 3 <= opcode <= 7 && |tok| == 4 && |b.data| == FRAGMENT && room > 0
    requires b.token == TokenOf(tok) && b.event == opcode * 16 + EVENT_MSG
    requires d.token == 0 ==> ZeroToken(tok) && !Zeros(payload) && |d.payload| < 0x8000_0000
    requires d.token == b.token && d.payload == b.data + payload
    requires s == Concat([Frame(opcode, tok, b.data)] + Rest(tok, payload))
    ensures d !in Consume(a, Split(s, room).events).1
  {
    var t := Concat(Rest(tok, payload));
    BehindLost(tok, d, b, payload, t, room - 1);
    assert s == Frame(opcode, tok, b.data) + t by { MoreFrames(Frame(opcode, tok, b.data), Rest(tok, payload)); }
    FirstStep(opcode, tok, s, t, a, b, d, room);
  }

  /** The frames of a message that repeats its token. */
  lemma {:induction false} Repeated(m: Msg) returns (opcode: byte, tok: seq<byte>)
    requires Known(m.flag, m.token) && Repeats(m.flag, m.payload)
    ensures 3 <= opcode <= 7 && m.flag == opcode * 16 && |tok| == 4 && TokenOf(tok) == m.token
    ensures m.token == 0 ==> ZeroToken(tok)
    ensures FramesOf(m) == [Frame(opcode, tok, m.payload[..FRAGMENT])] + Rest(tok, m.payload[FRAGMENT..])
  {
    opcode, tok := Opcode(m.flag), TokenBytes(m.flag, m.token);
    OpcodeOf(m.flag);
    TokenComesBack(m.flag, m.token);
  }

  /** A message that is not of the kind that comes back is not delivered by its own bytes, whatever
      happened before.  With the token 0 that holds below 2^31 bytes, the length that an int32_t can give. */
  lemma {:induction false} Lost(m: Msg, a: Assembly, room: nat)
    requires Known(m.flag, m.token) && !Sound(m.flag, m.token, m.payload)
    requires m.token != 0 || |m.payload| < 0x8000_0000
    ensures DeliveryOf(m) !in Consume(a, Split(Concat(FramesOf(m)), room).events).1
  {
    if room > 0 {
      var opcode, tok := Repeated(m);
      assert m.payload == m.payload[..FRAGMENT] + m.payload[FRAGMENT..];
      var b := Assembly(m.payload[..FRAGMENT], m.token, m.flag + EVENT_MSG);
      LostFrames(opcode, tok, b, m.payload[FRAGMENT..], DeliveryOf(m), a, Concat(FramesOf(m)), room);
    }
  }

  /** A message comes back, alone on a connection that carries it in any chunks, exactly if it is of one
      frame, or without a token, or has the token 0 and nothing but zeros behind the first fragment. */
  lemma {:induction false} ComesBackExactly(m: Msg, chunks: seq<seq<byte>>, a: Assembly, room: nat)
    requires Known(m.flag, m.token) && (m.token != 0 || |m.payload| < 0x8000_0000)
    requires Concat(chunks) == Concat(FramesOf(m)) && |EventsOf(m.flag, m.token, m.payload)| <= room
    ensures var p := Feed([], chunks, room);
            && (p.good && p.rest == [] && Consume(a, p.events).1 == [DeliveryOf(m)]
                <==> Sound(m.flag, m.token, m.payload))
            && (DeliveryOf(m) in Consume(a, p.events).1 <==> Sound(m.flag, m.token, m.payload))
  {
    if Sound(m.flag, m.token, m.payload) {
      JustOne(m);
      RoundTrip([m], chunks, a, room);
    } else {
      Lost(m, a, room);
      ChunkingIsInvisible([], chunks, room);
      assert [] + Concat(chunks) == Concat(chunks);
    }
  }

  lemma {:induction false} JustOne(m: Msg)
    ensures AllFrames([m]) == FramesOf(m) && AllEvents([m]) == EventsOf(m.flag, m.token, m.payload)
    ensures Deliveries([m]) == [DeliveryOf(m)]
  {
    assert [m][1..] == [];
  }

  /** The shortest message that is lost: a reply with the token 1 and one whole fragment.  With the token 0
      the same payload comes back. */
  lemma {:induction false} FirstLost(payload: seq<byte>, a: Assembly, room: nat)
    requires |payload| == 0xffff
    ensures var m := Msg(FRAME_REPLY, 1, payload);
            DeliveryOf(m) !in Consume(a, Split(Concat(FramesOf(m)), room).events).1
    ensures Sound(FRAME_REPLY, 0, payload) && !Sound(FRAME_REPLY, 0, payload + [1])
  {
    Lost(Msg(FRAME_REPLY, 1, payload), a, room);
    assert (payload + [1])[FRAGMENT..] == [1];
    assert [1][0] != 0;
  }
}
