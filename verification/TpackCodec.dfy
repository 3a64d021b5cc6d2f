/** The codec of tpack_t.c and the receive callback of tpackStream_t.c, on byte queues and buffers,
    against the format of Tpack and TpackFrames. */
module TpackCodec {
  import opened ByteRing
  import opened ByteQueue
  import opened Tpack
  import opened TpackFrames

  // ---------- Decoding ----------

  /** tpack_decodeHead only peeks. */
  method DecodeHeadOf(q: ByteQueue) returns (d: Decoded)
    requires q.Valid()
    modifies q`readIndex, q`writeIndex
    ensures q.Valid() && q.Bytes() == old(q.Bytes()) && (!old(q.Foreign()) ==> !q.Foreign())
    ensures d == DecodeHead(old(q.Bytes()))
  {
    ghost var s := q.Bytes();
    var readable := q.BytesReadable();
    if readable < 2 {
      return More;
    }
    var _, two := q.ReadBytes(2, true);
    assert two[0] == s[0] && two[1] == s[1];
    if two[0] % 16 > 7 {
      return Bad;
    }
    if two[1] < 0xff {
      return HeadOf(two[0], two[1], 2, readable);
    }
    if readable < 4 {
      return More;
    }
    var _, four := q.ReadBytes(4, true);
    assert four[2] == s[2] && four[3] == s[3];
    return HeadOf(two[0], four[2] as int * 256 + four[3], 4, readable);
  }

  /** Taking the head and the token off the queue. */
  method TakeToken(q: ByteQueue, offset: nat) returns (token: nat)
    requires q.Valid() && 2 <= offset <= |q.Bytes()|
    modifies q`readIndex, q`writeIndex
    ensures q.Valid() && !q.Foreign() && q.Bytes() == old(q.Bytes())[offset..]
    ensures token == if offset > 4 then BigEndian(old(q.Bytes())[offset - 4..offset]) else 0
  {
    if offset > 4 {
      Parts(q.Bytes(), offset - 4, 4);
      q.ReadOffset(offset - 4);
      var _, szToken := q.ReadBytes(4, false);
      token := BigEndian(szToken);
    } else {
      q.ReadOffset(offset);
      token := 0;
    }
  }

  /** Taking the head, the token and the payload off the queue. */
  method TakeParts(q: ByteQueue, h: Head) returns (token: nat, payload: seq<byte>)
    requires q.Valid() && h.offset >= 2 && h.offset + h.length <= |q.Bytes()|
    modifies q`readIndex, q`writeIndex
    ensures q.Valid() && !q.Foreign() && q.Bytes() == old(q.Bytes())[h.offset + h.length..]
    ensures token == Token(h, old(q.Bytes())) && payload == old(q.Bytes())[h.offset..h.offset + h.length]
  {
    Parts(q.Bytes(), h.offset, h.length);
    token := TakeToken(q, h.offset);
    payload := [];
    if h.length > 0 {
      var _, bytes := q.ReadBytes(h.length, false);
      payload := bytes;
    }
  }

  lemma {:induction false} Parts(s: seq<byte>, i: nat, n: nat)
    requires i + n <= |s|
    ensures s[i..][..n] == s[i..i + n] && s[i..][n..] == s[i + n..]
  {}

  /** tpack_decode: one frame at a time. */
  method Decode(q: ByteQueue) returns (d: Decoded, token: nat, payload: seq<byte>)
    requires q.Valid()
    modifies q`readIndex, q`writeIndex
    ensures q.Valid() && d == DecodeHead(old(q.Bytes()))
    ensures !d.Got? ==> q.Bytes() == old(q.Bytes())
    ensures d.Got? ==>
              && 2 <= d.head.offset && d.head.offset + d.head.length <= old(|q.Bytes()|)
              && q.Bytes() == old(q.Bytes())[d.head.offset + d.head.length..]
              && token == Token(d.head, old(q.Bytes()))
              && payload == old(q.Bytes())[d.head.offset..d.head.offset + d.head.length]
  {
    DecodeStable(q.Bytes(), []);
    d := DecodeHeadOf(q);
    token, payload := 0, [];
    if d.Got? {
      token, payload := TakeParts(q, d.head);
    }
  }

  /** The event of the frame in front of the queue. */
  method TakeEvent(q: ByteQueue, h: Head) returns (e: Event)
    requires q.Valid() && h.offset >= 2 && h.offset + h.length <= |q.Bytes()|
    modifies q`readIndex, q`writeIndex
    ensures q.Valid() && q.Bytes() == old(q.Bytes())[h.offset + h.length..] && !q.Foreign()
    ensures e == EventOf(h, old(q.Bytes()))
  {
    if Final(h.flag) && h.flag != FRAME_FINAL {
      var token, payload := TakeParts(q, h);
      e := Message(Kind(h.flag), token, payload);
    } else {
      var _, bytes := q.ReadBytes(h.offset + h.length, false);
      e := Raw(bytes);
    }
  }

  /** The events so far, and those still in the queue, are the whole. */
  ghost predicate Underway(s: seq<byte>, events: seq<Event>, room: nat, whole: Parsed) {
    |events| <= room && Before(events, Split(s, room - |events|)) == whole
  }

  lemma {:induction false} ReceivedNothing(s: seq<byte>, room: nat)
    ensures Underway(s, [], room, Split(s, room))
  {
    assert [] + Split(s, room).events == Split(s, room).events;
  }

  lemma {:induction false} ReceivedLast(s: seq<byte>, events: seq<Event>, room: nat, whole: Parsed)
    requires Underway(s, events, room, whole) && |s| < 2
    ensures whole == Parsed(events, s, true)
  {
    ReceivedNone(s, events, room, whole);
  }

  /** When no further event is accepted, everything is in place. */
  lemma {:induction false} ReceivedNone(s: seq<byte>, events: seq<Event>, room: nat, whole: Parsed)
    requires Underway(s, events, room, whole)
    ensures DecodeHead(s) == More ==> whole == Parsed(events, s, true)
    ensures DecodeHead(s) == Bad ==> whole == Parsed(events, s, false)
  {
    assert events + [] == events;
  }

  lemma {:induction false} ReceivedFull(s: seq<byte>, events: seq<Event>, room: nat, whole: Parsed)
    requires Underway(s, events, room, whole) && DecodeHead(s).Got? && |events| == room
    ensures var h := DecodeHead(s).head;
            h.offset + h.length <= |s| && whole == Parsed(events, s[h.offset + h.length..], false)
  {
    DecodeStable(s, []);
    assert events + [] == events;
  }

  lemma {:induction false} ReceivedOne(s: seq<byte>, events: seq<Event>, room: nat, whole: Parsed)
    requires Underway(s, events, room, whole) && |events| < room && DecodeHead(s).Got?
    ensures var h := DecodeHead(s).head;
            && h.offset + h.length <= |s|
            && Underway(s[h.offset + h.length..], events + [EventOf(h, s)], room, whole)
  {
    var h := DecodeHead(s).head;
    SplitOnce(s, room - |events|);
    BeforeTwice(events, EventOf(h, s), Split(s[h.offset + h.length..], room - |events| - 1));
  }

  /** One round of the receive loop; `more` says that it goes on. */
  method ReceiveOne(q: ByteQueue, events: seq<Event>, room: nat, ghost whole: Parsed)
    returns (more: bool, good: bool, events': seq<Event>)
    requires q.Valid() && !q.Foreign() && Underway(q.Bytes(), events, room, whole)
    modifies q`readIndex, q`writeIndex
    ensures q.Valid() && !q.Foreign()
    ensures |events'| <= room
    ensures if more then good && |q.Bytes()| < old(|q.Bytes()|) && Underway(q.Bytes(), events', room, whole)
            else whole == Parsed(events', q.Bytes(), good)
  {
    ghost var s := q.Bytes();
    DecodeStable(s, []);
    ReceivedNone(s, events, room, whole);
    var d := DecodeHeadOf(q);
    if !d.Got? {
      return false, d == More, events;
    }
    var e := TakeEvent(q, d.head);
    if |events| == room {
      ReceivedFull(s, events, room, whole);
      return false, false, events;
    }
    ReceivedOne(s, events, room, whole);
    return true, true, events + [e];
  }

  /** tpackStream_receive: every complete frame becomes an event; the service accepts `room` of them. */
  method Receive(q: ByteQueue, room: nat) returns (good: bool, events: seq<Event>)
    requires q.Valid() && !q.Foreign()
    modifies q`readIndex, q`writeIndex
    ensures q.Valid() && !q.Foreign()
    ensures Parsed(events, q.Bytes(), good) == Split(old(q.Bytes()), room)
  {
    good, events := true, [];
    ghost var whole := Split(q.Bytes(), room);
    ReceivedNothing(q.Bytes(), room);
    var more := true;
    while more && q.BytesReadable() >= 2
      invariant q.Valid() && !q.Foreign() && |events| <= room
      invariant if more then good && Underway(q.Bytes(), events, room, whole)
                else whole == Parsed(events, q.Bytes(), good)
      decreases more, |q.Bytes()|
    {
      more, good, events := ReceiveOne(q, events, room, whole);
    }
    if more {
      ReceivedLast(q.Bytes(), events, room, whole);
    }
  }

  lemma {:induction false} BeforeTwice(events: seq<Event>, e: Event, p: Parsed)
    ensures Before(events, Before([e], p)) == Before(events + [e], p)
  {
    assert events + ([e] + p.events) == (events + [e]) + p.events;
  }
}
