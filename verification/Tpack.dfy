/** The tpack wire format of tpack_t.h and tpack_t.c, on byte sequences: frames, their heads, the
    fragments of a message, and the stream of events that a receiver splits them into. */
module Tpack {
  import opened ByteRing

  const FRAME_FINAL := 0x80
  const FRAME_TEXT := 0x10
  const FRAME_CLOSE := 0x30
  const FRAME_REPLY := 0x70
  const EVENT_MSG := 10

  /** The longest payload of one frame. */
  const FRAGMENT := 0xffff

  // ---------- Heads ----------

  /** tpackHead_tt; a decode needs more bytes (0), fails (-1), or has a head (1). */
  datatype Head = Head(length: nat, flag: nat, offset: nat)

  datatype Decoded = More | Bad | Got(head: Head)

  /** Opcodes 3 to 7 carry a token of four bytes. */
  function TokenSize(flag: nat): nat {
    if FRAME_CLOSE <= flag <= FRAME_REPLY && flag % 16 == 0 then 4 else 0
  }

  /** The head of a frame whose length field ends at `size`, when n bytes have arrived. */
  function HeadOf(first: byte, length: nat, size: nat, n: nat): Decoded {
    var flag := first % 16 * 16;
    var offset := size + TokenSize(flag);
    if length + offset > n then More
    else Got(Head(length, if first >= 128 then flag + FRAME_FINAL else flag, offset))
  }

  function DecodeHead(s: seq<byte>): Decoded {
    if |s| < 2 then More
    else if s[0] % 16 > 7 then Bad
    else if s[1] < 0xff then HeadOf(s[0], s[1], 2, |s|)
    else if |s| < 4 then More
    else HeadOf(s[0], s[2] as int * 256 + s[3], 4, |s|)
  }

  predicate Final(flag: nat) {
    flag >= FRAME_FINAL
  }

  /** What a head says is the truth about any bytes it was decoded from, and never changes as more
      bytes arrive. */
  lemma {:induction false} DecodeStable(s: seq<byte>, t: seq<byte>)
    ensures DecodeHead(s) != More ==> DecodeHead(s + t) == DecodeHead(s)
    ensures DecodeHead(s).Got? ==>
              var h := DecodeHead(s).head; 2 <= h.offset && h.offset + h.length <= |s| && h.length <= FRAGMENT
  {}

  function BigEndian(s: seq<byte>): nat
    requires |s| == 4
  {
    ((s[0] as int * 256 + s[1]) * 256 + s[2]) * 256 + s[3]
  }

  // ---------- Splitting a stream ----------

  /** What the stream hands to the service: a whole message, or a raw frame to be reassembled. */
  datatype Event = Message(kind: nat, token: nat, payload: seq<byte>) | Raw(bytes: seq<byte>)

  /** (flag & DEF_TP_CODE_MASK) | DEF_EVENT_MSG */
  function Kind(flag: nat): nat {
    flag % 128 + EVENT_MSG
  }

  function Token(h: Head, s: seq<byte>): nat
    requires h.offset + h.length <= |s|
  {
    if h.offset > 4 then BigEndian(s[h.offset - 4..h.offset]) else 0
  }

  function EventOf(h: Head, s: seq<byte>): Event
    requires h.offset + h.length <= |s|
  {
    if Final(h.flag) && h.flag != FRAME_FINAL then
      Message(Kind(h.flag), Token(h, s), s[h.offset..h.offset + h.length])
    else Raw(s[..h.offset + h.length])
  }

  /** The events of a stream, the bytes left over, and whether the stream is still good.  The service
      accepts `room` more events; the event it refuses is lost. */
  datatype Parsed = Parsed(events: seq<Event>, rest: seq<byte>, good: bool)

  function Split(s: seq<byte>, room: nat): Parsed
    decreases |s|
  {
    match DecodeHead(s)
    case More => Parsed([], s, true)
    case Bad => Parsed([], s, false)
    case Got(h) =>
      DecodeStable(s, []);
      var n := h.offset + h.length;
      if room == 0 then Parsed([], s[n..], false)
      else
        var p := Split(s[n..], room - 1);
        p.(events := [EventOf(h, s)] + p.events)
  }

  lemma {:induction false} EventStable(h: Head, s: seq<byte>, t: seq<byte>)
    requires h.offset + h.length <= |s|
    ensures EventOf(h, s + t) == EventOf(h, s)
  {
    assert (s + t)[..h.offset + h.length] == s[..h.offset + h.length];
    assert (s + t)[h.offset..h.offset + h.length] == s[h.offset..h.offset + h.length];
    if h.offset > 4 {
      assert (s + t)[h.offset - 4..h.offset] == s[h.offset - 4..h.offset];
    }
  }

  function Before(events: seq<Event>, p: Parsed): Parsed {
    p.(events := events + p.events)
  }

  /** The same events and the same verdict, and the same bytes left if the stream is good. */
  predicate Same(p: Parsed, q: Parsed) {
    p.events == q.events && p.good == q.good && (p.good ==> p.rest == q.rest)
  }

  /** Splitting what has arrived, then the rest with what arrives next. */
  function Resumed(p: Parsed, t: seq<byte>, room: nat): Parsed
    requires |p.events| <= room
  {
    if p.good then Before(p.events, Split(p.rest + t, room - |p.events|)) else p
  }

  lemma {:induction false} SplitOnce(s: seq<byte>, room: nat)
    requires DecodeHead(s).Got? && room > 0
    ensures var h := DecodeHead(s).head;
            && h.offset + h.length <= |s| && h.offset + h.length > 0
            && Split(s, room) == Before([EventOf(h, s)], Split(s[h.offset + h.length..], room - 1))
  {
    DecodeStable(s, []);
  }

  lemma {:induction false} SplitNone(s: seq<byte>, room: nat)
    requires !DecodeHead(s).Got? || room == 0
    ensures Split(s, room).events == []
  {}

  lemma {:induction false} EventCount(s: seq<byte>, room: nat)
    ensures |Split(s, room).events| <= room
    decreases |s|
  {
    if DecodeHead(s).Got? && room > 0 {
      SplitOnce(s, room);
      var h := DecodeHead(s).head;
      EventCount(s[h.offset + h.length..], room - 1);
    } else {
      SplitNone(s, room);
    }
  }

  /** A frame that is complete is split off in the same way when more follows. */
  lemma {:induction false} SplitOff(s: seq<byte>, t: seq<byte>, room: nat) returns (e: Event, rest: seq<byte>)
    requires DecodeHead(s).Got? && room > 0
    ensures |rest| < |s|
    ensures Split(s, room) == Before([e], Split(rest, room - 1))
    ensures Split(s + t, room) == Before([e], Split(rest + t, room - 1))
  {
    var h := DecodeHead(s).head;
    DecodeStable(s, t);
    EventStable(h, s, t);
    e, rest := EventOf(h, s), s[h.offset + h.length..];
    SplitAs(s, h, e, rest, room);
    DropOn(s, t, h.offset + h.length);
    SplitAs(s + t, h, e, rest + t, room);
  }

  lemma {:induction false} DropOn(s: seq<byte>, t: seq<byte>, n: nat)
    requires n <= |s|
    ensures (s + t)[n..] == s[n..] + t
  {}

  lemma {:induction false} SplitAs(s: seq<byte>, h: Head, e: Event, rest: seq<byte>, room: nat)
    requires DecodeHead(s) == Got(h) && room > 0
    requires h.offset + h.length <= |s| && e == EventOf(h, s) && rest == s[h.offset + h.length..]
    ensures Split(s, room) == Before([e], Split(rest, room - 1))
  {
    SplitOnce(s, room);
  }

  lemma {:induction false} ResumedOnce(e: Event, p: Parsed, w: Parsed, t: seq<byte>, room: nat)
    requires |p.events| < room && Same(w, Resumed(p, t, room - 1))
    ensures Same(Before([e], w), Resumed(Before([e], p), t, room))
  {
    if p.good {
      var more := Split(p.rest + t, room - 1 - |p.events|).events;
      assert ([e] + p.events) + more == [e] + (p.events + more);
    }
  }

  /** That is splitting it all. */
  lemma {:induction false} SplitOn(s: seq<byte>, t: seq<byte>, room: nat)
    ensures |Split(s, room).events| <= room && Same(Split(s + t, room), Resumed(Split(s, room), t, room))
    decreases |s|
  {
    EventCount(s, room);
    if DecodeHead(s) == More {
      assert Split(s, room).events == [];
    } else if DecodeHead(s).Got? && room > 0 {
      SplitOnGot(s, t, room);
    } else {
      DecodeStable(s, t);
    }
  }

  lemma {:induction false} SplitOnGot(s: seq<byte>, t: seq<byte>, room: nat)
    requires DecodeHead(s).Got? && room > 0
    ensures |Split(s, room).events| <= room && Same(Split(s + t, room), Resumed(Split(s, room), t, room))
    decreases |s|, 0
  {
    var e, rest := SplitOff(s, t, room);
    SplitOn(rest, t, room - 1);
    ResumedOnce(e, Split(rest, room - 1), Split(rest + t, room - 1), t, room);
  }

  /** Chunks as they arrive, one receive callback each; a bad stream is closed. */
  function Feed(held: seq<byte>, chunks: seq<seq<byte>>, room: nat): Parsed
    decreases |chunks|
  {
    if chunks == [] then Parsed([], held, true)
    else
      var p := Split(held + chunks[0], room);
      EventCount(held + chunks[0], room);
      if !p.good then p else Before(p.events, Feed(p.rest, chunks[1..], room - |p.events|))
  }

  function Concat(chunks: seq<seq<byte>>): seq<byte> {
    if chunks == [] then [] else chunks[0] + Concat(chunks[1..])
  }

  lemma {:induction false} ConcatSplit(chunks: seq<seq<byte>>, more: seq<seq<byte>>)
    ensures Concat(chunks + more) == Concat(chunks) + Concat(more)
  {
    if chunks == [] {
      assert chunks + more == more;
    } else {
      assert (chunks + more)[1..] == chunks[1..] + more;
      ConcatSplit(chunks[1..], more);
    }
  }

  /** However a stream is cut into chunks, the events are those of the whole stream. */
  lemma {:induction false} ChunkingIsInvisible(held: seq<byte>, chunks: seq<seq<byte>>, room: nat)
    requires DecodeHead(held) == More
    ensures Same(Feed(held, chunks, room), Split(held + Concat(chunks), room))
    decreases |chunks|
  {
    if chunks == [] {
      assert held + Concat(chunks) == held;
    } else {
      var s := held + chunks[0];
      var p := Split(s, room);
      EventCount(s, room);
      if p.good {
        RestIsMore(s, room);
        ChunkingIsInvisible(p.rest, chunks[1..], room - |p.events|);
      }
      ChunkFirst(held, chunks, room);
    }
  }

  /** The first chunk, when the others make no difference. */
  lemma {:induction false} ChunkFirst(held: seq<byte>, chunks: seq<seq<byte>>, room: nat)
    requires chunks != [] && |Split(held + chunks[0], room).events| <= room
    requires var p := Split(held + chunks[0], room);
             p.good ==>
               Same(Feed(p.rest, chunks[1..], room - |p.events|),
                    Split(p.rest + Concat(chunks[1..]), room - |p.events|))
    ensures Same(Feed(held, chunks, room), Split(held + Concat(chunks), room))
  {
    var s, rest := held + chunks[0], Concat(chunks[1..]);
    assert held + Concat(chunks) == s + rest;
    var p := Split(s, room);
    SplitOn(s, rest, room);
    if p.good {
      FeedAfter(s, p, chunks[1..], rest, room);
    }
  }

  lemma {:induction false} FeedAfter(s: seq<byte>, p: Parsed, chunks: seq<seq<byte>>, rest: seq<byte>, room: nat)
    requires p.good && |p.events| <= room && Same(Split(s + rest, room), Resumed(p, rest, room))
    requires Same(Feed(p.rest, chunks, room - |p.events|), Split(p.rest + rest, room - |p.events|))
    ensures Same(Before(p.events, Feed(p.rest, chunks, room - |p.events|)), Split(s + rest, room))
  {
    BeforeSame(p.events, Feed(p.rest, chunks, room - |p.events|), Split(p.rest + rest, room - |p.events|));
  }

  lemma {:induction false} BeforeSame(events: seq<Event>, p: Parsed, q: Parsed)
    requires Same(p, q)
    ensures Same(Before(events, p), Before(events, q))
  {}

  /** What a good split leaves over is not a frame yet. */
  lemma {:induction false} RestIsMore(s: seq<byte>, room: nat)
    ensures Split(s, room).good ==> DecodeHead(Split(s, room).rest) == More
    decreases |s|
  {
    match DecodeHead(s)
    case More =>
    case Bad =>
    case Got(h) =>
      DecodeStable(s, []);
      if room > 0 {
        RestIsMore(s[h.offset + h.length..], room - 1);
      }
  }
}
