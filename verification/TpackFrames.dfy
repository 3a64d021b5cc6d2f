/** What tpack_encode and tpack_encodeVec put on the wire, and that it comes back: frames, fragments,
    and the reassembly of ltpack_t.c. */
module TpackFrames {
  import opened ByteRing
  import opened Tpack

  // ---------- Encoding ----------

  /** The opcode of a flag; a flag that is none of the seven gets opcode 0. */
  function Opcode(flag: nat): nat {
    if FRAME_TEXT <= flag <= FRAME_REPLY && flag % 16 == 0 then flag / 16 else 0
  }

  function TokenBytes(flag: nat, token: nat): seq<byte> {
    if TokenSize(flag) == 0 then []
    else [token / 0x1000000 % 256, token / 0x10000 % 256, token / 0x100 % 256, token % 256]
  }

  /** The bytes before the payload. */
  function HeadBytes(first: byte, tok: seq<byte>, length: nat): seq<byte>
    requires length <= FRAGMENT
  {
    if length < 0xff then [first, length] + tok else [first, 0xff, length / 256, length % 256] + tok
  }

  function Frame(first: byte, tok: seq<byte>, payload: seq<byte>): seq<byte>
    requires |payload| <= FRAGMENT
  {
    HeadBytes(first, tok, |payload|) + payload
  }

  /** The frames that follow the first fragment; a whole number of fragments ends with an empty one. */
  function Rest(tok: seq<byte>, payload: seq<byte>): seq<seq<byte>>
    decreases |payload|
  {
    if |payload| < FRAGMENT then [Frame(FRAME_FINAL, tok, payload)]
    else [Frame(0, tok, payload[..FRAGMENT])] + Rest(tok, payload[FRAGMENT..])
  }

  function Frames(flag: nat, token: nat, payload: seq<byte>): seq<seq<byte>> {
    var tok := TokenBytes(flag, token);
    if |payload| < FRAGMENT then [Frame(Opcode(flag) + FRAME_FINAL, tok, payload)]
    else [Frame(Opcode(flag), tok, payload[..FRAGMENT])] + Rest(tok, payload[FRAGMENT..])
  }

  // ---------- Splitting what was encoded ----------

  /** The token of a frame whose head carries one. */
  function TokenOf(tok: seq<byte>): nat {
    if |tok| == 4 then BigEndian(tok) else 0
  }

  lemma TokenComesBack(flag: nat, token: nat)
    requires token < 0x1_0000_0000
    ensures |TokenBytes(flag, token)| == TokenSize(flag)
    ensures TokenOf(TokenBytes(flag, token)) == if TokenSize(flag) == 0 then 0 else token
  {
    var a, b, c := token / 0x1000000, token / 0x10000, token / 0x100;
    assert c == token / 256 && b == c / 256 && a == b / 256;
    assert token == 256 * c + token % 256 && c == 256 * b + c % 256 && b == 256 * a + b % 256;
  }

  /** A frame is decoded as it was encoded, whatever follows it. */
  lemma {:induction false} DecodeFrame(first: byte, tok: seq<byte>, payload: seq<byte>, t: seq<byte>)
    requires |payload| <= FRAGMENT && first % 16 <= 7 && |tok| == TokenSize(first % 16 * 16)
    ensures var n := |HeadBytes(first, tok, |payload|)|;
            DecodeHead(Frame(first, tok, payload) + t)
            == Got(Head(|payload|, first % 16 * 16 + (if first >= 128 then FRAME_FINAL else 0), n))
  {
    var s := Frame(first, tok, payload) + t;
    assert s[0] == first;
    assert s[1] == HeadBytes(first, tok, |payload|)[1];
    if |payload| >= 0xff {
      assert s[2] == |payload| / 256 && s[3] == |payload| % 256;
    }
  }

  function FrameEvent(first: byte, tok: seq<byte>, payload: seq<byte>): Event
    requires |payload| <= FRAGMENT
  {
    if first >= 128 && first % 16 > 0 then Message(first % 16 * 16 + EVENT_MSG, TokenOf(tok), payload)
    else Raw(Frame(first, tok, payload))
  }

  lemma {:induction false} FrameGivesEvent(first: byte, tok: seq<byte>, payload: seq<byte>, t: seq<byte>)
    requires |payload| <= FRAGMENT && first % 16 <= 7 && |tok| == TokenSize(first % 16 * 16)
    ensures var s := Frame(first, tok, payload) + t;
            && DecodeHead(s).Got?
            && var h := DecodeHead(s).head;
               && h.offset + h.length == |Frame(first, tok, payload)| && h.length == |payload|
               && s[h.offset..h.offset + h.length] == payload
               && EventOf(h, s) == FrameEvent(first, tok, payload)
  {
    FrameToken(first, tok, payload, t);
    var head := HeadBytes(first, tok, |payload|);
    var s := Frame(first, tok, payload) + t;
    assert s[..|head| + |payload|] == Frame(first, tok, payload);
  }

  lemma {:induction false} FrameToken(first: byte, tok: seq<byte>, payload: seq<byte>, t: seq<byte>)
    requires |payload| <= FRAGMENT && first % 16 <= 7 && |tok| == TokenSize(first % 16 * 16)
    ensures var s, n := Frame(first, tok, payload) + t, |HeadBytes(first, tok, |payload|)|;
            && DecodeHead(s)
               == Got(Head(|payload|, first % 16 * 16 + (if first >= 128 then FRAME_FINAL else 0), n))
            && n + |payload| == |Frame(first, tok, payload)| <= |s|
            && Token(DecodeHead(s).head, s) == TokenOf(tok)
            && (|tok| == 4 ==> s[n - 4..n] == tok) && s[n..n + |payload|] == payload
  {
    DecodeFrame(first, tok, payload, t);
    var s, n := Frame(first, tok, payload) + t, |HeadBytes(first, tok, |payload|)|;
    Between(HeadBytes(first, [], |payload|), tok, payload, t);
    assert HeadBytes(first, tok, |payload|) == HeadBytes(first, [], |payload|) + tok;
    TokenAt(Head(|payload|, first % 16 * 16 + (if first >= 128 then FRAME_FINAL else 0), n), s, tok);
  }

  lemma {:induction false} Between(pre: seq<byte>, tok: seq<byte>, payload: seq<byte>, t: seq<byte>)
    ensures var s, n := pre + tok + payload + t, |pre + tok|;
            s[|pre|..n] == tok && s[n..n + |payload|] == payload
  {}

  lemma {:induction false} TokenAt(h: Head, s: seq<byte>, tok: seq<byte>)
    requires h.offset + h.length <= |s|
    requires if h.offset > 4 then |tok| == 4 && s[h.offset - 4..h.offset] == tok else |tok| == 0
    ensures Token(h, s) == TokenOf(tok)
  {}

  lemma {:induction false} SplitFrame(first: byte, tok: seq<byte>, payload: seq<byte>, t: seq<byte>, room: nat)
    requires |payload| <= FRAGMENT && first % 16 <= 7 && |tok| == TokenSize(first % 16 * 16) && room > 0
    ensures Split(Frame(first, tok, payload) + t, room) == Before([FrameEvent(first, tok, payload)], Split(t, room - 1))
  {
    var frame := Frame(first, tok, payload);
    FrameGivesEvent(first, tok, payload, t);
    SplitOnce(frame + t, room);
    assert (frame + t)[|frame|..] == t;
  }

  function Raws(frames: seq<seq<byte>>): seq<Event> {
    if frames == [] then [] else [Raw(frames[0])] + Raws(frames[1..])
  }

  lemma {:induction false} OneFrame(frame: seq<byte>)
    ensures Concat([frame]) == frame && Raws([frame]) == [Raw(frame)]
  {
    assert [frame][1..] == [];
    assert Concat([frame]) == frame + Concat([]);
  }

  lemma {:induction false} MoreFrames(frame: seq<byte>, rest: seq<seq<byte>>)
    ensures Concat([frame] + rest) == frame + Concat(rest) && Raws([frame] + rest) == [Raw(frame)] + Raws(rest)
  {
    assert ([frame] + rest)[1..] == rest;
  }

  ghost predicate SplitsTo(frames: seq<seq<byte>>, events: seq<Event>, t: seq<byte>, room: nat) {
    |frames| <= room ==> Split(Concat(frames) + t, room) == Before(events, Split(t, room - |frames|))
  }

  /** Whatever follows, the frames make these events, and exactly their bytes are used. */
  ghost predicate Yields(frames: seq<seq<byte>>, events: seq<Event>) {
    forall t: seq<byte>, room: nat :: SplitsTo(frames, events, t, room)
  }

  lemma {:induction false} YieldsOne(first: byte, tok: seq<byte>, payload: seq<byte>)
    requires |payload| <= FRAGMENT && first % 16 <= 7 && |tok| == TokenSize(first % 16 * 16)
    ensures Yields([Frame(first, tok, payload)], [FrameEvent(first, tok, payload)])
  {
    forall t: seq<byte>, room: nat
      ensures SplitsTo([Frame(first, tok, payload)], [FrameEvent(first, tok, payload)], t, room)
    {
      OneSplitsTo(first, tok, payload, t, room);
    }
  }

  lemma {:induction false} OneSplitsTo(first: byte, tok: seq<byte>, payload: seq<byte>, t: seq<byte>, room: nat)
    requires |payload| <= FRAGMENT && first % 16 <= 7 && |tok| == TokenSize(first % 16 * 16)
    ensures SplitsTo([Frame(first, tok, payload)], [FrameEvent(first, tok, payload)], t, room)
  {
    OneFrame(Frame(first, tok, payload));
    if room > 0 {
      SplitFrame(first, tok, payload, t, room);
    }
  }

  lemma {:induction false} YieldsBoth(frames: seq<seq<byte>>, events: seq<Event>,
                                      more: seq<seq<byte>>, moreEvents: seq<Event>)
    requires Yields(frames, events) && Yields(more, moreEvents)
    ensures Yields(frames + more, events + moreEvents)
  {
    forall t: seq<byte>, room: nat
      ensures SplitsTo(frames + more, events + moreEvents, t, room)
    {
      if |frames| + |more| <= room {
        assert SplitsTo(frames, events, Concat(more) + t, room);
        assert SplitsTo(more, moreEvents, t, room - |frames|);
        BothSplitTo(frames, events, more, moreEvents, t, room);
      }
    }
  }

  lemma {:induction false} BothSplitTo(frames: seq<seq<byte>>, events: seq<Event>,
                                       more: seq<seq<byte>>, moreEvents: seq<Event>, t: seq<byte>, room: nat)
    requires |frames| + |more| <= room
    requires SplitsTo(frames, events, Concat(more) + t, room) && SplitsTo(more, moreEvents, t, room - |frames|)
    ensures SplitsTo(frames + more, events + moreEvents, t, room)
  {
    var p := Split(t, room - |frames| - |more|);
    var m := Split(Concat(more) + t, room - |frames|);
    assert m == Before(moreEvents, p);
    BeforeBoth(events, moreEvents, p);
    ConcatBoth(frames, more, t);
    Chain(Concat(frames) + (Concat(more) + t), Concat(frames + more) + t, events, m, room);
  }

  lemma {:induction false} ConcatBoth(frames: seq<seq<byte>>, more: seq<seq<byte>>, t: seq<byte>)
    ensures Concat(frames + more) + t == Concat(frames) + (Concat(more) + t)
  {
    ConcatSplit(frames, more);
  }

  lemma {:induction false} Chain(s: seq<byte>, s': seq<byte>, events: seq<Event>, p: Parsed, room: nat)
    requires s == s' && Split(s, room) == Before(events, p)
    ensures Split(s', room) == Before(events, p)
  {}

  lemma {:induction false} BeforeBoth(events: seq<Event>, moreEvents: seq<Event>, p: Parsed)
    ensures Before(events + moreEvents, p) == Before(events, Before(moreEvents, p))
  {
    assert (events + moreEvents) + p.events == events + (moreEvents + p.events);
  }

  lemma {:induction false} YieldsRest(payload: seq<byte>)
    ensures Yields(Rest([], payload), Raws(Rest([], payload)))
    decreases |payload|
  {
    if |payload| < FRAGMENT {
      YieldsOne(FRAME_FINAL, [], payload);
      OneFrame(Frame(FRAME_FINAL, [], payload));
    } else {
      var frame, rest := Frame(0, [], payload[..FRAGMENT]), Rest([], payload[FRAGMENT..]);
      YieldsOne(0, [], payload[..FRAGMENT]);
      YieldsRest(payload[FRAGMENT..]);
      YieldsBoth([frame], [Raw(frame)], rest, Raws(rest));
      MoreFrames(frame, rest);
    }
  }

  // ---------- Tokens in continuation frames ----------

  /** A continuation frame that repeats a token is decoded as one without: the token and all but the last
      four bytes of the payload are its payload, and those four bytes begin the next frame. */
  lemma {:induction false} Reframed(first: byte, tok: seq<byte>, payload: seq<byte>, t: seq<byte>)
    requires |payload| <= FRAGMENT
    ensures |(tok + payload)[..|payload|]| == |payload|
    ensures Frame(first, tok, payload) + t
         == Frame(first, [], (tok + payload)[..|payload|]) + ((tok + payload)[|payload|..] + t)
  {
    var n := |payload|;
    var pre := HeadBytes(first, [], n);
    assert HeadBytes(first, tok, n) == pre + tok;
    Regrouped(pre, tok, payload, t, n);
  }

  lemma {:induction false} Regrouped(pre: seq<byte>, tok: seq<byte>, payload: seq<byte>, t: seq<byte>, n: nat)
    requires n <= |tok + payload|
    ensures pre + tok + payload + t == pre + (tok + payload)[..n] + ((tok + payload)[n..] + t)
  {
    assert tok + payload == (tok + payload)[..n] + (tok + payload)[n..];
  }

  predicate Zeros(s: seq<byte>) {
    forall i | 0 <= i < |s| :: s[i] == 0
  }

  /** The four bytes of the token 0. */
  predicate ZeroToken(tok: seq<byte>) {
    |tok| == 4 && Zeros(tok)
  }

  lemma {:induction false} ZerosShift(tok: seq<byte>, s: seq<byte>)
    requires ZeroToken(tok) && Zeros(s)
    ensures (tok + s)[..|s|] == s && (tok + s)[|s|..] == tok
  {}

  /** A continuation frame without payload. */
  function Empty(): seq<byte> {
    Frame(0, [], [])
  }

  lemma TwoEmpty(tok: seq<byte>)
    requires ZeroToken(tok)
    ensures Empty() + Empty() == tok
  {
    assert Empty() == [0, 0];
  }

  /** With a zero token and nothing but zeros, what is left over reads as two empty continuations. */
  lemma {:induction false} ZeroFrame(first: byte, tok: seq<byte>, zeros: seq<byte>, t: seq<byte>)
    requires |zeros| <= FRAGMENT && ZeroToken(tok) && Zeros(zeros)
    ensures Frame(first, tok, zeros) + t == Frame(first, [], zeros) + (Empty() + (Empty() + t))
  {
    Reframed(first, tok, zeros, t);
    ZerosShift(tok, zeros);
    TwoEmpty(tok);
    Twice(Empty(), tok, t);
  }

  lemma {:induction false} Twice(e: seq<byte>, tok: seq<byte>, t: seq<byte>)
    requires e + e == tok
    ensures tok + t == e + (e + t)
  {}

  /** The frames that the decoder sees in place of Rest, when all is zero. */
  function SeenRest(zeros: seq<byte>): seq<seq<byte>>
    decreases |zeros|
  {
    if |zeros| < FRAGMENT then [Frame(FRAME_FINAL, [], zeros), Empty(), Empty()]
    else [Frame(0, [], zeros[..FRAGMENT]), Empty(), Empty()] + SeenRest(zeros[FRAGMENT..])
  }

  lemma {:induction false} ConcatThree(a: seq<byte>, b: seq<byte>, c: seq<byte>, more: seq<seq<byte>>)
    ensures Concat([a, b, c] + more) == a + (b + (c + Concat(more)))
  {
    assert [a, b, c] + more == [a] + ([b] + ([c] + more));
    MoreFrames(c, more);
    MoreFrames(b, [c] + more);
    MoreFrames(a, [b] + ([c] + more));
  }

  lemma {:induction false} SameBytes(tok: seq<byte>, zeros: seq<byte>)
    requires ZeroToken(tok) && Zeros(zeros)
    ensures Concat(SeenRest(zeros)) == Concat(Rest(tok, zeros))
    decreases |zeros|
  {
    if |zeros| < FRAGMENT {
      var frame := Frame(FRAME_FINAL, tok, zeros);
      OneFrame(frame);
      ZeroFrame(FRAME_FINAL, tok, zeros, []);
      ConcatThree(Frame(FRAME_FINAL, [], zeros), Empty(), Empty(), []);
      assert SeenRest(zeros) + [] == SeenRest(zeros) && frame + [] == frame;
    } else {
      var z, more := zeros[..FRAGMENT], zeros[FRAGMENT..];
      SameBytes(tok, more);
      ConcatThree(Frame(0, [], z), Empty(), Empty(), SeenRest(more));
      ZeroFrame(0, tok, z, Concat(SeenRest(more)));
      MoreFrames(Frame(0, tok, z), Rest(tok, more));
    }
  }

  // ---------- Messages ----------

  /** Whether the fragments after the first carry a token. */
  predicate Repeats(flag: nat, payload: seq<byte>) {
    TokenSize(flag) > 0 && |payload| >= FRAGMENT
  }

  /** The frames of a message as the decoder sees them. */
  function Seen(flag: nat, token: nat, payload: seq<byte>): seq<seq<byte>> {
    if Repeats(flag, payload) then
      [Frame(Opcode(flag), TokenBytes(flag, token), payload[..FRAGMENT])] + SeenRest(payload[FRAGMENT..])
    else Frames(flag, token, payload)
  }

  /** The events that one message makes: itself, or its frames. */
  function EventsOf(flag: nat, token: nat, payload: seq<byte>): seq<Event> {
    if |payload| < FRAGMENT && Opcode(flag) > 0 then
      [Message(flag + EVENT_MSG, if TokenSize(flag) == 0 then 0 else token, payload)]
    else Raws(Seen(flag, token, payload))
  }

  /** A flag that has an opcode, and a token of 32 bits. */
  predicate Known(flag: nat, token: nat) {
    FRAME_TEXT <= flag <= FRAME_REPLY && flag % 16 == 0 && token < 0x1_0000_0000
  }

  /** The messages that come back (module TpackTokens has the converse): of one frame, or without a token,
      or with the token 0 and nothing but zeros behind the first fragment. */
  predicate Sound(flag: nat, token: nat, payload: seq<byte>) {
    Known(flag, token) && (Repeats(flag, payload) ==> token == 0 && Zeros(payload[FRAGMENT..]))
  }

  /** Whatever follows on the stream, a message makes its own events, and exactly its bytes are used. */
  lemma {:induction false} YieldsMessage(flag: nat, token: nat, payload: seq<byte>)
    requires Sound(flag, token, payload)
    ensures Concat(Seen(flag, token, payload)) == Concat(Frames(flag, token, payload))
    ensures Yields(Seen(flag, token, payload), EventsOf(flag, token, payload))
  {
    if |payload| < FRAGMENT {
      YieldsSingle(flag, token, payload);
    } else if TokenSize(flag) == 0 {
      OpcodeOf(flag);
      YieldsFragments(Opcode(flag), payload);
    } else {
      OpcodeOf(flag);
      TokenComesBack(flag, token);
      YieldsZeros(Opcode(flag), TokenBytes(flag, token), payload);
    }
  }

  lemma {:induction false} YieldsSingle(flag: nat, token: nat, payload: seq<byte>)
    requires Known(flag, token) && |payload| < FRAGMENT
    ensures Yields(Frames(flag, token, payload), EventsOf(flag, token, payload))
  {
    TokenComesBack(flag, token);
    OpcodeOf(flag);
    YieldsOne(Opcode(flag) + FRAME_FINAL, TokenBytes(flag, token), payload);
  }

  lemma {:induction false} YieldsZeros(opcode: byte, tok: seq<byte>, payload: seq<byte>)
    requires |payload| >= FRAGMENT && ZeroToken(tok) && Zeros(payload[FRAGMENT..]) && 3 <= opcode <= 7
    ensures var frame, rest := Frame(opcode, tok, payload[..FRAGMENT]), SeenRest(payload[FRAGMENT..]);
            && Concat([frame] + rest) == Concat([frame] + Rest(tok, payload[FRAGMENT..]))
            && Yields([frame] + rest, Raws([frame] + rest))
  {
    var frame, rest := Frame(opcode, tok, payload[..FRAGMENT]), SeenRest(payload[FRAGMENT..]);
    SameBytes(tok, payload[FRAGMENT..]);
    MoreFrames(frame, rest);
    MoreFrames(frame, Rest(tok, payload[FRAGMENT..]));
    YieldsOne(opcode, tok, payload[..FRAGMENT]);
    YieldsSeen(payload[FRAGMENT..]);
    YieldsBoth([frame], [Raw(frame)], rest, Raws(rest));
  }

  lemma {:induction false} YieldsSeen(zeros: seq<byte>)
    ensures Yields(SeenRest(zeros), Raws(SeenRest(zeros)))
    decreases |zeros|
  {
    if |zeros| < FRAGMENT {
      YieldsThree(FRAME_FINAL, zeros);
    } else {
      var three, rest := [Frame(0, [], zeros[..FRAGMENT]), Empty(), Empty()], SeenRest(zeros[FRAGMENT..]);
      YieldsThree(0, zeros[..FRAGMENT]);
      YieldsSeen(zeros[FRAGMENT..]);
      YieldsBoth(three, Raws(three), rest, Raws(rest));
      RawsBoth(three, rest);
    }
  }

  lemma {:induction false} YieldsThree(first: byte, part: seq<byte>)
    requires |part| <= FRAGMENT && first % 16 == 0
    ensures var three := [Frame(first, [], part), Empty(), Empty()]; Yields(three, Raws(three))
  {
    var frame := Frame(first, [], part);
    YieldsOne(first, [], part);
    YieldsOne(0, [], []);
    YieldsBoth([Empty()], [Raw(Empty())], [Empty()], [Raw(Empty())]);
    YieldsBoth([frame], [Raw(frame)], [Empty()] + [Empty()], [Raw(Empty())] + [Raw(Empty())]);
    RawsThree(frame);
  }

  lemma {:induction false} RawsThree(frame: seq<byte>)
    ensures [frame, Empty(), Empty()] == [frame] + ([Empty()] + [Empty()])
    ensures Raws([frame, Empty(), Empty()]) == [Raw(frame)] + ([Raw(Empty())] + [Raw(Empty())])
  {
    OneFrame(Empty());
    MoreFrames(Empty(), [Empty()]);
    MoreFrames(frame, [Empty()] + [Empty()]);
    assert [frame, Empty(), Empty()] == [frame] + ([Empty()] + [Empty()]);
  }

  lemma {:induction false} RawsBoth(frames: seq<seq<byte>>, more: seq<seq<byte>>)
    ensures Raws(frames + more) == Raws(frames) + Raws(more)
  {
    if frames == [] {
      assert frames + more == more;
    } else {
      assert (frames + more)[1..] == frames[1..] + more;
      RawsBoth(frames[1..], more);
    }
  }

  lemma OpcodeOf(flag: nat)
    requires FRAME_TEXT <= flag <= FRAME_REPLY && flag % 16 == 0
    ensures var code := Opcode(flag);
            && 1 <= code <= 7 && code * 16 == flag && (code + FRAME_FINAL) % 16 == code % 16 == code
            && (TokenSize(flag) == 0 ==> code <= 2)
  {}

  lemma {:induction false} YieldsFragments(opcode: byte, payload: seq<byte>)
    requires |payload| >= FRAGMENT && opcode <= 2
    ensures var frames := [Frame(opcode, [], payload[..FRAGMENT])] + Rest([], payload[FRAGMENT..]);
            Yields(frames, Raws(frames))
  {
    var frame, rest := Frame(opcode, [], payload[..FRAGMENT]), Rest([], payload[FRAGMENT..]);
    YieldsOne(opcode, [], payload[..FRAGMENT]);
    YieldsRest(payload[FRAGMENT..]);
    YieldsBoth([frame], [Raw(frame)], rest, Raws(rest));
    MoreFrames(frame, rest);
  }
}
