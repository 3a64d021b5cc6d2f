/** eventConnection_handleRecv: one readv scatters the arriving bytes over the free runs of the ring and
    a scratch buffer, and the ring takes them over.  The socket is a parameter: the bytes delivered. */
module EventConnection {
  import opened ByteRing
  import opened ByteQueue

  const RECV_BUFFER_MAX_LENGTH := 65536    // g_nRecvBufferMaxLength

  /** An iovec: a run of the ring's buffer, or the scratch buffer. */
  datatype Piece = InRing(at: nat, length: nat) | Scratch

  function Length(p: Piece): nat {
    if p.InRing? then p.length else RECV_BUFFER_MAX_LENGTH
  }

  /** The list of pieces given to one readv. */
  datatype IoVec = End | Then(piece: Piece, rest: IoVec)

  function Space(iov: IoVec): nat {
    if iov.End? then 0 else Length(iov.piece) + Space(iov.rest)
  }

  /** The pieces that follow the runs of a ring with `writable` free bytes. */
  function Tail(writable: int): IoVec {
    if writable < RECV_BUFFER_MAX_LENGTH then Then(Scratch, End) else End
  }

  /** The pieces for a ring. */
  function Pieces(q: Ring): IoVec
    requires Ok(q)
  {
    Sizes(q);
    var run := WriteRun(q);
    var writable := Writable(q);
    if writable == 0 then Then(Scratch, End)
    else if run == writable then Then(InRing(q.w, run), Tail(writable))
    else Then(InRing(q.w, run), Then(InRing(0, writable - run), Tail(writable)))
  }

  /** Every list offers all of the room, and at least 65536 bytes. */
  lemma SpaceOffered(q: Ring)
    requires Ok(q)
    ensures Space(Pieces(q)) == Writable(q) + if Writable(q) < 65536 then 65536 else 0
  {
    Sizes(q);
    assert Space(Then(Scratch, End)) == RECV_BUFFER_MAX_LENGTH + Space(End);
    assert Space(Tail(Writable(q))) == if Writable(q) < RECV_BUFFER_MAX_LENGTH then RECV_BUFFER_MAX_LENGTH else 0;
  }

  predicate Within(p: Piece, size: nat) {
    p.InRing? ==> p.at + p.length <= size
  }

  predicate Fit(iov: IoVec, size: nat) {
    iov.End? || (Within(iov.piece, size) && Fit(iov.rest, size))
  }

  lemma {:induction false} FitThen(p: Piece, rest: IoVec, size: nat)
    requires Within(p, size) && Fit(rest, size)
    ensures Fit(Then(p, rest), size)
  {}

  lemma {:induction false} TailFits(writable: int, size: nat)
    ensures Fit(Tail(writable), size)
  {
    FitThen(Scratch, End, size);
  }

  lemma {:induction false} PiecesFit(q: Ring)
    requires Ok(q)
    ensures Fit(Pieces(q), |q.buf|) && Fit(Tail(Writable(q)), |q.buf|)
  {
    Sizes(q);
    var run, writable, tail := WriteRun(q), Writable(q), Tail(Writable(q));
    TailFits(writable, |q.buf|);
    FitThen(Scratch, End, |q.buf|);
    FitThen(InRing(q.w, run), tail, |q.buf|);
    FitThen(InRing(0, writable - run), tail, |q.buf|);
    FitThen(InRing(q.w, run), Then(InRing(0, writable - run), tail), |q.buf|);
  }

  /** What readv leaves in the ring's buffer and in the scratch buffer. */
  function Scattered(buf: seq<byte>, scratch: seq<byte>, iov: IoVec, bytes: seq<byte>): (seq<byte>, seq<byte>)
    requires Fit(iov, |buf|) && |scratch| == RECV_BUFFER_MAX_LENGTH
    decreases iov
  {
    if iov.End? then (buf, scratch)
    else if |bytes| <= Length(iov.piece) then
      if iov.piece.InRing? then (Over(buf, iov.piece.at, bytes), scratch) else (buf, Over(scratch, 0, bytes))
    else
      var n := Length(iov.piece);
      if iov.piece.InRing? then Scattered(Over(buf, iov.piece.at, bytes[..n]), scratch, iov.rest, bytes[n..])
      else Scattered(buf, Over(scratch, 0, bytes[..n]), iov.rest, bytes[n..])
  }

  /** readv, or recv into the scratch buffer alone. */
  method Readv(buf: array<byte>, scratch: array<byte>, iov: IoVec, bytes: seq<byte>)
    requires Fit(iov, buf.Length) && scratch.Length == RECV_BUFFER_MAX_LENGTH && buf != scratch
    modifies buf, scratch
    ensures (buf[..], scratch[..]) == Scattered(old(buf[..]), old(scratch[..]), iov, bytes)
    decreases iov
  {
    if iov.Then? {
      var n := if Length(iov.piece) < |bytes| then Length(iov.piece) else |bytes|;
      assert bytes[..|bytes|] == bytes;
      if iov.piece.InRing? {
        ByteQueue.Copy(buf, iov.piece.at, bytes[..n]);
      } else {
        ByteQueue.Copy(scratch, 0, bytes[..n]);
      }
      if n < |bytes| {
        Readv(buf, scratch, iov.rest, bytes[n..]);
      }
    }
  }

  /** The rest, behind the runs of the ring. */
  lemma {:induction false} ScatterTail(buf: seq<byte>, scratch: seq<byte>, tail: IoVec, bytes: seq<byte>)
    requires |scratch| == RECV_BUFFER_MAX_LENGTH && |bytes| <= RECV_BUFFER_MAX_LENGTH
    requires tail == Then(Scratch, End) || (tail == End && bytes == [])
    ensures Fit(tail, |buf|)
    ensures var (buf', scratch') := Scattered(buf, scratch, tail, bytes);
            buf' == buf && |scratch'| == |scratch| && scratch'[..|bytes|] == bytes
  {}

  /** How many of the bytes that arrive find room in the ring. */
  function Roomy(arrived: nat, writable: nat): nat {
    if arrived < writable then arrived else writable
  }

  /** The bytes go to the room of the ring first; the scratch buffer gets the rest. */
  ghost predicate Delivers(q: Ring, scratch: seq<byte>, bytes: seq<byte>)
    requires Ok(q) && |scratch| == RECV_BUFFER_MAX_LENGTH
  {
    PiecesFit(q);
    Sizes(q);
    var n := Roomy(|bytes|, Writable(q));
    var (buf', scratch') := Scattered(q.buf, scratch, Pieces(q), bytes);
    && buf' == Stored(q, bytes[..n]).buf
    && |scratch'| == |scratch| && |bytes| - n <= |scratch'| && scratch'[..|bytes| - n] == bytes[n..]
  }

  lemma {:induction false} DeliversOneRun(q: Ring, scratch: seq<byte>, bytes: seq<byte>)
    requires Ok(q) && |scratch| == RECV_BUFFER_MAX_LENGTH && |bytes| <= Space(Pieces(q))
    requires WriteRun(q) == Writable(q)
    ensures Delivers(q, scratch, bytes)
  {
    PiecesFit(q);
    Sizes(q);
    SpaceOffered(q);
    var run := WriteRun(q);
    if run == 0 {
      assert Stored(q, bytes[..0]).buf == q.buf;
      ScatterTail(q.buf, scratch, Then(Scratch, End), bytes);
    } else if |bytes| > run {
      ScatterTail(Over(q.buf, q.w, bytes[..run]), scratch, Tail(run), bytes[run..]);
    } else {
      assert bytes[..|bytes|] == bytes;
    }
  }

  /** Stored in two runs, all of the first and part of the second. */
  lemma {:induction false} StoredTwoRuns(q: Ring, bytes: seq<byte>, n: nat)
    requires Ok(q) && WriteRun(q) < n <= Writable(q) && n <= |bytes|
    ensures 0 <= WriteRun(q) && q.w + WriteRun(q) <= |q.buf|
    ensures Stored(q, bytes[..n]).buf
         == Over(Over(q.buf, q.w, bytes[..WriteRun(q)]), 0, bytes[WriteRun(q)..][..n - WriteRun(q)])
  {
    Sizes(q);
    assert bytes[..n][..WriteRun(q)] == bytes[..WriteRun(q)];
    assert bytes[..n][WriteRun(q)..] == bytes[WriteRun(q)..][..n - WriteRun(q)];
  }

  /** What follows the first run. */
  lemma {:induction false} SecondRun(buf: seq<byte>, scratch: seq<byte>, length: nat, tail: IoVec,
                                     more: seq<byte>, n: nat)
    requires |scratch| == RECV_BUFFER_MAX_LENGTH && length <= |buf| && Fit(tail, |buf|)
    requires |more| <= length + RECV_BUFFER_MAX_LENGTH
    requires tail == Then(Scratch, End) || (tail == End && |more| <= length)
    requires n == if |more| < length then |more| else length
    ensures var (buf', scratch') := Scattered(buf, scratch, Then(InRing(0, length), tail), more);
            && buf' == Over(buf, 0, more[..n])
            && |scratch'| == |scratch| && |more| - n <= |scratch'| && scratch'[..|more| - n] == more[n..]
  {
    if |more| > length {
      SecondRunFull(buf, scratch, length, tail, more);
    } else {
      assert more[..n] == more;
    }
  }

  lemma {:induction false} SecondRunFull(buf: seq<byte>, scratch: seq<byte>, length: nat, tail: IoVec, more: seq<byte>)
    requires |scratch| == RECV_BUFFER_MAX_LENGTH && length <= |buf| && Fit(tail, |buf|)
    requires length < |more| <= length + RECV_BUFFER_MAX_LENGTH && tail == Then(Scratch, End)
    ensures var (buf', scratch') := Scattered(buf, scratch, Then(InRing(0, length), tail), more);
            && buf' == Over(buf, 0, more[..length])
            && |scratch'| == |scratch| && scratch'[..|more| - length] == more[length..]
  {
    ScatterTail(Over(buf, 0, more[..length]), scratch, tail, more[length..]);
  }

  lemma {:induction false} DeliversTwoRuns(q: Ring, scratch: seq<byte>, bytes: seq<byte>)
    requires Ok(q) && |scratch| == RECV_BUFFER_MAX_LENGTH && |bytes| <= Space(Pieces(q))
    requires WriteRun(q) < Writable(q)
    ensures Delivers(q, scratch, bytes)
  {
    PiecesFit(q);
    Sizes(q);
    SpaceOffered(q);
    var run, writable := WriteRun(q), Writable(q);
    if |bytes| <= run {
      assert bytes[..|bytes|] == bytes;
    } else {
      var n := Roomy(|bytes|, writable);
      SecondRun(Over(q.buf, q.w, bytes[..run]), scratch, writable - run, Tail(writable), bytes[run..], n - run);
      StoredTwoRuns(q, bytes, n);
      assert bytes[run..][n - run..] == bytes[n..];
    }
  }

  lemma {:induction false} AllDeliver(q: Ring, scratch: seq<byte>, bytes: seq<byte>)
    requires Ok(q) && |scratch| == RECV_BUFFER_MAX_LENGTH && |bytes| <= Space(Pieces(q))
    ensures Delivers(q, scratch, bytes) && Fit(Pieces(q), |q.buf|)
  {
    PiecesFit(q);
    Sizes(q);
    if WriteRun(q) == Writable(q) {
      DeliversOneRun(q, scratch, bytes);
    } else {
      DeliversTwoRuns(q, scratch, bytes);
    }
  }

  /** The readv of a ring: nothing readable changes, and what has room is the front of the room. */
  method Scatter(q: ByteQueue, scratch: array<byte>, delivered: seq<byte>, writable: nat)
    requires q.Valid() && scratch.Length == RECV_BUFFER_MAX_LENGTH && scratch != q.buffer
    requires |delivered| <= Space(Pieces(q.Now())) && writable == q.Capacity() - |q.Bytes()|
    modifies q.buffer, scratch
    ensures q.Valid() && q.Bytes() == old(q.Bytes()) && q.Foreign() == old(q.Foreign())
    ensures delivered[..Roomy(|delivered|, writable)] <= Room(q.Now())
    ensures var n := |delivered| - Roomy(|delivered|, writable);
            n <= scratch.Length && scratch[..n] == delivered[Roomy(|delivered|, writable)..]
  {
    Sizes(q.Now());
    AllDeliver(q.Now(), scratch[..], delivered);
    StoredFits(q.Now(), delivered[..Roomy(|delivered|, writable)]);
    Readv(q.buffer, scratch, Pieces(Ring(q.buffer[..], q.readIndex, q.writeIndex)), delivered);
    assert q.Now() == Stored(old(q.Now()), delivered[..Roomy(|delivered|, writable)]);
  }

  /** The ring takes over what readv delivered. */
  method Take(q: ByteQueue, scratch: array<byte>, delivered: seq<byte>, writable: nat)
    requires q.Valid() && scratch != q.buffer && writable == q.Capacity() - |q.Bytes()|
    requires delivered[..Roomy(|delivered|, writable)] <= Room(q.Now())
    requires var n := |delivered| - Roomy(|delivered|, writable);
             n <= scratch.Length && scratch[..n] == delivered[Roomy(|delivered|, writable)..]
    modifies q, q.buffer
    ensures q.Valid() && fresh({q.buffer} - {old(q.buffer)})
    ensures delivered == [] ==> q.Bytes() == old(q.Bytes()) && q.Foreign() == old(q.Foreign())
    ensures delivered != [] ==> q.Bytes() == old(q.Kept()) + delivered && !q.Foreign()
  {
    if 0 < |delivered| <= writable {
      assert delivered[..|delivered|] == delivered;
      q.WriteOffset(|delivered|);
    } else if 0 < |delivered| {
      TakeAll(q, scratch[..|delivered| - writable], delivered, writable);
    }
  }

  lemma {:induction false} Rejoined(s: seq<byte>, d: seq<byte>, n: nat)
    requires n <= |d|
    ensures (s + d[..n]) + d[n..] == s + d
  {}

  /** The room is full, and the ring grows by what is left. */
  method TakeAll(q: ByteQueue, left: seq<byte>, ghost delivered: seq<byte>, writable: nat)
    requires q.Valid() && writable == q.Capacity() - |q.Bytes()| && writable < |delivered|
    requires delivered[..writable] <= Room(q.Now()) && left == delivered[writable..]
    modifies q, q.buffer
    ensures q.Valid() && fresh({q.buffer} - {old(q.buffer)}) && !q.Foreign()
    ensures q.Bytes() == old(q.Kept()) + delivered
  {
    Rejoined(q.Kept(), delivered, writable);
    if writable != 0 {
      q.WriteOffset(writable);
    } else {
      assert q.Kept() + delivered[..0] == q.Kept();
    }
    q.WriteBytes(left);
  }

  /** handleRecv up to the callback: whatever the state of the ring and the number of bytes delivered,
      the ring has the delivered bytes behind its old content, which a foreign buffer loses as soon as
      anything arrives.  `delivered` is what readv returned. */
  method Receive(q: ByteQueue, scratch: array<byte>, delivered: seq<byte>)
    requires q.Valid() && scratch.Length == RECV_BUFFER_MAX_LENGTH && scratch != q.buffer
    requires |delivered| <= Space(Pieces(q.Now()))
    modifies q, q.buffer, scratch
    ensures q.Valid() && fresh({q.buffer} - {old(q.buffer)})
    ensures delivered == [] ==> q.Bytes() == old(q.Bytes()) && q.Foreign() == old(q.Foreign())
    ensures delivered != [] ==> q.Bytes() == old(q.Kept()) + delivered && !q.Foreign()
  {
    var writable := q.BytesWritable();
    Scatter(q, scratch, delivered, writable);
    Take(q, scratch, delivered, writable);
  }

  /** handleRecv after the callback: a buffer that was less than half full is halved, down to `least`
      (256 for TCP, MAXIMUM_MTU_SIZE otherwise).  `readable` was measured before the callback, which
      may have consumed bytes. */
  method AfterCallback(q: ByteQueue, readable: nat, least: nat)
    requires q.Valid()
    modifies q
    ensures q.Valid() && (q.Foreign() ==> old(q.Foreign()))
    ensures !old(q.Foreign()) ==> q.Bytes() == old(q.Bytes())
    ensures var n := if least > old(q.Capacity()) / 2 then least else old(q.Capacity()) / 2;
            if readable * 2 < old(q.Capacity()) && old(|q.Bytes()|) <= n
            then q.Bytes() == old(q.Kept()) && q.Capacity() == n
            else q.Bytes() == old(q.Bytes()) && q.Capacity() == old(q.Capacity())
    ensures fresh({q.buffer} - {old(q.buffer)})
  {
    if readable * 2 < q.buffer.Length {
      q.Reserve(if least > q.buffer.Length / 2 then least else q.buffer.Length / 2);
    }
  }
}
