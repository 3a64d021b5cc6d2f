/** The byte ring of byteQueue_t.h and byteQueue_t.c, as a value.

    pBuffer is an array whose length is nCapacity (a null pBuffer is the empty array); malloc does not
    fail and sizes do not overflow. */
module ByteRing {
  type byte = b: int | 0 <= b < 256

  /** A ring as a value: the buffer, nReadIndex and nWriteIndex. */
  datatype Ring = Ring(buf: seq<byte>, r: nat, w: nat)

  /** The index pairs a queue can have: nothing to read (r at the end, w = 0), something to read
      (r before the end; w = r means full, and w is at the end after an exact reserve), and the state
      that byteQueue_swapBuffer leaves (both at the end). */
  predicate Ok(q: Ring) {
    q.r <= |q.buf| && q.w <= |q.buf| && (q.r == |q.buf| ==> q.w == 0 || q.w == |q.buf|)
  }

  predicate Swapped(q: Ring) {
    q.r == |q.buf| && q.w == |q.buf| && |q.buf| > 0
  }

  /** What can be read, in order. */
  function Contents(q: Ring): seq<byte>
    requires Ok(q)
  {
    if q.w > q.r then q.buf[q.r..q.w] else q.buf[q.r..] + q.buf[..q.w]
  }

  /** What will be overwritten, in order. */
  function Room(q: Ring): seq<byte>
    requires Ok(q)
  {
    if q.r >= q.w then q.buf[q.w..q.r] else q.buf[q.w..] + q.buf[..q.r]
  }

  /** byteQueue_getBytesReadable and byteQueue_getBytesWritable. */
  function Readable(q: Ring): int {
    if q.w > q.r then q.w - q.r else q.w + (|q.buf| - q.r)
  }

  function Writable(q: Ring): int {
    if q.r >= q.w then q.r - q.w else q.r + (|q.buf| - q.w)
  }

  /** The sizes of the runs that byteQueue_peekContiguousBytesRead and ...Write hand out. */
  function ReadRun(q: Ring): int {
    if q.w > q.r then q.w - q.r else |q.buf| - q.r
  }

  function WriteRun(q: Ring): int {
    if q.r >= q.w then q.r - q.w else |q.buf| - q.w
  }

  /** Readable and writable bytes are what they say, and add up to the capacity. */
  lemma Sizes(q: Ring)
    requires Ok(q)
    ensures Readable(q) == |Contents(q)| && Writable(q) == |Room(q)| && Readable(q) + Writable(q) == |q.buf|
    ensures 0 <= ReadRun(q) <= Readable(q) && 0 <= WriteRun(q) <= Writable(q)
  {}

  /** A queue says it is empty (r at the end) exactly when nothing is readable, except after
      byteQueue_swapBuffer; and what is readable, or writable, is one run and a run at the start. */
  lemma Runs(q: Ring)
    requires Ok(q)
    ensures q.r == |q.buf| <==> Contents(q) == [] || Swapped(q)
    ensures 0 <= ReadRun(q) <= Readable(q) <= |q.buf| && 0 <= WriteRun(q) <= Writable(q) <= |q.buf|
    ensures Contents(q) == q.buf[q.r..q.r + ReadRun(q)] + q.buf[..Readable(q) - ReadRun(q)]
    ensures Room(q) == q.buf[q.w..q.w + WriteRun(q)] + q.buf[..Writable(q) - WriteRun(q)]
  {
    Sizes(q);
    TwoRuns(q.buf, q.r, q.w);
    TwoRuns(q.buf, q.w, q.r);
  }

  /** What lies from one index to another, around the end. */
  lemma {:induction false} TwoRuns(buf: seq<byte>, from: nat, to: nat)
    requires from <= |buf| && to <= |buf|
    ensures from <= to ==> buf[from..to] == buf[from..from + (to - from)] + buf[..0]
    ensures buf[from..] + buf[..to] == buf[from..from + (|buf| - from)] + buf[..to]
  {}

  /** An index past the end continues at the start. */
  function Wrapped(x: nat, m: nat): nat {
    if x < m then x else x - m
  }

  /** The byte at position i, counted around the end. */
  function Around(buf: seq<byte>, i: nat): byte
    requires i < 2 * |buf|
  {
    buf[Wrapped(i, |buf|)]
  }

  /** `s` is what the ring holds from the read index on, byte by byte. */
  ghost predicate ReadsAs(q: Ring, s: seq<byte>) {
    && Ok(q) && |s| == Readable(q) && q.r + |s| <= 2 * |q.buf|
    && forall k | 0 <= k < |s| :: s[k] == Around(q.buf, q.r + k)
  }

  /** `s` is what the ring holds from the write index on. */
  ghost predicate OffersAs(q: Ring, s: seq<byte>) {
    && Ok(q) && |s| == Writable(q) && q.w + |s| <= 2 * |q.buf|
    && forall k | 0 <= k < |s| :: s[k] == Around(q.buf, q.w + k)
  }

  lemma {:induction false} ContentsRead(q: Ring)
    requires Ok(q)
    ensures ReadsAs(q, Contents(q))
  {}

  lemma {:induction false} RoomOffered(q: Ring)
    requires Ok(q)
    ensures OffersAs(q, Room(q))
  {}

  lemma {:induction false} SameRead(q: Ring, s: seq<byte>, t: seq<byte>)
    requires ReadsAs(q, s) && ReadsAs(q, t)
    ensures s == t
  {}

  lemma {:induction false} SameOffered(q: Ring, s: seq<byte>, t: seq<byte>)
    requires OffersAs(q, s) && OffersAs(q, t)
    ensures s == t
  {}

  /** The front of the contents, in one piece or in two. */
  function Front(q: Ring, n: nat): seq<byte>
    requires Ok(q) && n <= Readable(q)
  {
    if ReadRun(q) >= n then q.buf[q.r..q.r + n] else q.buf[q.r..q.r + ReadRun(q)] + q.buf[..n - ReadRun(q)]
  }

  lemma {:induction false} FrontOf(q: Ring, n: nat, s: seq<byte>)
    requires ReadsAs(q, s) && n <= |s|
    ensures Front(q, n) == s[..n]
  {}

  lemma {:induction false} FrontIsFront(q: Ring, n: nat)
    requires Ok(q) && n <= Readable(q)
    ensures n <= |Contents(q)| && Front(q, n) == Contents(q)[..n]
  {
    ContentsRead(q);
    FrontOf(q, n, Contents(q));
  }

  lemma {:induction false} Multiple(d: nat, m: nat)
    ensures d >= 1 ==> d * m >= m
    ensures d >= 2 ==> d * m >= 2 * m
  {
    if d >= 2 {
      Multiple(d - 1, m);
      assert d * m == (d - 1) * m + m;
    }
  }

  /** For indices less than twice the capacity, that is the remainder. */
  lemma WrapIsRemainder(x: nat, m: nat)
    requires x < 2 * m
    ensures x % m == Wrapped(x, m)
  {
    Multiple(x / m, m);
    assert x == (x / m) * m + x % m;
  }

  method Wrap(x: nat, m: nat) returns (y: nat)
    requires x < 2 * m
    ensures y == Wrapped(x, m)
  {
    WrapIsRemainder(x, m);
    y := x % m;
  }

  /** byteQueue_readOffset */
  function Consumed(q: Ring, n: nat): Ring
    requires Ok(q) && n <= Readable(q)
  {
    if Readable(q) == n then q.(r := |q.buf|, w := 0) else q.(r := Wrapped(q.r + n, |q.buf|))
  }

  lemma {:induction false} ConsumedReads(q: Ring, n: nat, s: seq<byte>)
    requires ReadsAs(q, s) && n <= |s|
    ensures ReadsAs(Consumed(q, n), s[n..]) && (n > 0 || !Swapped(q) ==> !Swapped(Consumed(q, n)))
  {}

  lemma {:induction false} ConsumedContents(q: Ring, n: nat)
    requires Ok(q) && n <= Readable(q)
    ensures Ok(Consumed(q, n)) && n <= |Contents(q)| && Contents(Consumed(q, n)) == Contents(q)[n..]
    ensures n > 0 || !Swapped(q) ==> !Swapped(Consumed(q, n))
  {
    ContentsRead(q);
    ConsumedReads(q, n, Contents(q));
    ContentsRead(Consumed(q, n));
    SameRead(Consumed(q, n), Contents(q)[n..], Contents(Consumed(q, n)));
  }

  /** byteQueue_writeOffset */
  function Produced(q: Ring, n: nat): Ring
    requires Ok(q) && 0 < n <= Writable(q)
  {
    q.(w := Wrapped(q.w + n, |q.buf|), r := if q.r == |q.buf| then 0 else q.r)
  }

  /** The next byte goes behind everything readable. */
  lemma {:induction false} ProducedReads(q: Ring, n: nat, s: seq<byte>, room: seq<byte>)
    requires ReadsAs(q, s) && OffersAs(q, room) && 0 < n <= |room|
    ensures ReadsAs(Produced(q, n), s + room[..n]) && !Swapped(Produced(q, n))
  {}

  lemma {:induction false} ProducedOffers(q: Ring, n: nat, room: seq<byte>)
    requires OffersAs(q, room) && 0 < n <= |room|
    ensures OffersAs(Produced(q, n), room[n..])
  {}

  lemma {:induction false} ProducedContents(q: Ring, n: nat)
    requires Ok(q) && 0 < n <= Writable(q)
    ensures Ok(Produced(q, n)) && !Swapped(Produced(q, n)) && n <= |Room(q)|
    ensures Contents(Produced(q, n)) == Contents(q) + Room(q)[..n]
  {
    ContentsRead(q);
    RoomOffered(q);
    ProducedReads(q, n, Contents(q), Room(q));
    ContentsRead(Produced(q, n));
    SameRead(Produced(q, n), Contents(q) + Room(q)[..n], Contents(Produced(q, n)));
  }

  lemma {:induction false} ProducedRoom(q: Ring, n: nat)
    requires Ok(q) && 0 < n <= Writable(q)
    ensures Ok(Produced(q, n)) && n <= |Room(q)| && Room(Produced(q, n)) == Room(q)[n..]
  {
    RoomOffered(q);
    ProducedOffers(q, n, Room(q));
    RoomOffered(Produced(q, n));
    SameOffered(Produced(q, n), Room(q)[n..], Room(Produced(q, n)));
  }

  /** Writing bytes over the front of the room, in one piece or in two. */
  function Over(buf: seq<byte>, at: nat, bytes: seq<byte>): seq<byte>
    requires at + |bytes| <= |buf|
  {
    buf[..at] + bytes + buf[at + |bytes|..]
  }

  lemma {:induction false} OverInTurn(buf: seq<byte>, first: seq<byte>, second: seq<byte>)
    requires |first| + |second| <= |buf|
    ensures Over(buf, 0, first)[..|first|] == first
    ensures Over(Over(buf, 0, first), |first|, second)[..|first| + |second|] == first + second
  {}

  function Stored(q: Ring, bytes: seq<byte>): Ring
    requires Ok(q) && |bytes| <= Writable(q)
  {
    var run := WriteRun(q);
    if run >= |bytes| then q.(buf := Over(q.buf, q.w, bytes))
    else q.(buf := Over(Over(q.buf, q.w, bytes[..run]), 0, bytes[run..]))
  }

  /** Position i of the ring after storing, counted from the write index. */
  lemma {:induction false} StoredAt(q: Ring, bytes: seq<byte>, k: nat)
    requires Ok(q) && |bytes| <= Writable(q) && k < |q.buf|
    ensures |Stored(q, bytes).buf| == |q.buf| && q.w + k < 2 * |q.buf|
    ensures Around(Stored(q, bytes).buf, q.w + k) == if k < |bytes| then bytes[k] else Around(q.buf, q.w + k)
  {}

  /** Counted from the read index, storing changes nothing that can be read. */
  lemma {:induction false} StoredElsewhere(q: Ring, bytes: seq<byte>, k: nat)
    requires Ok(q) && |bytes| <= Writable(q) && k < Readable(q)
    ensures |Stored(q, bytes).buf| == |q.buf| && q.r + k < 2 * |q.buf|
    ensures Around(Stored(q, bytes).buf, q.r + k) == Around(q.buf, q.r + k)
  {
    var behind := if q.r == |q.buf| then k else k + Writable(q);
    assert Wrapped(q.w + behind, |q.buf|) == Wrapped(q.r + k, |q.buf|);
    StoredAt(q, bytes, behind);
  }

  lemma {:induction false} StoredReads(q: Ring, bytes: seq<byte>, s: seq<byte>)
    requires ReadsAs(q, s) && |bytes| <= Writable(q)
    ensures ReadsAs(Stored(q, bytes), s)
  {
    var q' := Stored(q, bytes);
    forall k | 0 <= k < |s|
      ensures s[k] == Around(q'.buf, q'.r + k)
    {
      StoredElsewhere(q, bytes, k);
    }
  }

  lemma {:induction false} StoredOffers(q: Ring, bytes: seq<byte>, room: seq<byte>)
    requires OffersAs(q, room) && |bytes| <= |room|
    ensures OffersAs(Stored(q, bytes), bytes + room[|bytes|..])
  {
    forall k | 0 <= k < |room|
      ensures Around(Stored(q, bytes).buf, q.w + k) == (bytes + room[|bytes|..])[k]
    {
      StoredAt(q, bytes, k);
    }
  }

  lemma {:induction false} StoredContents(q: Ring, bytes: seq<byte>)
    requires Ok(q) && |bytes| <= Writable(q)
    ensures |Stored(q, bytes).buf| == |q.buf| && Ok(Stored(q, bytes))
    ensures Contents(Stored(q, bytes)) == Contents(q)
  {
    ContentsRead(q);
    StoredReads(q, bytes, Contents(q));
    ContentsRead(Stored(q, bytes));
    SameRead(Stored(q, bytes), Contents(q), Contents(Stored(q, bytes)));
  }

  lemma {:induction false} StoredRoom(q: Ring, bytes: seq<byte>)
    requires Ok(q) && |bytes| <= Writable(q)
    ensures Ok(Stored(q, bytes)) && |bytes| <= |Room(Stored(q, bytes))|
    ensures Room(Stored(q, bytes))[..|bytes|] == bytes
  {
    RoomOffered(q);
    StoredOffers(q, bytes, Room(q));
    RoomOffered(Stored(q, bytes));
    SameOffered(Stored(q, bytes), bytes + Room(q)[|bytes|..], Room(Stored(q, bytes)));
  }

  lemma {:induction false} StoredFits(q: Ring, bytes: seq<byte>)
    requires Ok(q) && |bytes| <= Writable(q)
    ensures var q' := Stored(q, bytes);
            && Ok(q') && Contents(q') == Contents(q) && bytes <= Room(q') && (Swapped(q') <==> Swapped(q))
            && |q'.buf| == |q.buf|
  {
    StoredContents(q, bytes);
    StoredRoom(q, bytes);
  }

  /** align_size(n, 256): the mask clears the low eight bits. */
  function Align256(n: nat): (m: nat)
    ensures n <= m < n + 256 && m % 256 == 0
  {
    (n + 255) / 256 * 256
  }
}
