/** What a byte ring is for: over whole runs of its operations it is a first-in first-out sequence. */
module ByteFifo {
  import opened ByteRing
  import opened ByteQueue

  datatype Op =
    | Put(bytes: seq<byte>)          // byteQueue_write
    | PutExact(bytes: seq<byte>)     // byteQueue_writeBytes
    | Arrive(bytes: seq<byte>)       // bytes stored in the room, then byteQueue_writeOffset
    | Take(max: nat)                 // byteQueue_readBytes
    | Peek(max: nat)                 // byteQueue_readBytes, peeking
    | Skip(n: nat)                   // byteQueue_readOffset
    | Reset
    | Reserve(n: nat)

  /** A sequence with a capacity, all bytes ever put and taken (or skipped), and what was peeked. */
  datatype Fifo = Fifo(bytes: seq<byte>, capacity: nat, put: seq<byte>, taken: seq<byte>, peeked: seq<seq<byte>>)

  function Least(a: nat, b: nat): nat {
    if a < b then a else b
  }

  /** The assertions of the operations. */
  predicate Legal(f: Fifo, op: Op) {
    match op
    case Put(bytes) => bytes != []
    case PutExact(bytes) => bytes != []
    case Arrive(bytes) => bytes != [] && |f.bytes| + |bytes| <= f.capacity
    case Skip(n) => n <= |f.bytes|
    case _ => true
  }

  function Add(f: Fifo, bytes: seq<byte>, capacity: nat): Fifo {
    f.(bytes := f.bytes + bytes, put := f.put + bytes, capacity := capacity)
  }

  function Drop(f: Fifo, n: nat): Fifo
    requires n <= |f.bytes|
  {
    f.(bytes := f.bytes[n..], taken := f.taken + f.bytes[..n])
  }

  function Next(f: Fifo, op: Op): Fifo
    requires Legal(f, op) && |f.bytes| <= f.capacity
  {
    match op
    case Put(bytes) =>
      Add(f, bytes, if f.capacity == 0 then Align256(|bytes|)
                    else if |f.bytes| + |bytes| <= f.capacity then f.capacity
                    else Align256(2 * f.capacity + |bytes| - (f.capacity - |f.bytes|)))
    case PutExact(bytes) =>
      Add(f, bytes, if |f.bytes| + |bytes| <= f.capacity then f.capacity else |f.bytes| + |bytes|)
    case Arrive(bytes) => Add(f, bytes, f.capacity)
    case Take(max) => Drop(f, Least(max, |f.bytes|))
    case Peek(max) => f.(peeked := f.peeked + [f.bytes[..Least(max, |f.bytes|)]])
    case Skip(n) => Drop(f, n)
    case Reset => Drop(f, |f.bytes|)
    case Reserve(n) => if |f.bytes| > n then f else f.(capacity := n)
  }

  /** A run skips what the assertions forbid. */
  function Run(f: Fifo, ops: seq<Op>): Fifo
    requires |f.bytes| <= f.capacity
    decreases |ops|
  {
    if ops == [] then f
    else if Legal(f, ops[0]) then
      CapacityHolds(f, ops[0]);
      Run(Next(f, ops[0]), ops[1..])
    else Run(f, ops[1..])
  }

  lemma CapacityHolds(f: Fifo, op: Op)
    requires Legal(f, op) && |f.bytes| <= f.capacity
    ensures |Next(f, op).bytes| <= Next(f, op).capacity
  {}

  /** What an operation that takes bytes out of the ring hands over; none, for the others. */
  function Out(f: Fifo, op: Op): (out: seq<byte>)
    requires Legal(f, op) && |f.bytes| <= f.capacity
    ensures Next(f, op).taken == f.taken + out && (op.Put? || op.PutExact? || op.Arrive? || out <= f.bytes)
  {
    match op
    case Take(max) => f.bytes[..Least(max, |f.bytes|)]
    case Skip(n) => f.bytes[..n]
    case Reset => f.bytes
    case _ => []
  }

  predicate Takes(op: Op) {
    op.Take? || op.Skip? || op.Reset?
  }

  /** One operation on the ring does what it does to the sequence. */
  method Perform(q: ByteQueue, ghost f: Fifo, op: Op) returns (out: seq<byte>)
    requires q.Valid() && !q.Foreign() && q.Bytes() == f.bytes && q.Capacity() == f.capacity && Legal(f, op)
    modifies q, q.buffer
    ensures q.Valid() && !q.Foreign() && fresh({q.buffer} - {old(q.buffer)})
    ensures |f.bytes| <= f.capacity && q.Bytes() == Next(f, op).bytes && q.Capacity() == Next(f, op).capacity
    ensures out == if op.Peek? then f.bytes[..Least(op.max, |f.bytes|)] else Out(f, op)
  {
    Runs(q.Now());
    if Takes(op) || op.Peek? {
      out := Get(q, f, op);
    } else {
      out := [];
      match op
      case Put(bytes) => q.Write(bytes);
      case PutExact(bytes) => q.WriteBytes(bytes);
      case Arrive(bytes) => q.Append(bytes);
      case Reserve(n) => q.Reserve(n);
    }
  }

  method Get(q: ByteQueue, ghost f: Fifo, op: Op) returns (out: seq<byte>)
    requires q.Valid() && !q.Foreign() && q.Bytes() == f.bytes && q.Capacity() == f.capacity && Legal(f, op)
    requires (Takes(op) || op.Peek?) && |f.bytes| <= f.capacity
    modifies q`readIndex, q`writeIndex
    ensures q.Valid() && !q.Foreign() && q.buffer == old(q.buffer) && q.Bytes() == Next(f, op).bytes
    ensures out == if op.Peek? then f.bytes[..Least(op.max, |f.bytes|)] else Out(f, op)
  {
    match op
    case Take(max) =>
      var _, taken := q.ReadBytes(max, false);
      out := taken;
    case Peek(max) =>
      var _, seen := q.ReadBytes(max, true);
      out := seen;
    case Skip(n) =>
      var _, seen := q.ReadBytes(n, true);
      q.ReadOffset(n);
      out := seen;
    case Reset =>
      var _, seen := q.ReadBytes(q.BytesReadable(), true);
      q.Reset();
      out := seen;
  }

  /** Bytes come out in order, each once: everything taken, then what is held, is everything put. */
  lemma {:induction false} InOrder(f: Fifo, ops: seq<Op>)
    requires |f.bytes| <= f.capacity && f.put == f.taken + f.bytes
    ensures var f' := Run(f, ops); f'.put == f'.taken + f'.bytes && |f'.bytes| <= f'.capacity
    decreases |ops|
  {
    if ops != [] {
      if Legal(f, ops[0]) {
        CapacityHolds(f, ops[0]);
        InOrderOnce(f, ops[0]);
        InOrder(Next(f, ops[0]), ops[1..]);
      } else {
        InOrder(f, ops[1..]);
      }
    }
  }

  lemma InOrderOnce(f: Fifo, op: Op)
    requires |f.bytes| <= f.capacity && f.put == f.taken + f.bytes && Legal(f, op)
    ensures Next(f, op).put == Next(f, op).taken + Next(f, op).bytes
  {
    var out := Out(f, op);
    if Takes(op) {
      assert f.bytes == out + f.bytes[|out|..];
      assert f.taken + f.bytes == (f.taken + out) + f.bytes[|out|..];
    } else if !op.Peek? && !op.Reserve? {
      assert f.taken + f.bytes + op.bytes == f.taken + (f.bytes + op.bytes);
    }
  }

  /** A new queue follows the sequence through a whole run. */
  method Replay(nCapacity: nat, ops: seq<Op>) returns (q: ByteQueue, taken: seq<byte>)
    ensures fresh(q) && q.Valid() && !q.Foreign()
    ensures var f := Run(Fifo([], nCapacity, [], [], []), ops);
            && q.Bytes() == f.bytes && q.Capacity() == f.capacity && taken == f.taken
            && f.put == taken + q.Bytes()
  {
    q := new ByteQueue(nCapacity);
    taken := [];
    ghost var f := Fifo([], nCapacity, [], [], []);
    InOrder(f, ops);
    ghost var end := Run(f, ops);
    var i := 0;
    while i < |ops|
      invariant i <= |ops| && fresh(q) && fresh(q.buffer) && q.Valid() && !q.Foreign()
      invariant q.Bytes() == f.bytes && q.Capacity() == f.capacity && taken == f.taken && |f.bytes| <= f.capacity
      invariant Run(f, ops[i..]) == end
    {
      assert ops[i..][0] == ops[i] && ops[i..][1..] == ops[i + 1..];
      var legal := match ops[i]
                   case Put(bytes) => bytes != []
                   case PutExact(bytes) => bytes != []
                   case Arrive(bytes) => bytes != [] && |bytes| <= q.BytesWritable()
                   case Skip(n) => n <= q.BytesReadable()
                   case _ => true;
      assert legal <==> Legal(f, ops[i]);
      if legal {
        var out := Perform(q, f, ops[i]);
        CapacityHolds(f, ops[i]);
        f := Next(f, ops[i]);
        if Takes(ops[i]) {
          taken := taken + out;
        }
      }
      i := i + 1;
    }
  }

  /** The state in which byteQueue_writeChar misses the buffer is reachable: fill the ring, reserve
      exactly what it holds, read a byte. */
  method EdgeIsReachable() returns (q: ByteQueue)
    ensures q.Valid() && !q.Foreign() && q.AtTheEdge()
  {
    q := new ByteQueue(2);
    q.Write([1, 2]);
    q.Reserve(2);
    q.ReadOffset(1);
  }
}
