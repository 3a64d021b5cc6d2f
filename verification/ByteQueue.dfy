/** byteQueue_tt: the byte ring of ByteRing in an array that grows. */
module ByteQueue {
  import opened ByteRing

  class ByteQueue {
    var buffer: array<byte>    // pBuffer
    var readIndex: nat
    var writeIndex: nat

    ghost function Now(): Ring
      reads this, buffer
    {
      Ring(buffer[..], readIndex, writeIndex)
    }

    ghost predicate Valid()
      reads this, buffer
    {
      Ok(Now())
    }

    ghost function Bytes(): seq<byte>
      requires Valid()
      reads this, buffer
    {
      Contents(Now())
    }

    /** The queue holds a foreign buffer: readable, but byteQueue_empty holds. */
    ghost predicate Foreign()
      reads this, buffer
    {
      Swapped(Now())
    }

    /** What growing and reserving keep: everything, except of a foreign buffer. */
    ghost function Kept(): seq<byte>
      requires Valid()
      reads this, buffer
    {
      if Foreign() then [] else Bytes()
    }

    function Capacity(): nat
      reads this
    {
      buffer.Length
    }

    constructor (nCapacity: nat)
      ensures Valid() && !Foreign() && Bytes() == [] && Capacity() == nCapacity && fresh(buffer)
    {
      buffer := new byte[nCapacity];
      readIndex := nCapacity;
      writeIndex := 0;
    }

    method Clear()
      modifies this
      ensures Valid() && !Foreign() && Bytes() == [] && Capacity() == 0 && fresh(buffer)
    {
      buffer := new byte[0];
      readIndex := 0;
      writeIndex := 0;
    }

    predicate Empty()
      requires Valid()
      reads this, buffer
      ensures Empty() <==> Bytes() == [] || Foreign()
    {
      Runs(Now());
      readIndex == buffer.Length
    }

    function BytesReadable(): (n: nat)
      requires Valid()
      reads this, buffer
      ensures n == |Bytes()|
    {
      Sizes(Now());
      if writeIndex > readIndex then writeIndex - readIndex else writeIndex + (buffer.Length - readIndex)
    }

    function BytesWritable(): (n: nat)
      requires Valid()
      reads this, buffer
      ensures n == Capacity() - |Bytes()|
    {
      Sizes(Now());
      if readIndex >= writeIndex then readIndex - writeIndex else readIndex + (buffer.Length - writeIndex)
    }

    function ContiguousRead(): (n: nat)
      requires Valid()
      reads this, buffer
      ensures n == ReadRun(Now()) && buffer[readIndex..readIndex + n] <= Bytes()
    {
      Runs(Now());
      if writeIndex > readIndex then writeIndex - readIndex else buffer.Length - readIndex
    }

    function ContiguousWrite(): (n: nat)
      requires Valid()
      reads this, buffer
      ensures n == WriteRun(Now()) && buffer[writeIndex..writeIndex + n] <= Room(Now())
    {
      Runs(Now());
      if readIndex >= writeIndex then readIndex - writeIndex else buffer.Length - writeIndex
    }

    /** memcpy into an array. */
    static method Copy(dst: array<byte>, at: nat, bytes: seq<byte>)
      requires at + |bytes| <= dst.Length
      modifies dst
      ensures dst[..] == Over(old(dst[..]), at, bytes)
    {
      forall k | 0 <= k < |bytes| {
        dst[at + k] := bytes[k];
      }
    }

    method ReadOffset(n: nat)
      requires Valid() && n <= |Bytes()|
      modifies this`readIndex, this`writeIndex
      ensures Valid() && Bytes() == old(Bytes())[n..] && (n > 0 || !old(Foreign()) ==> !Foreign())
      ensures n < old(|Bytes()|) ==>
                writeIndex == old(writeIndex) && readIndex == Wrapped(old(readIndex) + n, Capacity())
    {
      ghost var before := Now();
      Sizes(before);
      ConsumedContents(before, n);
      if BytesReadable() == n {
        readIndex := buffer.Length;
        writeIndex := 0;
      } else {
        readIndex := Wrap(readIndex + n, buffer.Length);
      }
      assert Now() == Consumed(before, n);
    }

    /** The bytes written behind the queue's back become readable. */
    method WriteOffset(n: nat)
      requires Valid() && 0 < n <= Capacity() - |Bytes()|
      modifies this`readIndex, this`writeIndex
      ensures Valid() && !Foreign() && old(n <= |Room(Now())|) && Bytes() == old(Bytes()) + old(Room(Now())[..n])
      ensures n < old(Capacity() - |Bytes()|) ==> Room(Now()) == old(Room(Now())[n..])
    {
      ghost var before := Now();
      Sizes(before);
      ProducedContents(before, n);
      if n < Writable(before) { ProducedRoom(before, n); }
      writeIndex := Wrap(writeIndex + n, buffer.Length);
      if readIndex == buffer.Length {
        readIndex := 0;
      }
      assert Now() == Produced(before, n);
    }

    method Reset()
      modifies this`readIndex, this`writeIndex
      ensures Valid() && !Foreign() && Bytes() == []
    {
      readIndex := buffer.Length;
      writeIndex := 0;
    }

    /** Peeking or consuming at most `max` bytes. */
    method ReadBytes(max: nat, peek: bool) returns (ok: bool, out: seq<byte>)
      requires Valid()
      modifies this`readIndex, this`writeIndex
      ensures Valid() && (!old(Foreign()) ==> !Foreign())
      ensures ok <==> max > 0 && old(Bytes()) != []
      ensures out == old(Bytes())[..if max < old(|Bytes()|) then max else old(|Bytes()|)]
      ensures Bytes() == if peek then old(Bytes()) else old(Bytes())[|out|..]
    {
      var n := if BytesReadable() < max then BytesReadable() else max;
      if n == 0 {
        return false, [];
      }
      out := CopyOut(n);
      ok := true;
      if !peek {
        ReadOffset(n);
      }
    }

    /** memcpy of the front of the contents, in one piece or in two. */
    method CopyOut(n: nat) returns (out: seq<byte>)
      requires Valid() && n <= |Bytes()|
      ensures out == Bytes()[..n]
    {
      Sizes(Now());
      FrontIsFront(Now(), n);
      var run := ContiguousRead();
      if run >= n {
        out := buffer[readIndex..readIndex + n];
      } else {
        out := buffer[readIndex..readIndex + run] + buffer[..n - run];
      }
    }

    /** memcpy of two runs, one behind the other. */
    static method CopyTwo(dst: array<byte>, first: seq<byte>, second: seq<byte>)
      requires |first| + |second| <= dst.Length
      modifies dst
      ensures dst[..|first| + |second|] == first + second
    {
      OverInTurn(dst[..], first, second);
      Copy(dst, 0, first);
      if |second| != 0 {
        Copy(dst, |first|, second);
      }
    }

    /** Copying what is readable to the start of another array. */
    method Unroll(target: array<byte>)
      requires Valid() && |Bytes()| <= target.Length && target != buffer
      modifies target
      ensures target[..|Bytes()|] == Bytes()
    {
      Runs(Now());
      var n := BytesReadable();
      var run := ContiguousRead();
      var first, second := buffer[readIndex..readIndex + run], buffer[..n - run];
      assert first + second == Bytes();
      CopyTwo(target, first, second);
    }

    /** The block that every growing operation repeats: what is readable moves to the start of a new
        buffer. */
    method Relocate(nCapacity: nat)
      requires Valid() && |Kept()| <= nCapacity
      modifies this
      ensures Valid() && !Foreign() && Bytes() == old(Kept()) && Capacity() == nCapacity && fresh(buffer)
      ensures Bytes() != [] ==> readIndex == 0 && writeIndex == |Bytes()|
      ensures Bytes() == [] && nCapacity > 0 ==> writeIndex < nCapacity
    {
      Runs(Now());
      var newBuffer := new byte[nCapacity];
      if readIndex != buffer.Length {
        Unroll(newBuffer);
        writeIndex := BytesReadable();
        readIndex := 0;
      } else {
        readIndex := nCapacity;
        writeIndex := 0;
      }
      buffer := newBuffer;
    }

    method Reserve(nCapacity: nat)
      requires Valid()
      modifies this
      ensures Valid() && fresh({buffer} - {old(buffer)})
      ensures if old(|Bytes()|) > nCapacity then Bytes() == old(Bytes()) && Capacity() == old(Capacity())
              else Bytes() == old(Kept()) && Capacity() == nCapacity && !Foreign()
      ensures old(Foreign()) || !Foreign()
      ensures 0 < old(|Kept()|) <= nCapacity ==> readIndex == 0 && writeIndex == |Bytes()|
    {
      var n := BytesReadable();
      if n > nCapacity {
        return;
      }
      Relocate(nCapacity);
    }

    /** Storing bytes in the room, at the end of write and of writeBytes. */
    method Store(bytes: seq<byte>)
      requires Valid() && |bytes| <= Capacity() - |Bytes()|
      modifies buffer
      ensures Valid() && Bytes() == old(Bytes()) && bytes <= Room(Now()) && (Foreign() <==> old(Foreign()))
    {
      StoredFits(Now(), bytes);
      CopyIn(bytes);
    }

    /** memcpy to the room, in one piece or in two. */
    method CopyIn(bytes: seq<byte>)
      requires Valid() && |bytes| <= Capacity() - |Bytes()|
      modifies buffer
      ensures |bytes| <= Writable(old(Now())) && Now() == Stored(old(Now()), bytes)
    {
      Sizes(Now());
      var run := ContiguousWrite();
      if run >= |bytes| {
        Copy(buffer, writeIndex, bytes);
      } else {
        Copy(buffer, writeIndex, bytes[..run]);
        Copy(buffer, 0, bytes[run..]);
      }
    }

    method Write(bytes: seq<byte>)
      requires Valid() && bytes != []
      modifies this, buffer
      ensures Valid() && !Foreign() && fresh({buffer} - {old(buffer)})
      ensures Bytes() == old(Kept()) + bytes
      ensures Capacity() == if old(Capacity()) == 0 then Align256(|bytes|)
                            else if |bytes| <= old(Capacity() - |Bytes()|) then old(Capacity())
                            else Align256(2 * old(Capacity()) + |bytes| - old(Capacity() - |Bytes()|))
    {
      if buffer.Length == 0 {
        Relocate(Align256(|bytes|));
      } else {
        var writable := BytesWritable();
        if |bytes| > writable {
          Relocate(Align256(2 * buffer.Length + (|bytes| - writable)));
        }
      }
      Append(bytes);
    }

    method WriteBytes(bytes: seq<byte>)
      requires Valid() && bytes != []
      modifies this, buffer
      ensures Valid() && !Foreign() && fresh({buffer} - {old(buffer)})
      ensures Bytes() == old(Kept()) + bytes
      ensures Capacity() == if |bytes| <= old(Capacity() - |Bytes()|) then old(Capacity())
                            else old(|Bytes()|) + |bytes|
    {
      if buffer.Length == 0 {
        Relocate(|bytes|);
      } else {
        var writable := BytesWritable();
        if |bytes| > writable {
          Relocate(buffer.Length + (|bytes| - writable));
        }
      }
      Append(bytes);
    }

    method Append(bytes: seq<byte>)
      requires Valid() && bytes != [] && |bytes| <= Capacity() - |Bytes()|
      modifies this`readIndex, this`writeIndex, buffer
      ensures Valid() && !Foreign() && Bytes() == old(Bytes()) + bytes
    {
      Store(bytes);
      WriteOffset(|bytes|);
    }

    /** The one state in which byteQueue_writeChar stores past the end of the buffer: the write index
        is at the end and something has been read. */
    ghost predicate AtTheEdge()
      reads this, buffer
    {
      writeIndex == buffer.Length && 0 < readIndex < buffer.Length
    }

    /** `ok` says that the byte was stored inside the buffer; what follows otherwise is undefined. */
    method WriteChar(c: byte) returns (ok: bool)
      requires Valid()
      modifies this, buffer
      ensures Valid() && fresh({buffer} - {old(buffer)})
      ensures ok <==> !old(AtTheEdge())
      ensures ok ==> !Foreign() && Bytes() == old(Kept()) + [c]
      ensures !ok ==> Bytes() == old(Bytes())
    {
      var writable := BytesWritable();
      if buffer.Length == 0 {
        Relocate(256);
      } else if 1 > writable {
        Relocate(Align256(2 * buffer.Length + 1));
      }
      if writeIndex >= buffer.Length {
        return false;
      }
      ok := true;
      Append([c]);
    }

    /** byteQueue_swapBuffer: the queue takes over a buffer, all of it readable, and gives up its own. */
    method SwapBuffer(other: array<byte>) returns (mine: array<byte>)
      modifies this
      ensures Valid() && buffer == other && mine == old(buffer) && Bytes() == other[..]
      ensures Foreign() <==> other.Length > 0
    {
      mine := buffer;
      buffer := other;
      readIndex := other.Length;
      writeIndex := other.Length;
    }
  }
}
