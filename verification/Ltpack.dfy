/** lwrite and lread of ltpack_t.c on a byte queue, against TpackReassembly. */
module Ltpack {
  import opened ByteRing
  import opened ByteQueue
  import opened Tpack
  import opened TpackCodec
  import R = TpackReassembly

  /** ltpackFrame_t */
  class LtpackFrame {
    const queue: ByteQueue
    var token: nat
    var event: nat

    ghost predicate Valid()
      reads this, queue, queue.buffer
    {
      queue.Valid() && !queue.Foreign()
    }

    ghost function Value(): R.Assembly
      requires Valid()
      reads this, queue, queue.buffer
    {
      R.Assembly(queue.Bytes(), token, event)
    }

    constructor (size: nat)
      ensures Valid() && Value() == R.Assembly([], 0, 0) && fresh(queue) && fresh(queue.buffer)
    {
      queue := new ByteQueue(size);
      token, event := 0, 0;
    }

    /** lwrite: 1 for the last frame of a message, 2 for another frame, 0 for what is not a frame. */
    method Write(buffer: array<byte>) returns (code: nat, length: nat)
      requires Valid() && buffer != queue.buffer
      modifies this, queue, queue.buffer
      ensures Valid() && fresh({queue.buffer} - {old(queue.buffer)}) && buffer[..] == old(buffer[..])
      ensures (Value(), code) == R.Write(old(Value()), buffer[..])
      ensures DecodeHead(buffer[..]).Got? ==> 1 <= code <= 2 && length == DecodeHead(buffer[..]).head.length
      ensures !DecodeHead(buffer[..]).Got? ==> code == 0 && length == 0 && Value() == old(Value())
    {
      code, length := 0, 0;
      var d, newToken := Inspect(buffer);
      if d.Got? {
        var head := d.head;
        token, length := newToken, head.length;
        if head.flag != 0 && head.flag != FRAME_FINAL {
          event := head.flag + EVENT_MSG;
          queue.Reset();
        }
        Collect(buffer[head.offset..head.offset + length]);
        code := if Final(head.flag) then 1 else 2;
      }
    }

    /** The payload of a frame joins what was collected. */
    method Collect(part: seq<byte>)
      requires Valid()
      modifies queue, queue.buffer
      ensures Valid() && fresh({queue.buffer} - {old(queue.buffer)})
      ensures Value() == old(Value()).(data := old(Value()).data + part)
    {
      if |part| > 0 {
        queue.Write(part);
      } else {
        assert queue.Bytes() + part == queue.Bytes();
      }
    }

    /** Decoding a foreign buffer in place, through a queue that has taken it over. */
    method Inspect(buffer: array<byte>) returns (d: Decoded, token: nat)
      ensures d == DecodeHead(buffer[..])
      ensures d.Got? ==> 2 <= d.head.offset && d.head.offset + d.head.length <= buffer.Length
                         && token == Token(d.head, buffer[..])
    {
      DecodeStable(buffer[..], []);
      var q := new ByteQueue(0);
      var _ := q.SwapBuffer(buffer);
      d := DecodeHeadOf(q);
      token := 0;
      if d.Got? {
        token := TakeToken(q, d.head.offset);
      }
    }

    /** lread: all that was collected, if anything. */
    method Read() returns (some: bool, out: seq<byte>)
      requires Valid()
      modifies queue
      ensures Valid() && queue.buffer == old(queue.buffer)
      ensures some <==> old(Value().data) != []
      ensures out == old(Value().data) && Value() == old(Value()).(data := [])
    {
      if queue.Empty() {
        return false, [];
      }
      var n := queue.BytesReadable();
      out := queue.CopyOut(n);
      queue.ReadOffset(n);
      some := true;
    }

    /** lreset */
    method Reset()
      requires Valid()
      modifies queue
      ensures Valid() && queue.buffer == old(queue.buffer) && Value() == old(Value()).(data := [])
    {
      queue.Reset();
    }
  }
}
