/** The growing encoder of msgpackEncode_t.c and the decoder of msgpackDecode_t.c. */
module MsgpackCodec {
  import opened ByteRing
  import opened ByteQueue
  import opened Msgpack

  // ---------- Octets ----------

  /** (n >> 8 * i) & 0xff in two's complement, for i = 0, 1, 2, 3. */
  function Octet0(n: int): byte { n % 0x100 }
  function Octet1(n: int): byte { n / 0x100 % 0x100 }
  function Octet2(n: int): byte { n / 0x10000 % 0x100 }
  function Octet3(n: int): byte { n / 0x1000000 % 0x100 }

  lemma OneOctet(n: nat)
    ensures Bytes(n, 1) == [Octet0(n)]
  {
    assert Bytes(n / 256, 0) == [];
  }

  lemma TwoOctets(n: nat)
    ensures Bytes(n, 2) == [Octet1(n), Octet0(n)]
  {
    OneOctet(n / 256);
  }

  lemma FourOctets(n: nat)
    ensures Bytes(n, 4) == [Octet3(n), Octet2(n), Octet1(n), Octet0(n)]
  {
    var a, b := n / 0x100, n / 0x10000;
    assert a / 0x100 == b && b / 0x100 == n / 0x1000000;
    TwoOctets(b);
    assert Bytes(a, 3) == Bytes(b, 2) + [a % 256];
  }

  lemma EightOctets(n: nat)
    ensures var m := n / P32;
            Bytes(n, 8) == [Octet3(m), Octet2(m), Octet1(m), Octet0(m), Octet3(n), Octet2(n), Octet1(n), Octet0(n)]
  {
    var a, b, c, m := n / 0x100, n / 0x10000, n / 0x1000000, n / P32;
    assert a / 0x100 == b && b / 0x100 == c && c / 0x100 == m;
    FourOctets(m);
    assert Bytes(c, 5) == Bytes(m, 4) + [c % 256];
    assert Bytes(b, 6) == Bytes(c, 5) + [b % 256];
    assert Bytes(a, 7) == Bytes(b, 6) + [a % 256];
  }

  lemma SameOctet(x: int, k: int)
    ensures (x + 0x100 * k) % 0x100 == x % 0x100
  {}

  /** Adding a multiple of 2^8, 2^16 or 2^32 does not change the low octets. */
  lemma LowOctet(n: int, k: int)
    ensures Octet0(n + P8 * k) == Octet0(n)
  {
    SameOctet(n, k);
  }

  lemma LowTwo(n: int, k: int)
    ensures Two(n + P16 * k) == Two(n)
  {
    LowOctet(n, 0x100 * k);
    assert (n + P16 * k) / 0x100 == n / 0x100 + 0x100 * k;
    SameOctet(n / 0x100, k);
  }

  lemma LowFour(n: int, k: int)
    ensures Four(n + P32 * k) == Four(n)
  {
    LowTwo(n, 0x10000 * k);
    assert (n + P32 * k) / 0x10000 == n / 0x10000 + 0x10000 * k;
    assert (n + P32 * k) / 0x1000000 == n / 0x1000000 + 0x100 * k;
    SameOctet(n / 0x10000, 0x100 * k);
    SameOctet(n / 0x1000000, k);
  }

  lemma LowEight(n: int)
    ensures Eight(n + P64) == Eight(n)
  {
    LowFour(n, P32);
    assert (n + P64) / P32 == n / P32 + P32;
    LowFour(n / P32, 1);
  }

  function Two(n: int): seq<byte> { [Octet1(n), Octet0(n)] }

  function Four(n: int): seq<byte> { [Octet3(n), Octet2(n), Octet1(n), Octet0(n)] }

  function Eight(n: int): seq<byte> { Four(n / P32) + Four(n) }

  /** The shifts and masks of the encoder give the big-endian fields. */
  lemma FormatsOf(n: nat)
    ensures Bytes(n, 1) == [Octet0(n)] && Bytes(n, 2) == Two(n) && Bytes(n, 4) == Four(n) && Bytes(n, 8) == Eight(n)
  {
    OneOctet(n);
    TwoOctets(n);
    FourOctets(n);
    EightOctets(n);
  }

  /** What the branches of msgpackEncode_writeInteger write. */
  function NonNegative(n: nat): seq<byte> {
    if n <= 127 then [Octet0(n)]
    else if n <= 0xff then [0xcc] + [Octet0(n)]
    else if n <= 0xffff then [0xcd] + Two(n)
    else if n <= 0xffff_ffff then [0xce] + Four(n)
    else [0xcf] + Eight(n)
  }

  function Negative(n: int): seq<byte> {
    if n >= -32 then [Octet0(n)]
    else if n >= -128 then [0xd0] + [Octet0(n)]
    else if n >= -32768 then [0xd1] + Two(n)
    else if n >= -0x8000_0000 then [0xd2] + Four(n)
    else [0xd3] + Eight(n)
  }

  lemma NonNegativeFormats(n: nat)
    requires n < 0x8000_0000_0000_0000
    ensures NonNegative(n) == PackInt(n)
  {
    if n <= 0xff {
      OneOctet(n);
    } else if n <= 0xffff {
      TwoOctets(n);
    } else if n <= 0xffff_ffff {
      FourOctets(n);
    } else {
      EightOctets(n);
    }
  }

  lemma NegativeFormats(n: int)
    requires -0x8000_0000_0000_0000 <= n < 0
    ensures Negative(n) == PackInt(n)
  {
    if n >= -128 {
      OneOctet(n + P8);
      LowOctet(n, 1);
    } else if n >= -32768 {
      TwoOctets(n + P16);
      LowTwo(n, 1);
    } else if n >= -0x8000_0000 {
      FourOctets(n + P32);
      LowFour(n, 1);
    } else {
      EightOctets(n + P64);
      LowEight(n);
    }
  }

  // ---------- msgpackEncode_t ----------

  class Encoder {
    var buffer: array<byte>    // pBuffer, of nLength bytes
    var offset: nat            // nOffset

    ghost predicate Valid()
      reads this
    {
      0 < buffer.Length && offset <= buffer.Length
    }

    ghost function Written(): seq<byte>
      requires Valid()
      reads this, buffer
    {
      buffer[..offset]
    }

    /** msgpackEncode_init without a buffer. */
    constructor (nLength: nat)
      ensures Valid() && Written() == [] && fresh(buffer)
    {
      buffer := new byte[if nLength >= 256 then nLength else 256];
      offset := 0;
    }

    /** msgpackEncode_append: doubling until n more bytes fit, then one new buffer. */
    method Append(n: nat)
      requires Valid()
      modifies this`buffer
      ensures Valid() && Written() == old(Written()) && offset + n <= buffer.Length
      ensures old(offset + n <= buffer.Length) ==> buffer == old(buffer)
      ensures buffer == old(buffer) || fresh(buffer)
      ensures buffer.Length == old(buffer.Length) || buffer.Length < 2 * (offset + n)
    {
      var length := buffer.Length;
      if n + offset > length {
        while n + offset > length
          invariant length >= buffer.Length && (length == buffer.Length || length < 2 * (n + offset))
          decreases n + offset - length
        {
          length := length * 2;
        }
        var newBuffer := new byte[length];
        ByteQueue.Copy(newBuffer, 0, buffer[..offset]);
        assert newBuffer[..offset] == newBuffer[..][..offset];
        buffer := newBuffer;
      }
    }

    /** Appending room for some bytes, storing them, and advancing. */
    method Put(bytes: seq<byte>)
      requires Valid()
      modifies this, buffer
      ensures Valid() && Written() == old(Written()) + bytes && (buffer == old(buffer) || fresh(buffer))
    {
      Append(|bytes|);
      ghost var before := buffer[..];
      ByteQueue.Copy(buffer, offset, bytes);
      assert before[..offset] == old(Written());
      assert buffer[..][..offset + |bytes|] == buffer[..offset + |bytes|];
      offset := offset + |bytes|;
    }

    method WriteInteger(n: int)
      requires Valid() && -0x8000_0000_0000_0000 <= n < 0x8000_0000_0000_0000
      modifies this, buffer
      ensures Valid() && Written() == old(Written()) + PackInt(n) && (buffer == old(buffer) || fresh(buffer))
    {
      if n >= 0 {
        NonNegativeFormats(n);
        WriteNonNegative(n);
      } else {
        NegativeFormats(n);
        WriteNegative(n);
      }
    }

    method WriteNonNegative(n: nat)
      requires Valid() && n < 0x8000_0000_0000_0000
      modifies this, buffer
      ensures Valid() && Written() == old(Written()) + NonNegative(n) && (buffer == old(buffer) || fresh(buffer))
    {
      if n <= 127 {
        Put([Octet0(n)]);
      } else if n <= 0xff {
        Put([0xcc] + [Octet0(n)]);
      } else if n <= 0xffff {
        Put([0xcd] + Two(n));
      } else if n <= 0xffff_ffff {
        Put([0xce] + Four(n));
      } else {
        Put([0xcf] + Eight(n));
      }
    }

    method WriteNegative(n: int)
      requires Valid() && -0x8000_0000_0000_0000 <= n < 0
      modifies this, buffer
      ensures Valid() && Written() == old(Written()) + Negative(n) && (buffer == old(buffer) || fresh(buffer))
    {
      if n >= -32 {
        Put([Octet0(n)]);
      } else if n >= -128 {
        Put([0xd0] + [Octet0(n)]);
      } else if n >= -32768 {
        Put([0xd1] + Two(n));
      } else if n >= -0x8000_0000 {
        Put([0xd2] + Four(n));
      } else {
        Put([0xd3] + Eight(n));
      }
    }

    method WriteReal(x: Number)
      requires Valid() && FitsNumber(x)
      modifies this, buffer
      ensures Valid() && Written() == old(Written()) + PackReal(x) && (buffer == old(buffer) || fresh(buffer))
    {
      match x
      case Integral(n) => WriteInteger(n);
      case Single(image) => Put([0xca] + image);
      case Double(image) => Put([0xcb] + image);
    }

    method WriteString(s: seq<byte>)
      requires Valid() && |s| < P32
      modifies this, buffer
      ensures Valid() && Written() == old(Written()) + (StrHead(|s|) + s) && (buffer == old(buffer) || fresh(buffer))
    {
      FormatsOf(|s|);
      if |s| < 32 {
        Put([0xa0 + |s|]);
      } else if |s| <= 0xff {
        Put([0xd9] + [Octet0(|s|)]);
      } else if |s| <= 0xffff {
        Put([0xda] + Two(|s|));
      } else {
        Put([0xdb] + Four(|s|));
      }
      assert Written() == old(Written()) + StrHead(|s|);
      Behind(old(Written()), StrHead(|s|), s);
      if |s| > 0 {
        Put(s);
      }
    }

    static lemma {:induction false} Behind(a: seq<byte>, b: seq<byte>, c: seq<byte>)
      ensures (a + b) + c == a + (b + c) && (c == [] ==> a + b == a + (b + c))
    {}

    method WriteMap(n: nat)
      requires Valid() && n < P32
      modifies this, buffer
      ensures Valid() && Written() == old(Written()) + MapHead(n) && (buffer == old(buffer) || fresh(buffer))
    {
      FormatsOf(n);
      if n <= 15 {
        Put([0x80 + n]);
      } else if n <= 0xffff {
        Put([0xde] + Two(n));
      } else {
        Put([0xdf] + Four(n));
      }
    }

    method WriteUserPointer(p: nat)
      requires Valid() && p < P64
      modifies this, buffer
      ensures Valid() && Written() == old(Written()) + PackPtr(p) && (buffer == old(buffer) || fresh(buffer))
    {
      FormatsOf(p);
      if p <= 0xffff {
        Put([0xc7] + Two(p));
      } else if p <= 0xffff_ffff {
        Put([0xc8] + Four(p));
      } else {
        Put([0xc9] + Eight(p));
      }
    }
  }

  // ---------- msgpackDecode_t ----------

  /** pBuffer[i] << 8 | pBuffer[i + 1], and so on. */
  function Word2(s: seq<byte>, i: nat): nat
    requires i + 2 <= |s|
  {
    s[i] as int * 0x100 + s[i + 1]
  }

  function Word4(s: seq<byte>, i: nat): nat
    requires i + 4 <= |s|
  {
    Word2(s, i) * 0x10000 + Word2(s, i + 2)
  }

  function Word8(s: seq<byte>, i: nat): nat
    requires i + 8 <= |s|
  {
    Word4(s, i) * P32 + Word4(s, i + 4)
  }

  lemma {:induction false} NumberOfTwo(a: seq<byte>, b: seq<byte>)
    ensures Number256(a + b) == Number256(a) * Pow256(|b|) + Number256(b)
  {
    if b == [] {
      assert a + b == a;
    } else {
      var c := b[..|b| - 1];
      NumberOfTwo(a, c);
      assert (a + b)[..|a + b| - 1] == a + c;
      assert Pow256(|b|) == 256 * Pow256(|c|);
      assert Number256(a) * Pow256(|c|) * 256 == Number256(a) * Pow256(|b|);
    }
  }

  lemma {:induction false} Words(s: seq<byte>, i: nat)
    requires i <= |s|
    ensures i + 1 <= |s| ==> Number256(s[i..i + 1]) == s[i]
    ensures i + 2 <= |s| ==> Number256(s[i..i + 2]) == Word2(s, i)
  {
    if i + 1 <= |s| {
      var one := s[i..i + 1];
      assert one[..0] == [] && Number256(one[..0]) == 0;
    }
    if i + 2 <= |s| {
      var two := s[i..i + 2];
      assert two[..1] == s[i..i + 1];
    }
  }

  lemma {:induction false} LongWords(s: seq<byte>, i: nat)
    requires i <= |s|
    ensures i + 4 <= |s| ==> Number256(s[i..i + 4]) == Word4(s, i)
    ensures i + 8 <= |s| ==> Number256(s[i..i + 8]) == Word8(s, i)
  {
    Powers();
    if i + 4 <= |s| { FourBytes(s, i); }
    if i + 8 <= |s| {
      FourBytes(s, i);
      FourBytes(s, i + 4);
      NumberOfTwo(s[i..i + 4], s[i + 4..i + 8]);
      assert s[i..i + 8] == s[i..i + 4] + s[i + 4..i + 8];
    }
  }

  lemma {:induction false} FourBytes(s: seq<byte>, i: nat)
    requires i + 4 <= |s|
    ensures Number256(s[i..i + 4]) == Word4(s, i)
  {
    Powers();
    Words(s, i);
    Words(s, i + 2);
    NumberOfTwo(s[i..i + 2], s[i + 2..i + 4]);
    assert s[i..i + 4] == s[i..i + 2] + s[i + 2..i + 4];
  }

  class Decoder {
    const input: seq<byte>    // pBuffer, of nLength bytes
    var offset: nat           // nOffset

    ghost predicate Valid()
      reads this
    {
      offset <= |input|
    }

    function Rest(): seq<byte>
      requires Valid()
      reads this
    {
      input[offset..]
    }

    constructor (input: seq<byte>)
      ensures Valid() && Rest() == input && this.input == input
    {
      this.input := input;
      offset := 0;
    }

    /** msgpackDecode_isEnd */
    predicate IsEnd()
      requires Valid()
      reads this
      ensures IsEnd() <==> Rest() == []
    {
      |input| == offset
    }

    /** An unsigned field of k bytes behind the first byte; all formats check the length, combine the
        bytes and advance in the same way. */
    method ReadField(k: nat) returns (r: Read<nat>)
      requires Valid() && Rest() != [] && k in {1, 2, 4, 8}
      modifies this
      ensures Valid() && r == Field(old(Rest()), k)
      ensures Rest() == if r.Got? then r.rest else old(Rest())
    {
      if offset + 1 + k > |input| {
        return Short;
      }
      Words(input, offset + 1);
      LongWords(input, offset + 1);
      assert Rest()[1..][..k] == input[offset + 1..offset + 1 + k];
      var n: nat := if k == 1 then input[offset + 1]
                    else if k == 2 then Word2(input, offset + 1)
                    else if k == 4 then Word4(input, offset + 1)
                    else Word8(input, offset + 1);
      offset := offset + 1 + k;
      r := Got(n, Rest());
    }

    /** Advancing behind the first byte. */
    method SkipByte()
      requires Valid() && Rest() != []
      modifies this
      ensures Valid() && Rest() == old(Rest())[1..]
    {
      offset := offset + 1;
    }

    method ReadInteger() returns (r: Read<int>)
      requires Valid()
      modifies this
      ensures Valid() && r == ReadInt(old(Rest()))
      ensures Rest() == if r.Got? then r.rest else old(Rest())
    {
      if IsEnd() {
        return Short;
      }
      var flag := input[offset];
      if flag in {0xcc, 0xcd, 0xce} {
        var f := ReadField(if flag == 0xcc then 1 else if flag == 0xcd then 2 else 4);
        return AsInt(f);
      } else if flag in {0xcf, 0xd3, 0xd0, 0xd1, 0xd2} {
        var f := ReadField(if flag == 0xd0 then 1 else if flag == 0xd1 then 2 else if flag == 0xd2 then 4 else 8);
        return AsSigned(f, if flag == 0xd0 then P8 else if flag == 0xd1 then P16
                           else if flag == 0xd2 then P32 else P64);
      } else if flag < 0x80 {
        SkipByte();
        return Got(flag, Rest());
      } else if flag >= 0xe0 {
        SkipByte();
        return Got(flag as int - 256, Rest());
      }
      r := Short;
    }

    /** n bytes, if they are there; otherwise the offset is put back to `start`. */
    method TakeBytes(n: nat, start: nat) returns (r: Read<seq<byte>>)
      requires Valid() && start <= offset
      modifies this
      ensures Valid() && r == Take(old(Rest()), n)
      ensures Rest() == if r.Got? then r.rest else input[start..]
    {
      if offset + n > |input| {
        offset := start;
        return Short;
      }
      assert Rest()[..n] == input[offset..offset + n] && Rest()[n..] == input[offset + n..];
      r := Got(input[offset..offset + n], input[offset + n..]);
      offset := offset + n;
    }

    /** A length of k bytes, and as many bytes. */
    method ReadCounted(k: nat) returns (r: Read<seq<byte>>)
      requires Valid() && Rest() != [] && k in {1, 2, 4}
      modifies this
      ensures Valid() && r == Counted(Field(old(Rest()), k))
      ensures Rest() == if r.Got? then r.rest else old(Rest())
    {
      var start := offset;
      var f := ReadField(k);
      if f.Short? {
        return Short;
      }
      r := TakeBytes(f.value, start);
    }

    method ReadString() returns (r: Read<seq<byte>>)
      requires Valid()
      modifies this
      ensures Valid() && r == ReadStr(old(Rest()))
      ensures Rest() == if r.Got? then r.rest else old(Rest())
    {
      if IsEnd() {
        return Short;
      }
      var flag := input[offset];
      if flag in {0xd9, 0xda, 0xdb} {
        r := ReadCounted(if flag == 0xd9 then 1 else if flag == 0xda then 2 else 4);
      } else if 0xa0 <= flag < 0xc0 {
        var start := offset;
        SkipByte();
        r := TakeBytes(flag - 0xa0, start);
      } else {
        r := Short;
      }
    }

    method ReadBinary() returns (r: Read<seq<byte>>)
      requires Valid()
      modifies this
      ensures Valid() && r == ReadBin(old(Rest()))
      ensures Rest() == if r.Got? then r.rest else old(Rest())
    {
      if IsEnd() {
        return Short;
      }
      var flag := input[offset];
      if flag in {0xc4, 0xc5, 0xc6} {
        r := ReadCounted(if flag == 0xc4 then 1 else if flag == 0xc5 then 2 else 4);
      } else {
        r := Short;
      }
    }

    method ReadFloat() returns (r: Read<Number>)
      requires Valid()
      modifies this
      ensures Valid() && r == ReadReal(old(Rest()))
      ensures Rest() == if r.Got? then r.rest else old(Rest())
    {
      if IsEnd() || input[offset] !in {0xca, 0xcb} {
        return Short;
      }
      var start, double := offset, input[offset] == 0xcb;
      SkipByte();
      var t := TakeBytes(if double then 8 else 4, start);
      if t.Short? {
        return Short;
      }
      r := Got(if double then Double(t.value) else Single(t.value), t.rest);
    }

    method ReadMapHead() returns (r: Read<nat>)
      requires Valid()
      modifies this
      ensures Valid() && r == ReadMap(old(Rest()))
      ensures Rest() == if r.Got? then r.rest else old(Rest())
    {
      if IsEnd() {
        return Short;
      }
      var flag := input[offset];
      if flag in {0xde, 0xdf} {
        r := ReadField(if flag == 0xde then 2 else 4);
      } else if 0x80 <= flag < 0x90 {
        SkipByte();
        r := Got(flag - 0x80, Rest());
      } else {
        r := Short;
      }
    }

    method ReadUserPointer() returns (r: Read<nat>)
      requires Valid()
      modifies this
      ensures Valid() && r == ReadPtr(old(Rest()))
      ensures Rest() == if r.Got? then r.rest else old(Rest())
    {
      if IsEnd() {
        return Short;
      }
      var flag := input[offset];
      if flag in {0xc7, 0xc8, 0xc9} {
        r := ReadField(if flag == 0xc7 then 2 else if flag == 0xc8 then 4 else 8);
      } else {
        r := Short;
      }
    }
  }
}
