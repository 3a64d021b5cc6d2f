/** Which format the packer chooses: the shortest that the unpacker reads as the value, and for numbers that are
    not negative the unsigned one; and what the formats are in bytes. */
module MsgpackFormats {
  import opened ByteRing
  import opened Msgpack
  import MsgpackCodec
  import opened MsgpackRoundTrip
  import opened Options

  // ---------- Fields ----------

  /** A field is the only one of its length for its number. */
  lemma {:induction false} NumberBack(s: seq<byte>)
    ensures Bytes(Number256(s), |s|) == s
  {
    if s != [] {
      NumberBack(s[..|s| - 1]);
      assert s == s[..|s| - 1] + [s[|s| - 1]];
    }
  }

  /** Reading a field of k bytes and nothing else. */
  lemma {:induction false} OnlyField(s: seq<byte>, k: nat, n: nat)
    requires s != [] && Field(s, k) == Got(n, [])
    ensures |s| == k + 1 && n < Pow256(k) && s == [s[0]] + Bytes(n, k)
  {
    var t := s[1..];
    assert t[..k] == t;
    NumberBack(t);
    BytesRange(t);
    assert s == [s[0]] + t;
  }

  // ---------- The shortest format ----------

  predicate SignedFirst(first: byte) {
    0xd0 <= first <= 0xd3
  }

  /** A signed field for a negative number, an unsigned one for the others.  (A 64-bit field has 9 bytes in
      either format, and both are cast to int64_t.) */
  predicate RightSign(n: int, first: byte) {
    if n >= 0 then !SignedFirst(first) else first != 0xcf
  }

  lemma {:induction false} PackedSign(n: int)
    requires -0x8000_0000_0000_0000 <= n < 0x8000_0000_0000_0000
    ensures RightSign(n, PackInt(n)[0])
  {}

  /** An unsigned field, or a byte. */
  lemma {:induction false} UnsignedShortest(n: nat, s: seq<byte>)
    requires n < 0x8000_0000_0000_0000 && ReadInt(s) == Got(n, []) && !SignedFirst(s[0])
    ensures |PackInt(n)| <= |s| && (|PackInt(n)| == |s| ==> s == PackInt(n))
  {
    Powers();
    if 0xcc <= s[0] <= 0xcf {
      var k := if s[0] == 0xcc then 1 else if s[0] == 0xcd then 2 else if s[0] == 0xce then 4 else 8;
      OnlyField(s, k, Field(s, k).value);
      assert s[0] == 0xcf ==> Field(s, 8).value == n;
    } else {
      assert s == [s[0]] + s[1..];
    }
  }

  /** A signed field. */
  lemma {:induction false} SignedShortest(n: int, s: seq<byte>)
    requires -0x8000_0000_0000_0000 <= n < 0x8000_0000_0000_0000
    requires ReadInt(s) == Got(n, []) && SignedFirst(s[0])
    ensures |PackInt(n)| <= |s| && (|PackInt(n)| == |s| && n < 0 ==> s == PackInt(n))
  {
    Powers();
    var k := if s[0] == 0xd0 then 1 else if s[0] == 0xd1 then 2 else if s[0] == 0xd2 then 4 else 8;
    OnlyField(s, k, Field(s, k).value);
  }

  /** msgpackEncode_writeInteger writes the shortest bytes that read back as the number; among those, in the
      format of the right sign, there is no other choice. */
  lemma {:induction false} IntShortest(n: int, s: seq<byte>)
    requires -0x8000_0000_0000_0000 <= n < 0x8000_0000_0000_0000 && ReadInt(s) == Got(n, [])
    ensures |PackInt(n)| <= |s| && (|PackInt(n)| == |s| && RightSign(n, s[0]) ==> s == PackInt(n))
    ensures RightSign(n, PackInt(n)[0])
  {
    PackedSign(n);
    if SignedFirst(s[0]) {
      SignedShortest(n, s);
    } else if n >= 0 {
      UnsignedShortest(n, s);
    } else {
      NegativeByte(n, s);
    }
  }

  lemma {:induction false} NegativeByte(n: int, s: seq<byte>)
    requires -0x8000_0000_0000_0000 <= n < 0 && ReadInt(s) == Got(n, []) && !SignedFirst(s[0])
    ensures |PackInt(n)| <= |s| && (|PackInt(n)| == |s| && s[0] != 0xcf ==> s == PackInt(n))
  {
    Powers();
    if s[0] == 0xcf {
      OnlyField(s, 8, Field(s, 8).value);
    } else {
      assert s == [s[0]] + s[1..];
    }
  }

  /** The head of a string is the only shortest one. */
  lemma {:induction false} StrShortest(b: seq<byte>, s: seq<byte>)
    requires |b| < P32 && ReadStr(s) == Got(b, [])
    ensures |StrHead(|b|)| + |b| <= |s| && (|StrHead(|b|)| + |b| == |s| ==> s == StrHead(|b|) + b)
  {
    Powers();
    if 0xd9 <= s[0] <= 0xdb {
      var k := if s[0] == 0xd9 then 1 else if s[0] == 0xda then 2 else 4;
      var r := Field(s, k);
      assert r.rest[..r.value] == b && r.rest[r.value..] == [];
      assert r.rest == b;
      var head := s[..k + 1];
      assert s == head + b;
      assert head[1..] == s[1..][..k];
      assert head[1..][..k] == head[1..];
      OnlyField(head, k, |b|);
    } else {
      assert s[1..][..|b|] == b && s == [s[0]] + b;
    }
  }

  /** And that of a map. */
  lemma {:induction false} MapShortest(n: nat, s: seq<byte>)
    requires n < P32 && ReadMap(s) == Got(n, [])
    ensures |MapHead(n)| <= |s| && (|MapHead(n)| == |s| ==> s == MapHead(n))
  {
    Powers();
    if s[0] == 0xde || s[0] == 0xdf {
      OnlyField(s, if s[0] == 0xde then 2 else 4, n);
    } else {
      assert s == [s[0]] + s[1..];
    }
  }

  /** And that of a pointer. */
  lemma {:induction false} PtrShortest(p: nat, s: seq<byte>)
    requires p < P64 && ReadPtr(s) == Got(p, [])
    ensures |PackPtr(p)| <= |s| && (|PackPtr(p)| == |s| ==> s == PackPtr(p))
  {
    Powers();
    OnlyField(s, if s[0] == 0xc7 then 2 else if s[0] == 0xc8 then 4 else 8, p);
  }

  // ---------- The formats in bytes ----------

  /** The binary formats, which only other packers write: a length of 1, 2 or 4 bytes, and the bytes. */
  lemma {:induction false} BinBack(b: seq<byte>, k: nat, t: seq<byte>)
    requires (k == 1 || k == 2 || k == 4) && |b| < Pow256(k)
    ensures var s := [if k == 1 then 0xc4 else if k == 2 then 0xc5 else 0xc6] + Bytes(|b|, k) + (b + t);
            ReadBin(s) == Got(b, t) && Unpack(s) == Done(Str(b), t)
  {
    FieldBack(if k == 1 then 0xc4 else if k == 2 then 0xc5 else 0xc6, |b|, k, b + t);
    assert (b + t)[..|b|] == b && (b + t)[|b|..] == t;
  }

  /** Any unsigned field is read as its number, the shortest or not; one of 64 bits is cast to int64_t. */
  lemma {:induction false} UnsignedBack(n: nat, k: nat, t: seq<byte>)
    requires (k == 1 || k == 2 || k == 4 || k == 8) && n < Pow256(k)
    ensures ReadInt([if k == 1 then 0xcc else if k == 2 then 0xcd else if k == 4 then 0xce else 0xcf] + Bytes(n, k) + t)
         == Got(if n < 0x8000_0000_0000_0000 then n else n - 0x1_0000_0000_0000_0000, t)
  {
    Powers();
    FieldBack(if k == 1 then 0xcc else if k == 2 then 0xcd else if k == 4 then 0xce else 0xcf, n, k, t);
  }

  /** Any signed field is read in two's complement. */
  lemma {:induction false} SignedFieldBack(n: nat, k: nat, t: seq<byte>)
    requires (k == 1 || k == 2 || k == 4 || k == 8) && n < Pow256(k)
    ensures ReadInt([if k == 1 then 0xd0 else if k == 2 then 0xd1 else if k == 4 then 0xd2 else 0xd3] + Bytes(n, k) + t)
         == Got(if 2 * n < Pow256(k) then n else n - Pow256(k), t)
  {
    Powers();
    FieldBack(if k == 1 then 0xd0 else if k == 2 then 0xd1 else if k == 4 then 0xd2 else 0xd3, n, k, t);
  }

  /** What no packer of this dialect writes is refused: arrays, extensions, and the unused byte. */
  lemma {:induction false} Refused(s: seq<byte>)
    requires s != []
    requires s[0] == 0xc1 || 0x90 <= s[0] < 0xa0 || s[0] == 0xdc || s[0] == 0xdd || 0xd4 <= s[0] <= 0xd8
    ensures Unpack(s) == Failed
  {
    assert TypeOf(s) == TArray || TypeOf(s) == TInvalid;
  }

  /** What four bytes are worth: the most significant comes first. */
  function Worth(a: byte, b: byte, c: byte, d: byte): nat {
    a as int * 0x1000000 + b as int * 0x10000 + c as int * 0x100 + d
  }

  lemma OneField(a: byte)
    ensures Bytes(a, 1) == [a]
  {
    MsgpackCodec.OneOctet(a);
  }

  /** Taking the bytes out of the number again. */
  lemma WorthBack(a: byte, b: byte, c: byte, d: byte)
    ensures var n := Worth(a, b, c, d);
            && MsgpackCodec.Octet3(n) == a && MsgpackCodec.Octet2(n) == b
            && MsgpackCodec.Octet1(n) == c && MsgpackCodec.Octet0(n) == d
  {
    var n := Worth(a, b, c, d);
    assert n / 0x100 == a as int * 0x10000 + b as int * 0x100 + c as int;
    assert n / 0x10000 == a as int * 0x100 + b as int;
    assert n / 0x1000000 == a as int;
  }

  lemma TwoBytes(n: nat, a: byte, b: byte)
    requires MsgpackCodec.Octet1(n) == a && MsgpackCodec.Octet0(n) == b
    ensures Bytes(n, 2) == [a, b]
  {
    MsgpackCodec.TwoOctets(n);
  }

  lemma TwoField(a: byte, b: byte)
    ensures Bytes(Worth(0, 0, a, b), 2) == [a, b]
  {
    WorthBack(0, 0, a, b);
    TwoBytes(Worth(0, 0, a, b), a, b);
  }

  lemma FourField(a: byte, b: byte, c: byte, d: byte)
    ensures Bytes(Worth(a, b, c, d), 4) == [a, b, c, d]
  {
    WorthBack(a, b, c, d);
    FourBytes(Worth(a, b, c, d), a, b, c, d);
  }

  lemma FourBytes(n: nat, a: byte, b: byte, c: byte, d: byte)
    requires MsgpackCodec.Octet3(n) == a && MsgpackCodec.Octet2(n) == b
    requires MsgpackCodec.Octet1(n) == c && MsgpackCodec.Octet0(n) == d
    ensures Bytes(n, 4) == [a, b, c, d]
  {
    MsgpackCodec.FourOctets(n);
  }

  /** A field of eight bytes is two of four. */
  lemma LongField(n: nat)
    ensures Bytes(n, 8) == Bytes(n / P32, 4) + Bytes(n % P32, 4)
  {
    var high, low := n / P32, n % P32;
    MsgpackCodec.EightOctets(n);
    MsgpackCodec.FourOctets(high);
    MsgpackCodec.FourOctets(low);
    MsgpackCodec.LowFour(low, high);
    assert low + P32 * high == n;
  }

  /** The first byte of a packed integer tells its range. */
  lemma IntFormats(n: int)
    requires -0x8000_0000_0000_0000 <= n < 0x8000_0000_0000_0000
    ensures var first := PackInt(n)[0];
            && (-32 <= n <= 127 <==> PackInt(n) == [n % 0x100])
            && (127 < n <= 0xff <==> first == 0xcc) && (0xff < n <= 0xffff <==> first == 0xcd)
            && (0xffff < n <= 0xffff_ffff <==> first == 0xce) && (0xffff_ffff < n <==> first == 0xcf)
            && (-0x80 <= n < -32 <==> first == 0xd0) && (-0x8000 <= n < -0x80 <==> first == 0xd1)
            && (-0x8000_0000 <= n < -0x8000 <==> first == 0xd2) && (n < -0x8000_0000 <==> first == 0xd3)
  {}

  /** And so do those of a string, a map and a pointer. */
  lemma HeadFormats(n: nat)
    requires n < P64
    ensures var first := StrHead(n)[0];
            && (n < 32 <==> StrHead(n) == [0xa0 + n % 32]) && (32 <= n <= 0xff <==> first == 0xd9)
            && (0xff < n <= 0xffff <==> first == 0xda) && (0xffff < n <==> first == 0xdb)
    ensures var first := MapHead(n)[0];
            && (n < 16 <==> MapHead(n) == [0x80 + n % 16])
            && (15 < n <= 0xffff <==> first == 0xde) && (0xffff < n <==> first == 0xdf)
    ensures var first := PackPtr(n)[0];
            && (n <= 0xffff <==> first == 0xc7) && (0xffff < n <= 0xffff_ffff <==> first == 0xc8)
            && (0xffff_ffff < n <==> first == 0xc9)
  {}

  /** The formats of one byte, and those of real numbers. */
  lemma OtherFormats(x: Number)
    requires FitsNumber(x)
    ensures Pack(Nil, 0) == Some([0xc0]) && Pack(Bool(false), 0) == Some([0xc2]) && Pack(Bool(true), 0) == Some([0xc3])
    ensures x.Single? ==> Pack(Real(x), 0) == Some([0xca] + x.image)
    ensures x.Double? ==> Pack(Real(x), 0) == Some([0xcb] + x.image)
    ensures x.Integral? ==> Pack(Real(x), 0) == Pack(Int(x.n), 0)
  {}
}
