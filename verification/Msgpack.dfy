/** The MessagePack dialect of lmsgpack_t.c, msgpackEncode_t.c and msgpackDecode_t.c on byte sequences:
    what packing a Lua value writes, and what unpacking reads. */
module Msgpack {
  import opened ByteRing
  import opened Options

  const MAX_DEPTH := 32    // def_MaxDepth

  /** A Lua number that is not an integer: its value is an int64 (IS_INT64_EQUIVALENT), or a float, or a
      double, given by its bytes in memory.  The comparisons that tell them apart are not modelled. */
  datatype Number = Integral(n: int) | Single(image: seq<byte>) | Double(image: seq<byte>)

  /** A Lua value.  A table is the values at 1..lua_rawlen (with nil in the holes) and the other entries,
      in the order in which lua_next lists them. */
  datatype Value =
    | Nil
    | Bool(b: bool)
    | Int(n: int)
    | Real(x: Number)
    | Str(s: seq<byte>)
    | Ptr(p: nat)
    | Table(items: seq<Value>, pairs: seq<Pair>)

  datatype Pair = Pair(key: Value, value: Value)

  // ---------- Integers in bytes ----------

  function Pow256(k: nat): nat {
    if k == 0 then 1 else 256 * Pow256(k - 1)
  }

  /** The low k bytes of n, most significant first. */
  function Bytes(n: nat, k: nat): (s: seq<byte>)
    ensures |s| == k
  {
    if k == 0 then [] else Bytes(n / 256, k - 1) + [n % 256]
  }

  function Number256(s: seq<byte>): nat {
    if s == [] then 0 else Number256(s[..|s| - 1]) * 256 + s[|s| - 1]
  }

  lemma {:induction false} BytesBack(n: nat, k: nat)
    requires n < Pow256(k)
    ensures Number256(Bytes(n, k)) == n
  {
    if k > 0 {
      BytesBack(n / 256, k - 1);
      assert Bytes(n, k)[..k - 1] == Bytes(n / 256, k - 1);
    }
  }

  lemma {:induction false} BytesRange(s: seq<byte>)
    ensures Number256(s) < Pow256(|s|)
  {
    if s != [] {
      BytesRange(s[..|s| - 1]);
    }
  }

  lemma Powers()
    ensures Pow256(1) == 0x100 && Pow256(2) == 0x10000 && Pow256(4) == 0x1_0000_0000
    ensures Pow256(8) == 0x1_0000_0000_0000_0000
  {
    assert Pow256(3) == 0x1000000;
    assert Pow256(4) == 256 * Pow256(3);
    assert Pow256(6) == 256 * Pow256(5) && Pow256(5) == 256 * Pow256(4);
    assert Pow256(8) == 256 * Pow256(7) && Pow256(7) == 256 * Pow256(6);
  }

  const P8 := 0x100
  const P16 := 0x10000
  const P32 := 0x1_0000_0000
  const P64 := 0x1_0000_0000_0000_0000

  /** Reading m as a signed integer below `bound` in absolute value of twice its range. */
  function Signed(m: nat, modulus: nat): int {
    if m < modulus / 2 then m else m - modulus
  }

  // ---------- Packing ----------

  /** msgpackEncode_writeInteger */
  function PackInt(n: int): seq<byte>
    requires -0x8000_0000_0000_0000 <= n < 0x8000_0000_0000_0000
  {
    if n >= 0 then
      if n <= 127 then [n]
      else if n <= 0xff then [0xcc] + Bytes(n, 1)
      else if n <= 0xffff then [0xcd] + Bytes(n, 2)
      else if n <= 0xffff_ffff then [0xce] + Bytes(n, 4)
      else [0xcf] + Bytes(n, 8)
    else
      if n >= -32 then [n + 256]
      else if n >= -128 then [0xd0] + Bytes(n + P8, 1)
      else if n >= -32768 then [0xd1] + Bytes(n + P16, 2)
      else if n >= -0x8000_0000 then [0xd2] + Bytes(n + P32, 4)
      else [0xd3] + Bytes(n + P64, 8)
  }

  function PackReal(x: Number): seq<byte>
    requires x.Integral? ==> -0x8000_0000_0000_0000 <= x.n < 0x8000_0000_0000_0000
  {
    match x
    case Integral(n) => PackInt(n)
    case Single(image) => [0xca] + image
    case Double(image) => [0xcb] + image
  }

  /** msgpackEncode_writeString: a longer string would have its length cut to 32 bits. */
  function StrHead(n: nat): seq<byte> {
    if n < 32 then [0xa0 + n]
    else if n <= 0xff then [0xd9] + Bytes(n, 1)
    else if n <= 0xffff then [0xda] + Bytes(n, 2)
    else [0xdb] + Bytes(n, 4)
  }

  /** msgpackEncode_writeMap */
  function MapHead(n: nat): seq<byte> {
    if n <= 15 then [0x80 + n]
    else if n <= 0xffff then [0xde] + Bytes(n, 2)
    else [0xdf] + Bytes(n, 4)
  }

  /** msgpackEncode_writeUserPointer on 64-bit platforms */
  function PackPtr(p: nat): seq<byte> {
    if p <= 0xffff then [0xc7] + Bytes(p, 2)
    else if p <= 0xffff_ffff then [0xc8] + Bytes(p, 4)
    else [0xc9] + Bytes(p, 8)
  }

  /** The values that Lua can hold: int64 integers, 64-bit pointers; keys are not nil, not floats with an
      integer value (Lua turns those into integers), and outside the array part.  Lengths fit their
      headers: strings 32 bits, arrays the int32_t of packTableArray. */
  predicate Fits(v: Value) {
    match v
    case Nil => true
    case Bool(_) => true
    case Int(n) => -0x8000_0000_0000_0000 <= n < 0x8000_0000_0000_0000
    case Real(x) => FitsNumber(x)
    case Str(s) => |s| < P32
    case Ptr(p) => p < P64
    case Table(items, pairs) => |items| < 0x8000_0000 && FitsAll(items) && FitsPairs(pairs, |items|)
  }

  predicate FitsNumber(x: Number) {
    match x
    case Integral(n) => -0x8000_0000_0000_0000 <= n < 0x8000_0000_0000_0000
    case Single(image) => |image| == 4
    case Double(image) => |image| == 8
  }

  predicate FitsAll(vs: seq<Value>) {
    vs == [] || (Fits(vs[0]) && FitsAll(vs[1..]))
  }

  predicate FitsPairs(ps: seq<Pair>, size: nat) {
    ps == [] || (FitsPair(ps[0], size) && FitsPairs(ps[1..], size))
  }

  predicate FitsPair(p: Pair, size: nat) {
    Fits(p.key) && Fits(p.value) && FitsKey(p.key, size)
  }

  predicate FitsKey(k: Value, size: nat) {
    k != Nil && !(k.Real? && k.x.Integral?) && !(k.Int? && 1 <= k.n <= size)
  }

  function Join(a: Option<seq<byte>>, b: Option<seq<byte>>): Option<seq<byte>> {
    if a.Some? && b.Some? then Some(a.value + b.value) else None
  }

  /** packValue; None is the error "can't pack > max depth table". */
  function Pack(v: Value, depth: nat): Option<seq<byte>>
    requires Fits(v)
    decreases v
  {
    if depth > MAX_DEPTH then None
    else
      match v
      case Nil => Some([0xc0])
      case Bool(b) => Some([if b then 0xc3 else 0xc2])
      case Int(n) => Some(PackInt(n))
      case Real(x) => Some(PackReal(x))
      case Str(s) => Some(StrHead(|s|) + s)
      case Ptr(p) => Some(PackPtr(p))
      case Table(items, pairs) =>
        Join(Some(MapHead(|items|)), Join(PackAll(items, depth + 1), PackPairs(pairs, |items|, depth + 1)))
  }

  /** packTableArray, behind the head */
  function PackAll(vs: seq<Value>, depth: nat): Option<seq<byte>>
    requires FitsAll(vs)
    decreases vs
  {
    if vs == [] then Some([]) else Join(Pack(vs[0], depth), PackAll(vs[1..], depth))
  }

  /** packTableHash; the entries of the array part are not among the pairs. */
  function PackPairs(ps: seq<Pair>, size: nat, depth: nat): Option<seq<byte>>
    requires FitsPairs(ps, size)
    decreases ps
  {
    if ps == [] then Some([0xc0])
    else Join(PackPair(ps[0], size, depth), PackPairs(ps[1..], size, depth))
  }

  function PackPair(p: Pair, size: nat, depth: nat): Option<seq<byte>>
    requires FitsPair(p, size)
    decreases p
  {
    Join(Pack(p.key, depth), Pack(p.value, depth))
  }

  // ---------- Unpacking ----------

  /** Reading something at the front: it and what follows, or failure. */
  datatype Read<T> = Got(value: T, rest: seq<byte>) | Short

  function Take(s: seq<byte>, n: nat): (r: Read<seq<byte>>)
    ensures r.Got? ==> s == r.value + r.rest && |r.value| == n
    ensures r.Got? <==> n <= |s|
  {
    if n <= |s| then Got(s[..n], s[n..]) else Short
  }

  /** An unsigned integer of k bytes behind the first byte. */
  function Field(s: seq<byte>, k: nat): (r: Read<nat>)
    requires s != []
    ensures r.Got? ==> |r.rest| == |s| - 1 - k
  {
    var t := Take(s[1..], k);
    if t.Got? then Got(Number256(t.value), t.rest) else Short
  }

  function AsSigned(r: Read<nat>, modulus: nat): Read<int> {
    if r.Got? then Got(Signed(r.value, modulus), r.rest) else Short
  }

  function AsInt(r: Read<nat>): Read<int> {
    if r.Got? then Got(r.value, r.rest) else Short
  }

  /** msgpackDecode_readInteger; 64-bit values are cast to int64_t. */
  function ReadInt(s: seq<byte>): Read<int> {
    if s == [] then Short
    else if s[0] == 0xcc then AsInt(Field(s, 1))
    else if s[0] == 0xcd then AsInt(Field(s, 2))
    else if s[0] == 0xce then AsInt(Field(s, 4))
    else if s[0] == 0xcf || s[0] == 0xd3 then AsSigned(Field(s, 8), P64)
    else if s[0] == 0xd0 then AsSigned(Field(s, 1), P8)
    else if s[0] == 0xd1 then AsSigned(Field(s, 2), P16)
    else if s[0] == 0xd2 then AsSigned(Field(s, 4), P32)
    else if s[0] < 0x80 then Got(s[0], s[1..])
    else if s[0] >= 0xe0 then Got(s[0] as int - 256, s[1..])
    else Short
  }

  /** msgpackDecode_readReal of the two float formats. */
  function ReadReal(s: seq<byte>): Read<Number> {
    if s == [] then Short
    else if s[0] == 0xca then
      var t := Take(s[1..], 4);
      if t.Got? then Got(Single(t.value), t.rest) else Short
    else if s[0] == 0xcb then
      var t := Take(s[1..], 8);
      if t.Got? then Got(Double(t.value), t.rest) else Short
    else Short
  }

  /** A length, then as many bytes. */
  function Counted(r: Read<nat>): Read<seq<byte>> {
    if r.Got? then Take(r.rest, r.value) else Short
  }

  /** msgpackDecode_readString */
  function ReadStr(s: seq<byte>): Read<seq<byte>> {
    if s == [] then Short
    else if s[0] == 0xd9 then Counted(Field(s, 1))
    else if s[0] == 0xda then Counted(Field(s, 2))
    else if s[0] == 0xdb then Counted(Field(s, 4))
    else if 0xa0 <= s[0] < 0xc0 then Take(s[1..], s[0] - 0xa0)
    else Short
  }

  /** msgpackDecode_readBinary */
  function ReadBin(s: seq<byte>): Read<seq<byte>> {
    if s == [] then Short
    else if s[0] == 0xc4 then Counted(Field(s, 1))
    else if s[0] == 0xc5 then Counted(Field(s, 2))
    else if s[0] == 0xc6 then Counted(Field(s, 4))
    else Short
  }

  /** msgpackDecode_readMap */
  function ReadMap(s: seq<byte>): Read<nat> {
    if s == [] then Short
    else if s[0] == 0xde then Field(s, 2)
    else if s[0] == 0xdf then Field(s, 4)
    else if 0x80 <= s[0] < 0x90 then Got(s[0] - 0x80, s[1..])
    else Short
  }

  /** msgpackDecode_readUserPointer on 64-bit platforms */
  function ReadPtr(s: seq<byte>): Read<nat> {
    if s == [] then Short
    else if s[0] == 0xc7 then Field(s, 2)
    else if s[0] == 0xc8 then Field(s, 4)
    else if s[0] == 0xc9 then Field(s, 8)
    else Short
  }

  /** enMsgpackValueType and msgpackDecode_getType */
  datatype Type = TInteger | TBoolean | TReal | TString | TBinary | TArray | TMap | TNil | TUserPointer | TInvalid

  function TypeOf(s: seq<byte>): Type {
    if s == [] then TInvalid
    else if s[0] in {0xcc, 0xd0, 0xcd, 0xd1, 0xce, 0xd2, 0xcf, 0xd3} then TInteger
    else if s[0] in {0xc2, 0xc3} then TBoolean
    else if s[0] in {0xca, 0xcb} then TReal
    else if s[0] in {0xd9, 0xda, 0xdb} then TString
    else if s[0] in {0xc4, 0xc5, 0xc6} then TBinary
    else if s[0] in {0xc7, 0xc8, 0xc9} then TUserPointer
    else if s[0] in {0xdc, 0xdd} then TArray
    else if s[0] in {0xde, 0xdf} then TMap
    else if s[0] == 0xc0 then TNil
    else if s[0] < 0x80 || s[0] >= 0xe0 then TInteger
    else if 0xa0 <= s[0] < 0xc0 then TString
    else if 0x90 <= s[0] < 0xa0 then TArray
    else if 0x80 <= s[0] < 0x90 then TMap
    else TInvalid
  }

  /** What unpackValue makes of the front of the input: a value and what follows, or failure (false).
      When the entries of a table are malformed, unpackValue ignores the failure of unpackTable and goes
      on with whatever that left on the Lua stack: Garbled. */
  datatype Unpacked<T> = Done(value: T, rest: seq<byte>) | Failed | Garbled

  function Lift<T>(r: Read<T>, f: T -> Value): (u: Unpacked<Value>)
    ensures u.Done? <==> r.Got?
    ensures u.Done? ==> u.value == f(r.value) && u.rest == r.rest
  {
    if r.Got? then Done(f(r.value), r.rest) else Failed
  }

  /** unpackValue */
  function Unpack(s: seq<byte>): (u: Unpacked<Value>)
    ensures u.Done? ==> |u.rest| < |s|
    decreases |s|, 0
  {
    match TypeOf(s)
    case TInteger => Lift(ReadInt(s), n => Int(n))
    case TBoolean => Done(Bool(s[0] == 0xc3), s[1..])
    case TReal => Lift(ReadReal(s), x => Real(x))
    case TString => Lift(ReadStr(s), b => Str(b))
    case TBinary => Lift(ReadBin(s), b => Str(b))
    case TMap =>
      var head := ReadMap(s);
      if head.Short? then Failed
      else
        var items := UnpackAll(head.value, head.rest);
        if !items.Done? then Garbled
        else
          var pairs := UnpackPairs(items.rest);
          if pairs.Done? then Done(Table(items.value, pairs.value), pairs.rest) else Garbled
    case TNil => Done(Nil, s[1..])
    case TUserPointer => Lift(ReadPtr(s), q => Ptr(q))
    case TArray => Failed
    case TInvalid => Failed
  }

  /** The loop of unpackTable over the array part. */
  function UnpackAll(n: nat, s: seq<byte>): (u: Unpacked<seq<Value>>)
    ensures u.Done? ==> |u.rest| <= |s| && |u.value| == n
    decreases |s|, 1
  {
    if n == 0 then Done([], s)
    else
      match Unpack(s)
      case Failed => Failed
      case Garbled => Garbled
      case Done(v, t) =>
        match UnpackAll(n - 1, t)
        case Failed => Failed
        case Garbled => Garbled
        case Done(vs, w) => Done([v] + vs, w)
  }

  /** The loop of unpackTable over the other entries, up to a nil key. */
  function UnpackPairs(s: seq<byte>): (u: Unpacked<seq<Pair>>)
    ensures u.Done? ==> |u.rest| <= |s|
    decreases |s|, 1
  {
    match Unpack(s)
    case Failed => Failed
    case Garbled => Garbled
    case Done(k, t) =>
      if k == Nil then Done([], t)
      else
        match Unpack(t)
        case Failed => Failed
        case Garbled => Garbled
        case Done(v, w) =>
          match UnpackPairs(w)
          case Failed => Failed
          case Garbled => Garbled
          case Done(ps, z) => Done([Pair(k, v)] + ps, z)
  }

  /** ldecode: every value of a buffer, or nothing when one fails. */
  function Decode(s: seq<byte>): Unpacked<seq<Value>>
    decreases |s|
  {
    if s == [] then Done([], [])
    else
      match Unpack(s)
      case Failed => Failed
      case Garbled => Garbled
      case Done(v, t) =>
        match Decode(t)
        case Failed => Failed
        case Garbled => Garbled
        case Done(vs, w) => Done([v] + vs, w)
  }
}
