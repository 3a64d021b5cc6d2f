/** Unpacking what was packed gives the value back, and stops where it ends. */
module MsgpackRoundTrip {
  import opened ByteRing
  import opened Msgpack
  import opened Options

  /** A float with an integer value comes back as that integer; Lua compares them equal. */
  function Normal(v: Value): Value {
    match v
    case Real(Integral(n)) => Int(n)
    case Table(items, pairs) => Table(NormalAll(items), NormalPairs(pairs))
    case _ => v
  }

  function NormalAll(vs: seq<Value>): (ns: seq<Value>)
    ensures |ns| == |vs|
  {
    if vs == [] then [] else [Normal(vs[0])] + NormalAll(vs[1..])
  }

  function NormalPair(p: Pair): Pair {
    Pair(Normal(p.key), Normal(p.value))
  }

  function NormalPairs(ps: seq<Pair>): seq<Pair> {
    if ps == [] then [] else [NormalPair(ps[0])] + NormalPairs(ps[1..])
  }

  // ---------- Heads ----------

  lemma {:induction false} FieldBack(first: byte, n: nat, k: nat, t: seq<byte>)
    requires n < Pow256(k)
    ensures var s := [first] + Bytes(n, k) + t; s[0] == first && Field(s, k) == Got(n, t)
  {
    BytesBack(n, k);
    var s := [first] + Bytes(n, k) + t;
    assert s[1..] == Bytes(n, k) + t;
    assert s[1..][..k] == Bytes(n, k) && s[1..][k..] == t;
  }

  lemma {:induction false} IntBack(n: int, t: seq<byte>)
    requires -0x8000_0000_0000_0000 <= n < 0x8000_0000_0000_0000
    ensures TypeOf(PackInt(n) + t) == TInteger && ReadInt(PackInt(n) + t) == Got(n, t)
  {
    Powers();
    if n >= 0 {
      NonNegativeBack(n, t);
    } else {
      NegativeBack(n, t);
    }
  }

  lemma {:induction false} NonNegativeBack(n: nat, t: seq<byte>)
    requires n < 0x8000_0000_0000_0000
    ensures TypeOf(PackInt(n) + t) == TInteger && ReadInt(PackInt(n) + t) == Got(n, t)
  {
    Powers();
    if n <= 127 {
      assert ([n] + t)[1..] == t;
    } else if n <= 0xff {
      FieldBack(0xcc, n, 1, t);
    } else if n <= 0xffff {
      FieldBack(0xcd, n, 2, t);
    } else if n <= 0xffff_ffff {
      FieldBack(0xce, n, 4, t);
    } else {
      FieldBack(0xcf, n, 8, t);
    }
  }

  lemma {:induction false} NegativeBack(n: int, t: seq<byte>)
    requires -0x8000_0000_0000_0000 <= n < 0
    ensures TypeOf(PackInt(n) + t) == TInteger && ReadInt(PackInt(n) + t) == Got(n, t)
  {
    Powers();
    if n >= -32 {
      assert ([n + 256] + t)[1..] == t;
    } else if n >= -128 {
      SignedBack(0xd0, n, 1, P8, t);
    } else if n >= -32768 {
      SignedBack(0xd1, n, 2, P16, t);
    } else if n >= -0x8000_0000 {
      SignedBack(0xd2, n, 4, P32, t);
    } else {
      SignedBack(0xd3, n, 8, P64, t);
    }
  }

  /** Two's complement. */
  lemma {:induction false} SignedBack(first: byte, n: int, k: nat, modulus: nat, t: seq<byte>)
    requires modulus == Pow256(k) && modulus % 2 == 0 && -(modulus / 2) <= n < 0
    ensures var s := [first] + Bytes(n + modulus, k) + t;
            s[0] == first && AsSigned(Field(s, k), modulus) == Got(n, t)
  {
    FieldBack(first, n + modulus, k, t);
  }

  lemma {:induction false} RealBack(x: Number, t: seq<byte>)
    requires FitsNumber(x) && !x.Integral?
    ensures TypeOf(PackReal(x) + t) == TReal && ReadReal(PackReal(x) + t) == Got(x, t)
  {
    var first: byte := if x.Single? then 0xca else 0xcb;
    var s := [first] + x.image + t;
    assert s[1..] == x.image + t;
    assert s[1..][..|x.image|] == x.image && s[1..][|x.image|..] == t;
  }

  lemma {:induction false} StrBack(b: seq<byte>, t: seq<byte>)
    requires |b| < P32
    ensures TypeOf(StrHead(|b|) + b + t) == TString && ReadStr(StrHead(|b|) + b + t) == Got(b, t)
  {
    Powers();
    var n := |b|;
    assert StrHead(n) + b + t == StrHead(n) + (b + t);
    assert (b + t)[..n] == b && (b + t)[n..] == t;
    if n < 32 {
      assert ([0xa0 + n] + (b + t))[1..] == b + t;
    } else if n <= 0xff {
      FieldBack(0xd9, n, 1, b + t);
    } else if n <= 0xffff {
      FieldBack(0xda, n, 2, b + t);
    } else {
      FieldBack(0xdb, n, 4, b + t);
    }
  }

  lemma {:induction false} MapBack(n: nat, t: seq<byte>)
    requires n < P32
    ensures TypeOf(MapHead(n) + t) == TMap && ReadMap(MapHead(n) + t) == Got(n, t)
  {
    Powers();
    if n <= 15 {
      assert ([0x80 + n] + t)[1..] == t;
    } else if n <= 0xffff {
      FieldBack(0xde, n, 2, t);
    } else {
      FieldBack(0xdf, n, 4, t);
    }
  }

  lemma {:induction false} PtrBack(p: nat, t: seq<byte>)
    requires p < P64
    ensures TypeOf(PackPtr(p) + t) == TUserPointer && ReadPtr(PackPtr(p) + t) == Got(p, t)
  {
    Powers();
    if p <= 0xffff {
      FieldBack(0xc7, p, 2, t);
    } else if p <= 0xffff_ffff {
      FieldBack(0xc8, p, 4, t);
    } else {
      FieldBack(0xc9, p, 8, t);
    }
  }

  // ---------- Values ----------

  /** Unpacking a packed value followed by anything gives the value, and exactly what follows. */
  lemma {:induction false} ValueBack(v: Value, depth: nat, t: seq<byte>)
    requires Fits(v) && Pack(v, depth).Some?
    ensures Unpack(Pack(v, depth).value + t) == Done(Normal(v), t)
    decreases v
  {
    if v.Table? {
      TableBack(v.items, v.pairs, depth, t);
    } else if v.Nil? || v.Bool? {
      ByteBack(if v.Nil? then 0xc0 else if v.b then 0xc3 else 0xc2, t);
    } else {
      ScalarBack(v, depth, t);
    }
  }

  lemma {:induction false} ByteBack(first: byte, t: seq<byte>)
    ensures ([first] + t)[0] == first && ([first] + t)[1..] == t
  {}

  lemma {:induction false} ScalarBack(v: Value, depth: nat, t: seq<byte>)
    requires Fits(v) && Pack(v, depth).Some? && (v.Int? || v.Real? || v.Str? || v.Ptr?)
    ensures Unpack(Pack(v, depth).value + t) == Done(Normal(v), t)
  {
    match v
    case Int(n) => IntBack(n, t);
    case Real(x) => if x.Integral? { IntBack(x.n, t); } else { RealBack(x, t); }
    case Str(s) => StrBack(s, t);
    case Ptr(p) => PtrBack(p, t);
  }

  lemma {:induction false} TableBack(items: seq<Value>, pairs: seq<Pair>, depth: nat, t: seq<byte>)
    requires Fits(Table(items, pairs)) && Pack(Table(items, pairs), depth).Some?
    ensures Unpack(Pack(Table(items, pairs), depth).value + t) == Done(Normal(Table(items, pairs)), t)
    decreases Table(items, pairs), 0
  {
    var packedItems, packedPairs := PackAll(items, depth + 1).value, PackPairs(pairs, |items|, depth + 1).value;
    AllBack(items, depth + 1, packedPairs + t);
    PairsBack(pairs, |items|, depth + 1, t);
    MapBack(|items|, packedItems + (packedPairs + t));
    Regroup(MapHead(|items|), packedItems, packedPairs, t);
    UnpackTable(MapHead(|items|) + (packedItems + (packedPairs + t)), |items|, packedItems + (packedPairs + t),
                NormalAll(items), packedPairs + t, NormalPairs(pairs), t);
  }

  lemma {:induction false} Regroup(a: seq<byte>, b: seq<byte>, c: seq<byte>, d: seq<byte>)
    ensures (a + (b + c)) + d == a + (b + (c + d))
  {}

  /** A table is unpacked from a head, as many items as it says, and pairs up to a nil key. */
  lemma {:induction false} UnpackTable(s: seq<byte>, n: nat, s1: seq<byte>, items: seq<Value>, s2: seq<byte>,
                                       pairs: seq<Pair>, t: seq<byte>)
    requires TypeOf(s) == TMap && ReadMap(s) == Got(n, s1)
    requires UnpackAll(n, s1) == Done(items, s2) && UnpackPairs(s2) == Done(pairs, t)
    ensures Unpack(s) == Done(Table(items, pairs), t)
  {}

  lemma {:induction false} AllBack(vs: seq<Value>, depth: nat, t: seq<byte>)
    requires FitsAll(vs) && PackAll(vs, depth).Some?
    ensures UnpackAll(|vs|, PackAll(vs, depth).value + t) == Done(NormalAll(vs), t)
    decreases vs
  {
    if vs == [] {
      assert [] + t == t;
    } else {
      var first, rest := Pack(vs[0], depth).value, PackAll(vs[1..], depth).value;
      assert PackAll(vs, depth).value + t == first + (rest + t);
      ValueBack(vs[0], depth, rest + t);
      AllBack(vs[1..], depth, t);
    }
  }

  lemma {:induction false} PairsBack(ps: seq<Pair>, size: nat, depth: nat, t: seq<byte>)
    requires FitsPairs(ps, size) && PackPairs(ps, size, depth).Some?
    ensures UnpackPairs(PackPairs(ps, size, depth).value + t) == Done(NormalPairs(ps), t)
    decreases ps
  {
    if ps == [] {
      assert ([0xc0] + t)[1..] == t;
    } else {
      var rest := PackPairs(ps[1..], size, depth).value;
      PairBack(ps[0], size, depth, rest + t);
      assert PackPairs(ps, size, depth).value + t == PackPair(ps[0], size, depth).value + (rest + t);
      PairsBack(ps[1..], size, depth, t);
    }
  }

  lemma {:induction false} PairBack(p: Pair, size: nat, depth: nat, t: seq<byte>)
    requires FitsPair(p, size) && PackPair(p, size, depth).Some?
    ensures var u := Unpack(PackPair(p, size, depth).value + t);
            && u.Done? && u.value == Normal(p.key) != Nil
            && Unpack(u.rest) == Done(Normal(p.value), t)
    decreases p
  {
    var key, value := Pack(p.key, depth).value, Pack(p.value, depth).value;
    assert PackPair(p, size, depth).value + t == key + (value + t);
    ValueBack(p.key, depth, value + t);
    ValueBack(p.value, depth, t);
  }

  /** ldecode inverts packing of any list of values (lencode packs its arguments at depth 0). */
  lemma {:induction false} RoundTrip(vs: seq<Value>)
    requires FitsAll(vs) && PackAll(vs, 0).Some?
    ensures Decode(PackAll(vs, 0).value) == Done(NormalAll(vs), [])
    decreases |vs|
  {
    if vs != [] {
      var first, rest := Pack(vs[0], 0).value, PackAll(vs[1..], 0).value;
      ValueBack(vs[0], 0, rest);
      RoundTrip(vs[1..]);
      assert PackAll(vs, 0).value == first + rest;
      assert first + rest != [] by { NotEmpty(vs[0], 0); }
    }
  }

  lemma {:induction false} NotEmpty(v: Value, depth: nat)
    requires Fits(v) && Pack(v, depth).Some?
    ensures Pack(v, depth).value != []
  {}

  // ---------- The depth limit ----------

  function Max(a: nat, b: nat): nat {
    if a > b then a else b
  }

  /** How deep a value nests non-empty tables. */
  function Height(v: Value): nat
    decreases v
  {
    if v.Table? && (v.items != [] || v.pairs != []) then 1 + Max(HeightAll(v.items), HeightPairs(v.pairs)) else 0
  }

  function HeightAll(vs: seq<Value>): nat
    decreases vs
  {
    if vs == [] then 0 else Max(Height(vs[0]), HeightAll(vs[1..]))
  }

  function HeightPairs(ps: seq<Pair>): nat
    decreases ps
  {
    if ps == [] then 0 else Max(HeightPair(ps[0]), HeightPairs(ps[1..]))
  }

  function HeightPair(p: Pair): nat
    decreases p
  {
    Max(Height(p.key), Height(p.value))
  }

  /** Packing fails exactly for values that nest more than 32 tables. */
  lemma {:induction false} PacksUpToDepth(v: Value, depth: nat)
    requires Fits(v)
    ensures Pack(v, depth).Some? <==> depth + Height(v) <= 32
    decreases v
  {
    if v.Table? {
      AllUpToDepth(v.items, depth + 1);
      PairsUpToDepth(v.pairs, |v.items|, depth + 1);
    }
  }

  lemma {:induction false} AllUpToDepth(vs: seq<Value>, depth: nat)
    requires FitsAll(vs)
    ensures PackAll(vs, depth).Some? <==> vs == [] || depth + HeightAll(vs) <= MAX_DEPTH
    decreases vs
  {
    if vs != [] {
      PacksUpToDepth(vs[0], depth);
      AllUpToDepth(vs[1..], depth);
    }
  }

  lemma {:induction false} PairsUpToDepth(ps: seq<Pair>, size: nat, depth: nat)
    requires FitsPairs(ps, size)
    ensures PackPairs(ps, size, depth).Some? <==> ps == [] || depth + HeightPairs(ps) <= MAX_DEPTH
    decreases ps
  {
    if ps != [] {
      PairUpToDepth(ps[0], size, depth);
      PairsUpToDepth(ps[1..], size, depth);
    }
  }

  lemma {:induction false} PairUpToDepth(p: Pair, size: nat, depth: nat)
    requires FitsPair(p, size)
    ensures PackPair(p, size, depth).Some? <==> depth + HeightPair(p) <= MAX_DEPTH
    decreases p
  {
    PacksUpToDepth(p.key, depth);
    PacksUpToDepth(p.value, depth);
  }
}
