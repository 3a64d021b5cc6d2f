/** What the unpacker makes of a buffer does not depend on what follows: more bytes change nothing, and fewer than
    a value has are not taken for another value. */
module MsgpackTruncated {
  import opened ByteRing
  import opened Msgpack
  import opened MsgpackRoundTrip
  import opened Options

  // ---------- Scalars ----------

  /** What was read stays the same with more bytes behind it. */
  ghost predicate Same<T>(r: Read<T>, r': Read<T>, t: seq<byte>) {
    r.Got? ==> r' == Got(r.value, r.rest + t)
  }

  lemma {:induction false} TakeStable(s: seq<byte>, n: nat, t: seq<byte>)
    ensures Same(Take(s, n), Take(s + t, n), t)
  {
    if n <= |s| {
      assert (s + t)[..n] == s[..n] && (s + t)[n..] == s[n..] + t;
    }
  }

  lemma {:induction false} FieldStable(s: seq<byte>, k: nat, t: seq<byte>)
    requires s != []
    ensures (s + t)[0] == s[0] && (s + t)[1..] == s[1..] + t && Same(Field(s, k), Field(s + t, k), t)
  {
    assert (s + t)[1..] == s[1..] + t;
    TakeStable(s[1..], k, t);
  }

  lemma {:induction false} CountedStable(r: Read<nat>, r': Read<nat>, t: seq<byte>)
    requires Same(r, r', t)
    ensures Same(Counted(r), Counted(r'), t)
  {
    if r.Got? {
      TakeStable(r.rest, r.value, t);
    }
  }

  /** The width of an integer's field; 0 for an integer in the first byte. */
  function Width(first: byte): nat {
    if first == 0xcc || first == 0xd0 then 1
    else if first == 0xcd || first == 0xd1 then 2
    else if first == 0xce || first == 0xd2 then 4
    else if first == 0xcf || first == 0xd3 then 8
    else 0
  }

  lemma {:induction false} IntStable(s: seq<byte>, t: seq<byte>)
    requires s != []
    ensures Same(ReadInt(s), ReadInt(s + t), t)
  {
    FieldStable(s, Width(s[0]), t);
    IntFrom(s, s + t, t);
  }

  /** An integer depends on its first byte and its field. */
  lemma {:induction false} IntFrom(s: seq<byte>, s': seq<byte>, t: seq<byte>)
    requires s != [] && s' != [] && s'[0] == s[0] && s'[1..] == s[1..] + t
    requires Same(Field(s, Width(s[0])), Field(s', Width(s[0])), t)
    ensures Same(ReadInt(s), ReadInt(s'), t)
  {}

  lemma {:induction false} RealStable(s: seq<byte>, t: seq<byte>)
    requires s != []
    ensures Same(ReadReal(s), ReadReal(s + t), t)
  {
    FieldStable(s, 4, t);
    TakeStable(s[1..], 4, t);
    TakeStable(s[1..], 8, t);
  }

  lemma {:induction false} StrStable(s: seq<byte>, t: seq<byte>)
    requires s != []
    ensures Same(ReadStr(s), ReadStr(s + t), t)
  {
    if 0xd9 <= s[0] <= 0xdb {
      var k := if s[0] == 0xd9 then 1 else if s[0] == 0xda then 2 else 4;
      FieldStable(s, k, t);
      CountedStable(Field(s, k), Field(s + t, k), t);
    } else if 0xa0 <= s[0] < 0xc0 {
      FieldStable(s, 1, t);
      TakeStable(s[1..], s[0] - 0xa0, t);
    }
  }

  lemma {:induction false} BinStable(s: seq<byte>, t: seq<byte>)
    requires s != []
    ensures Same(ReadBin(s), ReadBin(s + t), t)
  {
    if 0xc4 <= s[0] <= 0xc6 {
      var k := if s[0] == 0xc4 then 1 else if s[0] == 0xc5 then 2 else 4;
      FieldStable(s, k, t);
      CountedStable(Field(s, k), Field(s + t, k), t);
    }
  }

  lemma {:induction false} MapStable(s: seq<byte>, t: seq<byte>)
    requires s != []
    ensures Same(ReadMap(s), ReadMap(s + t), t)
  {
    FieldStable(s, 2, t);
    FieldStable(s, 4, t);
  }

  lemma {:induction false} PtrStable(s: seq<byte>, t: seq<byte>)
    requires s != []
    ensures Same(ReadPtr(s), ReadPtr(s + t), t)
  {
    FieldStable(s, 2, t);
    FieldStable(s, 4, t);
    FieldStable(s, 8, t);
  }

  lemma {:induction false} TypeStable(s: seq<byte>, t: seq<byte>)
    requires s != []
    ensures TypeOf(s + t) == TypeOf(s) && (s + t)[0] == s[0] && (s + t)[1..] == s[1..] + t
  {
    FieldStable(s, 1, t);
  }

  // ---------- Values ----------

  ghost predicate Still<T>(u: Unpacked<T>, u': Unpacked<T>, t: seq<byte>) {
    u.Done? ==> u' == Done(u.value, u.rest + t)
  }

  lemma {:induction false} ScalarStable(s: seq<byte>, t: seq<byte>)
    requires s != [] && TypeOf(s) != TMap
    ensures Still(Unpack(s), Unpack(s + t), t)
  {
    TypeStable(s, t);
    match TypeOf(s)
    case TInteger => IntStable(s, t);
    case TReal => RealStable(s, t);
    case TString => StrStable(s, t);
    case TBinary => BinStable(s, t);
    case TUserPointer => PtrStable(s, t);
    case _ =>
  }

  /** A value that was unpacked is unpacked in the same way when more follows. */
  lemma {:induction false} UnpackStable(s: seq<byte>, t: seq<byte>)
    ensures Still(Unpack(s), Unpack(s + t), t)
    decreases |s|, 0
  {
    if s == [] {
    } else if TypeOf(s) != TMap {
      ScalarStable(s, t);
    } else {
      TypeStable(s, t);
      MapStable(s, t);
      var head := ReadMap(s);
      if head.Got? {
        AllStable(head.value, head.rest, t);
        var items := UnpackAll(head.value, head.rest);
        if items.Done? {
          PairsStable(items.rest, t);
        }
      }
    }
  }

  lemma {:induction false} AllStable(n: nat, s: seq<byte>, t: seq<byte>)
    ensures Still(UnpackAll(n, s), UnpackAll(n, s + t), t)
    decreases |s|, 1
  {
    if n > 0 {
      UnpackStable(s, t);
      var u := Unpack(s);
      if u.Done? {
        AllStable(n - 1, u.rest, t);
      }
    }
  }

  lemma {:induction false} PairsStable(s: seq<byte>, t: seq<byte>)
    ensures Still(UnpackPairs(s), UnpackPairs(s + t), t)
    decreases |s|, 1
  {
    UnpackStable(s, t);
    var k := Unpack(s);
    if k.Done? && k.value != Nil {
      UnpackStable(k.rest, t);
      var v := Unpack(k.rest);
      if v.Done? {
        PairsStable(v.rest, t);
      }
    }
  }

  /** A packed value that was cut off is not taken for a value. */
  lemma {:induction false} CutOff(v: Value, depth: nat, s: seq<byte>, t: seq<byte>)
    requires Fits(v) && Pack(v, depth).Some? && Pack(v, depth).value == s + t && t != []
    ensures !Unpack(s).Done?
  {
    UnpackStable(s, t);
    ValueBack(v, depth, []);
    assert Pack(v, depth).value + [] == s + t;
  }
}
