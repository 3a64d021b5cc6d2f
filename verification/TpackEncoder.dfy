/** tpack_encode of one buffer, and tpack_encodeVec: fragments gathered from a vector of buffers. */
module TpackEncoder {
  import opened ByteRing
  import opened ByteQueue
  import opened Tpack
  import opened TpackFrames

  lemma {:induction false} FilledTo(buf: seq<byte>, at: nat, part: seq<byte>)
    requires at + |part| <= |buf|
    ensures Over(buf, at, part)[..at + |part|] == buf[..at] + part
  {}

  /** Allocating the buffer of a frame and filling in its head; the payload starts at `at`. */
  method NewPack(first: byte, tok: seq<byte>, length: nat) returns (pack: array<byte>, at: nat)
    requires length <= FRAGMENT
    ensures fresh(pack) && pack.Length == at + length && pack[..at] == HeadBytes(first, tok, length)
  {
    var head := HeadBytes(first, tok, length);
    at := |head|;
    pack := new byte[at + length];
    ByteQueue.Copy(pack, 0, head);
  }

  /** A buffer that fits one frame. */
  method EncodeOne(buffer: seq<byte>, flag: nat, token: nat) returns (frames: seq<seq<byte>>)
    requires |buffer| < FRAGMENT
    ensures frames == Frames(flag, token, buffer)
  {
    var pack, at := NewPack(Opcode(flag) + FRAME_FINAL, TokenBytes(flag, token), |buffer|);
    FilledTo(pack[..], at, buffer);
    ByteQueue.Copy(pack, at, buffer);
    assert pack[..] == pack[..at + |buffer|];
    frames := [pack[..]];
  }

  // ---------- Gathering from a vector ----------

  predicate Spot(vec: seq<seq<byte>>, i: nat, o: nat) {
    i <= |vec| && (o == 0 || (i < |vec| && o < |vec[i]|))
  }

  /** What is left of the vector from byte o of buffer i on. */
  function Left(vec: seq<seq<byte>>, i: nat, o: nat): seq<byte>
    requires Spot(vec, i, o)
    decreases |vec| - i
  {
    if i == |vec| then [] else vec[i][o..] + Left(vec, i + 1, 0)
  }

  lemma {:induction false} AllLeft(vec: seq<seq<byte>>, i: nat)
    requires i <= |vec|
    ensures Left(vec, i, 0) == Concat(vec[i..])
    decreases |vec| - i
  {
    if i < |vec| {
      AllLeft(vec, i + 1);
      assert vec[i..][0] == vec[i] && vec[i..][1..] == vec[i + 1..];
    }
  }

  /** Taking n bytes of the buffer at hand. */
  lemma {:induction false} GatherPart(vec: seq<seq<byte>>, i: nat, o: nat, n: nat)
    requires i < |vec| && Spot(vec, i, o) && n <= |vec[i]| - o
    ensures Left(vec, i, o)
         == vec[i][o..o + n] + (if n < |vec[i]| - o then Left(vec, i, o + n) else Left(vec, i + 1, 0))
  {
    var rest := Left(vec, i + 1, 0);
    if n < |vec[i]| - o {
      CutBuffer(vec[i], o, n, rest);
    } else {
      assert vec[i][o..] == vec[i][o..o + n];
    }
  }

  lemma {:induction false} CutBuffer(buf: seq<byte>, o: nat, n: nat, rest: seq<byte>)
    requires o + n <= |buf|
    ensures buf[o..] + rest == buf[o..o + n] + (buf[o + n..] + rest)
  {
    assert buf[o..] == buf[o..o + n] + buf[o + n..];
  }

  /** `got` holds `before` and the first n bytes of `left`; `todo` are the others. */
  ghost predicate Filled(got: seq<byte>, before: seq<byte>, left: seq<byte>, n: nat, todo: seq<byte>) {
    n <= |left| && got == before + left[..n] && todo == left[n..]
  }

  lemma {:induction false} FilledOn(got: seq<byte>, before: seq<byte>, left: seq<byte>, n: nat, todo: seq<byte>, m: nat)
    requires Filled(got, before, left, n, todo) && m <= |todo|
    ensures Filled(got + todo[..m], before, left, n + m, todo[m..])
  {
    assert left[..n + m] == left[..n] + left[n..][..m];
    assert before + left[..n + m] == (before + left[..n]) + todo[..m];
  }

  lemma {:induction false} FilledThen(got: seq<byte>, got': seq<byte>, before: seq<byte>, left: seq<byte>, n: nat,
                                      todo: seq<byte>, m: nat, todo': seq<byte>)
    requires Filled(got, before, left, n, todo) && Filled(got', got, todo, m, todo')
    ensures Filled(got', before, left, n + m, todo')
  {
    FilledOn(got, before, left, n, todo, m);
  }

  lemma {:induction false} SplitAt(a: seq<byte>, b: seq<byte>)
    ensures (a + b)[..|a|] == a && (a + b)[|a|..] == b
  {}

  lemma {:induction false} GatherSome(vec: seq<seq<byte>>, i: nat, o: nat, n: nat, got: seq<byte>)
    requires i < |vec| && Spot(vec, i, o) && n < |vec[i]| - o
    ensures Filled(got + vec[i][o..o + n], got, Left(vec, i, o), n, Left(vec, i, o + n))
  {
    GatherPart(vec, i, o, n);
    FilledFirst(got, vec[i][o..o + n], Left(vec, i, o + n));
  }

  lemma {:induction false} GatherAll(vec: seq<seq<byte>>, i: nat, o: nat, got: seq<byte>)
    requires i < |vec| && Spot(vec, i, o)
    ensures Filled(got + vec[i][o..|vec[i]|], got, Left(vec, i, o), |vec[i]| - o, Left(vec, i + 1, 0))
  {
    GatherPart(vec, i, o, |vec[i]| - o);
    FilledFirst(got, vec[i][o..|vec[i]|], Left(vec, i + 1, 0));
  }

  /** One round of the copy loop: from one buffer, as much as it has and the frame takes. */
  method GatherOne(vec: seq<seq<byte>>, index: nat, offset: nat, pack: array<byte>, start: nat)
    returns (i: nat, o: nat, at: nat)
    requires index < |vec| && Spot(vec, index, offset) && start <= pack.Length
    modifies pack
    ensures start <= at <= pack.Length && Spot(vec, i, o)
    ensures Filled(pack[..at], old(pack[..start]), Left(vec, index, offset), at - start, Left(vec, i, o))
    ensures index <= i && (at < pack.Length ==> i == index + 1)
    ensures i == |vec| && start < at ==> vec[|vec| - 1] != []
  {
    var room := pack.Length - start;
    if |vec[index]| - offset > room {
      CopySome(vec, index, offset, room, pack, start);
      i, o, at := index, offset + room, pack.Length;
    } else {
      CopyRest(vec, index, offset, pack, start);
      i, o, at := index + 1, 0, start + (|vec[index]| - offset);
    }
  }

  /** n bytes of a buffer that has more. */
  method CopySome(vec: seq<seq<byte>>, index: nat, offset: nat, n: nat, pack: array<byte>, start: nat)
    requires index < |vec| && Spot(vec, index, offset) && n < |vec[index]| - offset && start + n <= pack.Length
    modifies pack
    ensures Filled(pack[..start + n], old(pack[..start]), Left(vec, index, offset), n, Left(vec, index, offset + n))
  {
    GatherSome(vec, index, offset, n, pack[..start]);
    CopyBehind(pack, start, vec[index][offset..offset + n]);
  }

  /** The rest of a buffer. */
  method CopyRest(vec: seq<seq<byte>>, index: nat, offset: nat, pack: array<byte>, start: nat)
    requires index < |vec| && Spot(vec, index, offset) && start + (|vec[index]| - offset) <= pack.Length
    modifies pack
    ensures Filled(pack[..start + (|vec[index]| - offset)], old(pack[..start]), Left(vec, index, offset),
                   |vec[index]| - offset, Left(vec, index + 1, 0))
  {
    GatherAll(vec, index, offset, pack[..start]);
    CopyBehind(pack, start, vec[index][offset..|vec[index]|]);
  }

  /** memcpy behind what has been filled in. */
  method CopyBehind(pack: array<byte>, at: nat, part: seq<byte>)
    requires at + |part| <= pack.Length
    modifies pack
    ensures pack[..at + |part|] == old(pack[..at]) + part
  {
    FilledTo(pack[..], at, part);
    ByteQueue.Copy(pack, at, part);
    assert pack[..][..at + |part|] == pack[..at + |part|];
  }

  lemma {:induction false} FilledFirst(got: seq<byte>, part: seq<byte>, todo: seq<byte>)
    ensures Filled(got + part, got, part + todo, |part|, todo)
  {
    SplitAt(part, todo);
  }

  /** A round after others. */
  method GatherNext(vec: seq<seq<byte>>, index: nat, offset: nat, pack: array<byte>, from: nat,
                    ghost before: seq<byte>, ghost left: seq<byte>, ghost n: nat)
    returns (i: nat, o: nat, at: nat)
    requires index < |vec| && Spot(vec, index, offset) && from <= pack.Length
    requires Filled(pack[..from], before, left, n, Left(vec, index, offset))
    modifies pack
    ensures from <= at <= pack.Length && Spot(vec, i, o)
    ensures Filled(pack[..at], before, left, n + at - from, Left(vec, i, o))
    ensures index <= i && (at < pack.Length ==> i == index + 1)
    ensures i == |vec| && from < at ==> vec[|vec| - 1] != []
  {
    ghost var got, todo := pack[..from], Left(vec, index, offset);
    i, o, at := GatherOne(vec, index, offset, pack, from);
    FilledThen(got, pack[..at], before, left, n, todo, at - from, Left(vec, i, o));
  }

  /** Filling the rest of a frame; `inside` is false if a buffer past the end of the vector is read. */
  method Gather(vec: seq<seq<byte>>, index: nat, offset: nat, pack: array<byte>, start: nat)
    returns (inside: bool, i: nat, o: nat)
    requires Spot(vec, index, offset) && start <= pack.Length
    requires pack.Length - start <= |Left(vec, index, offset)|
    modifies pack
    ensures inside <==> start < pack.Length || index < |vec|
    ensures inside ==>
              && Spot(vec, i, o)
              && Filled(pack[..], old(pack[..start]), Left(vec, index, offset), pack.Length - start, Left(vec, i, o))
              && (start < pack.Length && i == |vec| ==> vec[|vec| - 1] != [])
  {
    var at := start;
    ghost var before, left := pack[..start], Left(vec, index, offset);
    FilledNone(before, left);
    i, o := index, offset;
    while true
      invariant start <= at <= pack.Length && Spot(vec, i, o)
      invariant at < pack.Length || (at == start && i == index && o == offset)
      invariant Filled(pack[..at], before, left, at - start, Left(vec, i, o))
      decreases |vec| - i
    {
      if i == |vec| {
        LeftIsEnough(pack[..at], before, left, at - start);
        return false, i, o;
      }
      i, o, at := GatherNext(vec, i, o, pack, at, before, left, at - start);
      if at == pack.Length {
        WholeArray(pack);
        return true, i, o;
      }
    }
  }

  lemma {:induction false} FilledNone(got: seq<byte>, left: seq<byte>)
    ensures Filled(got, got, left, 0, left)
  {
    assert left[..0] == [];
  }

  lemma {:induction false} LeftIsEnough(got: seq<byte>, before: seq<byte>, left: seq<byte>, n: nat)
    requires Filled(got, before, left, n, [])
    ensures n == |left| && got == before + left
  {
    assert left[..|left|] == left;
  }

  lemma {:induction false} WholeArray(pack: array<byte>)
    ensures pack[..] == pack[..pack.Length]
  {}

  // ---------- tpack_encodeVec ----------

  /** The total length, and copying all buffers behind a head. */
  method TotalLength(vec: seq<seq<byte>>) returns (n: nat)
    ensures n == |Concat(vec)|
  {
    n := 0;
    AllLeft(vec, 0);
    assert vec[0..] == vec;
    for i := 0 to |vec|
      invariant n + |Left(vec, i, 0)| == |Concat(vec)|
    {
      n := n + |vec[i]|;
    }
  }

  method CopyAll(vec: seq<seq<byte>>, pack: array<byte>, start: nat)
    requires start + |Concat(vec)| == pack.Length
    modifies pack
    ensures pack[..] == old(pack[..start]) + Concat(vec)
  {
    AllLeft(vec, 0);
    assert vec[0..] == vec;
    ghost var before, left := pack[..start], Concat(vec);
    var at := start;
    FilledNone(before, left);
    for i := 0 to |vec|
      invariant start <= at && at + |Left(vec, i, 0)| == pack.Length
      invariant Filled(pack[..at], before, left, at - start, Left(vec, i, 0))
    {
      CopyNext(vec, i, pack, at, before, left, at - start);
      at := at + |vec[i]|;
    }
    LeftIsEnough(pack[..at], before, left, at - start);
    assert pack[..] == pack[..at];
  }

  /** A whole buffer after others. */
  method CopyNext(vec: seq<seq<byte>>, i: nat, pack: array<byte>, at: nat,
                  ghost before: seq<byte>, ghost left: seq<byte>, ghost n: nat)
    requires i < |vec| && at + |Left(vec, i, 0)| <= pack.Length
    requires Filled(pack[..at], before, left, n, Left(vec, i, 0))
    modifies pack
    ensures at + |vec[i]| <= pack.Length
    ensures Filled(pack[..at + |vec[i]|], before, left, n + |vec[i]|, Left(vec, i + 1, 0))
  {
    ghost var got, todo := pack[..at], Left(vec, i, 0);
    assert |todo| == |vec[i]| + |Left(vec, i + 1, 0)|;
    CopyRest(vec, i, 0, pack, at);
    FilledThen(got, pack[..at + |vec[i]|], before, left, n, todo, |vec[i]|, Left(vec, i + 1, 0));
  }

  /** One fragment of n bytes. */
  method EncodeFragment(vec: seq<seq<byte>>, index: nat, offset: nat, first: byte, tok: seq<byte>, n: nat)
    returns (inside: bool, frame: seq<byte>, i: nat, o: nat)
    requires Spot(vec, index, offset) && n <= FRAGMENT && n <= |Left(vec, index, offset)|
    ensures inside <==> n > 0 || index < |vec|
    ensures inside ==>
              && Spot(vec, i, o)
              && frame == Frame(first, tok, Left(vec, index, offset)[..n])
              && Left(vec, i, o) == Left(vec, index, offset)[n..]
              && (n > 0 && i == |vec| ==> vec[|vec| - 1] != [])
  {
    var pack, at := NewPack(first, tok, n);
    inside, i, o := Gather(vec, index, offset, pack, at);
    frame := pack[..];
  }

  /** What tpack_encodeVec needs to stay inside the vector: after a whole number of fragments it looks
      at one more buffer, which is there only if the vector ends with an empty one. */
  predicate Gatherable(vec: seq<seq<byte>>) {
    var n := |Concat(vec)|;
    n < FRAGMENT || n % 0xffff != 0 || (|vec| > 0 && vec[|vec| - 1] == [])
  }

  lemma {:induction false} OneBuffer(vec: seq<seq<byte>>)
    requires |vec| == 1
    ensures Concat(vec) == vec[0]
  {
    assert Concat(vec) == vec[0] + Concat(vec[1..]);
  }

  /** One buffer of exactly one fragment: there is no other buffer to look at. */
  lemma {:induction false} FullBuffer(vec: seq<seq<byte>>)
    requires |vec| == 1 && |vec[0]| == 0xffff
    ensures !Gatherable(vec) && Gatherable(vec + [[]])
  {
    OneBuffer(vec);
    OneBuffer([[]]);
    ConcatSplit(vec, [[]]);
  }

  lemma {:induction false} NothingLeft(vec: seq<seq<byte>>, i: nat, o: nat)
    requires Spot(vec, i, o) && i < |vec| && Left(vec, i, o) == []
    ensures vec[|vec| - 1] == []
    decreases |vec| - i
  {
    if i + 1 < |vec| {
      NothingLeft(vec, i + 1, 0);
    } else {
      assert o == 0 && vec[i] == vec[i][o..];
    }
  }

  /** The frames still to come, for the bytes that are left. */
  function Coming(flag: nat, token: nat, todo: seq<byte>, started: bool): seq<seq<byte>> {
    if started then Rest(TokenBytes(flag, token), todo) else Frames(flag, token, todo)
  }

  method EncodeVec(vec: seq<seq<byte>>, flag: nat, token: nat) returns (inside: bool, frames: seq<seq<byte>>)
    ensures inside <==> Gatherable(vec)
    ensures inside ==> frames == Frames(flag, token, Concat(vec))
  {
    var tok := TokenBytes(flag, token);
    var total := TotalLength(vec);
    var count := total / 0xffff + 1;
    if count == 1 {
      var pack, at := NewPack(Opcode(flag) + FRAME_FINAL, tok, total);
      CopyAll(vec, pack, at);
      return true, [pack[..]];
    }
    inside, frames := EncodeFragments(vec, flag, token, total, count);
  }

  lemma {:induction false} ComingNext(flag: nat, token: nat, todo: seq<byte>, started: bool, done: seq<seq<byte>>)
    requires |todo| >= FRAGMENT || started
    ensures var tok := TokenBytes(flag, token);
            done + Coming(flag, token, todo, started)
            == if |todo| < FRAGMENT then done + [Frame(FRAME_FINAL, tok, todo[..|todo|])]
               else (done + [Frame(if started then 0 else Opcode(flag), tok, todo[..FRAGMENT])])
                    + Coming(flag, token, todo[FRAGMENT..], true)
  {
    if |todo| < FRAGMENT {
      assert todo[..|todo|] == todo;
    } else {
      Associate(done, Frame(if started then 0 else Opcode(flag), TokenBytes(flag, token), todo[..FRAGMENT]),
                Coming(flag, token, todo[FRAGMENT..], true));
    }
  }

  lemma {:induction false} Associate(done: seq<seq<byte>>, frame: seq<byte>, more: seq<seq<byte>>)
    ensures done + ([frame] + more) == (done + [frame]) + more
  {}

  /** The number of the last fragment is the number of whole fragments before it. */
  lemma LastFragment(total: nat, j: nat, todo: nat)
    requires j * 0xffff + todo == total && j <= total / 0xffff
    ensures j == total / 0xffff <==> todo < FRAGMENT
    ensures j == total / 0xffff ==> todo == total % 0xffff
  {}

  method EncodeFragments(vec: seq<seq<byte>>, flag: nat, token: nat, total: nat, count: nat)
    returns (inside: bool, frames: seq<seq<byte>>)
    requires total == |Concat(vec)| && count == total / 0xffff + 1 && count > 1
    ensures inside <==> Gatherable(vec)
    ensures inside ==> frames == Frames(flag, token, Concat(vec))
  {
    var tok := TokenBytes(flag, token);
    ghost var whole := Frames(flag, token, Concat(vec));
    AllLeft(vec, 0);
    assert vec[0..] == vec;
    var i: nat, o: nat := 0, 0;
    frames := [];
    for j := 0 to count - 1
      invariant Spot(vec, i, o) && j * 0xffff + |Left(vec, i, o)| == total
      invariant frames + Coming(flag, token, Left(vec, i, o), j > 0) == whole
      invariant 0 < j && i == |vec| ==> vec[|vec| - 1] != []
    {
      LastFragment(total, j, |Left(vec, i, o)|);
      ComingNext(flag, token, Left(vec, i, o), j > 0, frames);
      var frame;
      inside, frame, i, o := EncodeFragment(vec, i, o, if j == 0 then Opcode(flag) else 0, tok, FRAGMENT);
      frames := frames + [frame];
    }
    LastFragment(total, count - 1, |Left(vec, i, o)|);
    ComingNext(flag, token, Left(vec, i, o), true, frames);
    if i < |vec| && Left(vec, i, o) == [] {
      NothingLeft(vec, i, o);
    }
    var frame;
    inside, frame, i, o := EncodeFragment(vec, i, o, FRAME_FINAL, tok, total - (count - 1) * 0xffff);
    frames := frames + [frame];
  }

  // ---------- tpack_encode ----------

  /** What tpack_encode allocates for a fragment of n bytes when there are several; not always enough. */
  function Allocated(tok: seq<byte>, n: nat, last: bool): nat {
    if !last then (if tok == [] then 4 + n else 8)
    else if n < 0xff then (if tok == [] then 2 else 6 + n)
    else 4 + |tok| + n
  }

  /** One fragment, in a buffer of the size allocated for it. */
  method EncodePart(part: seq<byte>, first: byte, tok: seq<byte>, last: bool) returns (inside: bool, frame: seq<byte>)
    requires |part| <= FRAGMENT && (tok == [] || |tok| == 4) && (last || |part| == FRAGMENT)
    ensures inside <==> |Frame(first, tok, part)| <= Allocated(tok, |part|, last)
    ensures inside ==> frame == Frame(first, tok, part)
  {
    var pack := new byte[Allocated(tok, |part|, last)];
    var head := HeadBytes(first, tok, |part|);
    if |head| + |part| > pack.Length {
      return false, [];
    }
    FilledTo(pack[..], 0, head);
    ByteQueue.Copy(pack, 0, head);
    FilledTo(pack[..], |head|, part);
    ByteQueue.Copy(pack, |head|, part);
    assert pack[..] == pack[..|head| + |part|];
    inside, frame := true, pack[..];
  }

  /** What tpack_encode needs to stay inside the buffers that it allocates. */
  predicate Roomy(flag: nat, n: nat) {
    n < FRAGMENT || (TokenSize(flag) == 0 && (n % 0xffff == 0 || n % 0xffff >= 0xff))
  }

  lemma {:induction false} PartFits(first: byte, tok: seq<byte>, part: seq<byte>, last: bool)
    requires |part| <= FRAGMENT && (tok == [] || |tok| == 4) && (last || |part| == FRAGMENT)
    ensures |Frame(first, tok, part)| <= Allocated(tok, |part|, last)
       <==> if last then tok != [] || |part| == 0 || |part| >= 0xff else tok == []
  {}

  /** tpack_encode: when it stays inside, its frames are those of tpack_encodeVec. */
  method Encode(buffer: seq<byte>, flag: nat, token: nat) returns (inside: bool, frames: seq<seq<byte>>)
    ensures inside <==> Roomy(flag, |buffer|)
    ensures inside ==> frames == Frames(flag, token, buffer)
  {
    var count := |buffer| / 0xffff + 1;
    if count == 1 {
      frames := EncodeOne(buffer, flag, token);
      return true, frames;
    }
    inside, frames := EncodeLong(buffer, flag, token, count);
  }

  method EncodeLong(buffer: seq<byte>, flag: nat, token: nat, count: nat)
    returns (inside: bool, frames: seq<seq<byte>>)
    requires count == |buffer| / 0xffff + 1 && count > 1
    ensures inside <==> Roomy(flag, |buffer|)
    ensures inside ==> frames == Frames(flag, token, buffer)
  {
    var tok := TokenBytes(flag, token);
    frames := [];
    assert buffer[0..] == buffer;
    for j := 0 to count - 1
      invariant j * 0xffff <= |buffer|
      invariant 0 < j ==> tok == []
      invariant frames + Coming(flag, token, buffer[j * 0xffff..], j > 0) == Frames(flag, token, buffer)
    {
      var first := if j == 0 then Opcode(flag) else 0;
      NextPart(buffer, j, count, flag, token, frames);
      var frame;
      var part := buffer[j * 0xffff..(j + 1) * 0xffff];
      PartFits(first, tok, part, false);
      inside, frame := EncodePart(part, first, tok, false);
      if !inside {
        return;
      }
      frames := frames + [frame];
    }
    var rest := buffer[(count - 1) * 0xffff..];
    LastFragment(|buffer|, count - 1, |rest|);
    ComingNext(flag, token, rest, true, frames);
    assert rest[..|rest|] == rest;
    PartFits(FRAME_FINAL, tok, rest, true);
    var frame;
    inside, frame := EncodePart(rest, FRAME_FINAL, tok, true);
    frames := frames + [frame];
  }

  /** The step of the loop from fragment j to the next, which is not the last. */
  lemma {:induction false} NextPart(buffer: seq<byte>, j: nat, count: nat, flag: nat, token: nat,
                                    done: seq<seq<byte>>)
    requires count == |buffer| / 0xffff + 1 && j < count - 1
    ensures (j + 1) * 0xffff <= |buffer|
    ensures var part := buffer[j * 0xffff..(j + 1) * 0xffff];
            done + Coming(flag, token, buffer[j * 0xffff..], j > 0)
            == (done + [Frame(if j == 0 then Opcode(flag) else 0, TokenBytes(flag, token), part)])
               + Coming(flag, token, buffer[(j + 1) * 0xffff..], true)
  {
    var todo := buffer[j * 0xffff..];
    ComingNext(flag, token, todo, j > 0, done);
    assert todo[..FRAGMENT] == buffer[j * 0xffff..(j + 1) * 0xffff];
    assert todo[FRAGMENT..] == buffer[(j + 1) * 0xffff..];
  }

  /** The shortest buffers that it writes outside of: 0xffff bytes with a token, one more without. The frames
      themselves are fine, and tpack_encodeVec makes them. */
  lemma FirstShort(flag: nat, n: nat)
    ensures !Roomy(FRAME_REPLY, 0xffff) && !Roomy(FRAME_TEXT, 0x10000)
    ensures !Roomy(flag, n) ==> n >= if TokenSize(flag) == 4 then 0xffff else 0x10000
  {}
}
