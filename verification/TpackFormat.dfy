/** The wire format of tpack in bytes, what a receiver refuses, and what kinds of messages it delivers. */
module TpackFormat {
  import opened ByteRing
  import opened Tpack
  import opened TpackFrames

  // ---------- A frame in bytes ----------

  /** A frame: the opcode byte; one length byte, or 0xff and two more with the most significant first; the
      token; the payload. */
  lemma {:induction false} Layout(first: byte, tok: seq<byte>, payload: seq<byte>)
    requires |payload| <= 0xffff
    ensures var f := Frame(first, tok, payload);
            var n := if |payload| < 0xff then 2 else 4;
            && |f| == n + |tok| + |payload| && f[0] == first
            && f[n..n + |tok|] == tok && f[n + |tok|..] == payload
            && (if |payload| < 0xff then f[1] as int == |payload|
                else f[1] == 0xff && f[2] as int * 0x100 + f[3] as int == |payload|)
  {}

  /** The first byte and the token of a message's frames: the opcode is in the first frame only, the top bit in
      the last one only; five of the seven kinds carry a token, the most significant byte first. */
  lemma {:induction false} FirstBytes(flag: nat, token: nat, payload: seq<byte>)
    requires 0x10 <= flag <= 0x70 && flag % 16 == 0 && token < 0x1_0000_0000
    ensures var fs, tok := Frames(flag, token, payload), TokenBytes(flag, token);
            && |fs| == |payload| / 0xffff + 1
            && (forall i | 0 <= i < |fs| ::
                  fs[i] != [] &&
                  fs[i][0] as int == (if i == 0 then flag / 16 else 0) + (if i == |fs| - 1 then 0x80 else 0))
            && (if flag < 0x30 then tok == []
                else |tok| == 4 && token == tok[0] as int * 0x1000000 + tok[1] as int * 0x10000 + tok[2] as int * 0x100
                                            + tok[3] as int)
  {
    TokenWeights(token);
    if |payload| >= FRAGMENT {
      RestBytes(TokenBytes(flag, token), payload[FRAGMENT..]);
      WholeFragments(|payload|);
    } else {
      assert |payload| / 0xffff == 0;
    }
  }

  lemma TokenWeights(token: nat)
    requires token < 0x1_0000_0000
    ensures token == token / 0x1000000 % 256 * 0x1000000 + token / 0x10000 % 256 * 0x10000 + token / 0x100 % 256 * 0x100
                     + token % 256
  {
    var a, b, c := token / 0x1000000, token / 0x10000, token / 0x100;
    assert c == token / 256 && b == c / 256 && a == b / 256;
  }

  lemma WholeFragments(n: nat)
    requires n >= 0xffff
    ensures n / 0xffff == (n - 0xffff) / 0xffff + 1
  {}

  lemma {:induction false} RestBytes(tok: seq<byte>, payload: seq<byte>)
    ensures var fs := Rest(tok, payload);
            && |fs| == |payload| / 0xffff + 1
            && forall i | 0 <= i < |fs| :: fs[i] != [] && fs[i][0] as int == if i == |fs| - 1 then 0x80 else 0
    decreases |payload|
  {
    if |payload| >= FRAGMENT {
      RestBytes(tok, payload[FRAGMENT..]);
      WholeFragments(|payload|);
    } else {
      assert |payload| / 0xffff == 0;
    }
  }

  // ---------- What is refused ----------

  /** A stream is refused exactly if its first byte has an opcode that the encoder has for no flag. */
  lemma {:induction false} RefusedOpcode(s: seq<byte>)
    ensures DecodeHead(s).Bad? <==> |s| >= 2 && forall flag: nat :: Opcode(flag) != s[0] as int % 16
  {
    if s != [] && s[0] % 16 <= 7 {
      assert Opcode(s[0] as int % 16 * 16) == s[0] as int % 16;
    }
  }

  /** Exactly then, two bytes on, no more bytes can make it a frame; otherwise enough bytes will. */
  lemma {:induction false} RefusedIsHopeless(s: seq<byte>)
    ensures DecodeHead(s).Bad? <==> |s| >= 2 && forall t :: !DecodeHead(s + t).Got?
  {
    forall t
      ensures DecodeHead(s).Bad? ==> !DecodeHead(s + t).Got?
    {
      DecodeStable(s, t);
    }
    if |s| >= 2 && !DecodeHead(s).Bad? {
      var zeros: seq<byte> := seq(0x10010, _ => 0);
      assert DecodeHead(s + zeros).Got?;
    }
  }

  // ---------- The kinds of messages ----------

  ghost predicate Kinds(events: seq<Event>) {
    forall i | 0 <= i < |events| && events[i].Message? :: events[i].kind % 16 == 10 && 1 <= events[i].kind / 16 <= 7
  }

  /** Whatever arrives, a message's event has 10 in its low four bits, which tells the service that it is a message,
      and the opcode, 1 to 7, in the others. */
  lemma {:induction false} MessageKinds(s: seq<byte>, room: nat)
    ensures Kinds(Split(s, room).events)
    decreases |s|
  {
    if DecodeHead(s).Got? && room > 0 {
      SplitOnce(s, room);
      var h := DecodeHead(s).head;
      OneKind(s);
      MessageKinds(s[h.offset + h.length..], room - 1);
    } else {
      SplitNone(s, room);
    }
  }

  lemma {:induction false} OneKind(s: seq<byte>)
    requires DecodeHead(s).Got?
    ensures var h := DecodeHead(s).head;
            h.offset + h.length <= |s| && Kinds([EventOf(h, s)])
  {
    DecodeStable(s, []);
    var h := DecodeHead(s).head;
    assert h.flag % 128 == s[0] as int % 16 * 16;
  }
}
