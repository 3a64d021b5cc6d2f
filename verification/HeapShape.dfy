/** The shape of the binary min heap of heap_t.h: a complete tree of linked nodes.

    `s` lists the nodes in level order, so that the children of s[i] are s[2i+1] and s[2i+2] and its
    parent is s[(i-1)/2].  `Laid` says that the links really are those. */
module HeapShape {
  /** A node carries the keys and bActive of the timer that contains it. */
  class Node {
    var left: Node?
    var right: Node?
    var parent: Node?
    var timeout: int
    var id: int
    var active: bool

    constructor (timeout: int, id: int)
      ensures this.timeout == timeout && this.id == id && !active
    {
      this.timeout, this.id, active := timeout, id, false;
      left, right, parent := null, null, null;
    }
  }

  datatype Key = Key(timeout: int, id: int)

  datatype Cell = Cell(left: Node?, right: Node?, parent: Node?, key: Key)

  type Memory = map<Node, Cell>

  // ---------- Layout ----------

  ghost function Nth(s: seq<Node>, i: int): Node? {
    if 0 <= i < |s| then s[i] else null
  }

  ghost function Up(i: int): int {
    if i <= 0 then -1 else (i - 1) / 2
  }

  /** A position is the left or the right child of the one above it. */
  lemma ChildOf(i: int)
    requires i >= 0
    ensures i > 0 ==> 0 <= Up(i) < i && i == 2 * Up(i) + if i % 2 == 0 then 2 else 1
    ensures Up(i) < 0 <==> i == 0
  {}

  ghost function Elems(s: seq<Node>): set<Node> {
    set n | n in s
  }

  ghost predicate Distinct(s: seq<Node>) {
    forall i, j | 0 <= i < j < |s| :: s[i] != s[j]
  }

  /** The links of s[i]. */
  ghost predicate Spot(m: Memory, s: seq<Node>, i: int)
    requires 0 <= i < |s|
  {
    && s[i] in m && m[s[i]].left == Nth(s, 2 * i + 1) && m[s[i]].right == Nth(s, 2 * i + 2)
    && m[s[i]].parent == Nth(s, Up(i))
  }

  ghost predicate Laid(m: Memory, s: seq<Node>, min: Node?) {
    && Distinct(s) && min == Nth(s, 0)
    && forall i {:trigger Spot(m, s, i)} :: 0 <= i < |s| ==> Spot(m, s, i)
  }

  lemma {:induction false} LaidKnown(m: Memory, s: seq<Node>, min: Node?)
    requires Laid(m, s, min)
    ensures Known(m, s)
  {
    forall i | 0 <= i < |s|
      ensures s[i] in m
    {
      assert Spot(m, s, i);
    }
  }

  ghost predicate Known(m: Memory, s: seq<Node>) {
    forall i | 0 <= i < |s| :: s[i] in m
  }

  // ---------- Order ----------

  predicate KeyLess(a: Key, b: Key) {
    a.timeout < b.timeout || (a.timeout == b.timeout && a.id < b.id)
  }

  /** The keys in level order. */
  ghost function KeysOf(m: Memory, s: seq<Node>): (ks: seq<Key>)
    requires Known(m, s)
    ensures |ks| == |s| && forall i | 0 <= i < |s| :: ks[i] == m[s[i]].key
  {
    seq(|s|, i requires 0 <= i < |s| => m[s[i]].key)
  }

  /** The key at `i` is not below that of its parent. */
  ghost predicate Ok(ks: seq<Key>, i: int)
    requires 0 < i < |ks|
  {
    !KeyLess(ks[i], ks[Up(i)])
  }

  ghost predicate Ordered(ks: seq<Key>) {
    forall i {:trigger Ok(ks, i)} :: 0 < i < |ks| ==> Ok(ks, i)
  }

  /** The order holds, except that the key at `i` may be too small for its parent. */
  ghost predicate OrderedBelow(ks: seq<Key>, i: int) {
    && (forall j {:trigger Ok(ks, j)} :: 0 < j < |ks| && j != i ==> Ok(ks, j))
    && Bridged(ks, i)
  }

  /** The order holds, except that the key at `i` may fit neither its parent nor its children. */
  ghost predicate OrderedAround(ks: seq<Key>, i: int) {
    && (forall j {:trigger Ok(ks, j)} :: 0 < j < |ks| && j != i && Up(j) != i ==> Ok(ks, j))
    && Bridged(ks, i)
  }

  /** The children of `i` fit the parent of `i`. */
  ghost predicate Bridged(ks: seq<Key>, i: int) {
    forall j {:trigger Up(j)} :: 0 < j < |ks| && Up(j) == i && 0 < i < |ks| ==> !KeyLess(ks[j], ks[Up(i)])
  }

  ghost function SwapKeys(ks: seq<Key>, p: int, c: int): seq<Key>
    requires 0 <= p < |ks| && 0 <= c < |ks|
  {
    ks[p := ks[c]][c := ks[p]]
  }

  lemma {:induction false} RiseStep(ks: seq<Key>, i: int)
    requires OrderedBelow(ks, i) && 0 < i < |ks| && KeyLess(ks[i], ks[Up(i)])
    ensures OrderedBelow(SwapKeys(ks, Up(i), i), Up(i))
  {
    var p := Up(i);
    var ks' := SwapKeys(ks, p, i);
    forall j | 0 < j < |ks'| && j != p
      ensures Ok(ks', j)
    {
      assert j != i ==> Ok(ks, j);
      assert p > 0 ==> Ok(ks, p);
    }
    forall j | 0 < j < |ks'| && Up(j) == p && 0 < p
      ensures !KeyLess(ks'[j], ks'[Up(p)])
    {
      assert j != i ==> Ok(ks, j);
      assert Ok(ks, p);
    }
  }

  lemma {:induction false} SinkStep(ks: seq<Key>, i: int, c: int)
    requires OrderedAround(ks, i) && 0 <= i < c < |ks| && Up(c) == i && KeyLess(ks[c], ks[i])
    requires forall j | 0 < j < |ks| && Up(j) == i :: !KeyLess(ks[j], ks[c])
    ensures OrderedAround(SwapKeys(ks, i, c), c)
  {
    var ks' := SwapKeys(ks, i, c);
    forall j | 0 < j < |ks'| && j != c && Up(j) != c
      ensures Ok(ks', j)
    {
      assert j != i && Up(j) != i ==> Ok(ks, j);
      assert Up(c) == i;
    }
    forall j | 0 < j < |ks'| && Up(j) == c
      ensures !KeyLess(ks'[j], ks'[Up(c)])
    {
      assert Ok(ks, j);
    }
  }

  lemma {:induction false} SinkEnd(ks: seq<Key>, i: int)
    requires OrderedAround(ks, i) && forall j | 0 < j < |ks| && Up(j) == i :: !KeyLess(ks[j], ks[i])
    ensures OrderedBelow(ks, i)
  {}

  lemma {:induction false} RiseEnd(ks: seq<Key>, i: int)
    requires OrderedBelow(ks, i) && (0 < i < |ks| ==> Ok(ks, i))
    ensures Ordered(ks)
  {}

  /** The first key of an ordered sequence is the least. */
  lemma {:induction false} FirstIsLeast(ks: seq<Key>, i: int)
    requires Ordered(ks) && 0 <= i < |ks|
    ensures !KeyLess(ks[i], ks[0])
    decreases i
  {
    if i > 0 {
      assert Ok(ks, i);
      FirstIsLeast(ks, Up(i));
    }
  }

  ghost predicate SameKeys(m: Memory, m': Memory) {
    forall n | n in m :: n in m' && m'[n].key == m[n].key
  }

  // ---------- heap_node_swap ----------

  ghost function Exchanged(s: seq<Node>, p: int, c: int): seq<Node>
    requires 0 <= p < |s| && 0 <= c < |s|
  {
    s[p := s[c]][c := s[p]]
  }

  lemma {:induction false} ExchangedElems(s: seq<Node>, p: int, c: int)
    requires 0 <= p < |s| && 0 <= c < |s| && p != c && Distinct(s)
    ensures Elems(Exchanged(s, p, c)) == Elems(s) && Distinct(Exchanged(s, p, c))
  {
    var s' := Exchanged(s, p, c);
    forall n | n in s
      ensures n in s'
    {
      var i :| 0 <= i < |s| && s[i] == n;
      assert s'[if i == p then c else if i == c then p else i] == n;
    }
  }

  /** What swapping the node at `c` with its parent at `p` makes of the cells. */
  ghost predicate Swaps(m: Memory, m': Memory, s: seq<Node>, p: int, c: int)
    requires 0 <= p < |s| && 0 < c < |s| && p == Up(c) && Known(m, s)
  {
    var P, C := s[p], s[c];
    var left := c == 2 * p + 1;
    var sib := if left then m[P].right else m[P].left;
    && m'.Keys == m.Keys
    && m'[P] == Cell(m[C].left, m[C].right, C, m[P].key)
    && m'[C] == Cell(if left then P else sib, if left then sib else P, m[P].parent, m[C].key)
    && forall n | n in m && n != P && n != C ::
         m'[n] ==
           if n == sib then m[n].(parent := C)
           else if n == m[C].left || n == m[C].right then m[n].(parent := P)
           else if n == m[P].parent then (if m[n].left == P then m[n].(left := C) else m[n].(right := C))
           else m[n]
  }

  lemma {:induction false} SwapLaid(m: Memory, m': Memory, s: seq<Node>, p: int, c: int, min: Node?, min': Node?)
    requires Laid(m, s, min) && 0 <= p < |s| && 0 < c < |s| && p == Up(c) && Known(m, s) && Swaps(m, m', s, p, c)
    requires min' == if p == 0 then s[c] else min
    ensures Laid(m', Exchanged(s, p, c), min')
  {
    var s' := Exchanged(s, p, c);
    ExchangedElems(s, p, c);
    forall i | 0 <= i < |s'|
      ensures Spot(m', s', i)
    {
      SwapSpot(m, m', s, p, c, min, i);
    }
  }

  lemma {:induction false} SwapSpot(m: Memory, m': Memory, s: seq<Node>, p: int, c: int, min: Node?, i: int)
    requires Laid(m, s, min) && 0 <= p < |s| && 0 < c < |s| && p == Up(c) && Known(m, s) && Swaps(m, m', s, p, c)
    requires 0 <= i < |s|
    ensures Spot(m', Exchanged(s, p, c), i)
  {
    if i == p || i == c {
      assert Spot(m, s, p) && Spot(m, s, c);
    } else {
      SwapSpotElsewhere(m, m', s, p, c, min, i);
    }
  }

  lemma {:induction false} SwapSpotElsewhere(m: Memory, m': Memory, s: seq<Node>, p: int, c: int, min: Node?, i: int)
    requires Laid(m, s, min) && 0 <= p < |s| && 0 < c < |s| && p == Up(c) && Known(m, s) && Swaps(m, m', s, p, c)
    requires 0 <= i < |s| && i != p && i != c
    ensures Spot(m', Exchanged(s, p, c), i)
  {
    assert Spot(m, s, p) && Spot(m, s, c) && Spot(m, s, i);
    assert Exchanged(s, p, c)[i] == s[i];
  }

  ghost function Hung(m: Memory, x: Node?, p: Node?): (m': Memory)
    requires x != null ==> x in m
    ensures m'.Keys == m.Keys
  {
    if x == null then m else m[x := m[x].(parent := p)]
  }

  /** The two nodes trade their links, and P hangs from C. */
  ghost function Traded(m: Memory, P: Node, C: Node): (m': Memory)
    requires P in m && C in m
    ensures m'.Keys == m.Keys
  {
    m[P := m[C].(key := m[P].key, parent := C)][C := m[P].(key := m[C].key)]
  }

  /** `x` takes the place of `y` among the children of `n`. */
  ghost function Adopted(m: Memory, n: Node?, y: Node, x: Node): (m': Memory)
    requires n != null ==> n in m
    ensures m'.Keys == m.Keys
  {
    if n == null then m
    else m[n := if m[n].left == y then m[n].(left := x) else m[n].(right := x)]
  }

  /** The writes of heap_node_swap; `sib` is the other child of P, `a` and `b` are the children of
      C, and `g` is the parent of P. */
  ghost function SwapWrites(m: Memory, P: Node, C: Node, sib: Node?, a: Node?, b: Node?, g: Node?): (m': Memory)
    requires P in m && C in m && P != C
    requires (sib != null ==> sib in m) && (a != null ==> a in m) && (b != null ==> b in m) && (g != null ==> g in m)
    ensures m'.Keys == m.Keys
  {
    var m1 := Adopted(Traded(m, P, C), C, C, P);
    var m2 := Hung(m1, sib, C);
    var m3 := Hung(m2, a, P);
    var m4 := Hung(m3, b, P);
    Adopted(m4, g, P, C)
  }

  /** The other child of the node at p. */
  ghost function Sibling(m: Memory, P: Node, C: Node): Node?
    requires P in m
  {
    if m[P].left == C then m[P].right else m[P].left
  }

  /** The nodes around the two are known and differ from them. */
  lemma {:induction false} Around(m: Memory, s: seq<Node>, p: int, c: int, min: Node?)
    requires Laid(m, s, min) && 0 <= p < |s| && 0 < c < |s| && p == Up(c)
    ensures var P, C := s[p], s[c];
            && P in m && C in m && P != C && m[C].parent == P && (m[P].parent == null <==> p == 0)
            && (var sib := Sibling(m, P, C); sib != null ==> sib in m && sib != P && sib != C)
            && (m[C].left != null ==> m[C].left in m && m[C].left != P && m[C].left != C)
            && (m[C].right != null ==> m[C].right in m && m[C].right != P && m[C].right != C)
            && (m[P].parent != null ==> m[P].parent in m && m[P].parent != P && m[P].parent != C)
  {
    LaidKnown(m, s, min);
    assert Spot(m, s, p) && Spot(m, s, c);
  }

  lemma {:induction false} SwapLinks(m: Memory, s: seq<Node>, p: int, c: int, min: Node?)
    requires Laid(m, s, min) && 0 <= p < |s| && 0 < c < |s| && p == Up(c) && Known(m, s)
    requires var P, C := s[p], s[c];
             && P != C && (Sibling(m, P, C) != null ==> Sibling(m, P, C) in m)
             && (m[C].left != null ==> m[C].left in m) && (m[C].right != null ==> m[C].right in m)
             && (m[P].parent != null ==> m[P].parent in m)
    ensures var P, C := s[p], s[c];
            Swaps(m, SwapWrites(m, P, C, Sibling(m, P, C), m[C].left, m[C].right, m[P].parent), s, p, c)
  {
    Around(m, s, p, c, min);
    assert Spot(m, s, p) && Spot(m, s, c);
  }

  lemma {:induction false} SwapsSameKeys(m: Memory, m': Memory, s: seq<Node>, p: int, c: int)
    requires 0 <= p < |s| && 0 < c < |s| && p == Up(c) && Known(m, s) && Swaps(m, m', s, p, c)
    ensures SameKeys(m, m')
  {}

  /** heap_node_swap swaps two entries of the level order and nothing else. */
  lemma {:induction false} SwapAll(m: Memory, m': Memory, s: seq<Node>, p: int, c: int, min: Node?, min': Node?)
    requires Laid(m, s, min) && 0 <= p < |s| && 0 < c < |s| && p == Up(c)
    requires var P, C := s[p], s[c];
             && P in m && C in m && P != C && (Sibling(m, P, C) != null ==> Sibling(m, P, C) in m)
             && (m[C].left != null ==> m[C].left in m) && (m[C].right != null ==> m[C].right in m)
             && (m[P].parent != null ==> m[P].parent in m)
             && m' == SwapWrites(m, P, C, Sibling(m, P, C), m[C].left, m[C].right, m[P].parent)
             && min' == if m[P].parent == null then C else min
    ensures Laid(m', Exchanged(s, p, c), min') && SameKeys(m, m') && Elems(Exchanged(s, p, c)) == Elems(s)
  {
    LaidKnown(m, s, min);
    Around(m, s, p, c, min);
    SwapLinks(m, s, p, c, min);
    SwapsSameKeys(m, m', s, p, c);
    SwapLaid(m, m', s, p, c, min, min');
    ExchangedElems(s, p, c);
  }

  lemma {:induction false} KeysExchanged(m: Memory, m': Memory, s: seq<Node>, p: int, c: int)
    requires Known(m, s) && SameKeys(m, m') && 0 <= p < |s| && 0 <= c < |s|
    ensures Known(m', Exchanged(s, p, c))
    ensures KeysOf(m', Exchanged(s, p, c)) == SwapKeys(KeysOf(m, s), p, c)
  {}

  // ---------- The path to a position ----------

  ghost function Half(n: nat, k: nat): nat {
    if k == 0 then n else Half(n, k - 1) / 2
  }

  /** The bits that the counting loop collects in `k` rounds. */
  ghost function PathOf(n: nat, k: nat): nat {
    if k == 0 then 0 else 2 * PathOf(n, k - 1) + Half(n, k - 1) % 2
  }

  lemma {:induction false} HalfBelow(n: nat, k: nat)
    requires k > 0
    ensures Half(n, k) <= n / 2
    decreases k
  {
    if k > 1 {
      HalfBelow(n, k - 1);
    }
  }

  /** Reading a bit of the path undoes one halving. */
  lemma PathStep(n: nat, k: nat)
    requires k > 0
    ensures Half(n, k - 1) == 2 * Half(n, k) + PathOf(n, k) % 2 && PathOf(n, k) / 2 == PathOf(n, k - 1)
  {}

  // ---------- The last position ----------

  /** `e` appears below `p`, or at the top. */
  ghost function Attached(m: Memory, p: Node?, right: bool, e: Node?): (m': Memory)
    requires p != null ==> p in m
    ensures m'.Keys == m.Keys
  {
    if p == null then m else m[p := if right then m[p].(right := e) else m[p].(left := e)]
  }

  /** Attaching a fresh node below the parent of the first free position extends the level order. */
  lemma {:induction false} AppendLaid(m: Memory, s: seq<Node>, min: Node?, e: Node, key: Key, min': Node?)
    requires Laid(m, s, min) && e !in m && min' == if s == [] then e else min
    ensures Nth(s, Up(|s|)) != null ==> Nth(s, Up(|s|)) in m
    ensures var p := Nth(s, Up(|s|));
            Laid(Attached(m[e := Cell(null, null, p, key)], p, |s| % 2 == 0, e), s + [e], min')
  {
    LaidKnown(m, s, min);
    var p := Nth(s, Up(|s|));
    var m1 := m[e := Cell(null, null, p, key)];
    var m2 := Attached(m1, p, |s| % 2 == 0, e);
    var s' := s + [e];
    forall i | 0 <= i < |s'|
      ensures Spot(m2, s', i)
    {
      if i < |s| {
        assert Spot(m, s, i) && s'[i] == s[i];
        assert Nth(s', Up(i)) == Nth(s, Up(i));
      }
    }
  }

  /** Detaching the last node shortens the level order. */
  lemma {:induction false} DetachLaid(m: Memory, s: seq<Node>, min: Node?, min': Node?)
    requires Laid(m, s, min) && s != [] && min' == if |s| == 1 then null else min
    ensures var n := |s| - 1;
            var p := Nth(s, Up(n));
            && (p != null ==> p in m)
            && Laid(Attached(m, p, n % 2 == 0, null), s[..n], min')
  {
    var n := |s| - 1;
    var p := Nth(s, Up(n));
    LaidKnown(m, s, min);
    var m' := Attached(m, p, n % 2 == 0, null);
    var s' := s[..n];
    forall i | 0 <= i < |s'|
      ensures Spot(m', s', i)
    {
      assert Spot(m, s, i) && s'[i] == s[i];
      assert Nth(s', Up(i)) == Nth(s, Up(i));
    }
  }

  // ---------- Replacing a node ----------

  /** What putting `e` in the place of the node at `i` makes of the cells. */
  ghost function ReplaceWrites(m: Memory, n: Node, e: Node, a: Node?, b: Node?, g: Node?): (m': Memory)
    requires n in m && e in m && n != e
    requires (a != null ==> a in m) && (b != null ==> b in m) && (g != null ==> g in m)
    ensures m'.Keys == m.Keys
  {
    Adopted(Hung(Hung(m[e := m[n].(key := m[e].key)], a, e), b, e), g, n, e)
  }

  lemma {:induction false} ReplaceLaid(m: Memory, s: seq<Node>, i: int, e: Node, min: Node?, min': Node?)
    requires Laid(m, s, min) && 0 <= i < |s| && e in m && e !in s && min' == if i == 0 then e else min
    requires var n := s[i];
             && n in m && (m[n].left != null ==> m[n].left in m) && (m[n].right != null ==> m[n].right in m)
             && (m[n].parent != null ==> m[n].parent in m)
    ensures var n := s[i];
            Laid(ReplaceWrites(m, n, e, m[n].left, m[n].right, m[n].parent), s[i := e], min')
  {
    var n := s[i];
    var m' := ReplaceWrites(m, n, e, m[n].left, m[n].right, m[n].parent);
    var s' := s[i := e];
    forall j | 0 <= j < |s'|
      ensures Spot(m', s', j)
    {
      assert Spot(m, s, i) && Spot(m, s, j);
    }
  }

  lemma {:induction false} AroundOne(m: Memory, s: seq<Node>, i: int, min: Node?)
    requires Laid(m, s, min) && 0 <= i < |s|
    ensures var n := s[i];
            && n in m && (m[n].left != null ==> m[n].left in m) && (m[n].right != null ==> m[n].right in m)
            && (m[n].parent != null ==> m[n].parent in m) && (m[n].parent == null <==> i == 0)
            && m[n].left == Nth(s, 2 * i + 1) && m[n].right == Nth(s, 2 * i + 2) && m[n].parent == Nth(s, Up(i))
  {
    LaidKnown(m, s, min);
    assert Spot(m, s, i);
  }

  lemma ReplaceSameKeys(m: Memory, n: Node, e: Node, a: Node?, b: Node?, g: Node?)
    requires n in m && e in m && n != e
    requires (a != null ==> a in m) && (b != null ==> b in m) && (g != null ==> g in m)
    ensures SameKeys(m, ReplaceWrites(m, n, e, a, b, g))
  {
    var m1 := m[e := m[n].(key := m[e].key)];
    assert SameKeys(m, m1);
    assert SameKeys(m1, Hung(m1, a, e));
    assert SameKeys(Hung(m1, a, e), Hung(Hung(m1, a, e), b, e));
  }

  lemma {:induction false} Forget(m: Memory, s: seq<Node>, min: Node?, n: Node)
    requires Laid(m, s, min) && n !in s
    ensures Laid(m - {n}, s, min) && Known(m - {n}, s) && Known(m, s) && KeysOf(m - {n}, s) == KeysOf(m, s)
  {
    LaidKnown(m, s, min);
    forall i | 0 <= i < |s|
      ensures Spot(m - {n}, s, i)
    {
      assert Spot(m, s, i);
    }
  }

  /** The node at `i` leaves, the last one takes its place. */
  lemma {:induction false} ReplacedElems(s: seq<Node>, i: int)
    requires Distinct(s) && 0 <= i < |s| - 1
    ensures var s' := s[..|s| - 1][i := s[|s| - 1]];
            Elems(s') == Elems(s) - {s[i]} && s[i] !in s' && s[|s| - 1] !in s[..|s| - 1]
  {
    var n := |s| - 1;
    var s' := s[..n][i := s[n]];
    forall x | x in Elems(s) - {s[i]}
      ensures x in s'
    {
      var j :| 0 <= j < |s| && s[j] == x;
      assert s'[if j == n then i else j] == x;
    }
    forall j | 0 <= j < |s'|
      ensures s'[j] in Elems(s) - {s[i]}
    {
      assert s'[j] == if j == i then s[n] else s[j];
    }
  }

  lemma {:induction false} DroppedElems(s: seq<Node>)
    requires Distinct(s) && s != []
    ensures var n := |s| - 1;
            Elems(s[..n]) == Elems(s) - {s[n]} && s[n] !in s[..n]
  {
    var n := |s| - 1;
    forall x | x in Elems(s) - {s[n]}
      ensures x in s[..n]
    {
      var j :| 0 <= j < |s| && s[j] == x;
      assert s[..n][j] == x;
    }
  }

  lemma {:induction false} OrderedPrefix(ks: seq<Key>, n: int)
    requires Ordered(ks) && 0 <= n <= |ks|
    ensures Ordered(ks[..n])
  {
    forall i | 0 < i < n
      ensures Ok(ks[..n], i)
    {
      assert Ok(ks, i);
    }
  }

  lemma {:induction false} OrderedReplaced(ks: seq<Key>, i: int, k: Key)
    requires Ordered(ks) && 0 <= i < |ks|
    ensures OrderedAround(ks[i := k], i)
  {
    var ks' := ks[i := k];
    forall j | 0 < j < |ks'| && j != i && Up(j) != i
      ensures Ok(ks', j)
    {
      assert Ok(ks, j);
    }
    forall j | 0 < j < |ks'| && Up(j) == i && 0 < i
      ensures !KeyLess(ks'[j], ks'[Up(i)])
    {
      assert Ok(ks, j) && Ok(ks, i);
    }
  }

  lemma {:induction false} OrderedAppended(ks: seq<Key>, k: Key)
    requires Ordered(ks)
    ensures OrderedBelow(ks + [k], |ks|)
  {
    var ks' := ks + [k];
    forall j | 0 < j < |ks'| && j != |ks|
      ensures Ok(ks', j)
    {
      assert Ok(ks, j);
    }
  }
}
