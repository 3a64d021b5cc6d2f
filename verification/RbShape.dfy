/** The shape of the red-black tree of rbtree_t.h.

    A `Memory` is a snapshot of the links and colours of the nodes.  A `Tree` is the picture of a
    subtree, a `Ctx` the picture of everything above it (a zipper), and `At` says that a memory
    really holds the picture.  Links are changed one cell at a time; the lemmas here say which
    picture each change of links produces. */
module RbShape {
  datatype Color = Black | Red

  datatype Side = Left | Right

  class Node {
    const key: int
    var left: Node?
    var right: Node?
    var parent: Node?
    var color: Color

    constructor (key: int)
      ensures this.key == key
    {
      this.key := key;
      left, right, parent, color := null, null, null, Red;
    }
  }

  datatype Cell = Cell(left: Node?, right: Node?, parent: Node?, color: Color)

  type Memory = map<Node, Cell>

  // ---------- Trees ----------

  datatype Tree = Leaf | Bin(l: Tree, n: Node, c: Color, r: Tree)

  ghost function Root(t: Tree): Node? {
    if t.Leaf? then null else t.n
  }

  ghost function Nodes(t: Tree): set<Node> {
    if t.Leaf? then {} else Nodes(t.l) + {t.n} + Nodes(t.r)
  }

  ghost function InOrder(t: Tree): seq<Node> {
    if t.Leaf? then [] else InOrder(t.l) + [t.n] + InOrder(t.r)
  }

  /** Memory `m` holds the tree `t`, hanging from `p`. */
  ghost predicate Hangs(m: Memory, t: Tree, p: Node?) {
    t.Bin? ==>
      && t.n in m && m[t.n] == Cell(Root(t.l), Root(t.r), p, t.c)
      && Hangs(m, t.l, t.n) && Hangs(m, t.r, t.n)
  }

  /** No node occurs twice. */
  ghost predicate Apart(t: Tree) {
    t.Bin? ==>
      && t.n !in Nodes(t.l) && t.n !in Nodes(t.r) && Nodes(t.l) !! Nodes(t.r)
      && Apart(t.l) && Apart(t.r)
  }

  // ---------- Contexts ----------

  /** `Up(side, n, c, sib, up)`: the hole is the `side` child of `n`, whose other child is `sib`. */
  datatype Ctx = Top | Up(side: Side, n: Node, c: Color, sib: Tree, up: Ctx)

  ghost function Join(side: Side, t: Tree, n: Node, c: Color, sib: Tree): Tree {
    if side.Left? then Bin(t, n, c, sib) else Bin(sib, n, c, t)
  }

  ghost function Plug(ctx: Ctx, t: Tree): Tree {
    if ctx.Top? then t else Plug(ctx.up, Join(ctx.side, t, ctx.n, ctx.c, ctx.sib))
  }

  ghost function Above(ctx: Ctx): Node? {
    if ctx.Top? then null else ctx.n
  }

  ghost function CtxNodes(ctx: Ctx): set<Node> {
    if ctx.Top? then {} else {ctx.n} + Nodes(ctx.sib) + CtxNodes(ctx.up)
  }

  ghost function Depth(ctx: Ctx): nat {
    if ctx.Top? then 0 else 1 + Depth(ctx.up)
  }

  ghost function JoinCell(side: Side, hole: Node?, sib: Node?, p: Node?, c: Color): Cell {
    if side.Left? then Cell(hole, sib, p, c) else Cell(sib, hole, p, c)
  }

  /** Memory `m` holds the context, its hole is filled by `hole`, and `root` is on top. */
  ghost predicate Holds(m: Memory, ctx: Ctx, hole: Node?, root: Node?) {
    if ctx.Top? then root == hole
    else
      && ctx.n in m && m[ctx.n] == JoinCell(ctx.side, hole, Root(ctx.sib), Above(ctx.up), ctx.c)
      && Hangs(m, ctx.sib, ctx.n)
      && Holds(m, ctx.up, ctx.n, root)
  }

  ghost predicate CtxApart(ctx: Ctx) {
    ctx.Up? ==>
      && ctx.n !in Nodes(ctx.sib) && ctx.n !in CtxNodes(ctx.up) && Nodes(ctx.sib) !! CtxNodes(ctx.up)
      && Apart(ctx.sib) && CtxApart(ctx.up)
  }

  /** Memory `m` holds the tree `Plug(ctx, t)`, seen from the root of `t`. */
  ghost predicate At(m: Memory, ctx: Ctx, t: Tree, root: Node?) {
    && Apart(t) && CtxApart(ctx) && Nodes(t) !! CtxNodes(ctx)
    && Hangs(m, t, Above(ctx)) && Holds(m, ctx, Root(t), root)
  }

  // ---------- What a change of memory leaves alone ----------

  ghost predicate Same(m: Memory, m': Memory, ns: set<Node>) {
    forall n | n in ns && n in m :: n in m' && m'[n] == m[n]
  }

  lemma {:induction false} HangsFrame(m: Memory, m': Memory, t: Tree, p: Node?)
    requires Hangs(m, t, p) && Same(m, m', Nodes(t))
    ensures Hangs(m', t, p)
  {
    if t.Bin? {
      HangsFrame(m, m', t.l, t.n);
      HangsFrame(m, m', t.r, t.n);
    }
  }

  lemma {:induction false} HoldsFrame(m: Memory, m': Memory, ctx: Ctx, hole: Node?, root: Node?)
    requires Holds(m, ctx, hole, root) && Same(m, m', CtxNodes(ctx))
    ensures Holds(m', ctx, hole, root)
    decreases ctx
  {
    if ctx.Up? {
      HangsFrame(m, m', ctx.sib, ctx.n);
      HoldsFrame(m, m', ctx.up, ctx.n, root);
    }
  }

  /** Hanging a subtree from another node changes only its root's parent link. */
  lemma {:induction false} Rehang(m: Memory, m': Memory, t: Tree, p: Node?, p': Node?)
    requires Hangs(m, t, p) && Apart(t)
    requires t.Bin? ==> t.n in m' && m'[t.n] == m[t.n].(parent := p') && Same(m, m', Nodes(t) - {t.n})
    ensures Hangs(m', t, p')
  {
    if t.Bin? {
      HangsFrame(m, m', t.l, t.n);
      HangsFrame(m, m', t.r, t.n);
    }
  }

  /** Refilling the hole of a context changes one child link of its lowest node, or the root. */
  lemma {:induction false} Refill(m: Memory, m': Memory, ctx: Ctx, hole: Node?, root: Node?, hole': Node?, root': Node?)
    requires Holds(m, ctx, hole, root) && CtxApart(ctx)
    requires ctx.Top? ==> root' == hole'
    requires ctx.Up? ==>
               && root' == root && ctx.n in m'
               && m'[ctx.n] == (if ctx.side.Left? then m[ctx.n].(left := hole') else m[ctx.n].(right := hole'))
               && Same(m, m', CtxNodes(ctx) - {ctx.n})
    ensures Holds(m', ctx, hole', root')
  {
    if ctx.Up? {
      HangsFrame(m, m', ctx.sib, ctx.n);
      HoldsFrame(m, m', ctx.up, ctx.n, root);
    }
  }

  // ---------- Moving the focus ----------

  /** Closing the zipper: what `At` says of the parts is what it says of the whole. */
  lemma {:induction false} Zip(m: Memory, ctx: Ctx, t: Tree, root: Node?)
    ensures At(m, ctx, t, root) <==> At(m, Top, Plug(ctx, t), root)
    decreases ctx
  {
    if ctx.Up? {
      ZipOne(m, ctx, t, root);
      Zip(m, ctx.up, Join(ctx.side, t, ctx.n, ctx.c, ctx.sib), root);
    }
  }

  lemma {:induction false} ZipOne(m: Memory, ctx: Ctx, t: Tree, root: Node?)
    requires ctx.Up?
    ensures At(m, ctx, t, root) <==> At(m, ctx.up, Join(ctx.side, t, ctx.n, ctx.c, ctx.sib), root)
  {
    var t' := Join(ctx.side, t, ctx.n, ctx.c, ctx.sib);
    assert Nodes(t') == Nodes(t) + {ctx.n} + Nodes(ctx.sib);
    assert Root(t') == ctx.n;
  }

  function Other(side: Side): Side {
    if side.Left? then Right else Left
  }

  /** Moving the focus to the sibling. */
  lemma {:induction false} Across(m: Memory, ctx: Ctx, t: Tree, root: Node?)
    requires ctx.Up?
    ensures At(m, ctx, t, root) <==> At(m, Up(Other(ctx.side), ctx.n, ctx.c, t, ctx.up), ctx.sib, root)
  {
    ZipOne(m, ctx, t, root);
    ZipOne(m, Up(Other(ctx.side), ctx.n, ctx.c, t, ctx.up), ctx.sib, root);
  }

  lemma {:induction false} PlugNodes(ctx: Ctx, t: Tree)
    ensures Nodes(Plug(ctx, t)) == Nodes(t) + CtxNodes(ctx)
    decreases ctx
  {
    if ctx.Up? {
      PlugNodes(ctx.up, Join(ctx.side, t, ctx.n, ctx.c, ctx.sib));
    }
  }

  // ---------- Rotation ----------

  /** The picture after lifting the far child of the root, for `side` the side the root sinks to. */
  ghost function Rotated(t: Tree, side: Side): Tree
    requires t.Bin? && (if side.Left? then t.r.Bin? else t.l.Bin?)
  {
    if side.Left? then Bin(Bin(t.l, t.n, t.c, t.r.l), t.r.n, t.r.c, t.r.r)
    else Bin(t.l.l, t.l.n, t.l.c, Bin(t.l.r, t.n, t.c, t.r))
  }

  /** The cells that a rotation of `t` towards `side` rewrites. */
  ghost predicate Rotates(m: Memory, m': Memory, ctx: Ctx, t: Tree, root: Node?, root': Node?, side: Side)
    requires t.Bin? && (if side.Left? then t.r.Bin? else t.l.Bin?)
  {
    var t' := Rotated(t, side);
    var b := if side.Left? then t.r.l else t.l.r;
    var sunk := if side.Left? then t'.l else t'.r;
    && t'.n in m' && m'[t'.n] == Cell(Root(t'.l), Root(t'.r), Above(ctx), t'.c)
    && t.n in m' && m'[t.n] == Cell(Root(sunk.l), Root(sunk.r), t'.n, t.c)
    && (b.Bin? ==> b.n in m && b.n in m' && m'[b.n] == m[b.n].(parent := t.n))
    && (ctx.Top? ==> root' == t'.n)
    && (ctx.Up? ==>
          && root' == root && ctx.n in m && ctx.n in m'
          && m'[ctx.n] == (if ctx.side.Left? then m[ctx.n].(left := t'.n) else m[ctx.n].(right := t'.n)))
    && Same(m, m', m.Keys - {t.n, t'.n} - (if b.Bin? then {b.n} else {}) - (if ctx.Up? then {ctx.n} else {}))
  }

  /** The nodes around a rotation are known to memory and differ. */
  lemma {:induction false} Around(m: Memory, ctx: Ctx, t: Tree, root: Node?, side: Side)
    requires At(m, ctx, t, root) && t.Bin? && (if side.Left? then t.r.Bin? else t.l.Bin?)
    ensures var mid := if side.Left? then t.r else t.l;
            var b := if side.Left? then mid.l else mid.r;
            && t.n in m && mid.n in m && mid.n != t.n
            && m[t.n] == Cell(Root(t.l), Root(t.r), Above(ctx), t.c)
            && m[mid.n] == Cell(Root(mid.l), Root(mid.r), t.n, mid.c)
            && (b.Bin? ==> b.n in m && b.n != t.n && b.n != mid.n)
            && (ctx.Up? ==>
                  && ctx.n in m && ctx.n != t.n && ctx.n != mid.n && Root(b) != ctx.n
                  && (m[ctx.n].left == t.n <==> ctx.side.Left?))
  {
    var mid := if side.Left? then t.r else t.l;
    var b := if side.Left? then mid.l else mid.r;
    assert Hangs(m, mid, t.n) && Hangs(m, b, mid.n);
    assert Root(b) != null ==> b.n in Nodes(b) && b.n in Nodes(mid);
    assert ctx.Up? ==> Root(ctx.sib) != null ==> ctx.sib.n in CtxNodes(ctx);
  }

  ghost function Hung(m: Memory, x: Node?, p: Node?): Memory
    requires x != null ==> x in m
  {
    if x == null then m else m[x := m[x].(parent := p)]
  }

  ghost function Replaced(m: Memory, p: Node?, e: Node, x: Node?): Memory
    requires p != null ==> p in m
  {
    if p == null then m
    else if m[p].left == e then m[p := m[p].(left := x)]
    else m[p := m[p].(right := x)]
  }

  /** The six writes of a rotation, in order. */
  ghost function RotationWrites(m: Memory, e: Node, tmp: Node, b: Node?, p: Node?, side: Side): Memory
    requires e in m && tmp in m && (b != null ==> b in m) && (p != null ==> p in m)
  {
    var m1 := m[e := if side.Left? then m[e].(right := b) else m[e].(left := b)];
    var m2 := Hung(m1, b, e);
    var m3 := m2[tmp := m2[tmp].(parent := p)];
    var m4 := Replaced(m3, p, e, tmp);
    var m5 := m4[tmp := if side.Left? then m4[tmp].(left := e) else m4[tmp].(right := e)];
    m5[e := m5[e].(parent := tmp)]
  }

  lemma {:induction false} RotateLinks(m: Memory, m': Memory, ctx: Ctx, t: Tree, root: Node?, root': Node?, side: Side)
    requires At(m, ctx, t, root) && t.Bin? && (if side.Left? then t.r.Bin? else t.l.Bin?)
    requires var mid := if side.Left? then t.r else t.l;
             var b := if side.Left? then mid.l else mid.r;
             && t.n in m && mid.n in m && (b.Bin? ==> b.n in m) && (ctx.Up? ==> ctx.n in m)
             && m' == RotationWrites(m, t.n, mid.n, Root(b), Above(ctx), side)
             && root' == if ctx.Top? then mid.n else root
    ensures Rotates(m, m', ctx, t, root, root', side)
  {
    Around(m, ctx, t, root, side);
  }

  lemma {:induction false} RotateApart(ctx: Ctx, t: Tree, side: Side)
    requires Apart(t) && t.Bin? && (if side.Left? then t.r.Bin? else t.l.Bin?)
    ensures Apart(Rotated(t, side)) && Nodes(Rotated(t, side)) == Nodes(t)
  {
    var mid := if side.Left? then t.r else t.l;
    assert Nodes(mid) == Nodes(mid.l) + {mid.n} + Nodes(mid.r);
    assert Nodes(t) == Nodes(t.l) + {t.n} + Nodes(t.r);
  }

  lemma {:induction false} RotateAt(m: Memory, m': Memory, ctx: Ctx, t: Tree, root: Node?, root': Node?, side: Side)
    requires At(m, ctx, t, root) && t.Bin? && (if side.Left? then t.r.Bin? else t.l.Bin?)
    requires Rotates(m, m', ctx, t, root, root', side)
    ensures At(m', ctx, Rotated(t, side), root')
  {
    var t' := Rotated(t, side);
    var a, b, c := if side.Left? then t.l else t.r, if side.Left? then t.r.l else t.l.r,
                   if side.Left? then t.r.r else t.l.l;
    var mid := if side.Left? then t.r else t.l;
    assert Hangs(m, mid, t.n);
    RotateApart(ctx, t, side);
    assert Nodes(mid) == Nodes(b) + {t'.n} + Nodes(c);
    assert Hangs(m', a, t.n) by { HangsFrame(m, m', a, t.n); }
    assert Hangs(m', c, t'.n) by { HangsFrame(m, m', c, t'.n); }
    assert Hangs(m', b, t.n) by { Rehang(m, m', b, t'.n, t.n); }
    assert Holds(m', ctx, t'.n, root') by { Refill(m, m', ctx, t.n, root, t'.n, root'); }
  }

  // ---------- Reading the memory ----------

  /** The cells at the focus and just above it. */
  lemma {:induction false} Kin(m: Memory, ctx: Ctx, t: Tree, root: Node?)
    requires At(m, ctx, t, root)
    ensures t.Bin? ==> t.n in m && m[t.n] == Cell(Root(t.l), Root(t.r), Above(ctx), t.c)
    ensures ctx.Up? ==>
              && ctx.n in m && m[ctx.n] == JoinCell(ctx.side, Root(t), Root(ctx.sib), Above(ctx.up), ctx.c)
              && (t.Bin? ==> ctx.n != t.n)
              && (t.Bin? || ctx.sib.Bin? ==> (m[ctx.n].left == Root(t) <==> ctx.side.Left?))
    ensures ctx.Up? && ctx.sib.Bin? ==>
              ctx.sib.n in m && m[ctx.sib.n] == Cell(Root(ctx.sib.l), Root(ctx.sib.r), ctx.n, ctx.sib.c)
    ensures root != null ==> root in m
    ensures ctx.Top? ==> root == Root(t)
  {
    assert t.Bin? ==> t.n in Nodes(t);
    assert ctx.Up? && ctx.sib.Bin? ==> ctx.sib.n in Nodes(ctx.sib);
    RootKnown(m, ctx, t, root);
  }

  lemma {:induction false} RootKnown(m: Memory, ctx: Ctx, t: Tree, root: Node?)
    requires At(m, ctx, t, root)
    ensures root != null ==> root in m
    ensures ctx.Up? ==> root != null && root in CtxNodes(ctx)
    decreases ctx
  {
    if ctx.Up? {
      ZipOne(m, ctx, t, root);
      RootKnown(m, ctx.up, Join(ctx.side, t, ctx.n, ctx.c, ctx.sib), root);
    }
  }

  lemma {:induction false} PaintAt(m: Memory, ctx: Ctx, t: Tree, root: Node?, c: Color)
    requires At(m, ctx, t, root) && t.Bin?
    ensures t.n in m && At(m[t.n := m[t.n].(color := c)], ctx, t.(c := c), root)
  {
    var m' := m[t.n := m[t.n].(color := c)];
    HangsFrame(m, m', t.l, t.n);
    HangsFrame(m, m', t.r, t.n);
    HoldsFrame(m, m', ctx, t.n, root);
  }

  lemma {:induction false} HangsKnown(m: Memory, t: Tree, p: Node?)
    requires Hangs(m, t, p)
    ensures Nodes(t) <= m.Keys
  {
    if t.Bin? {
      HangsKnown(m, t.l, t.n);
      HangsKnown(m, t.r, t.n);
    }
  }

  /** A fresh red node `e` fills the empty hole of a context. */
  lemma {:induction false} PlantAt(m: Memory, ctx: Ctx, root: Node?, e: Node, root': Node?)
    requires At(m, ctx, Leaf, root) && e !in m && CtxNodes(ctx) <= m.Keys
    requires ctx.Top? ==> root' == e
    requires ctx.Up? ==> root' == root
    ensures ctx.Up? ==> ctx.n in m
    ensures var m1 := m[e := Cell(null, null, Above(ctx), Red)];
            var m2 := if ctx.Top? then m1
                      else m1[ctx.n := if ctx.side.Left? then m1[ctx.n].(left := e) else m1[ctx.n].(right := e)];
            At(m2, ctx, Bin(Leaf, e, Red, Leaf), root')
  {
    var m1 := m[e := Cell(null, null, Above(ctx), Red)];
    var m2 := if ctx.Top? then m1
              else m1[ctx.n := if ctx.side.Left? then m1[ctx.n].(left := e) else m1[ctx.n].(right := e)];
    Refill(m, m2, ctx, null, root, e, root');
  }

  /** The colours of the sibling's children. */
  lemma {:induction false} Nephews(m: Memory, ctx: Ctx, t: Tree, root: Node?)
    requires At(m, ctx, t, root) && ctx.Up? && ctx.sib.Bin?
    ensures ctx.sib.l.Bin? ==> ctx.sib.l.n in m && m[ctx.sib.l.n].color == ctx.sib.l.c
    ensures ctx.sib.r.Bin? ==> ctx.sib.r.n in m && m[ctx.sib.r.n].color == ctx.sib.r.c
  {
    assert Hangs(m, ctx.sib, ctx.n);
    assert Hangs(m, ctx.sib.l, ctx.sib.n) && Hangs(m, ctx.sib.r, ctx.sib.n);
  }

  /** Below the top, the focus is not the root of the whole tree. */
  lemma {:induction false} NotTheRoot(m: Memory, ctx: Ctx, t: Tree, root: Node?)
    requires At(m, ctx, t, root)
    ensures Root(t) == root <==> ctx.Top?
  {
    RootKnown(m, ctx, t, root);
    assert t.Bin? ==> t.n in Nodes(t);
  }

  // ---------- Taking a node out ----------

  lemma {:induction false} FindNode(t: Tree, n: Node) returns (ctx: Ctx, sub: Tree)
    requires n in Nodes(t)
    ensures Plug(ctx, sub) == t && sub.Bin? && sub.n == n
  {
    ctx, sub := FindBelow(Top, t, n);
  }

  lemma {:induction false} FindBelow(above: Ctx, t: Tree, n: Node) returns (ctx: Ctx, sub: Tree)
    requires n in Nodes(t)
    ensures Plug(ctx, sub) == Plug(above, t) && sub.Bin? && sub.n == n
    decreases t
  {
    if t.n == n {
      ctx, sub := above, t;
    } else if n in Nodes(t.l) {
      ctx, sub := FindBelow(Up(Left, t.n, t.c, t.r, above), t.l, n);
    } else {
      ctx, sub := FindBelow(Up(Right, t.n, t.c, t.l, above), t.r, n);
    }
  }

  /** The root of `t` has at most one child, `child`. */
  ghost predicate OnlyChild(t: Tree, child: Tree) {
    t.Bin? && ((t.l.Leaf? && child == t.r) || (t.r.Leaf? && child == t.l))
  }

  /** The only child `child` of the root of `t` takes its place. */
  lemma {:induction false} UnlinkAt(m: Memory, ctx: Ctx, t: Tree, root: Node?, child: Tree, root': Node?)
    requires At(m, ctx, t, root) && OnlyChild(t, child)
    requires root' == if ctx.Top? then Root(child) else root
    ensures Root(child) != null ==> Root(child) in m
    ensures Above(ctx) != null ==> Above(ctx) in m
    ensures At(Replaced(Hung(m, Root(child), Above(ctx)), Above(ctx), t.n, Root(child)), ctx, child, root')
  {
    Kin(m, ctx, t, root);
    assert Hangs(m, child, t.n);
    assert child.Bin? ==> child.n in Nodes(child) && child.n in Nodes(t);
    var m1 := Hung(m, Root(child), Above(ctx));
    var m2 := Replaced(m1, Above(ctx), t.n, Root(child));
    Rehang(m, m2, child, t.n, Above(ctx));
    Refill(m, m2, ctx, t.n, root, Root(child), root');
  }

  /** The writes that put `e` in the place of `n`, whose children are `l` and `r`. */
  ghost function RelabelWrites(m: Memory, n: Node, e: Node, p: Node?, l: Node?, r: Node?): Memory
    requires n in m && (p != null ==> p in m) && (l != null ==> l in m) && (r != null ==> r in m)
  {
    var m1 := Replaced(m[e := m[n]], p, n, e);
    assert m1.Keys == m.Keys + {e};
    var m2 := Hung(m1, l, e);
    assert m2.Keys == m.Keys + {e};
    Hung(m2, r, e)
  }

  ghost predicate Relabels(m: Memory, m': Memory, ctx: Ctx, t: Tree, e: Node)
    requires t.Bin?
  {
    && e in m' && m'[e] == Cell(Root(t.l), Root(t.r), Above(ctx), t.c)
    && (t.l.Bin? ==> t.l.n in m && t.l.n in m' && m'[t.l.n] == m[t.l.n].(parent := e))
    && (t.r.Bin? ==> t.r.n in m && t.r.n in m' && m'[t.r.n] == m[t.r.n].(parent := e))
    && (ctx.Up? ==>
          && ctx.n in m && ctx.n in m'
          && m'[ctx.n] == if ctx.side.Left? then m[ctx.n].(left := e) else m[ctx.n].(right := e))
    && Same(m, m', m.Keys - {e} - (if t.l.Bin? then {t.l.n} else {}) - (if t.r.Bin? then {t.r.n} else {})
                   - (if ctx.Up? then {ctx.n} else {}))
  }

  lemma {:induction false} RelabelLinks(m: Memory, ctx: Ctx, t: Tree, root: Node?, e: Node)
    requires At(m, ctx, t, root) && t.Bin? && e !in Nodes(t) && e !in CtxNodes(ctx)
    ensures t.n in m && (Above(ctx) != null ==> Above(ctx) in m)
    ensures (Root(t.l) != null ==> Root(t.l) in m) && (Root(t.r) != null ==> Root(t.r) in m)
    ensures Relabels(m, RelabelWrites(m, t.n, e, Above(ctx), Root(t.l), Root(t.r)), ctx, t, e)
  {
    Kin(m, ctx, t, root);
    assert Hangs(m, t.l, t.n) && Hangs(m, t.r, t.n);
    assert t.l.Bin? ==> t.l.n in Nodes(t.l);
    assert t.r.Bin? ==> t.r.n in Nodes(t.r);
  }

  lemma {:induction false} RelabelAt(m: Memory, m': Memory, ctx: Ctx, t: Tree, root: Node?, e: Node, root': Node?)
    requires At(m, ctx, t, root) && t.Bin? && e !in Nodes(t) && e !in CtxNodes(ctx) && Relabels(m, m', ctx, t, e)
    requires root' == if ctx.Top? then e else root
    ensures At(m', ctx, Bin(t.l, e, t.c, t.r), root')
  {
    assert t.l.Bin? ==> t.l.n in Nodes(t.l);
    assert t.r.Bin? ==> t.r.n in Nodes(t.r);
    assert Hangs(m', t.l, e) by { Rehang(m, m', t.l, t.n, e); }
    assert Hangs(m', t.r, e) by { Rehang(m, m', t.r, t.n, e); }
    assert Holds(m', ctx, e, root') by { Refill(m, m', ctx, t.n, root, e, root'); }
  }

  /** `path` continued by `base`. */
  ghost function Cat(path: Ctx, base: Ctx): Ctx {
    if path.Top? then base else path.(up := Cat(path.up, base))
  }

  lemma {:induction false} ZipCat(m: Memory, path: Ctx, base: Ctx, t: Tree, root: Node?)
    ensures At(m, Cat(path, base), t, root) <==> At(m, base, Plug(path, t), root)
    ensures Plug(Cat(path, base), t) == Plug(base, Plug(path, t))
    decreases path
  {
    if path.Up? {
      var t' := Join(path.side, t, path.n, path.c, path.sib);
      ZipOne(m, Cat(path, base), t, root);
      ZipCat(m, path.up, base, t', root);
    }
  }

  /** A node that left the tree may be forgotten. */
  lemma {:induction false} Forget(m: Memory, t: Tree, root: Node?, n: Node)
    requires At(m, Top, t, root) && n !in Nodes(t)
    ensures At(m - {n}, Top, t, root)
  {
    HangsFrame(m, m - {n}, t, null);
  }
}
