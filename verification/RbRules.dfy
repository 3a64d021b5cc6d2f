/** The order and colour rules of a red-black tree, on pictures of trees, and the steps by which the
    two fix-up loops of rbtree_t.h restore them. */
module RbRules {
  import opened RbShape

  ghost predicate IsRed(t: Tree) {
    t.Bin? && t.c.Red?
  }

  ghost function Ink(c: Color): int {
    if c.Black? then 1 else 0
  }

  /** Every path from the root of `t` to a leaf has `h` black nodes. */
  ghost predicate Balanced(t: Tree, h: int) {
    if t.Leaf? then h == 0
    else Balanced(t.l, h - Ink(t.c)) && Balanced(t.r, h - Ink(t.c))
  }

  /** No red node has a red child. */
  ghost predicate Calm(t: Tree) {
    t.Bin? ==> Calm(t.l) && Calm(t.r) && (t.c.Red? ==> !IsRed(t.l) && !IsRed(t.r))
  }

  /** Filling the hole with a tree of black height `h` balances the whole tree. */
  ghost predicate CtxBalanced(ctx: Ctx, h: int) {
    ctx.Up? ==> Balanced(ctx.sib, h) && CtxBalanced(ctx.up, h + Ink(ctx.c))
  }

  /** No red node of the context has a red child, when the hole is filled by colour `c`. */
  ghost predicate CtxCalm(ctx: Ctx, c: Color) {
    ctx.Up? ==>
      && Calm(ctx.sib) && (ctx.c.Red? ==> c.Black? && !IsRed(ctx.sib))
      && CtxCalm(ctx.up, ctx.c)
  }

  ghost predicate CtxBlackTop(ctx: Ctx) {
    ctx.Up? ==> (if ctx.up.Top? then ctx.c.Black? else CtxBlackTop(ctx.up))
  }

  ghost predicate RedBlack(t: Tree) {
    !IsRed(t) && Calm(t) && exists h :: Balanced(t, h)
  }

  // ---------- General facts ----------

  lemma {:induction false} BalancedNonNegative(t: Tree, h: int)
    requires Balanced(t, h)
    ensures h >= 0
  {
    if t.Bin? {
      BalancedNonNegative(t.l, h - Ink(t.c));
    }
  }

  /** Trees with the same in-order sequence may replace each other below a context. */
  lemma {:induction false} PlugOrder(ctx: Ctx, t: Tree, t': Tree)
    requires InOrder(t) == InOrder(t')
    ensures InOrder(Plug(ctx, t)) == InOrder(Plug(ctx, t'))
    decreases ctx
  {
    if ctx.Up? {
      PlugOrder(ctx.up, Join(ctx.side, t, ctx.n, ctx.c, ctx.sib), Join(ctx.side, t', ctx.n, ctx.c, ctx.sib));
    }
  }

  lemma {:induction false} RotatedOrder(t: Tree, side: Side)
    requires t.Bin? && (if side.Left? then t.r.Bin? else t.l.Bin?)
    ensures InOrder(Rotated(t, side)) == InOrder(t)
  {
    if side.Left? {
      assert InOrder(t) == InOrder(t.l) + [t.n] + (InOrder(t.r.l) + [t.r.n] + InOrder(t.r.r));
    } else {
      assert InOrder(t) == (InOrder(t.l.l) + [t.l.n] + InOrder(t.l.r)) + [t.n] + InOrder(t.r);
    }
  }

  lemma {:induction false} PlugRules(ctx: Ctx, t: Tree, h: int)
    requires Balanced(t, h) && CtxBalanced(ctx, h) && Calm(t)
    requires CtxCalm(ctx, if IsRed(t) then Red else Black)
    ensures Calm(Plug(ctx, t)) && exists h' :: Balanced(Plug(ctx, t), h')
    decreases ctx
  {
    if ctx.Up? {
      PlugRules(ctx.up, Join(ctx.side, t, ctx.n, ctx.c, ctx.sib), h + Ink(ctx.c));
    }
  }

  /** The reverse of PlugRules: a red-black tree may be entered at any node. */
  lemma {:induction false} UnplugRules(ctx: Ctx, t: Tree, h: int) returns (h': int)
    requires Balanced(Plug(ctx, t), h) && Calm(Plug(ctx, t))
    ensures Balanced(t, h') && CtxBalanced(ctx, h') && Calm(t)
    ensures CtxCalm(ctx, if IsRed(t) then Red else Black)
    decreases ctx
  {
    if ctx.Top? {
      h' := h;
    } else {
      h' := UnplugRules(ctx.up, Join(ctx.side, t, ctx.n, ctx.c, ctx.sib), h);
      h' := h' - Ink(ctx.c);
    }
  }

  lemma {:induction false} PlugTop(ctx: Ctx, t: Tree)
    ensures t.Bin? && CtxBlackTop(ctx) && ctx.Up? ==> !IsRed(Plug(ctx, t))
    decreases ctx
  {
    if ctx.Up? {
      PlugTop(ctx.up, Join(ctx.side, t, ctx.n, ctx.c, ctx.sib));
    }
  }

  // ---------- Insertion ----------

  /** `t` is a red tree that may clash with a red node just above it; nothing else is wrong. */
  ghost predicate Clash(ctx: Ctx, t: Tree, h: int) {
    IsRed(t) && Balanced(t, h) && Calm(t) && CtxBalanced(ctx, h) && CtxCalm(ctx, Black) && CtxBlackTop(ctx)
  }

  /** A clash has a black grandparent. */
  lemma {:induction false} ClashGrandparent(ctx: Ctx, t: Tree, h: int)
    requires Clash(ctx, t, h) && ctx.Up? && ctx.c.Red?
    ensures ctx.up.Up? && ctx.up.c.Black?
  {
    assert CtxCalm(ctx.up, ctx.c);
  }

  /** With a red uncle, parent and uncle take over the grandparent's black. */
  lemma {:induction false} ClashRecolored(ctx: Ctx, t: Tree, h: int, t': Tree)
    requires Clash(ctx, t, h) && ctx.Up? && ctx.c.Red? && ctx.up.Up? && IsRed(ctx.up.sib)
    requires t' == Join(ctx.up.side, Join(ctx.side, t, ctx.n, Black, ctx.sib), ctx.up.n, Red, ctx.up.sib.(c := Black))
    ensures Clash(ctx.up.up, t', h + 1)
    ensures InOrder(Plug(ctx.up.up, t')) == InOrder(Plug(ctx, t))
  {
    var g := ctx.up;
    var p := Join(ctx.side, t, ctx.n, Black, ctx.sib);
    assert CtxBalanced(g, h) && CtxCalm(g, Red) && CtxBlackTop(g);
    assert Balanced(p, h + 1) && Balanced(g.sib.(c := Black), h + 1) && Calm(p) && Calm(g.sib.(c := Black));
    PlugOrder(g.up, t', Join(g.side, Join(ctx.side, t, ctx.n, ctx.c, ctx.sib), g.n, g.c, g.sib));
  }

  /** An inner grandchild is first rotated outside. */
  lemma {:induction false} ClashTurned(ctx: Ctx, t: Tree, h: int, ctx': Ctx, t': Tree)
    requires Clash(ctx, t, h) && ctx.Up? && ctx.c.Red? && ctx.up.Up? && !IsRed(ctx.up.sib) && ctx.side != ctx.up.side
    requires t' == Join(ctx.side, if ctx.side.Left? then t.r else t.l, ctx.n, Red, ctx.sib)
    requires ctx' == Up(ctx.up.side, t.n, Red, if ctx.side.Left? then t.l else t.r, ctx.up)
    ensures Clash(ctx', t', h)
    ensures Join(ctx'.side, t', ctx'.n, ctx'.c, ctx'.sib)
         == Rotated(Join(ctx.side, t, ctx.n, ctx.c, ctx.sib), ctx.up.side)
    ensures InOrder(Plug(ctx', t')) == InOrder(Plug(ctx, t))
  {
    assert CtxBalanced(ctx.up, h) && CtxCalm(ctx.up, Red) && CtxBlackTop(ctx.up);
    assert Balanced(t', h) && Calm(t');
    assert Balanced(ctx'.sib, h) && Calm(ctx'.sib) && !IsRed(ctx'.sib);
    RotatedOrder(Join(ctx.side, t, ctx.n, ctx.c, ctx.sib), ctx.up.side);
    PlugOrder(ctx.up, Join(ctx.side, t, ctx.n, ctx.c, ctx.sib), Join(ctx'.side, t', ctx'.n, ctx'.c, ctx'.sib));
  }

  /** An outer grandchild with a black uncle: parent and grandparent swap colours and rotate. */
  lemma {:induction false} ClashResolved(ctx: Ctx, t: Tree, h: int, ctx': Ctx)
    requires Clash(ctx, t, h) && ctx.Up? && ctx.c.Red? && ctx.up.Up? && !IsRed(ctx.up.sib) && ctx.side == ctx.up.side
    requires ctx' == Up(ctx.side, ctx.n, Black, Join(ctx.side, ctx.sib, ctx.up.n, Red, ctx.up.sib), ctx.up.up)
    ensures Clash(ctx', t, h) && ctx'.c.Black?
    ensures Join(ctx'.side, t, ctx'.n, ctx'.c, ctx'.sib)
            == Rotated(Join(ctx.side, Join(ctx.side, t, ctx.n, Black, ctx.sib), ctx.up.n, Red, ctx.up.sib),
                       Other(ctx.side))
    ensures InOrder(Plug(ctx', t)) == InOrder(Plug(ctx, t))
  {
    assert CtxBalanced(ctx.up, h) && CtxCalm(ctx.up, Red) && CtxBlackTop(ctx.up);
    assert Balanced(ctx'.sib, h) && Calm(ctx'.sib);
    RotatedOrder(Join(ctx.side, Join(ctx.side, t, ctx.n, Black, ctx.sib), ctx.up.n, Red, ctx.up.sib), Other(ctx.side));
    PlugOrder(ctx.up.up,
              Join(ctx.side, Join(ctx.side, t, ctx.n, ctx.c, ctx.sib), ctx.up.n, ctx.up.c, ctx.up.sib),
              Join(ctx'.side, t, ctx'.n, ctx'.c, ctx'.sib));
  }

  /** No clash left: painting the top black finishes the insertion. */
  lemma {:induction false} ClashOver(ctx: Ctx, t: Tree, h: int)
    requires Clash(ctx, t, h) && (ctx.Up? ==> ctx.c.Black?)
    ensures var whole := Plug(ctx, t);
            whole.Bin? && RedBlack(whole.(c := Black)) && InOrder(whole.(c := Black)) == InOrder(whole)
  {
    var whole := Plug(ctx, t);
    if ctx.Top? {
      assert Balanced(t.(c := Black), h + 1);
    } else {
      PlugRules(ctx, t, h);
      PlugTop(ctx, t);
      PlugNodes(ctx, t);
      assert t.n in Nodes(whole);
      assert whole.(c := Black) == whole;
    }
  }

  // ---------- Removal ----------

  ghost function Near(t: Tree, side: Side): Tree
    requires t.Bin?
  {
    if side.Left? then t.l else t.r
  }

  ghost function Blackened(t: Tree): Tree {
    if t.Leaf? then t else t.(c := Black)
  }

  /** The hole of `ctx` wants one more black node than `t` has; apart from that, and from the colour
      of the root of `t`, nothing is wrong. */
  ghost predicate Short(ctx: Ctx, t: Tree, h: int) {
    && Balanced(t, h) && (t.Bin? ==> Calm(t.l) && Calm(t.r))
    && CtxBalanced(ctx, h + 1) && CtxCalm(ctx, Black) && CtxBlackTop(ctx)
  }

  /** The sibling of a short tree is not a leaf, and is black below a red node. */
  lemma {:induction false} ShortSibling(ctx: Ctx, t: Tree, h: int)
    requires Short(ctx, t, h) && ctx.Up?
    ensures ctx.sib.Bin? && (IsRed(ctx.sib) ==> ctx.c.Black?)
  {
    BalancedNonNegative(t, h);
  }

  /** A red sibling is rotated up, which gives the short tree a black sibling. */
  lemma {:induction false} ShortBelowRed(ctx: Ctx, t: Tree, h: int, ctx': Ctx)
    requires Short(ctx, t, h) && ctx.Up? && IsRed(ctx.sib)
    requires ctx' == Up(ctx.side, ctx.n, Red, Near(ctx.sib, ctx.side),
                        Up(ctx.side, ctx.sib.n, Black, Near(ctx.sib, Other(ctx.side)), ctx.up))
    ensures Short(ctx', t, h) && !IsRed(ctx'.sib)
    ensures Join(ctx.side, Join(ctx.side, t, ctx.n, Red, ctx'.sib), ctx.sib.n, Black, ctx'.up.sib)
            == Rotated(Join(ctx.side, t, ctx.n, Red, ctx.sib.(c := Black)), ctx.side)
    ensures InOrder(Plug(ctx', t)) == InOrder(Plug(ctx, t))
  {
    ShortSibling(ctx, t, h);
    assert Balanced(ctx'.sib, h + 1) && Balanced(ctx'.up.sib, h + 1) && Calm(ctx'.sib) && Calm(ctx'.up.sib);
    assert CtxBalanced(ctx.up, h + 2) && CtxCalm(ctx.up, Black);
    assert CtxBalanced(ctx'.up, h + 1) && CtxCalm(ctx'.up, Red) && CtxBlackTop(ctx'.up);
    var turned := Join(ctx.side, t, ctx.n, Red, ctx.sib.(c := Black));
    assert InOrder(Plug(ctx', t)) == InOrder(Plug(ctx, t)) by {
      RotatedOrder(turned, ctx.side);
      PlugOrder(ctx.up, Join(ctx.side, t, ctx.n, ctx.c, ctx.sib), Rotated(turned, ctx.side));
    }
  }

  /** A black sibling without red children gives up its black: the shortage moves up. */
  lemma {:induction false} ShortMovesUp(ctx: Ctx, t: Tree, h: int, t': Tree)
    requires Short(ctx, t, h) && ctx.Up? && !IsRed(t) && ctx.sib.Bin? && ctx.sib.c.Black?
    requires !IsRed(ctx.sib.l) && !IsRed(ctx.sib.r)
    requires t' == Join(ctx.side, t, ctx.n, ctx.c, ctx.sib.(c := Red))
    ensures Short(ctx.up, t', h + Ink(ctx.c))
    ensures InOrder(Plug(ctx.up, t')) == InOrder(Plug(ctx, t))
  {
    assert Balanced(ctx.sib.(c := Red), h) && Calm(ctx.sib.(c := Red));
    CtxCalmBlack(ctx.up, ctx.c);
    PlugOrder(ctx.up, Join(ctx.side, t, ctx.n, ctx.c, ctx.sib), t');
  }

  lemma {:induction false} CtxCalmBlack(ctx: Ctx, c: Color)
    requires CtxCalm(ctx, c)
    ensures CtxCalm(ctx, Black)
  {}

  /** A black sibling whose only red child is the near one is turned, to make it the far one. */
  lemma {:induction false} ShortTurned(ctx: Ctx, t: Tree, h: int, ctx': Ctx)
    requires Short(ctx, t, h) && ctx.Up? && ctx.sib.Bin? && ctx.sib.c.Black?
    requires IsRed(Near(ctx.sib, ctx.side)) && !IsRed(Near(ctx.sib, Other(ctx.side)))
    requires ctx' == ctx.(sib := Rotated(Join(ctx.side, Near(ctx.sib, ctx.side).(c := Black), ctx.sib.n, Red,
                                              Near(ctx.sib, Other(ctx.side))), Other(ctx.side)))
    ensures Short(ctx', t, h)
    ensures ctx'.sib.Bin? && ctx'.sib.c.Black? && IsRed(Near(ctx'.sib, Other(ctx.side)))
    ensures InOrder(Plug(ctx', t)) == InOrder(Plug(ctx, t))
  {
    var near, far := Near(ctx.sib, ctx.side), Near(ctx.sib, Other(ctx.side));
    assert Balanced(near, h) && Balanced(far, h) && Calm(near) && Calm(far);
    var sib := Join(ctx.side, near.(c := Black), ctx.sib.n, Red, far);
    assert Balanced(ctx'.sib, h + 1) && Calm(ctx'.sib);
    assert InOrder(Plug(ctx', t)) == InOrder(Plug(ctx, t)) by {
      RotatedOrder(sib, Other(ctx.side));
      assert InOrder(sib) == InOrder(ctx.sib);
      PlugOrder(ctx.up, Join(ctx.side, t, ctx.n, ctx.c, ctx.sib), Join(ctx.side, t, ctx.n, ctx.c, ctx'.sib));
    }
  }

  /** A black sibling with a red far child makes up for the shortage. */
  lemma {:induction false} ShortRepaid(ctx: Ctx, t: Tree, h: int, t': Tree)
    requires Short(ctx, t, h) && ctx.Up? && !IsRed(t) && ctx.sib.Bin? && ctx.sib.c.Black?
    requires IsRed(Near(ctx.sib, Other(ctx.side)))
    requires t' == Rotated(Join(ctx.side, t, ctx.n, Black,
                                Join(ctx.side, Near(ctx.sib, ctx.side), ctx.sib.n, ctx.c,
                                     Near(ctx.sib, Other(ctx.side)).(c := Black))), ctx.side)
    ensures var whole := Plug(ctx.up, t');
            && RedBlack(whole) && InOrder(whole) == InOrder(Plug(ctx, t))
            && (exists h' :: Short(Top, whole, h'))
  {
    var near, far := Near(ctx.sib, ctx.side), Near(ctx.sib, Other(ctx.side));
    assert Balanced(near, h) && Balanced(far, h) && Calm(near) && Calm(far);
    var sib := Join(ctx.side, near, ctx.sib.n, ctx.c, far.(c := Black));
    assert Balanced(far.(c := Black), h + 1) && Calm(far.(c := Black));
    var sunk := Join(ctx.side, t, ctx.n, Black, near);
    assert Balanced(sunk, h + 1) && Calm(sunk);
    assert t' == Join(ctx.side, sunk, ctx.sib.n, ctx.c, far.(c := Black));
    assert InOrder(Plug(ctx.up, t')) == InOrder(Plug(ctx, t)) by {
      RotatedOrder(Join(ctx.side, t, ctx.n, Black, sib), ctx.side);
      assert InOrder(sib) == InOrder(ctx.sib);
      PlugOrder(ctx.up, Join(ctx.side, t, ctx.n, ctx.c, ctx.sib), t');
    }
    PlugRules(ctx.up, t', h + 1 + Ink(ctx.c));
    PlugTop(ctx.up, t');
    var whole := Plug(ctx.up, t');
    var h' :| Balanced(whole, h');
    assert Short(Top, whole, h');
  }

  /** A red root absorbs the shortage, and at the top there is none. */
  lemma {:induction false} ShortOver(ctx: Ctx, t: Tree, h: int)
    requires Short(ctx, t, h) && (IsRed(t) || ctx.Top?)
    ensures RedBlack(Plug(ctx, Blackened(t))) && InOrder(Plug(ctx, Blackened(t))) == InOrder(Plug(ctx, t))
  {
    var t' := Blackened(t);
    PlugOrder(ctx, t, t');
    if IsRed(t) {
      PlugRules(ctx, t', h + 1);
      PlugTop(ctx, t');
    } else {
      assert t' == t;
    }
  }

  // ---------- Order ----------

  ghost predicate Sorted(s: seq<Node>) {
    forall i, j | 0 <= i < j < |s| :: s[i].key < s[j].key
  }

  ghost function Before(ctx: Ctx): seq<Node> {
    if ctx.Top? then []
    else if ctx.side.Left? then Before(ctx.up)
    else Before(ctx.up) + InOrder(ctx.sib) + [ctx.n]
  }

  ghost function After(ctx: Ctx): seq<Node> {
    if ctx.Top? then []
    else if ctx.side.Left? then [ctx.n] + InOrder(ctx.sib) + After(ctx.up)
    else After(ctx.up)
  }

  lemma {:induction false} PlugInOrder(ctx: Ctx, t: Tree)
    ensures InOrder(Plug(ctx, t)) == Before(ctx) + InOrder(t) + After(ctx)
    decreases ctx
  {
    if ctx.Up? {
      PlugInOrder(ctx.up, Join(ctx.side, t, ctx.n, ctx.c, ctx.sib));
    }
  }

  lemma {:induction false} NodeInOrder(t: Tree, n: Node)
    ensures n in Nodes(t) <==> n in InOrder(t)
  {
    if t.Bin? {
      NodeInOrder(t.l, n);
      NodeInOrder(t.r, n);
    }
  }

  /** The keys before the hole of `ctx` are below `key`, those after it above. */
  ghost predicate Brackets(ctx: Ctx, key: int) {
    && (forall i | 0 <= i < |Before(ctx)| :: Before(ctx)[i].key < key)
    && (forall i | 0 <= i < |After(ctx)| :: key < After(ctx)[i].key)
  }

  /** Searching one level down keeps the key bracketed. */
  lemma {:induction false} Descend(ctx: Ctx, t: Tree, key: int, side: Side)
    requires t.Bin? && Brackets(ctx, key) && Sorted(InOrder(Plug(ctx, t)))
    requires if side.Left? then key < t.n.key else t.n.key < key
    ensures var ctx' := Up(side, t.n, t.c, Near(t, Other(side)), ctx);
            Brackets(ctx', key) && Plug(ctx', Near(t, side)) == Plug(ctx, t)
  {
    PlugInOrder(ctx, t);
    SortedAround(Before(ctx), InOrder(t.l), t.n, InOrder(t.r), After(ctx));
    if side.Left? {
      AllAbove(t.n, InOrder(t.r), After(ctx), key);
    } else {
      AllBelow(Before(ctx), InOrder(t.l), t.n, key);
    }
  }

  lemma AllAbove(n: Node, r: seq<Node>, a: seq<Node>, key: int)
    requires key < n.key && (forall i | 0 <= i < |r| :: n.key < r[i].key) && (forall i | 0 <= i < |a| :: key < a[i].key)
    ensures forall i | 0 <= i < |[n] + r + a| :: key < ([n] + r + a)[i].key
  {}

  lemma AllBelow(b: seq<Node>, l: seq<Node>, n: Node, key: int)
    requires n.key < key && (forall i | 0 <= i < |l| :: l[i].key < n.key) && (forall i | 0 <= i < |b| :: b[i].key < key)
    ensures forall i | 0 <= i < |b + l + [n]| :: (b + l + [n])[i].key < key
  {}

  lemma {:induction false} SortedAround(b: seq<Node>, l: seq<Node>, n: Node, r: seq<Node>, a: seq<Node>)
    requires Sorted(b + (l + [n] + r) + a)
    ensures forall i | 0 <= i < |l| :: l[i].key < n.key
    ensures forall i | 0 <= i < |r| :: n.key < r[i].key
  {
    var s := b + (l + [n] + r) + a;
    var k := |b| + |l|;
    assert s[k] == n;
    forall i | 0 <= i < |l|
      ensures l[i].key < n.key
    {
      assert s[|b| + i] == l[i];
    }
    forall i | 0 <= i < |r|
      ensures n.key < r[i].key
    {
      assert s[k + 1 + i] == r[i];
    }
  }

  ghost function Inserted(s: seq<Node>, e: Node): seq<Node> {
    if s == [] || e.key < s[0].key then [e] + s else [s[0]] + Inserted(s[1..], e)
  }

  lemma {:induction false} InsertedBetween(b: seq<Node>, a: seq<Node>, e: Node)
    requires forall i | 0 <= i < |b| :: b[i].key < e.key
    requires forall i | 0 <= i < |a| :: e.key < a[i].key
    ensures Inserted(b + a, e) == b + [e] + a
  {
    if b == [] {
      assert b + a == a;
    } else {
      assert (b + a)[1..] == b[1..] + a;
      InsertedBetween(b[1..], a, e);
    }
  }

  lemma {:induction false} UnplugTop(ctx: Ctx, t: Tree)
    requires ctx.Up? && !IsRed(Plug(ctx, t))
    ensures CtxBlackTop(ctx)
    decreases ctx
  {
    if ctx.up.Up? {
      UnplugTop(ctx.up, Join(ctx.side, t, ctx.n, ctx.c, ctx.sib));
    }
  }

  /** A fresh red node in an empty place of a red-black tree. */
  lemma {:induction false} FreshLeaf(ctx: Ctx, e: Node)
    requires RedBlack(Plug(ctx, Leaf))
    ensures Clash(ctx, Bin(Leaf, e, Red, Leaf), 0)
  {
    var h :| Balanced(Plug(ctx, Leaf), h);
    var h' := UnplugRules(ctx, Leaf, h);
    if ctx.Up? {
      UnplugTop(ctx, Leaf);
    }
  }

  /** A node of colour `c` was taken out between `ctx` and its only child `t`. */
  ghost predicate Excised(ctx: Ctx, t: Tree, c: Color, h: int) {
    && Balanced(t, h) && Calm(t) && CtxBalanced(ctx, h + Ink(c)) && CtxCalm(ctx, c) && CtxBlackTop(ctx)
    && (c.Red? ==> !IsRed(t) && ctx.Up?)
  }

  lemma {:induction false} ExcisedFrom(ctx: Ctx, t: Tree, child: Tree) returns (h: int)
    requires RedBlack(Plug(ctx, t)) && OnlyChild(t, child)
    ensures Excised(ctx, child, t.c, h)
  {
    var h0 :| Balanced(Plug(ctx, t), h0);
    var h1 := UnplugRules(ctx, t, h0);
    if ctx.Up? {
      UnplugTop(ctx, t);
    }
    h := h1 - Ink(t.c);
  }

  lemma {:induction false} ExcisedOver(ctx: Ctx, t: Tree, c: Color, h: int)
    requires Excised(ctx, t, c, h)
    ensures c.Black? ==> Short(ctx, t, h)
    ensures c.Red? ==> RedBlack(Plug(ctx, t))
  {
    if c.Red? {
      CtxCalmBlack(ctx, c);
      PlugRules(ctx, t, h);
      PlugTopUp(ctx, t);
    }
  }

  lemma {:induction false} PlugTopUp(ctx: Ctx, t: Tree)
    requires ctx.Up? && CtxBlackTop(ctx)
    ensures !IsRed(Plug(ctx, t))
  {
    PlugTop(ctx.up, Join(ctx.side, t, ctx.n, ctx.c, ctx.sib));
  }

  /** Renaming a node of a context does not affect the colour rules. */
  lemma {:induction false} Rename(path: Ctx, base: Ctx, e: Node, t: Tree, c: Color, h: int)
    requires base.Up? && Excised(Cat(path, base), t, c, h)
    ensures Excised(Cat(path, base.(n := e)), t, c, h)
  {
    RenameRules(path, base, e, h + Ink(c), c);
  }

  lemma {:induction false} RenameRules(path: Ctx, base: Ctx, e: Node, h: int, c: Color)
    requires base.Up?
    requires CtxBalanced(Cat(path, base), h) && CtxCalm(Cat(path, base), c) && CtxBlackTop(Cat(path, base))
    ensures var ctx' := Cat(path, base.(n := e));
            CtxBalanced(ctx', h) && CtxCalm(ctx', c) && CtxBlackTop(ctx')
    decreases path
  {
    if path.Up? {
      RenameRules(path.up, base, e, h + Ink(path.c), path.c);
    }
  }

  // ---------- Order after a removal ----------

  ghost function Without(s: seq<Node>, n: Node): seq<Node> {
    if s == [] then [] else if s[0] == n then s[1..] else [s[0]] + Without(s[1..], n)
  }

  lemma {:induction false} WithoutMiddle(b: seq<Node>, n: Node, a: seq<Node>)
    requires n !in b
    ensures Without(b + [n] + a, n) == b + a
  {
    if b == [] {
      assert [] + [n] + a == [n] + a;
      assert [] + a == a;
    } else {
      assert (b + [n] + a)[1..] == b[1..] + [n] + a;
      assert b + a == [b[0]] + (b[1..] + a);
      WithoutMiddle(b[1..], n, a);
    }
  }

  ghost predicate AllOn(ctx: Ctx, side: Side) {
    ctx.Up? ==> ctx.side == side && AllOn(ctx.up, side)
  }

  /** Nothing comes before the hole of a path that only went left. */
  lemma {:induction false} BeforeCat(path: Ctx, base: Ctx)
    requires AllOn(path, Left)
    ensures Before(Cat(path, base)) == Before(base)
    decreases path
  {
    if path.Up? {
      BeforeCat(path.up, base);
    }
  }

  lemma {:induction false} AfterCat(path: Ctx, base: Ctx, e: Node)
    requires AllOn(path, Left) && base.Up? && base.side.Right?
    ensures After(Cat(path, base.(n := e))) == After(Cat(path, base))
    decreases path
  {
    if path.Up? {
      AfterCat(path.up, base, e);
    }
  }

  lemma {:induction false} SortedApart(b: seq<Node>, n: Node, a: seq<Node>)
    requires Sorted(b + [n] + a)
    ensures n !in b && n !in a && Sorted(b + a)
  {
    var s, s' := b + [n] + a, b + a;
    assert s[|b|] == n;
    forall i | 0 <= i < |b|
      ensures b[i] != n
    {
      assert s[i] == b[i];
    }
    forall i | 0 <= i < |a|
      ensures a[i] != n
    {
      assert s[|b| + 1 + i] == a[i];
    }
    forall i, j | 0 <= i < j < |s'|
      ensures s'[i].key < s'[j].key
    {
      assert s'[i] == s[if i < |b| then i else i + 1] && s'[j] == s[if j < |b| then j else j + 1];
    }
  }

  /** Taking out a node with one child at most removes just that node from the sequence. */
  lemma {:induction false} OrderExcised(ctx: Ctx, t: Tree, child: Tree)
    requires OnlyChild(t, child) && Sorted(InOrder(Plug(ctx, t)))
    ensures InOrder(Plug(ctx, child)) == Without(InOrder(Plug(ctx, t)), t.n)
    ensures Sorted(InOrder(Plug(ctx, child))) && t.n !in InOrder(Plug(ctx, child))
  {
    var b, a := Before(ctx) + InOrder(t.l), InOrder(t.r) + After(ctx);
    PlugInOrder(ctx, t);
    PlugInOrder(ctx, child);
    MiddleOut(Before(ctx), InOrder(t.l), t.n, InOrder(t.r), After(ctx));
    assert InOrder(child) == InOrder(t.l) + InOrder(t.r);
  }

  lemma {:induction false} Regroup(b: seq<Node>, l: seq<Node>, m: seq<Node>, r: seq<Node>, a: seq<Node>)
    ensures b + l + m + r + a == b + (l + m + r) + a
    ensures l + m + r == l + (m + r)
  {
    assert b + l + m == b + (l + m);
    assert b + (l + m) + r == b + (l + m + r);
  }

  lemma {:induction false} MiddleOut(b: seq<Node>, l: seq<Node>, n: Node, r: seq<Node>, a: seq<Node>)
    requires Sorted(b + (l + [n] + r) + a)
    ensures var s' := b + (l + r) + a;
            s' == Without(b + (l + [n] + r) + a, n) && Sorted(s') && n !in s'
  {
    assert b + (l + [n] + r) + a == (b + l) + [n] + (r + a);
    assert b + (l + r) + a == (b + l) + (r + a);
    SortedApart(b + l, n, r + a);
    WithoutMiddle(b + l, n, r + a);
  }

  /** So does moving the successor `e` of a node into its place. */
  lemma {:induction false} OrderSpliced(path: Ctx, base: Ctx, e: Node, c: Color, child: Tree)
    requires AllOn(path, Left) && base.Up? && base.side.Right?
    requires Sorted(InOrder(Plug(Cat(path, base), Bin(Leaf, e, c, child))))
    ensures var s, s' := InOrder(Plug(Cat(path, base), Bin(Leaf, e, c, child))),
                         InOrder(Plug(Cat(path, base.(n := e)), child));
            s' == Without(s, base.n) && Sorted(s') && base.n !in s'
  {
    var t := Bin(Leaf, e, c, child);
    var ctx, ctx' := Cat(path, base), Cat(path, base.(n := e));
    var b, l, r, a := Before(base.up), InOrder(base.sib), InOrder(child), After(ctx);
    assert InOrder(t) == [e] + r;
    SplicedSides(path, base, e);
    PlugInOrder(ctx, t);
    PlugInOrder(ctx', child);
    Regroup(b, l, [base.n], [e] + r, a);
    Regroup(b, l, [e], r, a);
    MiddleOut(b, l, base.n, [e] + r, a);
  }

  lemma {:induction false} SplicedSides(path: Ctx, base: Ctx, e: Node)
    requires AllOn(path, Left) && base.Up? && base.side.Right?
    ensures Before(Cat(path, base)) == Before(base.up) + InOrder(base.sib) + [base.n]
    ensures Before(Cat(path, base.(n := e))) == Before(base.up) + InOrder(base.sib) + [e]
    ensures After(Cat(path, base.(n := e))) == After(Cat(path, base))
  {
    BeforeCat(path, base);
    BeforeCat(path, base.(n := e));
    AfterCat(path, base, e);
  }

  // ---------- Height ----------

  ghost function Height(t: Tree): nat {
    if t.Leaf? then 0
    else 1 + (if Height(t.l) >= Height(t.r) then Height(t.l) else Height(t.r))
  }

  ghost function Pow2(n: nat): nat {
    if n == 0 then 1 else 2 * Pow2(n - 1)
  }

  lemma {:induction false} BalancedBounds(t: Tree, h: nat)
    requires Balanced(t, h) && Calm(t)
    ensures Pow2(h) <= |InOrder(t)| + 1
    ensures Height(t) <= 2 * h + if IsRed(t) then 1 else 0
  {
    if t.Bin? {
      BalancedNonNegative(t.l, h - Ink(t.c));
      BalancedBounds(t.l, h - Ink(t.c));
      BalancedBounds(t.r, h - Ink(t.c));
    }
  }

  lemma {:induction false} Pow2Monotone(m: nat, n: nat)
    requires m <= n
    ensures Pow2(m) <= Pow2(n)
  {
    if m < n {
      Pow2Monotone(m, n - 1);
    }
  }

  lemma {:induction false} Pow2Double(n: nat)
    ensures Pow2(2 * n) == Pow2(n) * Pow2(n)
  {
    if n > 0 {
      Pow2Double(n - 1);
      assert Pow2(2 * n) == 2 * Pow2(2 * n - 1) == 4 * Pow2(2 * (n - 1));
    }
  }

  /** The height of a red-black tree is at most twice the logarithm of its size plus one. */
  lemma {:induction false} HeightBound(t: Tree)
    requires RedBlack(t)
    ensures Pow2(Height(t)) <= (|InOrder(t)| + 1) * (|InOrder(t)| + 1)
  {
    var h :| Balanced(t, h);
    BalancedNonNegative(t, h);
    BalancedBounds(t, h);
    Pow2Monotone(Height(t), 2 * h);
    Pow2Double(h);
    SquareMonotone(Pow2(h), |InOrder(t)| + 1);
  }

  lemma SquareMonotone(p: nat, n: nat)
    requires p <= n
    ensures p * p <= n * n
  {
    assert p * p <= p * n;
    assert p * n <= n * n;
  }
}
