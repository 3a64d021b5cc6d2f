/** The operations of rbtree_t.h, on linked nodes. */
module RbTree {
  import opened RbShape
  import opened RbRules

  class RbTree {
    var root: Node?
    ghost var mem: Memory
    ghost var tree: Tree

    /** The memory is what the nodes hold. */
    ghost predicate Reflects()
      reads this`mem, mem.Keys
    {
      forall n | n in mem :: mem[n] == Cell(n.left, n.right, n.parent, n.color)
    }

    /** RB_INIT. */
    constructor ()
      ensures Valid() && Order() == [] && mem == map[]
    {
      root, mem, tree := null, map[], Leaf;
      new;
      assert Balanced(Leaf, 0);
    }

    // ---------- One link at a time ----------

    method SetLeft(e: Node, x: Node?)
      requires Reflects() && e in mem
      modifies e`left, this`mem
      ensures Reflects() && mem.Keys == old(mem.Keys) && mem == old(mem)[e := old(mem)[e].(left := x)]
      ensures root == old(root) && tree == old(tree)
    {
      e.left, mem := x, mem[e := mem[e].(left := x)];
    }

    method SetRight(e: Node, x: Node?)
      requires Reflects() && e in mem
      modifies e`right, this`mem
      ensures Reflects() && mem.Keys == old(mem.Keys) && mem == old(mem)[e := old(mem)[e].(right := x)]
      ensures root == old(root) && tree == old(tree)
    {
      e.right, mem := x, mem[e := mem[e].(right := x)];
    }

    method SetParent(e: Node, x: Node?)
      requires Reflects() && e in mem
      modifies e`parent, this`mem
      ensures Reflects() && mem.Keys == old(mem.Keys) && mem == old(mem)[e := old(mem)[e].(parent := x)]
      ensures root == old(root) && tree == old(tree)
    {
      e.parent, mem := x, mem[e := mem[e].(parent := x)];
    }

    method SetColor(e: Node, c: Color)
      requires Reflects() && e in mem
      modifies e`color, this`mem
      ensures Reflects() && mem.Keys == old(mem.Keys) && mem == old(mem)[e := old(mem)[e].(color := c)]
      ensures root == old(root) && tree == old(tree)
    {
      e.color, mem := c, mem[e := mem[e].(color := c)];
    }

    /** Hang `x`, when there is one, from `p`. */
    method Hang(x: Node?, p: Node?)
      requires Reflects() && (x != null ==> x in mem)
      modifies this`mem, mem.Keys`parent
      ensures Reflects() && mem.Keys == old(mem.Keys) && mem == Hung(old(mem), x, p)
      ensures root == old(root) && tree == old(tree)
    {
      if x != null {
        SetParent(x, p);
      }
    }

    /** Put `x` where `e` hangs from `p`. */
    method Replace(p: Node?, e: Node, x: Node?)
      requires Reflects() && (p != null ==> p in mem)
      modifies this, mem.Keys`left, mem.Keys`right
      ensures Reflects() && mem.Keys == old(mem.Keys) && mem == Replaced(old(mem), p, e, x)
      ensures root == (if p == null then x else old(root)) && tree == old(tree)
    {
      if p != null {
        if p.left == e {
          SetLeft(p, x);
        } else {
          SetRight(p, x);
        }
      } else {
        root := x;
      }
    }

    // ---------- Rotations ----------

    /** The writes of RB_ROTATE_LEFT. */
    method LiftRight(e: Node, ghost t: Node, ghost b: Node?, ghost p: Node?)
      requires Reflects() && e in mem && t in mem && t != e && (b != null ==> b in mem && b != e && b != t)
      requires p != null ==> p in mem
      requires mem[e].right == t && mem[t].left == b && mem[e].parent == p
      modifies this, mem.Keys
      ensures Reflects() && mem.Keys == old(mem.Keys) && mem == RotationWrites(old(mem), e, t, b, p, Left)
      ensures root == if p == null then t else old(root)
    {
      var tmp, parent := e.right, e.parent;
      var inner := tmp.left;
      SetRight(e, inner);
      Hang(inner, e);
      SetParent(tmp, parent);
      Replace(parent, e, tmp);
      SetLeft(tmp, e);
      SetParent(e, tmp);
    }

    /** The writes of RB_ROTATE_RIGHT. */
    method LiftLeft(e: Node, ghost t: Node, ghost b: Node?, ghost p: Node?)
      requires Reflects() && e in mem && t in mem && t != e && (b != null ==> b in mem && b != e && b != t)
      requires p != null ==> p in mem && p != e
      requires mem[e].left == t && mem[t].right == b && mem[e].parent == p
      modifies this, mem.Keys
      ensures Reflects() && mem.Keys == old(mem.Keys) && mem == RotationWrites(old(mem), e, t, b, p, Right)
      ensures root == if p == null then t else old(root)
    {
      var tmp, parent := e.left, e.parent;
      var inner := tmp.right;
      SetLeft(e, inner);
      Hang(inner, e);
      SetParent(tmp, parent);
      Replace(parent, e, tmp);
      SetRight(tmp, e);
      SetParent(e, tmp);
    }

    method RotateLeft(e: Node, ghost ctx: Ctx, ghost t: Tree)
      requires Reflects() && At(mem, ctx, t, root) && t.Bin? && t.r.Bin? && t.n == e
      modifies this, mem.Keys
      ensures Reflects() && mem.Keys == old(mem.Keys) && At(mem, ctx, Rotated(t, Left), root)
    {
      ghost var m := mem;
      Around(m, ctx, t, root, Left);
      LiftRight(e, t.r.n, Root(t.r.l), Above(ctx));
      RotateLinks(m, mem, ctx, t, old(root), root, Left);
      RotateAt(m, mem, ctx, t, old(root), root, Left);
    }

    method RotateRight(e: Node, ghost ctx: Ctx, ghost t: Tree)
      requires Reflects() && At(mem, ctx, t, root) && t.Bin? && t.l.Bin? && t.n == e
      modifies this, mem.Keys
      ensures Reflects() && mem.Keys == old(mem.Keys) && At(mem, ctx, Rotated(t, Right), root)
    {
      ghost var m := mem;
      Around(m, ctx, t, root, Right);
      LiftLeft(e, t.l.n, Root(t.l.r), Above(ctx));
      RotateLinks(m, mem, ctx, t, old(root), root, Right);
      RotateAt(m, mem, ctx, t, old(root), root, Right);
    }

    method Rotate(e: Node, side: Side, ghost ctx: Ctx, ghost t: Tree)
      requires Reflects() && At(mem, ctx, t, root) && t.Bin? && t.n == e
      requires if side.Left? then t.r.Bin? else t.l.Bin?
      modifies this, mem.Keys
      ensures Reflects() && mem.Keys == old(mem.Keys) && At(mem, ctx, Rotated(t, side), root)
    {
      if side.Left? {
        RotateLeft(e, ctx, t);
      } else {
        RotateRight(e, ctx, t);
      }
    }

    method Paint(e: Node, c: Color, ghost ctx: Ctx, ghost t: Tree)
      requires Reflects() && At(mem, ctx, t, root) && t.Bin? && t.n == e
      modifies this`mem, mem.Keys`color
      ensures Reflects() && mem.Keys == old(mem.Keys) && root == old(root) && At(mem, ctx, t.(c := c), root)
    {
      PaintAt(mem, ctx, t, root, c);
      SetColor(e, c);
    }

    /** Paint the parent of the focus, that is, the lowest node of the context. */
    method PaintParent(p: Node, c: Color, ghost ctx: Ctx, ghost t: Tree)
      requires Reflects() && At(mem, ctx, t, root) && ctx.Up? && ctx.n == p
      modifies this`mem, mem.Keys`color
      ensures Reflects() && mem.Keys == old(mem.Keys) && root == old(root) && At(mem, ctx.(c := c), t, root)
    {
      ZipOne(mem, ctx, t, root);
      Paint(p, c, ctx.up, Join(ctx.side, t, ctx.n, ctx.c, ctx.sib));
      ZipOne(mem, ctx.(c := c), t, root);
    }

    /** Paint the sibling of the focus. */
    method PaintSibling(e: Node, c: Color, ghost ctx: Ctx, ghost t: Tree)
      requires Reflects() && At(mem, ctx, t, root) && ctx.Up? && ctx.sib.Bin? && ctx.sib.n == e
      modifies this`mem, mem.Keys`color
      ensures Reflects() && mem.Keys == old(mem.Keys) && root == old(root)
      ensures At(mem, ctx.(sib := ctx.sib.(c := c)), t, root)
    {
      Across(mem, ctx, t, root);
      Paint(e, c, Up(Other(ctx.side), ctx.n, ctx.c, t, ctx.up), ctx.sib);
      Across(mem, ctx.(sib := ctx.sib.(c := c)), t, root);
    }

    // ---------- RB_INSERT_COLOR ----------

    function Child(e: Node, side: Side): Node?
      reads e
    {
      if side.Left? then e.left else e.right
    }

    /** Red uncle: parent and uncle turn black, the grandparent red. */
    method RecolorUncle(parent: Node, gparent: Node, uncle: Node, ghost ctx: Ctx, ghost t: Tree, ghost h: int)
      returns (ghost t': Tree)
      requires Reflects() && At(mem, ctx, t, root) && Clash(ctx, t, h)
      requires ctx.Up? && ctx.c.Red? && ctx.up.Up? && IsRed(ctx.up.sib)
      requires parent == ctx.n && gparent == ctx.up.n && uncle == ctx.up.sib.n
      modifies this, mem.Keys
      ensures Reflects() && mem.Keys == old(mem.Keys) && At(mem, ctx.up.up, t', root)
      ensures Clash(ctx.up.up, t', h + 1) && t'.n == gparent
      ensures InOrder(Plug(ctx.up.up, t')) == InOrder(Plug(ctx, t))
    {
      ghost var p := Join(ctx.side, t, ctx.n, ctx.c, ctx.sib);
      ZipOne(mem, ctx, t, root);
      PaintSibling(uncle, Black, ctx.up, p);
      ghost var g := ctx.up.(sib := ctx.up.sib.(c := Black));
      Paint(parent, Black, g, p);
      PaintParent(gparent, Red, g, p.(c := Black));
      ZipOne(mem, g.(c := Red), p.(c := Black), root);
      t' := Join(g.side, p.(c := Black), g.n, Red, g.sib);
      ClashRecolored(ctx, t, h, t');
    }

    /** An inner grandchild `elm` is rotated above its parent. */
    method TurnOut(parent: Node, side: Side, ghost ctx: Ctx, ghost t: Tree, ghost h: int)
      returns (ghost ctx': Ctx, ghost t': Tree)
      requires Reflects() && At(mem, ctx, t, root) && Clash(ctx, t, h)
      requires ctx.Up? && ctx.c.Red? && ctx.up.Up? && !IsRed(ctx.up.sib) && ctx.side != ctx.up.side
      requires parent == ctx.n && side == ctx.up.side
      modifies this, mem.Keys
      ensures Reflects() && mem.Keys == old(mem.Keys) && At(mem, ctx', t', root) && Clash(ctx', t', h)
      ensures t'.n == parent && ctx'.Up? && ctx'.n == t.n && ctx'.c.Red?
      ensures ctx'.up == ctx.up && ctx'.side == ctx.up.side
      ensures InOrder(Plug(ctx', t')) == InOrder(Plug(ctx, t))
    {
      t' := Join(ctx.side, if ctx.side.Left? then t.r else t.l, ctx.n, Red, ctx.sib);
      ctx' := Up(ctx.up.side, t.n, Red, if ctx.side.Left? then t.l else t.r, ctx.up);
      ClashTurned(ctx, t, h, ctx', t');
      ZipOne(mem, ctx, t, root);
      Rotate(parent, side, ctx.up, Join(ctx.side, t, ctx.n, ctx.c, ctx.sib));
      ZipOne(mem, ctx', t', root);
    }

    /** Parent and grandparent swap colours, and the parent is rotated up. */
    method SwapUp(parent: Node, gparent: Node, side: Side, ghost ctx: Ctx, ghost t: Tree, ghost h: int)
      returns (ghost ctx': Ctx)
      requires Reflects() && At(mem, ctx, t, root) && Clash(ctx, t, h)
      requires ctx.Up? && ctx.c.Red? && ctx.up.Up? && !IsRed(ctx.up.sib) && ctx.side == ctx.up.side
      requires parent == ctx.n && gparent == ctx.up.n && side == ctx.side
      modifies this, mem.Keys
      ensures Reflects() && mem.Keys == old(mem.Keys) && At(mem, ctx', t, root) && Clash(ctx', t, h)
      ensures ctx'.Up? && ctx'.c.Black?
      ensures InOrder(Plug(ctx', t)) == InOrder(Plug(ctx, t))
    {
      ctx' := Up(ctx.side, ctx.n, Black, Join(ctx.side, ctx.sib, ctx.up.n, Red, ctx.up.sib), ctx.up.up);
      ClashResolved(ctx, t, h, ctx');
      PaintParent(parent, Black, ctx, t);
      ghost var p := Join(ctx.side, t, ctx.n, Black, ctx.sib);
      ZipOne(mem, ctx.(c := Black), t, root);
      PaintParent(gparent, Red, ctx.up, p);
      ZipOne(mem, ctx.up.(c := Red), p, root);
      Rotate(gparent, Other(side), ctx.up.up, Join(ctx.side, p, ctx.up.n, Red, ctx.up.sib));
      ZipOne(mem, ctx', t, root);
    }

    /** What the loops read of the heap at the focus. */
    ghost predicate Sees(ctx: Ctx, t: Tree)
      reads Nodes(t), CtxNodes(ctx)
    {
      && (t.Bin? ==> t.n.parent == Above(ctx) && t.n.color == t.c)
      && (ctx.Up? ==> ctx.n.color == ctx.c)
    }

    lemma {:induction false} Seen(ctx: Ctx, t: Tree)
      requires Reflects() && At(mem, ctx, t, root)
      ensures Sees(ctx, t)
    {
      Kin(mem, ctx, t, root);
    }

    /** One round of RB_INSERT_COLOR.  The two mirror-image branches are written once, for the side on
        which the parent hangs from the grandparent. */
    method InsertStep(e: Node, ghost ctx: Ctx, ghost t: Tree, ghost h: int)
      returns (elm: Node, ghost ctx': Ctx, ghost t': Tree, ghost h': int)
      requires Reflects() && At(mem, ctx, t, root) && Clash(ctx, t, h) && t.n == e && ctx.Up? && ctx.c.Red?
      modifies this, mem.Keys
      ensures Reflects() && mem.Keys == old(mem.Keys) && At(mem, ctx', t', root) && Clash(ctx', t', h') && t'.n == elm
      ensures InOrder(Plug(ctx', t')) == InOrder(Plug(ctx, t))
      ensures Depth(ctx') < Depth(ctx) || (ctx'.Up? && ctx'.c.Black?)
    {
      ClashGrandparent(ctx, t, h);
      Kin(mem, ctx, t, root);
      ghost var p := Join(ctx.side, t, ctx.n, ctx.c, ctx.sib);
      ZipOne(mem, ctx, t, root);
      Kin(mem, ctx.up, p, root);
      elm := e;
      var parent := elm.parent;
      var gparent := parent.parent;
      var side := if parent == gparent.left then Left else Right;
      var uncle := Child(gparent, Other(side));
      if uncle != null && uncle.color.Red? {
        t' := RecolorUncle(parent, gparent, uncle, ctx, t, h);
        ctx', h', elm := ctx.up.up, h + 1, gparent;
        assert Depth(ctx) == 1 + Depth(ctx.up);
      } else {
        ctx', t', h' := ctx, t, h;
        if Child(parent, Other(side)) == elm {
          ctx', t' := TurnOut(parent, side, ctx, t, h);
          parent, elm := elm, parent;
        }
        ctx' := SwapUp(parent, gparent, side, ctx', t', h);
      }
    }

    method InsertColor(e: Node, ghost ctx0: Ctx, ghost t0: Tree, ghost h0: int)
      returns (ghost whole: Tree)
      requires Reflects() && At(mem, ctx0, t0, root) && Clash(ctx0, t0, h0) && t0.n == e
      modifies this, mem.Keys
      ensures Reflects() && mem.Keys == old(mem.Keys) && At(mem, Top, whole, root)
      ensures RedBlack(whole) && InOrder(whole) == InOrder(Plug(ctx0, t0))
    {
      var elm := e;
      ghost var ctx, t, h := ctx0, t0, h0;
      Seen(ctx, t);
      while elm.parent != null && elm.parent.color.Red?
        invariant Reflects() && mem.Keys == old(mem.Keys) && At(mem, ctx, t, root) && Clash(ctx, t, h)
        invariant t.n == elm && InOrder(Plug(ctx, t)) == InOrder(Plug(ctx0, t0)) && Sees(ctx, t)
        decreases if ctx.Up? && ctx.c.Red? then 1 + Depth(ctx) else 0
      {
        elm, ctx, t, h := InsertStep(elm, ctx, t, h);
        Seen(ctx, t);
      }
      ClashOver(ctx, t, h);
      Zip(mem, ctx, t, root);
      Kin(mem, Top, Plug(ctx, t), root);
      whole := Plug(ctx, t).(c := Black);
      Paint(root, Black, Top, Plug(ctx, t));
    }

    // ---------- RB_INSERT ----------

    ghost predicate Valid()
      reads this, mem.Keys
    {
      && Reflects() && At(mem, Top, tree, root) && mem.Keys == Nodes(tree)
      && RedBlack(tree) && Sorted(InOrder(tree))
    }

    /** The nodes of the tree, in order. */
    ghost function Order(): seq<Node>
      reads this
    {
      InOrder(tree)
    }

    /** RB_SET. */
    method Fresh(elm: Node, parent: Node?)
      requires Reflects() && elm !in mem
      modifies this`mem, elm
      ensures Reflects() && mem == old(mem)[elm := Cell(null, null, parent, Red)]
    {
      elm.parent, elm.left, elm.right, elm.color := parent, null, null, Red;
      mem := mem[elm := Cell(null, null, parent, Red)];
    }

    /** RB_SET, and the link from the parent or the root. */
    method Plant(elm: Node, parent: Node?, side: Side, ghost ctx: Ctx)
      requires Reflects() && At(mem, ctx, Leaf, root) && elm !in mem && CtxNodes(ctx) <= mem.Keys
      requires parent == Above(ctx) && (ctx.Up? ==> side == ctx.side)
      modifies this, mem.Keys, elm
      ensures Reflects() && mem.Keys == old(mem.Keys) + {elm} && At(mem, ctx, Bin(Leaf, elm, Red, Leaf), root)
    {
      PlantAt(mem, ctx, root, elm, if ctx.Top? then elm else root);
      Fresh(elm, parent);
      if parent != null {
        if side.Left? {
          SetLeft(parent, elm);
        } else {
          SetRight(parent, elm);
        }
      } else {
        root := elm;
      }
    }

    /** The descent of RB_INSERT: to a node with the key of `elm`, or to the empty place for it. */
    method Descent(elm: Node) returns (tmp: Node?, parent: Node?, side: Side, ghost ctx: Ctx)
      requires Valid()
      ensures tmp != null ==> tmp in Order() && tmp.key == elm.key
      ensures tmp == null ==>
                && At(mem, ctx, Leaf, root) && Plug(ctx, Leaf) == tree && Brackets(ctx, elm.key)
                && parent == Above(ctx) && (ctx.Up? ==> side == ctx.side)
    {
      ghost var t := tree;
      tmp, parent, side, ctx := root, null, Left, Top;
      while tmp != null
        invariant At(mem, ctx, t, root) && Plug(ctx, t) == tree && Brackets(ctx, elm.key)
        invariant tmp == Root(t) && parent == Above(ctx) && (ctx.Up? ==> side == ctx.side)
        decreases t
      {
        parent := tmp;
        Kin(mem, ctx, t, root);
        if elm.key < parent.key {
          side := Left;
          tmp := tmp.left;
        } else if elm.key > parent.key {
          side := Right;
          tmp := tmp.right;
        } else {
          PlugInOrder(ctx, t);
          return;
        }
        Descend(ctx, t, elm.key, side);
        ZipOne(mem, Up(side, t.n, t.c, Near(t, Other(side)), ctx), Near(t, side), root);
        ctx, t := Up(side, t.n, t.c, Near(t, Other(side)), ctx), Near(t, side);
      }
    }

    /** The new node hangs in the empty place, red, and the colours are put right. */
    method PlantRed(elm: Node, parent: Node?, side: Side, ghost ctx: Ctx) returns (ghost whole: Tree)
      requires Reflects() && At(mem, ctx, Leaf, root) && elm !in mem && CtxNodes(ctx) <= mem.Keys
      requires RedBlack(Plug(ctx, Leaf)) && parent == Above(ctx) && (ctx.Up? ==> side == ctx.side)
      modifies this, mem.Keys, elm
      ensures Reflects() && mem.Keys == old(mem.Keys) + {elm} && At(mem, Top, whole, root)
      ensures RedBlack(whole) && InOrder(whole) == InOrder(Plug(ctx, Bin(Leaf, elm, Red, Leaf)))
    {
      FreshLeaf(ctx, elm);
      Plant(elm, parent, side, ctx);
      whole := InsertColor(elm, ctx, Bin(Leaf, elm, Red, Leaf), 0);
    }

    /** The rest of RB_INSERT, below the place that the descent found. */
    method InsertAt(elm: Node, parent: Node?, side: Side, ghost ctx: Ctx)
      requires Valid() && elm !in mem && At(mem, ctx, Leaf, root) && Plug(ctx, Leaf) == tree && Brackets(ctx, elm.key)
      requires parent == Above(ctx) && (ctx.Up? ==> side == ctx.side)
      modifies this, mem.Keys, elm
      ensures Valid() && (forall n | n in old(Order()) :: n.key != elm.key)
      ensures Order() == Inserted(old(Order()), elm) && mem.Keys == old(mem.Keys) + {elm}
    {
      assert CtxNodes(ctx) <= mem.Keys by { PlugNodes(ctx, Leaf); }
      ghost var was := tree;
      ghost var whole := PlantRed(elm, parent, side, ctx);
      NewOrder(ctx, elm, whole, was);
      tree := whole;
    }

    /** RB_INSERT: returns the node that already holds the key, or null after inserting `elm`. */
    method Insert(elm: Node) returns (res: Node?)
      requires Valid() && elm !in mem
      modifies this, mem.Keys, elm
      ensures Valid()
      ensures res != null ==>
                && res in old(Order()) && res.key == elm.key
                && tree == old(tree) && mem == old(mem) && root == old(root)
      ensures res == null ==>
                && (forall n | n in old(Order()) :: n.key != elm.key)
                && Order() == Inserted(old(Order()), elm) && mem.Keys == old(mem.Keys) + {elm}
    {
      var parent, side;
      ghost var ctx;
      res, parent, side, ctx := Descent(elm);
      if res == null {
        InsertAt(elm, parent, side, ctx);
      }
    }

    /** No walk down from the root is longer than twice the logarithm of the number of nodes plus one. */
    lemma {:induction false} ShortWalk(steps: nat)
      requires Valid() && steps <= Height(tree)
      ensures Pow2(steps) <= (|Order()| + 1) * (|Order()| + 1)
    {
      HeightBound(tree);
      Pow2Monotone(steps, Height(tree));
    }

    /** RB_FIND; `steps` counts its moves down. */
    method Find(key: int) returns (res: Node?, ghost steps: nat)
      requires Valid()
      ensures res != null ==> res in Order() && res.key == key
      ensures res == null ==> forall n | n in Order() :: n.key != key
      ensures Pow2(steps) <= (|Order()| + 1) * (|Order()| + 1)
    {
      var tmp := root;
      steps := 0;
      ghost var ctx, t := Top, tree;
      while tmp != null
        invariant At(mem, ctx, t, root) && Plug(ctx, t) == tree && Brackets(ctx, key) && tmp == Root(t)
        invariant steps + Height(t) <= Height(tree)
        decreases t
      {
        Kin(mem, ctx, t, root);
        ghost var side := if key < tmp.key then Left else Right;
        if key < tmp.key {
          tmp := tmp.left;
        } else if key > tmp.key {
          tmp := tmp.right;
        } else {
          PlugInOrder(ctx, t);
          ShortWalk(steps);
          return tmp, steps;
        }
        Descend(ctx, t, key, side);
        ZipOne(mem, Up(side, t.n, t.c, Near(t, Other(side)), ctx), Near(t, side), root);
        ctx, t, steps := Up(side, t.n, t.c, Near(t, Other(side)), ctx), Near(t, side), steps + 1;
      }
      PlugInOrder(ctx, t);
      ShortWalk(steps);
      return null, steps;
    }

    /** RB_NFIND: the first node, in order, whose key is not below `key`. */
    method NFind(key: int) returns (res: Node?)
      requires Valid()
      ensures res == null ==> forall n | n in Order() :: n.key < key
      ensures res != null ==>
                res in Order() && res.key >= key && forall n | n in Order() && n.key >= key :: res.key <= n.key
    {
      var tmp := root;
      res := null;
      ghost var ctx, t := Top, tree;
      while tmp != null
        invariant At(mem, ctx, t, root) && Plug(ctx, t) == tree && Brackets(ctx, key) && tmp == Root(t)
        invariant res == if After(ctx) == [] then null else After(ctx)[0]
        decreases t
      {
        Kin(mem, ctx, t, root);
        ghost var side := if key < tmp.key then Left else Right;
        if key < tmp.key {
          res := tmp;
          tmp := tmp.left;
        } else if key > tmp.key {
          tmp := tmp.right;
        } else {
          PlugInOrder(ctx, t);
          return tmp;
        }
        Descend(ctx, t, key, side);
        ZipOne(mem, Up(side, t.n, t.c, Near(t, Other(side)), ctx), Near(t, side), root);
        ctx, t := Up(side, t.n, t.c, Near(t, Other(side)), ctx), Near(t, side);
      }
      PlugInOrder(ctx, t);
      FirstAfter(ctx, key, Order());
    }

    // ---------- RB_REMOVE_COLOR ----------
    // In the next methods the focus `t` is one black node short, `parent` is above it, and `tmp` is
    // its sibling.

    method LiftSibling(parent: Node, tmp: Node, side: Side, ghost ctx: Ctx, ghost t: Tree, ghost h: int)
      returns (ghost ctx': Ctx)
      requires Reflects() && At(mem, ctx, t, root) && Short(ctx, t, h) && ctx.Up? && IsRed(ctx.sib)
      requires parent == ctx.n && tmp == ctx.sib.n && side == ctx.side
      modifies this, mem.Keys
      ensures Reflects() && mem.Keys == old(mem.Keys) && At(mem, ctx', t, root) && Short(ctx', t, h)
      ensures ctx'.Up? && ctx'.n == parent && ctx'.side == side && ctx'.c.Red? && !IsRed(ctx'.sib)
      ensures InOrder(Plug(ctx', t)) == InOrder(Plug(ctx, t))
    {
      ctx' := Up(ctx.side, ctx.n, Red, Near(ctx.sib, ctx.side),
                 Up(ctx.side, ctx.sib.n, Black, Near(ctx.sib, Other(ctx.side)), ctx.up));
      ShortBelowRed(ctx, t, h, ctx');
      PaintSibling(tmp, Black, ctx, t);
      ghost var ctx1 := ctx.(sib := ctx.sib.(c := Black));
      PaintParent(parent, Red, ctx1, t);
      ZipOne(mem, ctx1.(c := Red), t, root);
      Rotate(parent, side, ctx.up, Join(ctx.side, t, ctx.n, Red, ctx1.sib));
      ZipOne(mem, ctx'.up, Join(ctx.side, t, ctx.n, Red, ctx'.sib), root);
      ZipOne(mem, ctx', t, root);
    }

    method LendSibling(tmp: Node, ghost ctx: Ctx, ghost t: Tree, ghost h: int)
      returns (ghost t': Tree)
      requires Reflects() && At(mem, ctx, t, root) && Short(ctx, t, h) && ctx.Up? && !IsRed(t)
      requires ctx.sib.Bin? && ctx.sib.c.Black? && !IsRed(ctx.sib.l) && !IsRed(ctx.sib.r) && tmp == ctx.sib.n
      modifies this, mem.Keys
      ensures Reflects() && mem.Keys == old(mem.Keys) && At(mem, ctx.up, t', root)
      ensures Short(ctx.up, t', h + Ink(ctx.c)) && t'.Bin? && t'.n == ctx.n && t'.c == ctx.c
      ensures InOrder(Plug(ctx.up, t')) == InOrder(Plug(ctx, t))
    {
      t' := Join(ctx.side, t, ctx.n, ctx.c, ctx.sib.(c := Red));
      ShortMovesUp(ctx, t, h, t');
      PaintSibling(tmp, Red, ctx, t);
      ZipOne(mem, ctx.(sib := ctx.sib.(c := Red)), t, root);
    }

    method TurnSibling(tmp: Node, inner: Node, side: Side, ghost ctx: Ctx, ghost t: Tree, ghost h: int)
      returns (ghost ctx': Ctx)
      requires Reflects() && At(mem, ctx, t, root) && Short(ctx, t, h) && ctx.Up? && side == ctx.side
      requires ctx.sib.Bin? && ctx.sib.c.Black? && tmp == ctx.sib.n
      requires IsRed(Near(ctx.sib, side)) && !IsRed(Near(ctx.sib, Other(side))) && inner == Near(ctx.sib, side).n
      modifies this, mem.Keys
      ensures Reflects() && mem.Keys == old(mem.Keys) && At(mem, ctx', t, root) && Short(ctx', t, h)
      ensures ctx'.Up? && ctx'.n == ctx.n && ctx'.side == side && ctx'.c == ctx.c && ctx'.up == ctx.up
      ensures ctx'.sib.Bin? && ctx'.sib.c.Black? && IsRed(Near(ctx'.sib, Other(side)))
      ensures InOrder(Plug(ctx', t)) == InOrder(Plug(ctx, t))
    {
      ghost var near, far := Near(ctx.sib, side), Near(ctx.sib, Other(side));
      ghost var over := Up(Other(side), ctx.n, ctx.c, t, ctx.up);
      ghost var inside := Up(side, ctx.sib.n, Black, far, over);
      ghost var sib := Join(side, near.(c := Black), ctx.sib.n, Red, far);
      ctx' := ctx.(sib := Rotated(sib, Other(side)));
      ShortTurned(ctx, t, h, ctx');
      Across(mem, ctx, t, root);
      ZipOne(mem, inside, near, root);
      Paint(inner, Black, inside, near);
      PaintParent(tmp, Red, inside, near.(c := Black));
      ZipOne(mem, inside.(c := Red), near.(c := Black), root);
      Rotate(tmp, Other(side), over, sib);
      Across(mem, ctx', t, root);
    }

    method Repay(parent: Node, tmp: Node, outer: Node, side: Side, ghost ctx: Ctx, ghost t: Tree, ghost h: int)
      returns (ghost whole: Tree)
      requires Reflects() && At(mem, ctx, t, root) && Short(ctx, t, h) && ctx.Up? && !IsRed(t) && side == ctx.side
      requires ctx.sib.Bin? && ctx.sib.c.Black? && parent == ctx.n && tmp == ctx.sib.n
      requires IsRed(Near(ctx.sib, Other(side))) && outer == Near(ctx.sib, Other(side)).n
      modifies this, mem.Keys
      ensures Reflects() && mem.Keys == old(mem.Keys) && At(mem, Top, whole, root)
      ensures RedBlack(whole) && (exists h' :: Short(Top, whole, h')) && InOrder(whole) == InOrder(Plug(ctx, t))
    {
      ghost var near, far := Near(ctx.sib, side), Near(ctx.sib, Other(side));
      ghost var over := Up(Other(side), ctx.n, Black, t, ctx.up);
      ghost var outside := Up(Other(side), ctx.sib.n, ctx.c, near, over);
      ghost var sib := Join(side, near, ctx.sib.n, ctx.c, far.(c := Black));
      Kin(mem, ctx, t, root);
      PaintSibling(tmp, parent.color, ctx, t);
      PaintParent(parent, Black, ctx.(sib := ctx.sib.(c := ctx.c)), t);
      ghost var ctx1 := ctx.(sib := ctx.sib.(c := ctx.c), c := Black);
      Across(mem, ctx1, t, root);
      ZipOne(mem, outside, far, root);
      Paint(outer, Black, outside, far);
      ZipOne(mem, outside, far.(c := Black), root);
      Across(mem, ctx1.(sib := sib), t, root);
      ZipOne(mem, ctx1.(sib := sib), t, root);
      ghost var t' := Rotated(Join(side, t, ctx.n, Black, sib), side);
      ShortRepaid(ctx, t, h, t');
      Rotate(parent, side, ctx.up, Join(side, t, ctx.n, Black, sib));
      Zip(mem, ctx.up, t', root);
      whole := Plug(ctx.up, t');
    }

    /** A black sibling with a red child ends the loop. */
    method Settle(p: Node, sibling: Node, side: Side, ghost ctx: Ctx, ghost t: Tree, ghost h: int)
      returns (ghost whole: Tree, ghost h': int)
      requires Reflects() && At(mem, ctx, t, root) && Short(ctx, t, h) && ctx.Up? && !IsRed(t)
      requires ctx.sib.Bin? && ctx.sib.c.Black? && (IsRed(ctx.sib.l) || IsRed(ctx.sib.r))
      requires p == ctx.n && sibling == ctx.sib.n && side == ctx.side
      modifies this, mem.Keys
      ensures Reflects() && mem.Keys == old(mem.Keys) && At(mem, Top, whole, root) && Short(Top, whole, h')
      ensures root == Root(whole) && InOrder(whole) == InOrder(Plug(ctx, t))
    {
      var tmp := sibling;
      ghost var ctx1 := ctx;
      Kin(mem, ctx, t, root);
      Nephews(mem, ctx, t, root);
      var outer := Child(tmp, Other(side));
      if outer == null || outer.color.Black? {
        ctx1 := TurnSibling(tmp, Child(tmp, side), side, ctx, t, h);
        Kin(mem, ctx1, t, root);
        tmp := Child(p, Other(side));
      }
      whole := Repay(p, tmp, Child(tmp, Other(side)), side, ctx1, t, h);
      h' :| Short(Top, whole, h');
    }

    /** The rest of a round, below a black sibling; `done` is the break. */
    method RemoveStepBlack(e: Node?, p: Node, sibling: Node, side: Side, ghost ctx: Ctx, ghost t: Tree, ghost h: int)
      returns (elm: Node?, parent: Node?, done: bool, ghost ctx': Ctx, ghost t': Tree, ghost h': int)
      requires Reflects() && At(mem, ctx, t, root) && Short(ctx, t, h) && ctx.Up? && !IsRed(t)
      requires ctx.sib.Bin? && ctx.sib.c.Black?
      requires e == Root(t) && p == ctx.n && sibling == ctx.sib.n && side == ctx.side
      modifies this, mem.Keys
      ensures Reflects() && mem.Keys == old(mem.Keys) && At(mem, ctx', t', root) && Short(ctx', t', h')
      ensures elm == Root(t') && InOrder(Plug(ctx', t')) == InOrder(Plug(ctx, t))
      ensures if done then ctx'.Top?
              else parent == Above(ctx') && Depth(ctx') < Depth(ctx) && t'.Bin? && t'.c == ctx.c
    {
      var tmp := sibling;
      Kin(mem, ctx, t, root);
      Nephews(mem, ctx, t, root);
      if (tmp.left == null || tmp.left.color.Black?) && (tmp.right == null || tmp.right.color.Black?) {
        t' := LendSibling(tmp, ctx, t, h);
        ctx', h' := ctx.up, h + Ink(ctx.c);
        Kin(mem, ctx', t', root);
        elm, done := p, false;
        parent := elm.parent;
      } else {
        t', h' := Settle(p, tmp, side, ctx, t, h);
        ctx' := Top;
        elm, parent, done := root, p, true;
      }
    }

    /** One round of RB_REMOVE_COLOR.  The two mirror-image branches are written once, for the side on
        which the short tree hangs. */
    method RemoveStep(e: Node?, p: Node, ghost ctx: Ctx, ghost t: Tree, ghost h: int)
      returns (elm: Node?, parent: Node?, done: bool, ghost ctx': Ctx, ghost t': Tree, ghost h': int)
      requires Reflects() && At(mem, ctx, t, root) && Short(ctx, t, h) && ctx.Up? && !IsRed(t)
      requires e == Root(t) && p == ctx.n
      modifies this, mem.Keys
      ensures Reflects() && mem.Keys == old(mem.Keys) && At(mem, ctx', t', root) && Short(ctx', t', h')
      ensures elm == Root(t') && InOrder(Plug(ctx', t')) == InOrder(Plug(ctx, t))
      ensures if done then ctx'.Top? else parent == Above(ctx') && (Depth(ctx') < Depth(ctx) || IsRed(t'))
    {
      ShortSibling(ctx, t, h);
      Kin(mem, ctx, t, root);
      var side := if p.left == e then Left else Right;
      var tmp := Child(p, Other(side));
      ghost var ctx1 := ctx;
      if tmp.color.Red? {
        ctx1 := LiftSibling(p, tmp, side, ctx, t, h);
        ShortSibling(ctx1, t, h);
        Kin(mem, ctx1, t, root);
        tmp := Child(p, Other(side));
      }
      elm, parent, done, ctx', t', h' := RemoveStepBlack(e, p, tmp, side, ctx1, t, h);
    }

    /** RB_REMOVE_COLOR. */
    method RemoveColor(p: Node?, e: Node?, ghost ctx0: Ctx, ghost t0: Tree, ghost h0: int)
      returns (ghost whole: Tree)
      requires Reflects() && At(mem, ctx0, t0, root) && Short(ctx0, t0, h0) && e == Root(t0) && p == Above(ctx0)
      modifies this, mem.Keys
      ensures Reflects() && mem.Keys == old(mem.Keys) && At(mem, Top, whole, root)
      ensures RedBlack(whole) && InOrder(whole) == InOrder(Plug(ctx0, t0))
    {
      var elm, parent := e, p;
      ghost var ctx, t, h := ctx0, t0, h0;
      Seen(ctx, t);
      NotTheRoot(mem, ctx, t, root);
      while (elm == null || elm.color.Black?) && elm != root
        invariant Reflects() && mem.Keys == old(mem.Keys) && At(mem, ctx, t, root) && Short(ctx, t, h)
        invariant elm == Root(t) && Sees(ctx, t) && (elm == root <==> ctx.Top?)
        invariant parent == Above(ctx) || elm == root
        invariant InOrder(Plug(ctx, t)) == InOrder(Plug(ctx0, t0))
        decreases if IsRed(t) || ctx.Top? then 0 else 1 + Depth(ctx)
      {
        var done;
        elm, parent, done, ctx, t, h := RemoveStep(elm, parent, ctx, t, h);
        Seen(ctx, t);
        NotTheRoot(mem, ctx, t, root);
        if done {
          break;
        }
      }
      ShortOver(ctx, t, h);
      whole := Plug(ctx, Blackened(t));
      if elm != null {
        Paint(elm, Black, ctx, t);
      }
      Zip(mem, ctx, Blackened(t), root);
    }

    // ---------- RB_REMOVE ----------

    /** The walk down the links of one side. */
    method Outermost(start: Node, side: Side, ghost base: Ctx, ghost t0: Tree)
      returns (elm: Node, ghost path: Ctx, ghost t: Tree)
      requires Reflects() && At(mem, base, t0, root) && t0.Bin? && t0.n == start
      ensures At(mem, Cat(path, base), t, root) && Plug(path, t) == t0 && AllOn(path, side)
      ensures t.Bin? && t.n == elm && Near(t, side).Leaf?
    {
      elm, path, t := start, Top, t0;
      Kin(mem, base, t, root);
      var next := Child(elm, side);
      while next != null
        invariant At(mem, Cat(path, base), t, root) && Plug(path, t) == t0 && AllOn(path, side)
        invariant t.Bin? && t.n == elm && next == Root(Near(t, side))
        decreases t
      {
        ghost var down := Up(side, t.n, t.c, Near(t, Other(side)), path);
        ZipOne(mem, Cat(down, base), Near(t, side), root);
        path, t := down, Near(t, side);
        Kin(mem, Cat(path, base), t, root);
        elm := next;
        next := Child(elm, side);
      }
    }

    /** The only child of `elm` takes its place. */
    method Unlink(elm: Node, child: Node?, parent: Node?, ghost ctx: Ctx, ghost t: Tree, ghost ch: Tree)
      requires Reflects() && At(mem, ctx, t, root) && OnlyChild(t, ch)
      requires elm == t.n && child == Root(ch) && parent == Above(ctx)
      modifies this, mem.Keys
      ensures Reflects() && mem.Keys == old(mem.Keys) && tree == old(tree) && At(mem, ctx, ch, root)
    {
      UnlinkAt(mem, ctx, t, root, ch, if ctx.Top? then Root(ch) else root);
      Hang(child, parent);
      Replace(parent, elm, child);
    }

    /** `elm` gets the links and the colour of `was`. */
    method CopyFields(elm: Node, was: Node)
      requires Reflects() && elm in mem && was in mem
      modifies this`mem, elm
      ensures Reflects() && mem.Keys == old(mem.Keys) && mem == old(mem)[elm := old(mem)[was]]
      ensures elm != was ==> was.left == old(was.left) && was.right == old(was.right) && was.parent == old(was.parent)
    {
      elm.left, elm.right, elm.parent, elm.color := was.left, was.right, was.parent, was.color;
      mem := mem[elm := mem[was]];
    }

    /** The writes by which `elm` takes over the fields of `was` and the links to it. */
    method TakePlace(elm: Node, was: Node, ghost p: Node?, ghost l: Node?, ghost r: Node?)
      requires Reflects() && elm in mem && was in mem && elm != was
      requires (p != null ==> p in mem) && (l != null ==> l in mem) && (r != null ==> r in mem)
      requires mem[was].parent == p && mem[was].left == l && mem[was].right == r && p != was && l != was && r != was
      modifies this, mem.Keys
      ensures Reflects() && mem.Keys == old(mem.Keys) && tree == old(tree)
      ensures mem == RelabelWrites(old(mem), was, elm, p, l, r)
      ensures root == if p == null then elm else old(root)
    {
      var left, right, parent := was.left, was.right, was.parent;
      CopyFields(elm, was);
      Replace(parent, was, elm);
      Hang(left, elm);
      Hang(right, elm);
    }

    method Relabel(elm: Node, was: Node, ghost ctx: Ctx, ghost t: Tree)
      requires Reflects() && At(mem, ctx, t, root) && t.Bin? && t.n == was
      requires elm in mem && elm !in Nodes(t) && elm !in CtxNodes(ctx)
      modifies this, mem.Keys
      ensures Reflects() && mem.Keys == old(mem.Keys) && tree == old(tree)
      ensures At(mem, ctx, Bin(t.l, elm, t.c, t.r), root)
    {
      ghost var m := mem;
      RelabelLinks(m, ctx, t, root, elm);
      Kin(m, ctx, t, root);
      TakePlace(elm, was, Above(ctx), Root(t.l), Root(t.r));
      RelabelAt(m, mem, ctx, t, old(root), elm, root);
    }

    /** RB_REMOVE of a node with two children, first half: its successor is found and unlinked. */
    method CutSuccessor(was: Node, ghost ctx: Ctx, ghost t: Tree)
      returns (elm: Node, child: Node?, parent: Node?, color: Color, ghost path: Ctx, ghost ch: Tree, ghost h: int)
      requires Reflects() && At(mem, ctx, t, root) && t.Bin? && t.l.Bin? && t.r.Bin? && t.n == was
      requires RedBlack(Plug(ctx, t)) && Sorted(InOrder(Plug(ctx, t)))
      modifies this, mem.Keys
      ensures Reflects() && mem.Keys == old(mem.Keys) && tree == old(tree)
      ensures At(mem, Cat(path, RightOf(ctx, t, t.n)), ch, root)
      ensures child == Root(ch) && parent == Above(Cat(path, RightOf(ctx, t, t.n)))
      ensures elm in mem && elm !in CtxNodes(Cat(path, RightOf(ctx, t, t.n))) + Nodes(ch) && was !in CtxNodes(path)
      ensures Spliced(ctx, t, path, elm, ch, color, h)
    {
      ghost var base := RightOf(ctx, t, t.n);
      Kin(mem, ctx, t, root);
      ZipOne(mem, base, t.r, root);
      ghost var sub;
      elm, path, sub := Outermost(was.right, Left, base, t.r);
      Kin(mem, Cat(path, base), sub, root);
      child, parent, color := elm.right, elm.parent, elm.color;
      ch := sub.r;
      ZipCat(mem, path, base, sub, root);
      h := SplicedOut(ctx, t, path, sub);
      assert elm in Nodes(sub) && elm !in CtxNodes(Cat(path, base)) && elm !in Nodes(ch);
      assert was !in CtxNodes(path) by { CatApart(path, base); }
      Unlink(elm, child, parent, Cat(path, base), sub, ch);
    }

    /** The second half: the successor moves into the place of the node.  `p` is above the place that the
        successor left, which is the node itself if the successor was its child. */
    method MoveUp(elm: Node, was: Node, p: Node?, ghost ctx: Ctx, ghost t: Tree, ghost path: Ctx, ghost ch: Tree)
      returns (parent: Node?)
      requires Reflects() && t.Bin? && t.n == was && At(mem, Cat(path, RightOf(ctx, t, t.n)), ch, root)
      requires elm in mem && elm !in CtxNodes(Cat(path, RightOf(ctx, t, t.n))) + Nodes(ch) && was !in CtxNodes(path)
      requires p == Above(Cat(path, RightOf(ctx, t, t.n)))
      modifies this, mem.Keys
      ensures Reflects() && mem.Keys == old(mem.Keys) && tree == old(tree)
      ensures At(mem, Cat(path, RightOf(ctx, t, elm)), ch, root)
      ensures parent == Above(Cat(path, RightOf(ctx, t, elm)))
    {
      parent := if p == was then elm else p;
      AboveCat(path, RightOf(ctx, t, t.n), elm);
      ghost var spliced := Bin(t.l, was, t.c, Plug(path, ch));
      FromAbove(mem, ctx, t, path, ch, was, root);
      Relabel(elm, was, ctx, spliced);
      FromAbove(mem, ctx, t, path, ch, elm, root);
    }

    /** RB_REMOVE of a node with two children: its successor is unlinked and moves into its place. */
    method Splice(was: Node, ghost ctx: Ctx, ghost t: Tree)
      returns (child: Node?, parent: Node?, color: Color, ghost ctx': Ctx, ghost ch: Tree, ghost h: int)
      requires Reflects() && At(mem, ctx, t, root) && t.Bin? && t.l.Bin? && t.r.Bin? && t.n == was
      requires Plug(ctx, t) == tree && RedBlack(tree) && Sorted(InOrder(tree))
      modifies this, mem.Keys
      ensures Reflects() && mem.Keys == old(mem.Keys) && tree == old(tree)
      ensures At(mem, ctx', ch, root) && child == Root(ch) && parent == Above(ctx') && Excised(ctx', ch, color, h)
      ensures var whole := Plug(ctx', ch);
              InOrder(whole) == Without(InOrder(tree), was) && Sorted(InOrder(whole)) && was !in InOrder(whole)
    {
      var elm;
      ghost var path;
      elm, child, parent, color, path, ch, h := CutSuccessor(was, ctx, t);
      parent := MoveUp(elm, was, parent, ctx, t, path, ch);
      ctx' := Cat(path, RightOf(ctx, t, elm));
    }

    /** RB_REMOVE up to its label `color`: `elm` is out of the tree, and `child` hangs from `parent`
        in the place where a node of colour `color` went missing. */
    method Detach(elm: Node, ghost ctx: Ctx, ghost t: Tree)
      returns (child: Node?, parent: Node?, color: Color, ghost ctx': Ctx, ghost ch: Tree, ghost h: int)
      requires Reflects() && At(mem, ctx, t, root) && t.Bin? && t.n == elm
      requires Plug(ctx, t) == tree && RedBlack(tree) && Sorted(InOrder(tree))
      modifies this, mem.Keys
      ensures Reflects() && mem.Keys == old(mem.Keys) && tree == old(tree)
      ensures At(mem, ctx', ch, root) && child == Root(ch) && parent == Above(ctx') && Excised(ctx', ch, color, h)
      ensures var whole := Plug(ctx', ch);
              InOrder(whole) == Without(InOrder(tree), elm) && Sorted(InOrder(whole)) && elm !in InOrder(whole)
    {
      Kin(mem, ctx, t, root);
      if elm.left == null {
        child := elm.right;
      } else if elm.right == null {
        child := elm.left;
      } else {
        child, parent, color, ctx', ch, h := Splice(elm, ctx, t);
        return;
      }
      parent, color := elm.parent, elm.color;
      ctx', ch := ctx, if t.l.Leaf? then t.r else t.l;
      h := ExcisedFrom(ctx, t, ch);
      OrderExcised(ctx, t, ch);
      Unlink(elm, child, parent, ctx, t, ch);
    }

    /** RB_REMOVE from its label `color` on; `elm` left the tree `was`. */
    method Finish(parent: Node?, child: Node?, color: Color,
                  ghost ctx: Ctx, ghost ch: Tree, ghost h: int, ghost elm: Node, ghost was: Tree)
      requires Reflects() && At(mem, ctx, ch, root) && Excised(ctx, ch, color, h) && mem.Keys == Nodes(was)
      requires child == Root(ch) && parent == Above(ctx) && elm in InOrder(was)
      requires var whole := Plug(ctx, ch);
               InOrder(whole) == Without(InOrder(was), elm) && Sorted(InOrder(whole)) && elm !in InOrder(whole)
      modifies this, mem.Keys
      ensures Valid() && Order() == Without(InOrder(was), elm) && mem.Keys == Nodes(was) - {elm}
    {
      ghost var whole := Plug(ctx, ch);
      ExcisedOver(ctx, ch, color, h);
      Zip(mem, ctx, ch, root);
      if color.Black? {
        whole := RemoveColor(parent, child, ctx, ch, h);
      }
      LetGo(whole, elm, was);
    }

    /** The removed node is no longer part of the memory, and the rest is the tree. */
    ghost method LetGo(whole: Tree, elm: Node, was: Tree)
      requires Reflects() && At(mem, Top, whole, root) && mem.Keys == Nodes(was) && elm in InOrder(was)
      requires RedBlack(whole) && Sorted(InOrder(whole))
      requires InOrder(whole) == Without(InOrder(was), elm) && elm !in InOrder(whole)
      modifies this`tree, this`mem
      ensures Valid() && tree == whole && mem.Keys == Nodes(was) - {elm}
    {
      NodeInOrder(whole, elm);
      Forget(mem, whole, root, elm);
      WithoutNodes(was, whole, elm);
      tree, mem := whole, mem - {elm};
    }

    /** RB_REMOVE. */
    method Remove(elm: Node) returns (was: Node)
      requires Valid() && elm in mem
      modifies this, mem.Keys
      ensures Valid() && was == elm
      ensures elm in old(Order()) && Order() == Without(old(Order()), elm) && mem.Keys == old(mem.Keys) - {elm}
    {
      was := elm;
      ghost var ctx, t := FindNode(tree, elm);
      Zip(mem, ctx, t, root);
      NodeInOrder(tree, elm);
      var child, parent, color;
      ghost var ch, h;
      child, parent, color, ctx, ch, h := Detach(elm, ctx, t);
      Finish(parent, child, color, ctx, ch, h, elm, tree);
    }

    // ---------- RB_MINMAX, RB_NEXT and the draining loop ----------

    /** RB_MINMAX: the first node for a negative `val`, the last one otherwise. */
    method MinMax(val: int) returns (parent: Node?)
      requires Valid()
      ensures val < 0 ==> parent == First(Order())
      ensures val >= 0 ==> parent == Last(Order())
    {
      var tmp := root;
      parent := null;
      ghost var ctx, t := Top, tree;
      while tmp != null
        invariant At(mem, ctx, t, root) && Plug(ctx, t) == tree && tmp == Root(t) && parent == Above(ctx)
        invariant val < 0 ==> Before(ctx) == [] && parent == First(After(ctx))
        invariant val >= 0 ==> After(ctx) == [] && parent == Last(Before(ctx))
        decreases t
      {
        Kin(mem, ctx, t, root);
        parent := tmp;
        ghost var side := if val < 0 then Left else Right;
        if val < 0 {
          tmp := tmp.left;
        } else {
          tmp := tmp.right;
        }
        ZipOne(mem, Up(side, t.n, t.c, Near(t, Other(side)), ctx), Near(t, side), root);
        ctx, t := Up(side, t.n, t.c, Near(t, Other(side)), ctx), Near(t, side);
      }
      PlugInOrder(ctx, t);
    }

    /** The branch of RB_NEXT and RB_PREV that climbs: the lowest node on `side` of the hole of `ctx`. */
    method Climb(start: Node, side: Side, ghost ctx0: Ctx, ghost t0: Tree) returns (res: Node?)
      requires Reflects() && At(mem, ctx0, t0, root) && t0.Bin? && t0.n == start
      ensures res == Edge(ctx0, side)
    {
      var elm := start;
      ghost var ctx, t := ctx0, t0;
      Seen(ctx, t);
      Kin(mem, ctx, t, root);
      if elm.parent != null && elm == Child(elm.parent, Other(side)) {
        return elm.parent;
      }
      while elm.parent != null && elm == Child(elm.parent, side)
        invariant At(mem, ctx, t, root) && t.Bin? && t.n == elm && elm.parent == Above(ctx)
        invariant ctx.Up? ==> (elm == ctx.n.left <==> ctx.side.Left?) && (elm == ctx.n.right <==> ctx.side.Right?)
        invariant Edge(ctx, side) == Edge(ctx0, side)
        decreases ctx
      {
        ZipOne(mem, ctx, t, root);
        ctx, t := ctx.up, Join(ctx.side, t, ctx.n, ctx.c, ctx.sib);
        elm := elm.parent;
        Kin(mem, ctx, t, root);
        if ctx.Up? {
          BothSides(mem, ctx, t, root);
        }
      }
      return elm.parent;
    }

    /** RB_NEXT for the right side, RB_PREV for the left: the two are mirror images, written once. */
    method Neighbour(elm: Node, side: Side) returns (res: Node?)
      requires Valid() && elm in mem
      ensures elm in Order() && IsNeighbour(Order(), elm, side, res)
    {
      ghost var ctx, t := FindNode(tree, elm);
      Zip(mem, ctx, t, root);
      Kin(mem, ctx, t, root);
      var child := Child(elm, side);
      if child != null {
        ghost var base := Up(side, t.n, t.c, Near(t, Other(side)), ctx);
        ZipOne(mem, base, Near(t, side), root);
        ghost var path, sub;
        res, path, sub := Outermost(child, Other(side), base, Near(t, side));
        EndOfPath(path, sub, side);
      } else {
        res := Climb(elm, side, ctx, t);
      }
      NodeInOrder(tree, elm);
      NeighbourInOrder(ctx, t, side, res);
    }

    /** RB_NEXT. */
    method Next(elm: Node) returns (res: Node?)
      requires Valid() && elm in mem
      ensures elm in Order() && IsNext(Order(), elm, res)
    {
      res := Neighbour(elm, Right);
    }

    /** RB_PREV. */
    method Prev(elm: Node) returns (res: Node?)
      requires Valid() && elm in mem
      ensures elm in Order() && IsPrev(Order(), elm, res)
    {
      res := Neighbour(elm, Left);
    }

    /** One round of RB_FOREACH_SAFE with RB_REMOVE in its body: the successor is saved before. */
    method DrainFirst(x: Node) returns (was: Node, y: Node?)
      requires Valid() && x == First(Order())
      modifies this, mem.Keys
      ensures Valid() && mem.Keys <= old(mem.Keys) && was == x && y == First(Order())
      ensures old(Order()) == [was] + Order()
    {
      ghost var rest := Order();
      assert x in mem by { NodeInOrder(tree, x); }
      y := Next(x);
      HeadOut(rest, x, y);
      was := Remove(x);
    }

    /** RB_FOREACH_SAFE with RB_REMOVE in its body: every node is visited once, in order. */
    method Drain() returns (visited: seq<Node>)
      requires Valid()
      modifies this, mem.Keys
      ensures Valid() && visited == old(Order()) && Order() == [] && root == null
    {
      visited := [];
      var x := MinMax(-1);
      while x != null
        invariant Valid() && mem.Keys <= old(mem.Keys)
        invariant visited + Order() == old(Order()) && x == First(Order())
        decreases |Order()|
      {
        var was;
        was, x := DrainFirst(x);
        Shift(visited, was, Order());
        visited := visited + [was];
      }
      EmptyRoot();
    }

    lemma {:induction false} EmptyRoot()
      requires Valid() && Order() == []
      ensures root == null
    {
      assert tree == Leaf;
      Kin(mem, Top, tree, root);
    }
  }

  /** Where the right subtree of `t` hangs, with the node `e` as the root of `t`. */
  ghost function RightOf(ctx: Ctx, t: Tree, e: Node): Ctx
    requires t.Bin?
  {
    Up(Right, e, t.c, t.l, ctx)
  }

  /** With `elm`, which had the colour `c` and the only child `ch`, gone from the end of the path and in
      the place of the root of `t`, the rules hold but for a node of colour `c` that went missing, and
      the order is that of the whole without the root of `t`. */
  ghost predicate Spliced(ctx: Ctx, t: Tree, path: Ctx, elm: Node, ch: Tree, c: Color, h: int)
    requires t.Bin?
  {
    var ctx' := Cat(path, RightOf(ctx, t, elm));
    var s := InOrder(Plug(ctx', ch));
    Excised(ctx', ch, c, h) && s == Without(InOrder(Plug(ctx, t)), t.n) && Sorted(s) && t.n !in s
  }

  lemma {:induction false} SplicedOut(ctx: Ctx, t: Tree, path: Ctx, sub: Tree) returns (h: int)
    requires t.Bin? && AllOn(path, Left) && Plug(path, sub) == t.r && sub.Bin? && sub.l.Leaf?
    requires Plug(Cat(path, RightOf(ctx, t, t.n)), sub) == Plug(RightOf(ctx, t, t.n), t.r)
    requires RedBlack(Plug(ctx, t)) && Sorted(InOrder(Plug(ctx, t)))
    ensures Spliced(ctx, t, path, sub.n, sub.r, sub.c, h)
  {
    var base := RightOf(ctx, t, t.n);
    assert Plug(base, t.r) == Plug(ctx, t);
    h := ExcisedFrom(Cat(path, base), sub, sub.r);
    Rename(path, base, sub.n, sub.r, sub.c, h);
    OrderSpliced(path, base, sub.n, sub.c, sub.r);
  }

  /** The end of a path into the right subtree, and the place of the node that it starts from, whose name
      may have changed to `e`. */
  lemma {:induction false} FromAbove(m: Memory, ctx: Ctx, t: Tree, path: Ctx, ch: Tree, e: Node, root: Node?)
    requires t.Bin?
    ensures var base := RightOf(ctx, t, e);
            && (At(m, Cat(path, base), ch, root) <==> At(m, ctx, Bin(t.l, e, t.c, Plug(path, ch)), root))
            && CtxNodes(Cat(path, base)) + Nodes(ch) == CtxNodes(ctx) + Nodes(Bin(t.l, e, t.c, Plug(path, ch)))
  {
    var base := RightOf(ctx, t, e);
    ZipCat(m, path, base, ch, root);
    ZipOne(m, base, Plug(path, ch), root);
    CatNodes(path, base, ch);
  }

  ghost function First(s: seq<Node>): Node? {
    if s == [] then null else s[0]
  }

  /** `res` follows `n` in `s`, or is null when `n` is the last one. */
  ghost predicate IsNext(s: seq<Node>, n: Node, res: Node?) {
    forall k | 0 <= k < |s| && s[k] == n :: res == Nth(s, k + 1)
  }

  /** `res` precedes `n` in `s`, or is null when `n` is the first one. */
  ghost predicate IsPrev(s: seq<Node>, n: Node, res: Node?) {
    forall k | 0 <= k < |s| && s[k] == n :: res == Nth(s, k - 1)
  }

  ghost predicate IsNeighbour(s: seq<Node>, n: Node, side: Side, res: Node?) {
    if side.Right? then IsNext(s, n, res) else IsPrev(s, n, res)
  }

  ghost function Nth(s: seq<Node>, i: int): Node? {
    if 0 <= i < |s| then s[i] else null
  }

  /** The first node of a sequence that lies to the right, the last one of a sequence to the left. */
  ghost function End(s: seq<Node>, side: Side): Node? {
    if side.Right? then First(s) else Last(s)
  }

  /** The node next to the hole of `ctx` on a side. */
  ghost function Edge(ctx: Ctx, side: Side): Node? {
    if side.Right? then First(After(ctx)) else Last(Before(ctx))
  }

  ghost function Last(s: seq<Node>): Node? {
    if s == [] then null else s[|s| - 1]
  }

  lemma {:induction false} Shift(s: seq<Node>, n: Node, rest: seq<Node>)
    ensures s + ([n] + rest) == s + [n] + rest
  {}

  /** Taking out the first node leaves the rest, which starts with its successor. */
  lemma {:induction false} HeadOut(s: seq<Node>, x: Node, y: Node?)
    requires s != [] && s[0] == x && IsNext(s, x, y)
    ensures Without(s, x) == s[1..] && y == First(s[1..]) && s == [x] + s[1..]
  {
    assert y == Nth(s, 0 + 1);
    assert if |s| == 1 then s[1..] == [] else s[1..] != [] && s[1..][0] == s[1];
  }

  lemma {:induction false} BothSides(m: Memory, ctx: Ctx, t: Tree, root: Node?)
    requires At(m, ctx, t, root) && t.Bin? && ctx.Up?
    ensures ctx.n in m && (m[ctx.n].right == t.n <==> ctx.side.Right?)
  {
    Kin(m, ctx, t, root);
    assert t.n in Nodes(t) && (ctx.sib.Bin? ==> ctx.sib.n in Nodes(ctx.sib));
  }

  /** Walking down the other side from a tree leads to its end. */
  lemma {:induction false} EndOfPath(path: Ctx, t: Tree, side: Side)
    requires AllOn(path, Other(side)) && t.Bin? && Near(t, Other(side)).Leaf?
    ensures InOrder(Plug(path, t)) != [] && End(InOrder(Plug(path, t)), side) == t.n
  {
    PlugInOrder(path, t);
    CatTop(path);
    if side.Right? {
      BeforeCat(path, Top);
    } else {
      AfterRight(path, Top);
    }
  }

  lemma {:induction false} AfterRight(path: Ctx, base: Ctx)
    requires AllOn(path, Right)
    ensures After(Cat(path, base)) == After(base)
    decreases path
  {
    if path.Up? {
      AfterRight(path.up, base);
    }
  }

  lemma {:induction false} CatTop(path: Ctx)
    ensures Cat(path, Top) == path
    decreases path
  {
    if path.Up? {
      CatTop(path.up);
    }
  }

  /** The whole sequence, seen from a node. */
  lemma {:induction false} FocusOrder(ctx: Ctx, t: Tree)
    requires t.Bin?
    ensures InOrder(Plug(ctx, t)) == (Before(ctx) + InOrder(t.l)) + [t.n] + (InOrder(t.r) + After(ctx))
  {
    PlugInOrder(ctx, t);
    Regroup(Before(ctx), InOrder(t.l), [t.n], InOrder(t.r), After(ctx));
    Regroup([], Before(ctx) + InOrder(t.l), [t.n], InOrder(t.r), After(ctx));
  }

  lemma {:induction false} NextTo(b: seq<Node>, n: Node, a: seq<Node>)
    requires Sorted(b + [n] + a)
    ensures IsNext(b + [n] + a, n, First(a)) && IsPrev(b + [n] + a, n, Last(b))
  {
    var s := b + [n] + a;
    assert s[|b|] == n;
    assert a != [] ==> s[|b| + 1] == a[0];
    assert b != [] ==> s[|b| - 1] == b[|b| - 1];
  }

  /** The neighbour of a node is the end of its subtree on that side, or what lies next to it above. */
  lemma {:induction false} NeighbourInOrder(ctx: Ctx, t: Tree, side: Side, res: Node?)
    requires t.Bin? && Sorted(InOrder(Plug(ctx, t)))
    requires res == if Near(t, side).Bin? then End(InOrder(Near(t, side)), side) else Edge(ctx, side)
    ensures IsNeighbour(InOrder(Plug(ctx, t)), t.n, side, res)
  {
    FocusOrder(ctx, t);
    NextTo(Before(ctx) + InOrder(t.l), t.n, InOrder(t.r) + After(ctx));
    assert InOrder(Near(t, side)) != [] <==> Near(t, side).Bin?;
  }

  lemma {:induction false} CatNodes(path: Ctx, base: Ctx, t: Tree)
    ensures CtxNodes(Cat(path, base)) + Nodes(t) == CtxNodes(base) + Nodes(Plug(path, t))
    decreases path
  {
    if path.Up? {
      CatNodes(path.up, base, Join(path.side, t, path.n, path.c, path.sib));
    }
  }

  lemma {:induction false} CatApart(path: Ctx, base: Ctx)
    requires CtxApart(Cat(path, base)) && base.Up?
    ensures base.n !in CtxNodes(path) && base.n in CtxNodes(Cat(path, base))
    decreases path
  {
    if path.Up? {
      CatApart(path.up, base);
    }
  }

  lemma {:induction false} AboveCat(path: Ctx, base: Ctx, e: Node)
    requires base.Up? && base.n !in CtxNodes(path)
    ensures Above(Cat(path, base.(n := e))) ==
            if Above(Cat(path, base)) == base.n then e else Above(Cat(path, base))
  {}

  lemma {:induction false} WithoutNodes(t: Tree, t': Tree, n: Node)
    requires InOrder(t') == Without(InOrder(t), n) && n in InOrder(t) && n !in InOrder(t')
    ensures Nodes(t') == Nodes(t) - {n}
  {
    forall x | x in Nodes(t') + Nodes(t)
      ensures x in Nodes(t') <==> x in Nodes(t) - {n}
    {
      NodeInOrder(t, x);
      NodeInOrder(t', x);
      WithoutIn(InOrder(t), n, x);
    }
  }

  lemma {:induction false} WithoutIn(s: seq<Node>, n: Node, x: Node)
    ensures x in s && x != n ==> x in Without(s, n)
    ensures x in Without(s, n) ==> x in s
  {
    if s != [] && s[0] != n {
      WithoutIn(s[1..], n, x);
    }
  }

  /** Past an empty place, the first node after it is the least one above the key. */
  lemma {:induction false} FirstAfter(ctx: Ctx, key: int, s: seq<Node>)
    requires Brackets(ctx, key) && s == Before(ctx) + After(ctx) && Sorted(s)
    ensures After(ctx) == [] ==> forall n | n in s :: n.key < key
    ensures After(ctx) != [] ==>
              var res := After(ctx)[0];
              res in s && res.key >= key && forall n | n in s && n.key >= key :: res.key <= n.key
  {
    if After(ctx) != [] {
      assert s[|Before(ctx)|] == After(ctx)[0];
    }
  }

  /** The new in-order sequence, when `elm` went into the hole of `ctx`. */
  lemma {:induction false} NewOrder(ctx: Ctx, elm: Node, whole: Tree, was: Tree)
    requires Brackets(ctx, elm.key) && was == Plug(ctx, Leaf) && Sorted(InOrder(was))
    requires InOrder(whole) == InOrder(Plug(ctx, Bin(Leaf, elm, Red, Leaf)))
    ensures InOrder(whole) == Inserted(InOrder(was), elm) && Sorted(InOrder(whole))
    ensures forall n | n in InOrder(was) :: n.key != elm.key
    ensures Nodes(whole) == Nodes(was) + {elm}
  {
    var b, a := Before(ctx), After(ctx);
    PlugInOrder(ctx, Leaf);
    PlugInOrder(ctx, Bin(Leaf, elm, Red, Leaf));
    assert InOrder(Leaf) == [] && InOrder(Bin(Leaf, elm, Red, Leaf)) == [elm];
    assert InOrder(was) == b + a;
    assert InOrder(whole) == b + [elm] + a;
    InsertedBetween(b, a, elm);
    SortedInserted(b, a, elm);
    forall n: Node | n in b + a
      ensures n.key != elm.key
    {
      assert n in b || n in a;
    }
    NewNodes(whole, was, b, a, elm);
  }

  lemma {:induction false} NewNodes(whole: Tree, was: Tree, b: seq<Node>, a: seq<Node>, e: Node)
    requires InOrder(was) == b + a && InOrder(whole) == b + [e] + a
    ensures Nodes(whole) == Nodes(was) + {e}
  {
    forall n | n in Nodes(whole)
      ensures n in Nodes(was) + {e}
    {
      NodeInOrder(whole, n);
      NodeInOrder(was, n);
      InSplit(b, [e], a, n);
    }
    forall n | n in Nodes(was) + {e}
      ensures n in Nodes(whole)
    {
      NodeInOrder(whole, n);
      NodeInOrder(was, n);
      InSplit(b, [e], a, n);
    }
  }

  lemma {:induction false} InSplit(b: seq<Node>, m: seq<Node>, a: seq<Node>, n: Node)
    ensures n in b + m + a <==> n in b || n in m || n in a
    ensures n in b + a <==> n in b || n in a
  {}

  lemma {:induction false} SortedInserted(b: seq<Node>, a: seq<Node>, e: Node)
    requires Sorted(b + a)
    requires forall i | 0 <= i < |b| :: b[i].key < e.key
    requires forall i | 0 <= i < |a| :: e.key < a[i].key
    ensures Sorted(b + [e] + a)
  {
    var s, s' := b + a, b + [e] + a;
    forall i, j | 0 <= i < j < |s'|
      ensures s'[i].key < s'[j].key
    {
      if i != |b| && j != |b| {
        var i', j' := if i < |b| then i else i - 1, if j < |b| then j else j - 1;
        assert s[i'] == s'[i] && s[j'] == s'[j];
      }
    }
  }
}
