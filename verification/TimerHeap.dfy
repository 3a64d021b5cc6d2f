/** The operations of heap_t.h, ordered by timerLessThan of eventTimer_t.h. */
module TimerHeap {
  import opened HeapShape

  class Heap {
    var min: Node?
    var nelts: nat
    ghost var mem: Memory
    ghost var nodes: seq<Node>

    ghost predicate Reflects()
      reads this`mem, mem.Keys
    {
      forall n | n in mem ::
        && mem[n].left == n.left && mem[n].right == n.right && mem[n].parent == n.parent
        && mem[n].key == Key(n.timeout, n.id)
    }

    ghost predicate Shaped()
      reads this, mem.Keys
    {
      Reflects() && Laid(mem, nodes, min) && mem.Keys == Elems(nodes) && nelts == |nodes|
    }

    ghost function Keys(): seq<Key>
      requires Shaped()
      reads this, mem.Keys
    {
      LaidKnown(mem, nodes, min);
      KeysOf(mem, nodes)
    }

    ghost predicate Valid()
      reads this, mem.Keys
    {
      Shaped() && Ordered(Keys())
    }

    /** timerLessThan. */
    predicate LessThan(a: Node, b: Node)
      reads a, b
    {
      if a.timeout < b.timeout then true
      else if a.timeout > b.timeout then false
      else a.id < b.id
    }

    /** heap_init. */
    constructor ()
      ensures Valid() && mem == map[]
    {
      min, nelts, mem, nodes := null, 0, map[], [];
    }

    // ---------- One link at a time ----------

    method SetLinks(e: Node, left: Node?, right: Node?, parent: Node?)
      requires Reflects() && e in mem
      modifies e`left, e`right, e`parent, this`mem
      ensures Reflects() && mem.Keys == old(mem.Keys)
      ensures mem == old(mem)[e := Cell(left, right, parent, old(mem)[e].key)]
      ensures min == old(min) && nodes == old(nodes) && nelts == old(nelts)
    {
      e.left, e.right, e.parent := left, right, parent;
      mem := mem[e := Cell(left, right, parent, mem[e].key)];
    }

    method SetLeft(e: Node, x: Node?)
      requires Reflects() && e in mem
      modifies e`left, this`mem
      ensures Reflects() && mem.Keys == old(mem.Keys) && mem == old(mem)[e := old(mem)[e].(left := x)]
      ensures min == old(min) && nodes == old(nodes) && nelts == old(nelts)
    {
      e.left, mem := x, mem[e := mem[e].(left := x)];
    }

    method SetRight(e: Node, x: Node?)
      requires Reflects() && e in mem
      modifies e`right, this`mem
      ensures Reflects() && mem.Keys == old(mem.Keys) && mem == old(mem)[e := old(mem)[e].(right := x)]
      ensures min == old(min) && nodes == old(nodes) && nelts == old(nelts)
    {
      e.right, mem := x, mem[e := mem[e].(right := x)];
    }

    method Hang(x: Node?, p: Node?)
      requires Reflects() && (x != null ==> x in mem)
      modifies this`mem, mem.Keys`parent
      ensures Reflects() && mem.Keys == old(mem.Keys) && mem == Hung(old(mem), x, p)
      ensures min == old(min) && nodes == old(nodes) && nelts == old(nelts)
    {
      if x != null {
        x.parent, mem := p, mem[x := mem[x].(parent := p)];
      }
    }

    method HangBoth(x: Node?, y: Node?, p: Node)
      requires Reflects() && (x != null ==> x in mem) && (y != null ==> y in mem)
      modifies this`mem, mem.Keys`parent
      ensures Reflects() && mem.Keys == old(mem.Keys) && mem == Hung(Hung(old(mem), x, p), y, p)
      ensures min == old(min) && nodes == old(nodes) && nelts == old(nelts)
    {
      Hang(x, p);
      Hang(y, p);
    }

    // ---------- heap_node_swap ----------

    /** *parent and *child trade their links, and the parent hangs from the child. */
    method Trade(parent: Node, child: Node)
      requires Reflects() && parent in mem && child in mem && parent != child
      modifies this`mem, mem.Keys`left, mem.Keys`right, mem.Keys`parent
      ensures Reflects() && mem.Keys == old(mem.Keys) && mem == Traded(old(mem), parent, child)
      ensures min == old(min) && nodes == old(nodes) && nelts == old(nelts)
    {
      ghost var m := mem;
      var left, right, up := parent.left, parent.right, parent.parent;
      SetLinks(parent, child.left, child.right, child);
      SetLinks(child, left, right, up);
      assert mem == Traded(m, parent, child);
    }

    /** `x` takes the place of `y` among the children of `n`. */
    method Adopt(n: Node, y: Node, x: Node)
      requires Reflects() && n in mem
      modifies this`mem, mem.Keys`left, mem.Keys`right
      ensures Reflects() && mem.Keys == old(mem.Keys) && mem == Adopted(old(mem), n, y, x)
      ensures min == old(min) && nodes == old(nodes) && nelts == old(nelts)
    {
      if n.left == y {
        SetLeft(n, x);
      } else {
        SetRight(n, x);
      }
    }

    /** `x` takes the place of `y` below `n`, or at the top. */
    method Relink(n: Node?, y: Node, x: Node)
      requires Reflects() && (n != null ==> n in mem)
      modifies this`mem, this`min, mem.Keys`left, mem.Keys`right
      ensures Reflects() && mem.Keys == old(mem.Keys) && mem == Adopted(old(mem), n, y, x)
      ensures min == (if n == null then x else old(min)) && nodes == old(nodes) && nelts == old(nelts)
    {
      if n == null {
        min := x;
      } else {
        Adopt(n, y, x);
      }
    }

    /** The writes of heap_node_swap, between links that were read before. */
    method Rewire(parent: Node, child: Node, sibling: Node?, left: Node?, right: Node?, up: Node?)
      requires Reflects() && parent in mem && child in mem && parent != child
      requires (sibling != null ==> sibling in mem) && (left != null ==> left in mem)
      requires (right != null ==> right in mem) && (up != null ==> up in mem)
      modifies this, mem.Keys`left, mem.Keys`right, mem.Keys`parent
      ensures Reflects() && mem.Keys == old(mem.Keys) && nodes == old(nodes) && nelts == old(nelts)
      ensures mem == SwapWrites(old(mem), parent, child, sibling, left, right, up)
      ensures min == if up == null then child else old(min)
    {
      Trade(parent, child);
      Adopt(child, child, parent);
      Hang(sibling, child);
      HangBoth(left, right, parent);
      Relink(up, parent, child);
    }

    method Exchange(parent: Node, child: Node, ghost s: seq<Node>, ghost p: int, ghost c: int)
      requires Reflects() && Laid(mem, s, min)
      requires 0 <= p < |s| && 0 < c < |s| && p == Up(c) && parent == s[p] && child == s[c]
      modifies this, mem.Keys`left, mem.Keys`right, mem.Keys`parent
      ensures Reflects() && mem.Keys == old(mem.Keys) && nodes == old(nodes) && nelts == old(nelts)
      ensures Laid(mem, Exchanged(s, p, c), min) && SameKeys(old(mem), mem)
    {
      ghost var m := mem;
      Around(m, s, p, c, min);
      var sibling := if parent.left == child then parent.right else parent.left;
      Rewire(parent, child, sibling, child.left, child.right, parent.parent);
      SwapAll(m, mem, s, p, c, old(min), min);
    }

    /** heap_node_swap: the child at position c moves up to the position p of its parent. */
    method SwapNode(parent: Node, child: Node, ghost p: int, ghost c: int)
      requires Shaped() && 0 <= p < |nodes| && 0 < c < |nodes| && p == Up(c) && parent == nodes[p] && child == nodes[c]
      modifies this, mem.Keys`left, mem.Keys`right, mem.Keys`parent
      ensures Shaped() && mem.Keys == old(mem.Keys) && nodes == Exchanged(old(nodes), p, c)
      ensures SameKeys(old(mem), mem)
    {
      Exchange(parent, child, nodes, p, c);
      ExchangedElems(nodes, p, c);
      nodes := Exchanged(nodes, p, c);
    }

    // ---------- The path from the root to a position ----------

    /** The counting loop: the bits of `count`, collected in reverse. */
    method CountPath(count: nat) returns (path: nat, k: nat)
      requires count >= 1
      ensures path == PathOf(count, k) && Half(count, k) == 1
    {
      var n := count;
      path, k := 0, 0;
      while n >= 2
        invariant n >= 1 && n == Half(count, k) && path == PathOf(count, k)
        decreases n
      {
        path := path * 2 + n % 2;
        k := k + 1;
        n := n / 2;
      }
    }

    /** `at` and `right` name the place of position `pos`: a link of its parent, or the top. */
    ghost predicate Place(at: Node?, right: bool, pos: int)
      reads this
    {
      at == Nth(nodes, Up(pos)) && (pos == 0 <==> at == null) && (pos > 0 ==> (right <==> pos % 2 == 0))
    }

    /** What the place holds. */
    method Follow(at: Node?, right: bool, ghost pos: int) returns (x: Node)
      requires Reflects() && Laid(mem, nodes, min) && 0 <= pos < |nodes| && Place(at, right, pos)
      ensures x == nodes[pos]
    {
      ChildOf(pos);
      if at == null {
        x := min;
      } else {
        AroundOne(mem, nodes, Up(pos), min);
        if right {
          x := at.right;
        } else {
          x := at.left;
        }
      }
    }

    /** The two loops that lead to position `count`, counted from 1. */
    method FindPlace(count: nat) returns (at: Node?, right: bool)
      requires Reflects() && Laid(mem, nodes, min) && 1 <= count <= |nodes| + 1
      ensures Place(at, right, count - 1)
    {
      var path, k := CountPath(count);
      at, right := null, false;
      while k > 0
        invariant path == PathOf(count, k) && Half(count, k) >= 1
        invariant Place(at, right, Half(count, k) - 1)
        decreases k
      {
        HalfBelow(count, k);
        PathStep(count, k);
        at := Follow(at, right, Half(count, k) - 1);
        right := path % 2 == 1;
        path := path / 2;
        k := k - 1;
      }
    }

    /** The assignment through the place that was found. */
    method Attach(at: Node?, right: bool, x: Node?)
      requires Reflects() && (at != null ==> at in mem)
      modifies this`mem, this`min, mem.Keys`left, mem.Keys`right
      ensures Reflects() && mem.Keys == old(mem.Keys) && mem == Attached(old(mem), at, right, x)
      ensures min == (if at == null then x else old(min)) && nodes == old(nodes) && nelts == old(nelts)
    {
      if at == null {
        min := x;
      } else if right {
        SetRight(at, x);
      } else {
        SetLeft(at, x);
      }
    }

    // ---------- heap_insert ----------

    /** One round of the loop that lifts a node over its parent. */
    method RiseOnce(node: Node, parent: Node, ghost i: int)
      requires Shaped() && OrderedBelow(Keys(), i) && 0 < i < |nodes|
      requires nodes[i] == node && nodes[Up(i)] == parent && KeyLess(Keys()[i], Keys()[Up(i)])
      modifies this, mem.Keys`left, mem.Keys`right, mem.Keys`parent
      ensures Shaped() && OrderedBelow(Keys(), Up(i)) && |nodes| == old(|nodes|) && nodes[Up(i)] == node
      ensures mem.Keys == old(mem.Keys) && SameKeys(old(mem), mem)
    {
      ghost var s, m := nodes, mem;
      LaidKnown(m, s, min);
      RiseStep(KeysOf(m, s), i);
      SwapNode(parent, node, Up(i), i);
      KeysExchanged(m, mem, s, Up(i), i);
    }

    /** What the loops read at `i`. */
    ghost predicate Sees(node: Node, i: int)
      requires Shaped() && 0 <= i < |nodes|
      reads this, mem.Keys
    {
      && node == nodes[i] && node in mem && node.parent == Nth(nodes, Up(i)) && mem[node].key == Keys()[i]
      && node.left == Nth(nodes, 2 * i + 1) && node.right == Nth(nodes, 2 * i + 2)
    }

    lemma Seen(i: int)
      requires Shaped() && 0 <= i < |nodes|
      ensures Sees(nodes[i], i) && (i > 0 ==> Sees(nodes[Up(i)], Up(i)))
    {
      AroundOne(mem, nodes, i, min);
      LaidKnown(mem, nodes, min);
      if i > 0 {
        AroundOne(mem, nodes, Up(i), min);
      }
    }

    /** The test of the loop, in terms of the keys. */
    lemma Compared(node: Node, i: int)
      requires Shaped() && 0 <= i < |nodes| && Sees(node, i) && (i > 0 ==> Sees(nodes[Up(i)], Up(i)))
      ensures node.parent != null <==> i > 0
      ensures i > 0 ==> node.parent == nodes[Up(i)] && (LessThan(node, nodes[Up(i)]) <==> !Ok(Keys(), i))
    {
      ChildOf(i);
    }

    /** The closing loop of heap_insert and of heap_remove: the node at `i0` rises. */
    method Rise(node: Node, ghost i0: int)
      requires Shaped() && OrderedBelow(Keys(), i0) && 0 <= i0 < |nodes| && nodes[i0] == node
      modifies this, mem.Keys`left, mem.Keys`right, mem.Keys`parent
      ensures Valid() && mem.Keys == old(mem.Keys) && SameKeys(old(mem), mem)
    {
      ghost var i := i0;
      Seen(i);
      while node.parent != null && LessThan(node, node.parent)
        invariant Shaped() && OrderedBelow(Keys(), i) && 0 <= i < |nodes| && nodes[i] == node
        invariant mem.Keys == old(mem.Keys) && SameKeys(old(mem), mem)
        invariant Sees(node, i) && (i > 0 ==> Sees(nodes[Up(i)], Up(i)))
        decreases i
      {
        Compared(node, i);
        RiseOnce(node, node.parent, i);
        i := Up(i);
        Seen(i);
      }
      Compared(node, i);
      RiseEnd(Keys(), i);
    }

    /** heap_insert up to its closing loop. */
    method Append(newnode: Node)
      requires Valid() && newnode !in mem
      modifies this, mem.Keys`left, mem.Keys`right, newnode`left, newnode`right, newnode`parent
      ensures Shaped() && mem.Keys == old(mem.Keys) + {newnode}
      ensures SameKeys(old(mem), mem) && mem[newnode].key == Key(newnode.timeout, newnode.id)
      ensures nodes == old(nodes) + [newnode] && OrderedBelow(Keys(), |nodes| - 1)
    {
      ghost var m, s, ks := mem, nodes, Keys();
      ghost var key := Key(newnode.timeout, newnode.id);
      var at, right := FindPlace(1 + nelts);
      AppendLaid(m, s, min, newnode, key, if s == [] then newnode else min);
      LaidKnown(m, s, min);
      Hook(newnode, at, right);
      nelts, nodes := nelts + 1, s + [newnode];
      AppendedKeys(m, mem, s, newnode, key);
      OrderedAppended(ks, key);
    }

    /** The writes of heap_insert at the place that was found. */
    method Hook(newnode: Node, at: Node?, right: bool)
      requires Reflects() && newnode !in mem && (at != null ==> at in mem)
      modifies this`mem, this`min, mem.Keys`left, mem.Keys`right, newnode`left, newnode`right, newnode`parent
      ensures Reflects() && mem.Keys == old(mem.Keys) + {newnode}
      ensures mem
           == Attached(old(mem)[newnode := Cell(null, null, at, Key(newnode.timeout, newnode.id))], at, right, newnode)
      ensures SameKeys(old(mem), mem) && mem[newnode].key == Key(newnode.timeout, newnode.id)
      ensures min == (if at == null then newnode else old(min)) && nodes == old(nodes) && nelts == old(nelts)
    {
      newnode.left, newnode.right, newnode.parent := null, null, at;
      mem := mem[newnode := Cell(null, null, at, Key(newnode.timeout, newnode.id))];
      Attach(at, right, newnode);
    }

    /** heap_insert. */
    method Insert(newnode: Node)
      requires Valid() && newnode !in mem
      modifies this, mem.Keys`left, mem.Keys`right, mem.Keys`parent, newnode`left, newnode`right, newnode`parent
      ensures Valid() && mem.Keys == old(mem.Keys) + {newnode}
      ensures SameKeys(old(mem), mem) && mem[newnode].key == Key(newnode.timeout, newnode.id)
    {
      Append(newnode);
      Rise(newnode, |nodes| - 1);
    }

    // ---------- heap_remove ----------

    lemma LessByKeys(i: int, j: int)
      requires Shaped() && 0 <= i < |nodes| && 0 <= j < |nodes|
      ensures LessThan(nodes[i], nodes[j]) <==> KeyLess(Keys()[i], Keys()[j])
    {
      LaidKnown(mem, nodes, min);
    }

    /** The smallest of a node and its children. */
    method Smallest(child: Node, ghost i: int) returns (smallest: Node, ghost c: int)
      requires Shaped() && 0 <= i < |nodes| && nodes[i] == child
      ensures 0 <= c < |nodes| && smallest == nodes[c] && (c == i || (Up(c) == i && KeyLess(Keys()[c], Keys()[i])))
      ensures smallest == child <==> c == i
      ensures forall j | 0 < j < |nodes| && Up(j) == i :: !KeyLess(Keys()[j], Keys()[c])
    {
      AroundOne(mem, nodes, i, min);
      smallest, c := child, i;
      if child.left != null {
        LessByKeys(2 * i + 1, c);
        if LessThan(child.left, smallest) {
          smallest, c := child.left, 2 * i + 1;
        }
      }
      if child.right != null {
        LessByKeys(2 * i + 2, c);
        if LessThan(child.right, smallest) {
          smallest, c := child.right, 2 * i + 2;
        }
      }
      ChildrenOf(Keys(), i, c);
    }

    method SinkOnce(child: Node, smallest: Node, ghost i: int, ghost c: int)
      requires Shaped() && OrderedAround(Keys(), i) && 0 <= i < c < |nodes| && Up(c) == i
      requires nodes[i] == child && nodes[c] == smallest && KeyLess(Keys()[c], Keys()[i])
      requires forall j | 0 < j < |nodes| && Up(j) == i :: !KeyLess(Keys()[j], Keys()[c])
      modifies this, mem.Keys`left, mem.Keys`right, mem.Keys`parent
      ensures Shaped() && OrderedAround(Keys(), c) && |nodes| == old(|nodes|) && nodes[c] == child
      ensures mem.Keys == old(mem.Keys) && SameKeys(old(mem), mem)
    {
      ghost var s, m := nodes, mem;
      LaidKnown(m, s, min);
      SinkStep(KeysOf(m, s), i, c);
      SwapNode(child, smallest, i, c);
      KeysExchanged(m, mem, s, i, c);
    }

    /** The loop of heap_remove that walks down. */
    method Sink(child: Node, ghost i0: int) returns (ghost i: int)
      requires Shaped() && OrderedAround(Keys(), i0) && 0 <= i0 < |nodes| && nodes[i0] == child
      modifies this, mem.Keys`left, mem.Keys`right, mem.Keys`parent
      ensures Shaped() && 0 <= i < |nodes| && nodes[i] == child && OrderedBelow(Keys(), i)
      ensures mem.Keys == old(mem.Keys) && SameKeys(old(mem), mem)
    {
      i := i0;
      while true
        invariant Shaped() && OrderedAround(Keys(), i) && 0 <= i < |nodes| && nodes[i] == child
        invariant mem.Keys == old(mem.Keys) && SameKeys(old(mem), mem)
        decreases |nodes| - i
      {
        var smallest;
        ghost var c;
        smallest, c := Smallest(child, i);
        if smallest == child {
          SinkEnd(Keys(), i);
          return;
        }
        SinkOnce(child, smallest, i, c);
        i := c;
      }
    }

    /** The last node leaves its place. */
    method DetachLast() returns (child: Node)
      requires Shaped() && nodes != [] && nelts == |nodes|
      modifies this, mem.Keys`left, mem.Keys`right, mem.Keys`parent
      ensures Reflects() && mem.Keys == old(mem.Keys) && SameKeys(old(mem), mem)
      ensures nodes == old(nodes)[..|old(nodes)| - 1] && nelts == |nodes| && Laid(mem, nodes, min)
      ensures child == old(nodes)[|old(nodes)| - 1]
    {
      ghost var s, m := nodes, mem;
      var at, right := FindPlace(nelts);
      child := Follow(at, right, nelts - 1);
      DetachLaid(m, s, min, if |s| == 1 then null else min);
      nelts := nelts - 1;
      Attach(at, right, null);
      nodes := s[..|s| - 1];
    }

    /** `child` takes over the links of `node`. */
    method Replace(node: Node, child: Node, ghost i: int)
      requires Reflects() && Laid(mem, nodes, min) && 0 <= i < |nodes| && nodes[i] == node
      requires child in mem && child !in nodes
      modifies this, mem.Keys`left, mem.Keys`right, mem.Keys`parent
      ensures Reflects() && mem.Keys == old(mem.Keys) && SameKeys(old(mem), mem)
      ensures nodes == old(nodes)[i := child] && Laid(mem, nodes, min) && nelts == old(nelts)
    {
      ghost var m, s := mem, nodes;
      AroundOne(m, s, i, min);
      ReplaceLaid(m, s, i, child, min, if i == 0 then child else min);
      ReplaceSameKeys(m, node, child, m[node].left, m[node].right, m[node].parent);
      TakeLinks(node, child, node.left, node.right, node.parent);
      nodes := s[i := child];
    }

    method TakeLinks(node: Node, child: Node, left: Node?, right: Node?, parent: Node?)
      requires Reflects() && node in mem && child in mem && node != child
      requires left == mem[node].left && right == mem[node].right && parent == mem[node].parent
      requires (left != null ==> left in mem) && (right != null ==> right in mem) && (parent != null ==> parent in mem)
      modifies this, mem.Keys`left, mem.Keys`right, mem.Keys`parent
      ensures Reflects() && mem.Keys == old(mem.Keys) && nodes == old(nodes) && nelts == old(nelts)
      ensures mem == ReplaceWrites(old(mem), node, child, left, right, parent)
      ensures min == if parent == null then child else old(min)
    {
      SetLinks(child, left, right, parent);
      HangBoth(left, right, child);
      Relink(parent, node, child);
    }

    /** heap_remove of a node other than the last one, up to its loops. */
    method Supplant(node: Node, child: Node, ghost i: int, ghost s: seq<Node>, ghost ks: seq<Key>)
      requires Reflects() && Laid(mem, nodes, min) && nelts == |nodes| && Known(mem, s) && mem.Keys == Elems(s)
      requires s != [] && Distinct(s) && nodes == s[..|s| - 1] && ks == KeysOf(mem, s) && Ordered(ks)
      requires 0 <= i < |nodes| && nodes[i] == node && child == s[|s| - 1]
      modifies this, mem.Keys`left, mem.Keys`right, mem.Keys`parent
      ensures Shaped() && mem.Keys == old(mem.Keys) - {node} && |nodes| == old(|nodes|)
      ensures nodes[i] == child && OrderedAround(Keys(), i)
      ensures forall n | n in mem :: mem[n].key == old(mem)[n].key
    {
      ghost var m := mem;
      ReplacedElems(s, i);
      Replace(node, child, i);
      ReplacedKeys(m, mem, s, i, ks);
      Discard(node);
    }

    /** heap_remove of the last node. */
    method DropLast(node: Node, ghost s: seq<Node>)
      requires Reflects() && Laid(mem, nodes, min) && nelts == |nodes|
      requires Known(mem, nodes) && Ordered(KeysOf(mem, nodes))
      requires s != [] && Distinct(s) && mem.Keys == Elems(s) && nodes == s[..|s| - 1] && node == s[|s| - 1]
      modifies this
      ensures Valid() && mem.Keys == old(mem.Keys) - {node}
      ensures forall n | n in mem :: mem[n].key == old(mem)[n].key
    {
      DroppedElems(s);
      Discard(node);
    }

    /** heap_remove of another node: the last one takes its place and moves to where it belongs. */
    method Refill(node: Node, child: Node, ghost i: int, ghost s: seq<Node>, ghost ks: seq<Key>)
      requires Reflects() && Laid(mem, nodes, min) && nelts == |nodes| && Known(mem, s) && mem.Keys == Elems(s)
      requires s != [] && Distinct(s) && nodes == s[..|s| - 1] && ks == KeysOf(mem, s) && Ordered(ks)
      requires 0 <= i < |nodes| && nodes[i] == node && child == s[|s| - 1]
      modifies this, mem.Keys`left, mem.Keys`right, mem.Keys`parent
      ensures Valid() && mem.Keys == old(mem.Keys) - {node}
      ensures forall n | n in mem :: mem[n].key == old(mem)[n].key
    {
      Supplant(node, child, i, s, ks);
      ghost var c := Sink(child, i);
      Rise(child, c);
    }

    /** heap_remove. */
    method Remove(node: Node)
      requires Valid() && (nodes != [] ==> node in mem)
      modifies this, mem.Keys`left, mem.Keys`right, mem.Keys`parent
      ensures Valid() && mem.Keys == old(mem.Keys) - {node}
      ensures forall n | n in mem :: mem[n].key == old(mem)[n].key
    {
      if nelts == 0 {
        return;
      }
      ghost var s, ks := nodes, Keys();
      ghost var i :| 0 <= i < |s| && s[i] == node;
      LaidKnown(mem, nodes, min);
      var child := DetachLast();
      PrefixKeys(old(mem), mem, s, ks);
      if child == node {
        DropLast(node, s);
      } else {
        Refill(node, child, i, s, ks);
      }
    }

    /** heap_dequeue: the least node leaves. */
    method Dequeue()
      requires Valid()
      modifies this, mem.Keys`left, mem.Keys`right, mem.Keys`parent
      ensures Valid() && (old(mem) == map[] ==> mem == map[])
      ensures old(mem) != map[] ==>
                exists n | n in old(mem) :: mem.Keys == old(mem.Keys) - {n}
                  && forall x | x in old(mem) :: !KeyLess(old(mem)[x].key, old(mem)[n].key)
    {
      var x := Min();
      if x != null {
        Remove(x);
      }
    }

    /** The removed node is no longer part of the memory. */
    ghost method Discard(node: Node)
      requires Reflects() && Laid(mem, nodes, min) && nelts == |nodes| && node !in nodes
      requires Elems(nodes) == mem.Keys - {node}
      modifies this`mem
      ensures Shaped() && mem == old(mem) - {node} && Known(old(mem), nodes) && Keys() == KeysOf(old(mem), nodes)
    {
      Forget(mem, nodes, min, node);
      mem := mem - {node};
    }

    /** heap_min: the node with the least key, or null. */
    method Min() returns (x: Node?)
      requires Valid()
      ensures x == null <==> mem == map[]
      ensures x != null ==> x in mem && forall n | n in mem :: !KeyLess(mem[n].key, mem[x].key)
    {
      x := min;
      LaidKnown(mem, nodes, min);
      forall n | n in mem
        ensures x != null && x in mem && !KeyLess(mem[n].key, mem[x].key)
      {
        var i :| 0 <= i < |nodes| && nodes[i] == n;
        FirstIsLeast(Keys(), i);
      }
    }
  }

  lemma {:induction false} AppendedKeys(m: Memory, m': Memory, s: seq<Node>, e: Node, key: Key)
    requires Known(m, s) && e !in m && SameKeys(m, m') && e in m' && m'[e].key == key
    ensures Known(m', s + [e]) && KeysOf(m', s + [e]) == KeysOf(m, s) + [key]
  {}

  lemma {:induction false} PrefixKeys(m: Memory, m': Memory, s: seq<Node>, ks: seq<Key>)
    requires Known(m, s) && SameKeys(m, m') && s != [] && ks == KeysOf(m, s) && Ordered(ks)
    ensures Known(m', s) && KeysOf(m', s) == ks
    ensures Known(m', s[..|s| - 1]) && Ordered(KeysOf(m', s[..|s| - 1]))
  {
    OrderedPrefix(ks, |s| - 1);
    assert KeysOf(m', s[..|s| - 1]) == ks[..|s| - 1];
  }

  lemma {:induction false} ReplacedKeys(m: Memory, m': Memory, s: seq<Node>, i: int, ks: seq<Key>)
    requires Known(m, s) && SameKeys(m, m') && 0 <= i < |s| - 1 && ks == KeysOf(m, s) && Ordered(ks)
    ensures var n := |s| - 1;
            var s' := s[..n][i := s[n]];
            Known(m', s') && OrderedAround(KeysOf(m', s'), i)
  {
    var n := |s| - 1;
    OrderedPrefix(ks, n);
    OrderedReplaced(ks[..n], i, ks[n]);
    assert KeysOf(m', s[..n][i := s[n]]) == ks[..n][i := ks[n]];
  }

  /** The children of a position are at 2i+1 and 2i+2. */
  lemma {:induction false} ChildrenOf(ks: seq<Key>, i: int, c: int)
    requires 0 <= i < |ks| && 0 <= c < |ks|
    requires 2 * i + 1 < |ks| ==> !KeyLess(ks[2 * i + 1], ks[c])
    requires 2 * i + 2 < |ks| ==> !KeyLess(ks[2 * i + 2], ks[c])
    ensures forall j | 0 < j < |ks| && Up(j) == i :: !KeyLess(ks[j], ks[c])
  {
    forall j | 0 < j < |ks| && Up(j) == i
      ensures j == 2 * i + 1 || j == 2 * i + 2
    {}
  }
}
