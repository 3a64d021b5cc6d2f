/** The intrusive circular lists of queue_t.h. */
module QueueLinks {
  class Node {
    var next: Node
    var prev: Node

    /** QUEUE_INIT. */
    constructor ()
      ensures Ring(this, [])
    {
      next := this;
      prev := this;
      new;
      assert LinkOk(this, [], -1);
    }
  }

  /** The nodes of the ring, from the head around to the head. */
  ghost function At(h: Node, s: seq<Node>, i: int): Node {
    if 0 <= i < |s| then s[i] else h
  }

  ghost predicate LinkOk(h: Node, s: seq<Node>, i: int)
    reads h, s
  {
    At(h, s, i).next == At(h, s, i + 1) && At(h, s, i + 1).prev == At(h, s, i)
  }

  /** The list headed by `h` holds the nodes `s`, in order. */
  ghost predicate Ring(h: Node, s: seq<Node>)
    reads h, s
  {
    && h !in s && (forall i, j | 0 <= i < j < |s| :: s[i] != s[j])
    && forall i {:trigger LinkOk(h, s, i)} :: -1 <= i < |s| ==> LinkOk(h, s, i)
  }

  /** QUEUE_EMPTY. */
  predicate Empty(h: Node)
    reads h
  {
    h == h.next
  }

  lemma {:induction false} EmptyMeansNone(h: Node, s: seq<Node>)
    requires Ring(h, s)
    ensures Empty(h) <==> s == []
  {
    assert LinkOk(h, s, -1);
  }

  /** QUEUE_INSERT_TAIL. */
  method InsertTail(h: Node, q: Node, ghost s: seq<Node>)
    requires Ring(h, s) && q != h && q !in s
    modifies h, s, q
    ensures Ring(h, s + [q])
  {
    assert LinkOk(h, s, |s| - 1);
    q.next := h;
    q.prev := h.prev;
    q.prev.next := q;
    h.prev := q;
    ghost var s' := s + [q];
    forall i | -1 <= i < |s'|
      ensures LinkOk(h, s', i)
    {
      assert i < |s| ==> old(LinkOk(h, s, i));
    }
  }

  /** QUEUE_REMOVE of the node at position k. */
  method Remove(q: Node, ghost h: Node, ghost s: seq<Node>, ghost k: int)
    requires Ring(h, s) && 0 <= k < |s| && s[k] == q
    modifies h, s
    ensures Ring(h, s[..k] + s[k + 1..])
  {
    assert LinkOk(h, s, k - 1) && LinkOk(h, s, k);
    q.prev.next := q.next;
    q.next.prev := q.prev;
    ghost var s' := s[..k] + s[k + 1..];
    forall i | -1 <= i < |s'|
      ensures LinkOk(h, s', i)
    {
      assert old(LinkOk(h, s, i)) && old(LinkOk(h, s, i + 1));
    }
  }

  /** QUEUE_MOVE: `n` takes over the whole list and leaves `h` empty. */
  method Move(h: Node, n: Node, ghost s: seq<Node>)
    requires Ring(h, s) && n != h && n !in s
    modifies h, s, n
    ensures Ring(n, s) && Ring(h, [])
  {
    EmptyMeansNone(h, s);
    assert LinkOk(h, s, -1) && LinkOk(h, s, |s| - 1);
    if Empty(h) {
      n.next := n;
      n.prev := n;
      assert LinkOk(n, [], -1) && LinkOk(h, [], -1);
    } else {
      var q := h.next;
      Split(h, q, n, s, 0);
    }
  }

  /** QUEUE_SPLIT: `n` takes over the list from `q`, at position k, on. */
  method Split(h: Node, q: Node, n: Node, ghost s: seq<Node>, ghost k: int)
    requires Ring(h, s) && n != h && n !in s && 0 <= k < |s| && s[k] == q
    modifies h, s, n
    ensures Ring(n, s[k..]) && Ring(h, s[..k])
  {
    assert LinkOk(h, s, k - 1) && LinkOk(h, s, |s| - 1);
    n.prev := h.prev;
    n.prev.next := n;
    n.next := q;
    h.prev := q.prev;
    h.prev.next := h;
    q.prev := n;
    ghost var s1, s2 := s[k..], s[..k];
    forall i | -1 <= i < |s1|
      ensures LinkOk(n, s1, i)
    {
      assert 0 <= i < |s1| - 1 ==> old(LinkOk(h, s, k + i));
    }
    forall i | -1 <= i < |s2|
      ensures LinkOk(h, s2, i)
    {
      assert i < k - 1 ==> old(LinkOk(h, s, i));
    }
  }
}
