/** The CLH queue lock of clhLock.c, for any number of threads, under sequential consistency.  A thread
    leaves its own node behind for its successor to watch, and takes over its predecessor's node. */
module ClhLock {
  import opened Options

  /** What a thread will do next. */
  datatype Pc =
    | Idle
    | Arming       // has a local node: set its bLocked
    | Exchanging   // exchange the tail
    | Spinning     // wait for the predecessor's bLocked to clear
    | Critical
    | Recycling    // pSelfNode is set to the local node: make the predecessor's node local
    | Clearing     // clear the bLocked of pSelfNode

  /** `local` and `prev` are s_pLocalNode and s_pPrevNode; `ticket` is history: the place of the
      thread's latest exchange in `arrivals`. */
  datatype Thread = Thread(pc: Pc, local: Option<nat>, prev: nat, ticket: nat)

  /** History: who has a node, a thread that is not queued or the queue at place i of `chain`. */
  datatype Owner = Mine(t: nat) | Queued(i: nat)

  datatype Node = Node(locked: bool, owner: Owner)

  /** `self` is pSelfNode.  History: `arrivals` lists the threads that exchanged the tail and `chain`
      the nodes the tail has been, `entries` lists the entries into the critical section, and `served`
      counts the releases. */
  datatype State = State(ths: seq<Thread>, nodes: seq<Node>, self: nat, tail: nat,
                         arrivals: seq<nat>, chain: seq<nat>, entries: seq<nat>, served: nat)

  function Put(s: State, t: nat, th: Thread): State
    requires t < |s.ths|
  {
    s.(ths := s.ths[t := th])
  }

  /** Writing bLocked, and reading it; no node outside `nodes` is ever used. */
  function Mark(s: State, m: nat, locked: bool): State {
    if m < |s.nodes| then s.(nodes := s.nodes[m := s.nodes[m].(locked := locked)]) else s
  }

  predicate IsLocked(s: State, m: nat) {
    m < |s.nodes| && s.nodes[m].locked
  }

  function Give(s: State, m: nat, o: Owner): State {
    if m < |s.nodes| then s.(nodes := s.nodes[m := s.nodes[m].(owner := o)]) else s
  }

  /** `go` lets an idle thread lock and the owner unlock; `junk` is what a fresh node happens to hold. */
  datatype Choice = Choice(go: bool, junk: bool)

  function Step(s: State, t: nat, c: Choice): State {
    if t >= |s.ths| then s
    else
      var th := s.ths[t];
      match th.pc
      case Idle => if c.go then Prepare(s, t, c.junk) else s
      case Arming =>
        Put(if th.local == None then s else Mark(s, th.local.value, true), t, th.(pc := Exchanging))
      case Exchanging => Exchange(s, t)
      case Spinning =>
        if IsLocked(s, th.prev) then s else Put(s, t, th.(pc := Critical)).(entries := s.entries + [t])
      case Critical =>
        if c.go && th.local.Some? then Put(s, t, th.(pc := Recycling)).(self := th.local.value) else s
      case Recycling => Put(s, t, th.(pc := Clearing, local := Some(th.prev)))
      case Clearing => Release(s, t)
  }

  /** The first lock of a thread allocates its local node. */
  function Prepare(s: State, t: nat, junk: bool): State
    requires t < |s.ths|
  {
    var th := s.ths[t].(pc := Arming);
    if th.local.Some? then Put(s, t, th)
    else Put(s, t, th.(local := Some(|s.nodes|))).(nodes := s.nodes + [Node(junk, Mine(t))])
  }

  function Exchange(s: State, t: nat): State
    requires t < |s.ths|
  {
    var th := s.ths[t];
    if th.local == None then s
    else
      var m := th.local.value;
      Give(Put(s, t, th.(pc := Spinning, prev := s.tail, ticket := |s.arrivals|)), m, Queued(|s.chain|))
        .(tail := m, arrivals := s.arrivals + [t], chain := s.chain + [m])
  }

  function Release(s: State, t: nat): State
    requires t < |s.ths|
  {
    var th := s.ths[t];
    Give(Mark(Put(s, t, th.(pc := Idle)), s.self, false), th.prev, Mine(t)).(served := s.served + 1)
  }

  datatype Action = Action(t: nat, c: Choice)

  function Run(s: State, acts: seq<Action>): State
    decreases |acts|
  {
    if acts == [] then s else Run(Step(s, acts[0].t, acts[0].c), acts[1..])
  }

  /** Node 0 is the one that clhLock_init creates. */
  function Init(n: nat): State {
    State(seq(n, _ => Thread(Idle, None, 0, 0)), [Node(false, Queued(0))], 0, 0, [], [0], [], 0)
  }

  // ---------- The invariant ----------

  predicate Outside(pc: Pc) {
    pc.Idle? || pc.Arming? || pc.Exchanging?
  }

  predicate Inside(pc: Pc) {
    pc.Critical? || pc.Recycling? || pc.Clearing?
  }

  predicate Leaving(pc: Pc) {
    pc.Recycling? || pc.Clearing?
  }

  ghost predicate Owned(s: State, m: nat, o: Owner) {
    m < |s.nodes| && s.nodes[m].owner == o
  }

  /** The thread whose ticket is i, which watches the node at place i of the chain. */
  ghost predicate Holds(s: State, i: int) {
    && 0 <= i < |s.arrivals| && s.arrivals[i] < |s.ths|
    && s.ths[s.arrivals[i]].ticket == i && !Outside(s.ths[s.arrivals[i]].pc)
  }

  /** Place i of the chain: only the node in front is unlocked. */
  ghost predicate Place(s: State, i: int) {
    0 <= i < |s.chain| && Owned(s, s.chain[i], Queued(i)) && (s.nodes[s.chain[i]].locked <==> i > s.served)
  }

  /** What is true of every thread. */
  ghost predicate Fine(s: State, t: int)
    requires 0 <= t < |s.ths|
  {
    var th := s.ths[t];
    if Outside(th.pc) then
      && (th.local.Some? ==> Owned(s, th.local.value, Mine(t)))
      && (!th.pc.Idle? ==> th.local.Some?)
      && (th.pc.Exchanging? ==> IsLocked(s, th.local.value))
    else
      && s.served <= th.ticket < |s.arrivals| && s.arrivals[th.ticket] == t
      && th.ticket + 1 < |s.chain| && th.prev == s.chain[th.ticket]
      && th.local == Some(if th.pc.Clearing? then th.prev else s.chain[th.ticket + 1])
      && (Inside(th.pc) ==> th.ticket == s.served)
      && (Leaving(th.pc) ==> s.self == s.chain[th.ticket + 1])
  }

  /** What is true of every node. */
  ghost predicate Kept(s: State, m: int)
    requires 0 <= m < |s.nodes|
  {
    match s.nodes[m].owner
    case Mine(t) => t < |s.ths| && Outside(s.ths[t].pc) && s.ths[t].local == Some(m)
    case Queued(i) => s.served <= i < |s.chain| && s.chain[i] == m
  }

  ghost predicate Threads(s: State) {
    forall t {:trigger Fine(s, t)} :: 0 <= t < |s.ths| ==> Fine(s, t)
  }

  ghost predicate Nodes(s: State) {
    forall m {:trigger Kept(s, m)} :: 0 <= m < |s.nodes| ==> Kept(s, m)
  }

  ghost predicate Tickets(s: State) {
    && s.served <= |s.arrivals| && |s.chain| == |s.arrivals| + 1
    && s.tail == s.chain[|s.arrivals|]
    && (forall i {:trigger Holds(s, i)} :: s.served <= i < |s.arrivals| ==> Holds(s, i))
  }

  ghost predicate Chain(s: State) {
    forall i {:trigger Place(s, i)} :: s.served <= i < |s.chain| ==> Place(s, i)
  }

  /** Everything that was served has entered, in order, and the thread in front may have; pSelfNode is
      the node that was released last, until the thread in front sets it. */
  ghost predicate History(s: State)
    requires s.served < |s.chain|
  {
    var inside := Holds(s, s.served) && Inside(s.ths[s.arrivals[s.served]].pc);
    var leaving := Holds(s, s.served) && Leaving(s.ths[s.arrivals[s.served]].pc);
    var n := s.served + (if inside then 1 else 0);
    && n <= |s.arrivals| && s.entries == s.arrivals[..n]
    && (!leaving ==> s.self == s.chain[s.served])
  }

  ghost predicate Inv(s: State) {
    Tickets(s) && Chain(s) && Threads(s) && Nodes(s) && History(s)
  }

  // ---------- Steps that only change the thread, or a node it owns ----------

  /** Steps in which neither the queue nor the owner of a node changes. */
  predicate Private(s: State, t: nat) {
    t < |s.ths| && var pc := s.ths[t].pc; !(pc.Exchanging? || pc.Clearing?)
  }

  lemma PrivateTickets(s: State, t: nat, c: Choice)
    requires Inv(s) && Private(s, t)
    ensures Tickets(Step(s, t, c))
  {
    var s' := Step(s, t, c);
    assert Fine(s, t);
    forall i | s'.served <= i < |s'.arrivals|
      ensures Holds(s', i)
    {
      assert Holds(s, i);
    }
  }

  lemma PrivateChain(s: State, t: nat, c: Choice)
    requires Inv(s) && Private(s, t)
    ensures Chain(Step(s, t, c))
  {
    var s' := Step(s, t, c);
    assert Fine(s, t);
    forall i | s'.served <= i < |s'.chain|
      ensures Place(s', i)
    {
      assert Place(s, i);
    }
  }

  lemma PrivateSelf(s: State, t: nat, c: Choice)
    requires Inv(s) && Private(s, t)
    ensures Fine(Step(s, t, c), t)
  {
    assert Fine(s, t);
    if s.ths[t].pc.Spinning? {
      assert Place(s, s.ths[t].ticket);
    }
  }

  lemma PrivateOther(s: State, t: nat, c: Choice, u: nat)
    requires Inv(s) && Private(s, t) && u < |s.ths| && u != t
    ensures Fine(Step(s, t, c), u)
  {
    assert Fine(s, t);
    assert Fine(s, u);
    PrivateFrame(s, t, c, u);
  }

  /** Such a step leaves the queue, the other threads and the nodes they own alone. */
  lemma PrivateFrame(s: State, t: nat, c: Choice, u: nat)
    requires Private(s, t) && Fine(s, t) && u < |s.ths| && u != t
    ensures var s' := Step(s, t, c);
            && |s'.ths| == |s.ths| && s'.ths[u] == s.ths[u]
            && s'.arrivals == s.arrivals && s'.chain == s.chain && s'.served == s.served
            && (s'.self == s.self || Inside(s.ths[t].pc))
            && (forall m: nat | m < |s.nodes| ::
                  && m < |s'.nodes| && s'.nodes[m].owner == s.nodes[m].owner
                  && (Owned(s, m, Mine(u)) ==> s'.nodes[m] == s.nodes[m]))
  {}

  lemma PrivateNodes(s: State, t: nat, c: Choice)
    requires Inv(s) && Private(s, t)
    ensures Nodes(Step(s, t, c))
  {
    var s' := Step(s, t, c);
    assert Fine(s, t);
    forall m | 0 <= m < |s'.nodes|
      ensures Kept(s', m)
    {
      if m < |s.nodes| {
        assert Kept(s, m);
      }
    }
  }

  lemma PrivateHistory(s: State, t: nat, c: Choice)
    requires Inv(s) && Private(s, t)
    ensures var s' := Step(s, t, c); s'.served < |s'.chain| && History(s')
  {
    assert Fine(s, t);
    if s.served < |s.arrivals| {
      assert Holds(s, s.served);
    }
    if s.ths[t].pc.Spinning? {
      assert Place(s, s.ths[t].ticket);
    }
  }

  lemma PrivateKeepsInv(s: State, t: nat, c: Choice)
    requires Inv(s) && Private(s, t)
    ensures Inv(Step(s, t, c))
  {
    PrivateTickets(s, t, c);
    PrivateChain(s, t, c);
    PrivateNodes(s, t, c);
    PrivateHistory(s, t, c);
    var s' := Step(s, t, c);
    forall u | 0 <= u < |s'.ths|
      ensures Fine(s', u)
    {
      if u == t { PrivateSelf(s, t, c); } else { PrivateOther(s, t, c, u); }
    }
  }

  // ---------- Exchanging the tail ----------

  lemma ExchangeTickets(s: State, t: nat)
    requires Inv(s) && t < |s.ths| && s.ths[t].pc.Exchanging?
    ensures Tickets(Exchange(s, t)) && Chain(Exchange(s, t))
  {
    var s' := Exchange(s, t);
    assert Fine(s, t);
    forall i | s'.served <= i < |s'.arrivals|
      ensures Holds(s', i)
    {
      if i < |s.arrivals| { assert Holds(s, i); }
    }
    forall i | s'.served <= i < |s'.chain|
      ensures Place(s', i)
    {
      if i < |s.chain| { assert Place(s, i); }
    }
  }

  lemma ExchangeThread(s: State, t: nat, u: nat)
    requires Inv(s) && t < |s.ths| && s.ths[t].pc.Exchanging? && u < |s.ths|
    ensures Fine(Exchange(s, t), u)
  {
    assert Fine(s, t);
    assert Fine(s, u);
  }

  lemma ExchangeNode(s: State, t: nat, m: nat)
    requires Inv(s) && t < |s.ths| && s.ths[t].pc.Exchanging? && m < |s.nodes|
    ensures Kept(Exchange(s, t), m)
  {
    assert Fine(s, t);
    assert Kept(s, m);
  }

  lemma ExchangeHistory(s: State, t: nat)
    requires Inv(s) && t < |s.ths| && s.ths[t].pc.Exchanging?
    ensures var s' := Exchange(s, t); s'.served < |s'.chain| && History(s')
  {
    assert Fine(s, t);
    if s.served < |s.arrivals| {
      assert Holds(s, s.served);
    }
  }

  lemma ExchangeKeepsInv(s: State, t: nat)
    requires Inv(s) && t < |s.ths| && s.ths[t].pc.Exchanging?
    ensures Inv(Exchange(s, t))
  {
    ExchangeTickets(s, t);
    ExchangeHistory(s, t);
    var s' := Exchange(s, t);
    forall u | 0 <= u < |s'.ths|
      ensures Fine(s', u)
    {
      ExchangeThread(s, t, u);
    }
    forall m | 0 <= m < |s'.nodes|
      ensures Kept(s', m)
    {
      ExchangeNode(s, t, m);
    }
  }

  // ---------- Releasing ----------

  /** What the releasing thread knows: its old node and its new one are at the front of the chain. */
  lemma Releaser(s: State, t: nat)
    requires Inv(s) && t < |s.ths| && s.ths[t].pc.Clearing?
    ensures s.ths[t].ticket == s.served < |s.arrivals| && s.arrivals[s.served] == t
    ensures s.served + 1 < |s.chain| && s.ths[t].prev == s.chain[s.served] && s.self == s.chain[s.served + 1]
    ensures s.ths[t].local == Some(s.chain[s.served]) && s.chain[s.served] != s.chain[s.served + 1]
    ensures Place(s, s.served) && Place(s, s.served + 1)
  {
    assert Fine(s, t);
    assert Place(s, s.served) && Place(s, s.served + 1);
  }

  lemma ReleaseTickets(s: State, t: nat)
    requires Inv(s) && t < |s.ths| && s.ths[t].pc.Clearing?
    ensures Tickets(Release(s, t)) && Chain(Release(s, t))
  {
    var s' := Release(s, t);
    Releaser(s, t);
    forall i | s'.served <= i < |s'.arrivals|
      ensures Holds(s', i)
    {
      assert Holds(s, i);
    }
    forall i | s'.served <= i < |s'.chain|
      ensures Place(s', i)
    {
      assert Place(s, i);
    }
  }

  lemma ReleaseThread(s: State, t: nat, u: nat)
    requires Inv(s) && t < |s.ths| && s.ths[t].pc.Clearing? && u < |s.ths|
    ensures Fine(Release(s, t), u)
  {
    Releaser(s, t);
    assert Fine(s, u);
  }

  lemma ReleaseNode(s: State, t: nat, m: nat)
    requires Inv(s) && t < |s.ths| && s.ths[t].pc.Clearing? && m < |s.nodes|
    ensures Kept(Release(s, t), m)
  {
    Releaser(s, t);
    assert Kept(s, m);
  }

  lemma ReleaseHistory(s: State, t: nat)
    requires Inv(s) && t < |s.ths| && s.ths[t].pc.Clearing?
    ensures var s' := Release(s, t); s'.served < |s'.chain| && History(s')
  {
    Releaser(s, t);
    if s.served + 1 < |s.arrivals| {
      assert Holds(s, s.served + 1);
      assert Fine(s, s.arrivals[s.served + 1]);
    }
  }

  lemma ReleaseKeepsInv(s: State, t: nat)
    requires Inv(s) && t < |s.ths| && s.ths[t].pc.Clearing?
    ensures Inv(Release(s, t))
  {
    ReleaseTickets(s, t);
    ReleaseHistory(s, t);
    Releaser(s, t);
    var s' := Release(s, t);
    forall u | 0 <= u < |s'.ths|
      ensures Fine(s', u)
    {
      ReleaseThread(s, t, u);
    }
    forall m | 0 <= m < |s'.nodes|
      ensures Kept(s', m)
    {
      ReleaseNode(s, t, m);
    }
  }

  // ---------- What holds in every run ----------

  lemma StepKeepsInv(s: State, t: nat, c: Choice)
    requires Inv(s)
    ensures Inv(Step(s, t, c))
  {
    if Private(s, t) {
      PrivateKeepsInv(s, t, c);
    } else if t < |s.ths| && s.ths[t].pc.Exchanging? {
      ExchangeKeepsInv(s, t);
    } else if t < |s.ths| {
      ReleaseKeepsInv(s, t);
    }
  }

  lemma {:induction false} RunKeepsInv(s: State, acts: seq<Action>)
    requires Inv(s)
    ensures Inv(Run(s, acts))
    decreases |acts|
  {
    if acts != [] {
      StepKeepsInv(s, acts[0].t, acts[0].c);
      RunKeepsInv(Step(s, acts[0].t, acts[0].c), acts[1..]);
    }
  }

  lemma {:induction false} Always(n: nat, acts: seq<Action>)
    ensures Inv(Run(Init(n), acts))
  {
    assert Inv(Init(n));
    RunKeepsInv(Init(n), acts);
  }

  /** Mutual exclusion under node recycling. */
  lemma {:induction false} Exclusion(n: nat, acts: seq<Action>)
    ensures var s := Run(Init(n), acts);
            forall t, u | 0 <= t < u < |s.ths| :: !(Inside(s.ths[t].pc) && Inside(s.ths[u].pc))
  {
    Always(n, acts);
    var s := Run(Init(n), acts);
    forall t, u | 0 <= t < u < |s.ths|
      ensures !(Inside(s.ths[t].pc) && Inside(s.ths[u].pc))
    {
      assert Fine(s, t) && Fine(s, u);
    }
  }

  /** Entry follows the order of the exchanges: nobody overtakes, nobody enters twice for one exchange. */
  lemma {:induction false} FifoEntry(n: nat, acts: seq<Action>)
    ensures var s := Run(Init(n), acts);
            s.entries <= s.arrivals && s.served <= |s.entries| <= s.served + 1
  {
    Always(n, acts);
  }

  /** A waiting thread can enter exactly when everybody before it has released. */
  lemma {:induction false} EntersInTurn(n: nat, acts: seq<Action>, t: nat)
    requires var s := Run(Init(n), acts); t < |s.ths| && s.ths[t].pc.Spinning?
    ensures var s := Run(Init(n), acts);
            !IsLocked(s, s.ths[t].prev) <==> s.ths[t].ticket == s.served
  {
    Always(n, acts);
    var s := Run(Init(n), acts);
    assert Fine(s, t) && Place(s, s.ths[t].ticket);
  }

  /** Who keeps a node: a thread as its local node (or as pSelfNode while it clears it), or the front
      of the queue, as the node that the thread in front watches, or as the tail when nobody queues. */
  datatype Keeper = Local(t: nat) | Front

  ghost predicate Keeps(s: State, m: nat, k: Keeper) {
    match k
    case Local(t) =>
      t < |s.ths| && (if s.ths[t].pc.Clearing? then s.self == m else s.ths[t].local == Some(m))
    case Front =>
      if s.served < |s.arrivals| && s.arrivals[s.served] < |s.ths| then s.ths[s.arrivals[s.served]].prev == m
      else s.tail == m
  }

  /** Every node has exactly one keeper. */
  lemma {:induction false} OneKeeper(n: nat, acts: seq<Action>, m: nat) returns (k: Keeper)
    requires m < |Run(Init(n), acts).nodes|
    ensures var s := Run(Init(n), acts);
            forall k' :: Keeps(s, m, k') <==> k' == k
  {
    Always(n, acts);
    var s := Run(Init(n), acts);
    assert Kept(s, m);
    k := match s.nodes[m].owner
         case Mine(t) => Local(t)
         case Queued(i) => if i == s.served then Front else Local(s.arrivals[i - 1]);
    forall k'
      ensures Keeps(s, m, k') <==> k' == k
    {
      KeeperIsOwner(s, m, k');
    }
  }

  lemma KeeperIsOwner(s: State, m: nat, k: Keeper)
    requires Inv(s) && m < |s.nodes|
    ensures Keeps(s, m, k) <==>
              k == match s.nodes[m].owner
                   case Mine(t) => Local(t)
                   case Queued(i) =>
                      if i == s.served then Front else Local(if 0 < i <= |s.arrivals| then s.arrivals[i - 1] else 0)
  {
    assert Kept(s, m);
    match k
    case Local(t) =>
      if t < |s.ths| {
        assert Fine(s, t);
        if !Outside(s.ths[t].pc) {
          assert Place(s, s.ths[t].ticket + 1);
        }
      }
      if s.nodes[m].owner.Queued? && s.nodes[m].owner.i > s.served {
        assert Holds(s, s.nodes[m].owner.i - 1);
      }
    case Front =>
      assert Place(s, s.served);
      if s.served < |s.arrivals| {
        assert Holds(s, s.served);
        assert Fine(s, s.arrivals[s.served]);
      }
  }

  /** When the lock is idle, pSelfNode is the tail, and unlocked: clhLock_destroy frees the one node
      that no thread owns. */
  lemma {:induction false} IdleSelfIsTail(n: nat, acts: seq<Action>)
    ensures var s := Run(Init(n), acts);
            s.served == |s.arrivals| ==>
              s.self == s.tail && s.tail < |s.nodes| && !s.nodes[s.tail].locked
              && forall t | 0 <= t < |s.ths| :: Outside(s.ths[t].pc) && s.ths[t].local != Some(s.self)
  {
    Always(n, acts);
    var s := Run(Init(n), acts);
    if s.served == |s.arrivals| {
      assert Place(s, s.served);
      forall t | 0 <= t < |s.ths|
        ensures Outside(s.ths[t].pc) && s.ths[t].local != Some(s.self)
      {
        assert Fine(s, t);
      }
    }
  }

  /** A thread that locks again does not write a node that another thread still watches. */
  lemma {:induction false} NodeNotWatched(n: nat, acts: seq<Action>, t: nat, u: nat)
    requires var s := Run(Init(n), acts);
             t < |s.ths| && Outside(s.ths[t].pc) && u < |s.ths| && s.ths[u].pc.Spinning?
    ensures var s := Run(Init(n), acts);
            s.ths[t].local != Some(s.ths[u].prev) && s.ths[t].local != s.ths[u].local
  {
    Always(n, acts);
    var s := Run(Init(n), acts);
    assert Fine(s, t) && Fine(s, u) && Place(s, s.ths[u].ticket) && Place(s, s.ths[u].ticket + 1);
  }

  /** While somebody is queued, the one in front can take a step. */
  lemma {:induction false} NeverStuck(n: nat, acts: seq<Action>, junk: bool)
    ensures var s := Run(Init(n), acts);
            s.served < |s.arrivals| ==>
              var t := s.arrivals[s.served];
              t < |s.ths| && !Outside(s.ths[t].pc) && Step(s, t, Choice(true, junk)).ths[t].pc != s.ths[t].pc
  {
    Always(n, acts);
    var s := Run(Init(n), acts);
    if s.served < |s.arrivals| {
      assert Holds(s, s.served) && Place(s, s.served);
      assert Fine(s, s.arrivals[s.served]);
    }
  }

  // ---------- Everybody gets the lock ----------

  lemma {:induction false} RunThree(s: State, a: Action, b: Action, c: Action)
    ensures Run(s, [a, b, c]) == Step(Step(Step(s, a.t, a.c), b.t, b.c), c.t, c.c)
  {
    assert [a, b, c][1..] == [b, c] && [b, c][1..] == [c] && [c][1..] == [];
    assert Run(s, [a, b, c]) == Run(Step(s, a.t, a.c), [b, c]);
    assert Run(Step(s, a.t, a.c), [b, c]) == Run(Step(Step(s, a.t, a.c), b.t, b.c), [c]);
  }

  /** The first two steps: the thread has a node, and it is locked. */
  lemma Prepares(s: State, t: nat, c: Choice) returns (ready: State)
    requires Inv(s) && t < |s.ths| && s.ths[t].pc.Idle? && c.go
    ensures ready == Step(Step(s, t, c), t, c) && Inv(ready) && |ready.ths| == |s.ths|
    ensures ready.ths[t].pc.Exchanging? && ready.arrivals == s.arrivals && ready.served == s.served
  {
    StepKeepsInv(s, t, c);
    var armed := Step(s, t, c);
    assert Fine(armed, t);
    StepKeepsInv(armed, t, c);
    ready := Step(armed, t, c);
  }

  /** A thread that wants the lock queues up with three steps of its own, and can enter at once if nobody is
      queued. */
  lemma {:induction false} Arrives(s: State, t: nat, c: Choice)
    requires Inv(s) && t < |s.ths| && s.ths[t].pc.Idle? && c.go
    ensures var s' := Run(s, [Action(t, c), Action(t, c), Action(t, c)]);
            && |s'.ths| == |s.ths| && s'.arrivals == s.arrivals + [t] && s'.served == s.served && s'.ths[t].pc.Spinning?
            && (s.served == |s.arrivals| ==> Step(s', t, c).ths[t].pc.Critical?)
  {
    var a := Action(t, c);
    RunThree(s, a, a, a);
    var ready := Prepares(s, t, c);
    assert Fine(ready, t);
    StepKeepsInv(ready, t, c);
    var s' := Step(ready, t, c);
    assert Fine(s', t) && Place(s', s'.ths[t].ticket);
  }

  /** The steps until the thread in front has released the lock. */
  ghost function Patience(pc: Pc): nat {
    match pc
    case Spinning => 4
    case Critical => 3
    case Recycling => 2
    case Clearing => 1
    case _ => 0
  }

  ghost function FrontPatience(s: State): nat {
    if s.served < |s.arrivals| && s.arrivals[s.served] < |s.ths| then Patience(s.ths[s.arrivals[s.served]].pc) else 0
  }

  lemma FrontStep(s: State, c: Choice)
    requires Inv(s) && s.served < |s.arrivals| && c.go
    ensures var s' := Step(s, s.arrivals[s.served], c);
            && s'.arrivals == s.arrivals
            && (s'.served == s.served + 1 || (s'.served == s.served && FrontPatience(s') < FrontPatience(s)))
  {
    assert Holds(s, s.served) && Place(s, s.served);
    assert Fine(s, s.arrivals[s.served]);
  }

  /** From every reachable state there is a run, of threads that are queued, in which everybody who is queued
      enters and leaves, in order. */
  lemma {:induction false} EveryoneEnters(s: State, c: Choice) returns (acts: seq<Action>)
    requires Inv(s) && c.go
    ensures var s' := Run(s, acts);
            s'.arrivals == s.arrivals && s'.served == |s.arrivals| && s'.entries == s.arrivals
    decreases |s.arrivals| - s.served, FrontPatience(s)
  {
    if s.served == |s.arrivals| {
      acts := [];
    } else {
      var t := s.arrivals[s.served];
      FrontStep(s, c);
      StepKeepsInv(s, t, c);
      var rest := EveryoneEnters(Step(s, t, c), c);
      acts := [Action(t, c)] + rest;
      assert acts[1..] == rest;
    }
  }
}
