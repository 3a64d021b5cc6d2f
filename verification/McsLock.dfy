/** The MCS queue lock of mscLock.c, for any number of threads, under sequential consistency.  Every
    access to a node or to the tail is one step. */
module McsLock {
  import opened Options

  /** What a thread will do next. */
  datatype Pc =
    | Idle
    | Flagging                // pNext was cleared: set bLocked
    | Exchanging              // exchange the tail
    | Linking(prev: nat)      // link the own node behind `prev`
    | Spinning                // wait for bLocked to clear
    | Critical
    | Leaving                 // unlock: look at pNext
    | Swapping                // pNext was null: swap the tail back to null
    | Waiting                 // the swap failed: wait for pNext
    | HandingOff              // clear the successor's bLocked

  /** A thread and its node: `next` and `locked` are the node's pNext and bLocked, which other threads
      write.  `ticket` is history: the place of its latest exchange in `arrivals`. */
  datatype Thread = Thread(pc: Pc, next: Option<nat>, locked: bool, ticket: nat)

  /** History: `arrivals` lists the exchanges of the tail, `entries` the entries into the critical
      section, and `served` counts the releases. */
  datatype State = State(ths: seq<Thread>, tail: Option<nat>, arrivals: seq<nat>, entries: seq<nat>, served: nat)

  function Put(s: State, t: nat, th: Thread): State
    requires t < |s.ths|
  {
    s.(ths := s.ths[t := th])
  }

  function Enter(s: State, t: nat): State
    requires t < |s.ths|
  {
    Put(s, t, s.ths[t].(pc := Critical)).(entries := s.entries + [t])
  }

  /** The next step of thread t; `go` lets an idle thread lock and the owner unlock. */
  function Step(s: State, t: nat, go: bool): State {
    if t >= |s.ths| then s
    else
      var th := s.ths[t];
      match th.pc
      case Idle => if go then Put(s, t, th.(pc := Flagging, next := None)) else s
      case Flagging => Put(s, t, th.(pc := Exchanging, locked := true))
      case Exchanging => Exchange(s, t)
      case Linking(prev) => Link(s, t, prev)
      case Spinning => if th.locked then s else Enter(s, t)
      case Critical => if go then Put(s, t, th.(pc := Leaving)) else s
      case Leaving => Put(s, t, th.(pc := if th.next == None then Swapping else HandingOff))
      case Swapping =>
        if s.tail == Some(t) then Put(s, t, th.(pc := Idle)).(tail := None, served := s.served + 1)
        else Put(s, t, th.(pc := Waiting))
      case Waiting => if th.next == None then s else Put(s, t, th.(pc := HandingOff))
      case HandingOff => HandOff(s, t)
  }

  function Exchange(s: State, t: nat): State
    requires t < |s.ths|
  {
    var th := s.ths[t].(ticket := |s.arrivals|);
    var s' := s.(tail := Some(t), arrivals := s.arrivals + [t]);
    if s.tail == None then Put(s', t, th.(pc := Critical)).(entries := s.entries + [t])
    else Put(s', t, th.(pc := Linking(s.tail.value)))
  }

  /** Writing the pNext of `prev`.  No thread outside the lock's threads is ever linked to. */
  function Link(s: State, t: nat, prev: nat): State
    requires t < |s.ths|
  {
    var s' := Put(s, t, s.ths[t].(pc := Spinning));
    if prev < |s.ths| then Put(s', prev, s'.ths[prev].(next := Some(t))) else s'
  }

  function HandOff(s: State, t: nat): State
    requires t < |s.ths|
  {
    var next := s.ths[t].next;
    var s' := Put(s, t, s.ths[t].(pc := Idle)).(served := s.served + 1);
    if next.Some? && next.value < |s.ths| then Put(s', next.value, s'.ths[next.value].(locked := false)) else s'
  }

  datatype Action = Action(t: nat, go: bool)

  function Run(s: State, acts: seq<Action>): State
    decreases |acts|
  {
    if acts == [] then s else Run(Step(s, acts[0].t, acts[0].go), acts[1..])
  }

  function Init(n: nat): State {
    State(seq(n, _ => Thread(Idle, None, false, 0)), None, [], [], 0)
  }

  // ---------- The invariant ----------

  predicate Outside(pc: Pc) {
    pc.Idle? || pc.Flagging? || pc.Exchanging?
  }

  predicate Inside(pc: Pc) {
    pc.Critical? || pc.Leaving? || pc.Swapping? || pc.Waiting? || pc.HandingOff?
  }

  /** The thread whose ticket is i. */
  ghost predicate Holds(s: State, i: int) {
    0 <= i < |s.arrivals| && s.arrivals[i] < |s.ths| &&
    s.ths[s.arrivals[i]].ticket == i && !Outside(s.ths[s.arrivals[i]].pc)
  }

  /** Ticket i is taken, and its thread has linked itself to the one before. */
  ghost predicate Linked(s: State, i: int) {
    Holds(s, i) && !s.ths[s.arrivals[i]].pc.Linking?
  }

  /** A thread in front has the lock, or has just been handed it. */
  ghost predicate InFront(th: Thread) {
    Inside(th.pc) || (th.pc.Spinning? && !th.locked)
  }

  /** A thread further back waits for the one before it. */
  ghost predicate Queued(s: State, th: Thread) {
    th.locked && 0 < th.ticket <= |s.arrivals| && (th.pc.Spinning? || th.pc == Linking(s.arrivals[th.ticket - 1]))
  }

  /** What is true of every thread. */
  ghost predicate Fine(s: State, t: int)
    requires 0 <= t < |s.ths|
  {
    var th := s.ths[t];
    if Outside(th.pc) then (!th.pc.Idle? ==> th.next == None) && (th.pc.Exchanging? ==> th.locked)
    else
      && s.served <= th.ticket < |s.arrivals| && s.arrivals[th.ticket] == t
      && (if th.ticket == s.served then InFront(th) else Queued(s, th))
      && (th.next == if Linked(s, th.ticket + 1) then Some(s.arrivals[th.ticket + 1]) else None)
      && (th.pc.HandingOff? ==> th.next.Some?)
      && (th.pc.Waiting? ==> th.ticket + 1 < |s.arrivals|)
  }

  ghost predicate Threads(s: State) {
    forall t {:trigger Fine(s, t)} :: 0 <= t < |s.ths| ==> Fine(s, t)
  }

  ghost predicate Tickets(s: State) {
    && s.served <= |s.arrivals|
    && s.tail == (if s.served == |s.arrivals| then None else Some(s.arrivals[|s.arrivals| - 1]))
    && (forall i {:trigger Holds(s, i)} :: s.served <= i < |s.arrivals| ==> Holds(s, i))
  }

  /** Everything that was served has entered, in order, and the thread in front may have. */
  ghost predicate History(s: State)
    requires s.served <= |s.arrivals|
  {
    var n := s.served + (if Holds(s, s.served) && Inside(s.ths[s.arrivals[s.served]].pc) then 1 else 0);
    n <= |s.arrivals| && s.entries == s.arrivals[..n]
  }

  ghost predicate Inv(s: State) {
    Tickets(s) && Threads(s) && History(s)
  }

  /** The owner of the lock has the ticket being served; to release, it is alone in the queue or knows
      its successor. */
  lemma Owner(s: State, t: nat)
    requires Inv(s) && t < |s.ths| && Inside(s.ths[t].pc)
    ensures s.ths[t].ticket == s.served < |s.arrivals| && s.arrivals[s.served] == t && Holds(s, s.served)
    ensures s.tail == Some(t) ==> s.served + 1 == |s.arrivals|
    ensures s.ths[t].pc.HandingOff? ==> Linked(s, s.served + 1) && s.ths[t].next == Some(s.arrivals[s.served + 1])
  {
    assert Fine(s, t);
    assert Holds(s, |s.arrivals| - 1);
  }

  /** Steps in which a thread changes its own pc, between the exchange and the release or before them. */
  predicate Private(s: State, t: nat) {
    t < |s.ths| &&
    var pc := s.ths[t].pc;
    !(pc.Exchanging? || pc.Linking? || pc.HandingOff? || (pc.Swapping? && s.tail == Some(t)))
  }

  lemma PrivateTickets(s: State, t: nat, go: bool)
    requires Inv(s) && Private(s, t)
    ensures Tickets(Step(s, t, go))
    ensures forall i | s.served <= i < |s.arrivals| :: Linked(Step(s, t, go), i) == Linked(s, i)
  {
    var s' := Step(s, t, go);
    assert Fine(s, t);
    forall i | s.served <= i < |s.arrivals|
      ensures Holds(s', i) && Linked(s', i) == Linked(s, i)
    {
      assert Holds(s, i);
    }
  }

  lemma PrivateSelf(s: State, t: nat, go: bool)
    requires Inv(s) && Private(s, t)
    ensures Fine(Step(s, t, go), t)
  {
    PrivateTickets(s, t, go);
    assert Fine(s, t);
    assert Linked(s, s.ths[t].ticket + 1) ==> s.ths[t].ticket + 1 < |s.arrivals|;
  }

  lemma PrivateOther(s: State, t: nat, go: bool, u: nat)
    requires Inv(s) && Private(s, t) && u < |s.ths| && u != t
    ensures Fine(Step(s, t, go), u)
  {
    PrivateTickets(s, t, go);
    PrivateFrame(s, t, go, u);
    assert Fine(s, u);
    FineStays(s, Step(s, t, go), u);
  }

  /** Such a step leaves the queue and the other threads alone. */
  lemma PrivateFrame(s: State, t: nat, go: bool, u: nat)
    requires Private(s, t) && u < |s.ths| && u != t
    ensures var s' := Step(s, t, go);
            |s'.ths| == |s.ths| && s'.ths[u] == s.ths[u] && s'.arrivals == s.arrivals && s'.served == s.served
  {}

  lemma FineStays(s: State, s': State, u: nat)
    requires u < |s.ths| == |s'.ths| && Fine(s, u)
    requires s'.ths[u] == s.ths[u] && s'.arrivals == s.arrivals && s'.served == s.served
    requires forall i | s.served <= i < |s.arrivals| :: Linked(s', i) == Linked(s, i)
    ensures Fine(s', u)
  {
    var i := s.ths[u].ticket + 1;
    assert i < |s.arrivals| || (!Linked(s, i) && !Linked(s', i));
  }

  lemma PrivateHistory(s: State, t: nat, go: bool)
    requires Inv(s) && Private(s, t)
    ensures var s' := Step(s, t, go); s'.served <= |s'.arrivals| && History(s')
  {
    PrivateTickets(s, t, go);
    assert Fine(s, t);
    if s.served < |s.arrivals| {
      assert Holds(s, s.served);
    }
  }

  lemma PrivateKeepsInv(s: State, t: nat, go: bool)
    requires Inv(s) && Private(s, t)
    ensures Inv(Step(s, t, go))
  {
    PrivateTickets(s, t, go);
    PrivateHistory(s, t, go);
    forall u | 0 <= u < |s.ths|
      ensures Fine(Step(s, t, go), u)
    {
      if u == t { PrivateSelf(s, t, go); } else { PrivateOther(s, t, go, u); }
    }
  }

  // ---------- Exchanging the tail ----------

  lemma ExchangeTickets(s: State, t: nat)
    requires Inv(s) && t < |s.ths| && s.ths[t].pc.Exchanging?
    ensures Tickets(Exchange(s, t))
    ensures forall i | s.served <= i <= |s.arrivals| ::
              Linked(Exchange(s, t), i) == (Linked(s, i) || (i == s.served == |s.arrivals|))
  {
    var s' := Exchange(s, t);
    forall i | s'.served <= i < |s'.arrivals|
      ensures Holds(s', i) && Linked(s', i) == (Linked(s, i) || (i == s.served == |s.arrivals|))
    {
      if i < |s.arrivals| { assert Holds(s, i); }
    }
  }

  lemma ExchangeThread(s: State, t: nat, u: nat)
    requires Inv(s) && t < |s.ths| && s.ths[t].pc.Exchanging? && u < |s.ths|
    ensures Fine(Exchange(s, t), u)
  {
    ExchangeTickets(s, t);
    assert Fine(s, u);
    if u != t && !Outside(s.ths[u].pc) {
      assert Linked(Exchange(s, t), s.ths[u].ticket + 1) == Linked(s, s.ths[u].ticket + 1);
    }
  }

  lemma ExchangeHistory(s: State, t: nat)
    requires Inv(s) && t < |s.ths| && s.ths[t].pc.Exchanging?
    ensures var s' := Exchange(s, t); s'.served <= |s'.arrivals| && History(s')
  {
    ExchangeTickets(s, t);
    if s.served < |s.arrivals| {
      assert Holds(s, s.served);
    }
  }

  lemma ExchangeKeepsInv(s: State, t: nat)
    requires Inv(s) && t < |s.ths| && s.ths[t].pc.Exchanging?
    ensures Inv(Exchange(s, t))
  {
    ExchangeTickets(s, t);
    ExchangeHistory(s, t);
    forall u | 0 <= u < |s.ths|
      ensures Fine(Exchange(s, t), u)
    {
      ExchangeThread(s, t, u);
    }
  }

  // ---------- Linking behind the predecessor ----------

  /** The node a thread is about to link to belongs to the thread just before it in the queue. */
  lemma Predecessor(s: State, t: nat)
    requires Inv(s) && t < |s.ths| && s.ths[t].pc.Linking?
    ensures var prev := s.ths[t].pc.prev;
            && s.served < s.ths[t].ticket < |s.arrivals| && s.arrivals[s.ths[t].ticket] == t
            && prev < |s.ths| && prev != t && prev == s.arrivals[s.ths[t].ticket - 1]
            && s.ths[prev].ticket == s.ths[t].ticket - 1 && !Outside(s.ths[prev].pc)
  {
    assert Fine(s, t);
    assert Holds(s, s.ths[t].ticket - 1);
  }

  lemma LinkTickets(s: State, t: nat)
    requires Inv(s) && t < |s.ths| && s.ths[t].pc.Linking?
    ensures Tickets(Link(s, t, s.ths[t].pc.prev))
    ensures forall i | s.served <= i < |s.arrivals| ::
              Linked(Link(s, t, s.ths[t].pc.prev), i) == (Linked(s, i) || i == s.ths[t].ticket)
  {
    Predecessor(s, t);
    var s' := Link(s, t, s.ths[t].pc.prev);
    forall i | s.served <= i < |s.arrivals|
      ensures Holds(s', i) && Linked(s', i) == (Linked(s, i) || i == s.ths[t].ticket)
    {
      assert Holds(s, i);
    }
  }

  lemma LinkThread(s: State, t: nat, u: nat)
    requires Inv(s) && t < |s.ths| && s.ths[t].pc.Linking? && u < |s.ths|
    ensures Fine(Link(s, t, s.ths[t].pc.prev), u)
  {
    Predecessor(s, t);
    LinkTickets(s, t);
    assert Fine(s, u);
  }

  lemma LinkKeepsInv(s: State, t: nat)
    requires Inv(s) && t < |s.ths| && s.ths[t].pc.Linking?
    ensures Inv(Link(s, t, s.ths[t].pc.prev))
  {
    Predecessor(s, t);
    LinkTickets(s, t);
    assert Holds(s, s.served);
    forall u | 0 <= u < |s.ths|
      ensures Fine(Link(s, t, s.ths[t].pc.prev), u)
    {
      LinkThread(s, t, u);
    }
  }

  // ---------- Releasing ----------

  predicate Releasing(s: State, t: nat) {
    t < |s.ths| && (s.ths[t].pc.HandingOff? || (s.ths[t].pc.Swapping? && s.tail == Some(t)))
  }

  lemma ReleaseTickets(s: State, t: nat, go: bool)
    requires Inv(s) && Releasing(s, t)
    ensures Tickets(Step(s, t, go))
    ensures forall i | s.served < i < |s.arrivals| :: Linked(Step(s, t, go), i) == Linked(s, i)
  {
    var s' := Step(s, t, go);
    Owner(s, t);
    forall i | s'.served <= i < |s'.arrivals|
      ensures Holds(s', i) && Linked(s', i) == Linked(s, i)
    {
      assert Holds(s, i);
    }
  }

  lemma ReleaseThread(s: State, t: nat, go: bool, u: nat)
    requires Inv(s) && Releasing(s, t) && u < |s.ths|
    ensures Fine(Step(s, t, go), u)
  {
    Owner(s, t);
    ReleaseTickets(s, t, go);
    assert Fine(s, u);
    assert Linked(s, s.ths[u].ticket + 1) ==> s.ths[u].ticket + 1 < |s.arrivals|;
  }

  lemma ReleaseHistory(s: State, t: nat, go: bool)
    requires Inv(s) && Releasing(s, t)
    ensures var s' := Step(s, t, go); s'.served <= |s'.arrivals| && History(s')
  {
    Owner(s, t);
    if s.served + 1 < |s.arrivals| {
      assert Holds(s, s.served + 1);
      assert Fine(s, s.arrivals[s.served + 1]);
    }
  }

  lemma ReleaseKeepsInv(s: State, t: nat, go: bool)
    requires Inv(s) && Releasing(s, t)
    ensures Inv(Step(s, t, go))
  {
    ReleaseTickets(s, t, go);
    ReleaseHistory(s, t, go);
    forall u | 0 <= u < |s.ths|
      ensures Fine(Step(s, t, go), u)
    {
      ReleaseThread(s, t, go, u);
    }
  }

  // ---------- What holds in every run ----------

  lemma StepKeepsInv(s: State, t: nat, go: bool)
    requires Inv(s)
    ensures Inv(Step(s, t, go))
  {
    if Private(s, t) {
      PrivateKeepsInv(s, t, go);
    } else if Releasing(s, t) {
      ReleaseKeepsInv(s, t, go);
    } else if t < |s.ths| && s.ths[t].pc.Exchanging? {
      ExchangeKeepsInv(s, t);
    } else if t < |s.ths| {
      LinkKeepsInv(s, t);
    }
  }

  lemma {:induction false} RunKeepsInv(s: State, acts: seq<Action>)
    requires Inv(s)
    ensures Inv(Run(s, acts))
    decreases |acts|
  {
    if acts != [] {
      StepKeepsInv(s, acts[0].t, acts[0].go);
      RunKeepsInv(Step(s, acts[0].t, acts[0].go), acts[1..]);
    }
  }

  lemma {:induction false} Always(n: nat, acts: seq<Action>)
    ensures Inv(Run(Init(n), acts))
  {
    assert Inv(Init(n));
    RunKeepsInv(Init(n), acts);
  }

  /** Mutual exclusion: at most one thread is between entering and releasing. */
  lemma {:induction false} Exclusion(n: nat, acts: seq<Action>)
    ensures var s := Run(Init(n), acts);
            forall t, u | 0 <= t < u < |s.ths| :: !(Inside(s.ths[t].pc) && Inside(s.ths[u].pc))
  {
    Always(n, acts);
    var s := Run(Init(n), acts);
    forall t, u | 0 <= t < u < |s.ths|
      ensures !(Inside(s.ths[t].pc) && Inside(s.ths[u].pc))
    {
      assert Fine(s, t) && Fine(s, u);
    }
  }

  /** Entry follows the order of the exchanges: nobody overtakes, nobody enters twice for one exchange. */
  lemma {:induction false} FifoEntry(n: nat, acts: seq<Action>)
    ensures var s := Run(Init(n), acts);
            s.entries <= s.arrivals && s.served <= |s.entries| <= s.served + 1
  {
    Always(n, acts);
  }

  /** A release with a successor known hands the lock to exactly the thread that exchanged next, which
      is waiting; that thread alone may then enter. */
  lemma {:induction false} HandsToSuccessor(n: nat, acts: seq<Action>, t: nat)
    requires var s := Run(Init(n), acts); t < |s.ths| && s.ths[t].pc.HandingOff?
    ensures var s := Run(Init(n), acts);
            var s' := HandOff(s, t);
            && s.served + 1 < |s.arrivals|
            && var u := s.arrivals[s.served + 1];
               && u < |s.ths| && u != t && s.ths[t].next == Some(u) && s.ths[u].pc.Spinning? && s.ths[u].locked
               && s' == Put(Put(s, t, s.ths[t].(pc := Idle)), u, s.ths[u].(locked := false)).(served := s.served + 1)
               && forall v | 0 <= v < |s.ths| && s'.ths[v].pc.Spinning? && !s'.ths[v].locked :: v == u
  {
    Always(n, acts);
    var s := Run(Init(n), acts);
    Owner(s, t);
    var u := s.arrivals[s.served + 1];
    assert Fine(s, u);
    var s' := HandOff(s, t);
    forall v | 0 <= v < |s.ths| && s'.ths[v].pc.Spinning? && !s'.ths[v].locked
      ensures v == u
    {
      assert Fine(s, v);
    }
  }

  /** A release without a successor known succeeds exactly when nobody has exchanged since. */
  lemma {:induction false} ReleasesToNobody(n: nat, acts: seq<Action>, t: nat)
    requires var s := Run(Init(n), acts); t < |s.ths| && s.ths[t].pc.Swapping?
    ensures var s := Run(Init(n), acts);
            s.tail == Some(t) <==> s.served + 1 == |s.arrivals|
  {
    Always(n, acts);
    Owner(Run(Init(n), acts), t);
  }

  /** A node is not reused while another thread can still write it: whoever is about to link behind it
      or to clear its flag does so while its owner is in the queue. */
  lemma {:induction false} NodeNotReused(n: nat, acts: seq<Action>, t: nat, u: nat)
    requires var s := Run(Init(n), acts); t < |s.ths| && Outside(s.ths[t].pc) && u < |s.ths|
    ensures var s := Run(Init(n), acts);
            && s.ths[u].pc != Linking(t)
            && !(s.ths[u].pc.HandingOff? && s.ths[u].next == Some(t))
  {
    Always(n, acts);
    var s := Run(Init(n), acts);
    if s.ths[u].pc.Linking? {
      Predecessor(s, u);
    } else if s.ths[u].pc.HandingOff? {
      Owner(s, u);
    }
  }

  /** While somebody is queued, a queued thread can take a step: the one in front, or the one whose
      link it waits for. */
  lemma {:induction false} NeverStuck(n: nat, acts: seq<Action>)
    ensures var s := Run(Init(n), acts);
            s.served < |s.arrivals| ==>
              exists t | 0 <= t < |s.ths| :: !Outside(s.ths[t].pc) && Step(s, t, true).ths[t].pc != s.ths[t].pc
  {
    Always(n, acts);
    var s := Run(Init(n), acts);
    if s.served < |s.arrivals| {
      assert Holds(s, s.served);
      var t := s.arrivals[s.served];
      assert Fine(s, t);
      if s.ths[t].pc.Waiting? && s.ths[t].next == None {
        assert Holds(s, s.served + 1);
        assert s.ths[s.arrivals[s.served + 1]].pc.Linking?;
        Predecessor(s, s.arrivals[s.served + 1]);
        assert Step(s, s.arrivals[s.served + 1], true).ths[s.arrivals[s.served + 1]].pc.Spinning?;
      } else {
        if s.ths[t].pc.HandingOff? {
          Owner(s, t);
        }
        assert Step(s, t, true).ths[t].pc != s.ths[t].pc;
      }
    }
  }

  // ---------- Everybody gets the lock ----------

  lemma {:induction false} RunThree(s: State, a: Action, b: Action, c: Action)
    ensures Run(s, [a, b, c]) == Step(Step(Step(s, a.t, a.go), b.t, b.go), c.t, c.go)
  {
    assert [a, b, c][1..] == [b, c] && [b, c][1..] == [c] && [c][1..] == [];
    assert Run(s, [a, b, c]) == Run(Step(s, a.t, a.go), [b, c]);
    assert Run(Step(s, a.t, a.go), [b, c]) == Run(Step(Step(s, a.t, a.go), b.t, b.go), [c]);
  }

  /** A thread that wants the lock queues up with three steps of its own, and has it at once if nobody is
      queued. */
  lemma {:induction false} Arrives(s: State, t: nat)
    requires Inv(s) && t < |s.ths| && s.ths[t].pc.Idle?
    ensures var s' := Run(s, [Action(t, true), Action(t, true), Action(t, false)]);
            && |s'.ths| == |s.ths| && s'.arrivals == s.arrivals + [t] && s'.served == s.served && !Outside(s'.ths[t].pc)
            && (s.served == |s.arrivals| ==> s'.ths[t].pc.Critical? && s'.entries == s.entries + [t])
            && (s.served < |s.arrivals| ==> s'.ths[t].pc == Linking(s.arrivals[|s.arrivals| - 1]))
  {
    RunThree(s, Action(t, true), Action(t, true), Action(t, false));
  }

  /** An upper bound on the steps until the thread in front has released the lock. */
  ghost function Patience(th: Thread): nat {
    match th.pc
    case Spinning => 7
    case Critical => 6
    case Leaving => 5
    case Swapping => 4
    case Waiting => if th.next == None then 3 else 2
    case _ => 1
  }

  ghost function FrontPatience(s: State): nat {
    if s.served < |s.arrivals| && s.arrivals[s.served] < |s.ths| then Patience(s.ths[s.arrivals[s.served]]) else 0
  }

  /** The thread whose step brings the release nearer: the one in front, or the one it waits for. */
  ghost function Next(s: State): nat
    requires Inv(s) && s.served < |s.arrivals|
  {
    assert Holds(s, s.served);
    var t := s.arrivals[s.served];
    if s.ths[t].pc.Waiting? && s.ths[t].next == None && s.served + 1 < |s.arrivals| then s.arrivals[s.served + 1] else t
  }

  lemma FrontStep(s: State)
    requires Inv(s) && s.served < |s.arrivals| && Next(s) == s.arrivals[s.served]
    ensures var s' := Step(s, Next(s), true);
            && s'.arrivals == s.arrivals
            && (s'.served == s.served + 1 || (s'.served == s.served && FrontPatience(s') < FrontPatience(s)))
  {
    var t := s.arrivals[s.served];
    assert Holds(s, s.served);
    assert Fine(s, t);
  }

  lemma SuccessorStep(s: State)
    requires Inv(s) && s.served < |s.arrivals| && Next(s) != s.arrivals[s.served]
    ensures var s' := Step(s, Next(s), true);
            s'.arrivals == s.arrivals && s'.served == s.served && FrontPatience(s') < FrontPatience(s)
  {
    var t, u := s.arrivals[s.served], s.arrivals[s.served + 1];
    assert Holds(s, s.served) && Holds(s, s.served + 1);
    assert Fine(s, t);
    assert s.ths[u].pc.Linking?;
    Predecessor(s, u);
  }

  /** From every reachable state there is a run, of threads that are queued, in which everybody who is queued
      enters and leaves, in order. */
  lemma {:induction false} EveryoneEnters(s: State) returns (acts: seq<Action>)
    requires Inv(s)
    ensures var s' := Run(s, acts);
            s'.arrivals == s.arrivals && s'.served == |s.arrivals| && s'.entries == s.arrivals && s'.tail == None
    decreases |s.arrivals| - s.served, FrontPatience(s)
  {
    if s.served == |s.arrivals| {
      acts := [];
    } else {
      if Next(s) == s.arrivals[s.served] {
        FrontStep(s);
      } else {
        SuccessorStep(s);
      }
      StepKeepsInv(s, Next(s), true);
      var rest := EveryoneEnters(Step(s, Next(s), true));
      acts := [Action(Next(s), true)] + rest;
      assert acts[1..] == rest;
    }
  }
}
