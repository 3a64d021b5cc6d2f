/** The mailbox of a service: any number of threads run service_enqueue, service_stop, service_start
    and, as workers, inLoop_eventWatcher_notify and doPendingFunctors.

    Every atomic operation of the source (a compare-and-swap, a fetch-and-add, a load, a section under
    the spin lock, handing the node to the event loop) is one step of one thread.  The model ends with
    the dispatch of the STOP event. */
module Mailbox {
  datatype Event = Message(id: nat) | Stop

  /** What a thread will do next. */
  datatype Thread =
    | Idle
    // service_enqueue and service_stop
    | Admitted(e: Event)      // bRunning was true: count the event
    | Counted(e: Event)       // uiQueueSize was raised: insert the event
    | Notifying               // swap the watcher from 1 to 2
    | Posting                 // the swap succeeded: hand the node to the event loop
    // service_start
    | Starting                // fnStart runs; then start the watcher
    // a worker
    | Taken                   // took the node: swap the watcher from 2 to 3
    | Moving                  // take over the pending queue
    | Batch(local: seq<Event>)      // remove the first event of the batch and dispatch it
    | Calling(local: seq<Event>)    // the callback runs
    | Drained                 // the batch is done: look at uiQueueSize
    | Resetting               // nothing was pending: swap the watcher from 3 to 1
    | Checking                // after the reset: look at uiQueueSize
    | Yielding                // other services wait: swap the watcher from 3 to 1, then notify
    | Halted(local: seq<Event>)     // the STOP event was dispatched

  /** What the threads share.  The watcher's iStatus is 0 (closed), 1 (started), 2 (notified) or 3
      (running). */
  datatype Shared = Shared(
    status: int,
    posted: nat,              // copies of the watcher's node in the hands of the event loop
    pending: seq<Event>,      // queuePending
    size: int,                // uiQueueSize
    running: bool,            // bRunning
    failed: bool,             // fnStart returned false
    stopped: bool,            // the STOP event was dispatched
    inserted: seq<Event>,     // history: everything inserted
    processed: seq<Event>     // history: everything dispatched
  )

  datatype State = State(sh: Shared, threads: seq<Thread>)

  /** What the environment decides: what an idle thread sets out to do, whether fnStart succeeds,
      and whether service_waitForCount is positive. */
  datatype Choice = Send(e: Event) | StopService | Work | Yes | No

  /** The next atomic operation of a thread. */
  function Move(th: Thread, sh: Shared, c: Choice): (Thread, Shared) {
    match th
    case Idle => Depart(sh, c)
    case Admitted(e) => (Counted(e), sh.(size := sh.size + 1))
    case Counted(e) => (Notifying, sh.(pending := sh.pending + [e], inserted := sh.inserted + [e]))
    case Notifying => if sh.status == 1 then (Posting, sh.(status := 2)) else (Idle, sh)
    case Posting => (Idle, sh.(posted := sh.posted + 1))
    case Starting =>
      if c == No then (Idle, sh.(running := false, failed := true))
      else (Notifying, sh.(status := if sh.status == 0 then 1 else sh.status))
    case Taken => if sh.status == 2 then (Moving, sh.(status := 3)) else (Idle, sh)
    case Moving => if sh.pending == [] then (Resetting, sh) else (Batch(sh.pending), sh.(pending := []))
    case Batch(local) =>
      if local == [] then (Drained, sh)
      else
        var sh' := sh.(size := sh.size - 1, processed := sh.processed + [local[0]]);
        if local[0].Stop? then (Halted(local[1..]), sh'.(stopped := true)) else (Calling(local[1..]), sh')
    case Calling(local) => (if local == [] then Drained else Batch(local), sh)
    case Drained => (if sh.size > 0 && c == Yes then Yielding else Moving, sh)
    case Resetting => (Checking, sh.(status := if sh.status == 3 then 1 else sh.status))
    case Checking => (if sh.size > 0 then Notifying else Idle, sh)
    case Yielding => (Notifying, sh.(status := if sh.status == 3 then 1 else sh.status))
    case Halted(_) => (th, sh)
  }

  /** An idle thread starts to send, to stop the service, or to work for the event loop. */
  function Depart(sh: Shared, c: Choice): (Thread, Shared) {
    match c
    case Send(e) => if sh.running && e.Message? then (Admitted(e), sh) else (Idle, sh)
    case StopService => if sh.running then (Admitted(Stop), sh.(running := false)) else (Idle, sh)
    case Work => if sh.posted > 0 then (Taken, sh.(posted := sh.posted - 1)) else (Idle, sh)
    case Yes => (Idle, sh)
    case No => (Idle, sh)
  }

  predicate Enabled(s: State, t: nat) {
    t < |s.threads| && !s.sh.stopped
  }

  function Step(s: State, t: nat, c: Choice): State {
    if !Enabled(s, t) then s
    else
      var (th, sh) := Move(s.threads[t], s.sh, c);
      State(sh, s.threads[t := th])
  }

  datatype Action = Action(t: nat, c: Choice)

  /** A run: the threads take the steps in `acts`, in any order and with any choices. */
  function Run(s: State, acts: seq<Action>): State
    decreases |acts|
  {
    if acts == [] then s else Run(Step(s, acts[0].t, acts[0].c), acts[1..])
  }

  /** Just after service_start created the watcher: thread 0 is about to run fnStart, `n` others idle. */
  function Init(n: nat): State {
    State(Shared(0, 0, [], 0, true, false, false, [], []), [Starting] + seq(n, _ => Idle))
  }

  // ---------- Counting threads ----------

  datatype Kind = Starter | NodeHolder | Runner

  ghost predicate Is(th: Thread, k: Kind) {
    match k
    case Starter => th.Starting?
    case NodeHolder => th.Posting? || th.Taken?
    case Runner =>
      th.Moving? || th.Batch? || th.Calling? || th.Drained? || th.Resetting? || th.Yielding? || th.Halted?
  }

  ghost function One(b: bool): nat {
    if b then 1 else 0
  }

  ghost function Tally(ths: seq<Thread>, k: Kind): nat {
    if ths == [] then 0 else One(Is(ths[0], k)) + Tally(ths[1..], k)
  }

  /** The events that a thread has counted and that are not in the pending queue. */
  ghost function Local(th: Thread): seq<Event> {
    if th.Batch? || th.Calling? || th.Halted? then th.local else []
  }

  ghost function Weight(th: Thread): nat {
    One(th.Counted?) + |Local(th)|
  }

  ghost function Load(ths: seq<Thread>): nat {
    if ths == [] then 0 else Weight(ths[0]) + Load(ths[1..])
  }

  ghost function Locals(ths: seq<Thread>): seq<Event> {
    if ths == [] then [] else Local(ths[0]) + Locals(ths[1..])
  }

  lemma {:induction false} TallyUpdate(ths: seq<Thread>, t: nat, th: Thread, k: Kind)
    requires t < |ths|
    ensures Tally(ths[t := th], k) + One(Is(ths[t], k)) == Tally(ths, k) + One(Is(th, k))
    ensures Load(ths[t := th]) + Weight(ths[t]) == Load(ths) + Weight(th)
  {
    if t > 0 {
      assert ths[t := th][1..] == ths[1..][t - 1 := th];
      TallyUpdate(ths[1..], t - 1, th, k);
    } else {
      assert ths[t := th][1..] == ths[1..];
    }
  }

  lemma {:induction false} TallyOne(ths: seq<Thread>, k: Kind)
    ensures Tally(ths, k) == 0 <==> forall t | 0 <= t < |ths| :: !Is(ths[t], k)
    ensures Tally(ths, k) <= 1 ==> forall t, u | 0 <= t < u < |ths| :: !(Is(ths[t], k) && Is(ths[u], k))
  {
    if ths != [] {
      TallyOne(ths[1..], k);
      assert forall t | 1 <= t < |ths| :: ths[t] == ths[1..][t - 1];
    }
  }

  /** When `t` is the only runner, the local batches are those of `t`. */
  lemma {:induction false} LocalsOfRunner(ths: seq<Thread>, t: nat)
    requires t < |ths| && forall u | 0 <= u < |ths| && u != t :: !Is(ths[u], Runner)
    ensures Locals(ths) == Local(ths[t])
  {
    if t == 0 {
      LocalsNone(ths[1..]);
    } else {
      LocalsOfRunner(ths[1..], t - 1);
    }
  }

  lemma {:induction false} LocalsNone(ths: seq<Thread>)
    requires forall u | 0 <= u < |ths| :: !Is(ths[u], Runner)
    ensures Locals(ths) == []
  {
    if ths != [] {
      LocalsNone(ths[1..]);
    }
  }

  lemma {:induction false} LocalsSame(ths: seq<Thread>, t: nat, th: Thread)
    requires t < |ths| && Local(th) == Local(ths[t])
    ensures Locals(ths[t := th]) == Locals(ths)
  {
    if t > 0 {
      assert ths[t := th][1..] == ths[1..][t - 1 := th];
      LocalsSame(ths[1..], t - 1, th);
    } else {
      assert ths[t := th][1..] == ths[1..];
    }
  }

  lemma {:induction false} MovedLocals(ths: seq<Thread>, t: nat, th: Thread)
    requires t < |ths| && Tally(ths, Runner) <= 1
    requires Is(ths[t], Runner) || Local(th) == [] || Tally(ths, Runner) == 0
    ensures Locals(ths[t := th]) ==
            if Is(ths[t], Runner) || Tally(ths, Runner) == 0 then Local(th) else Locals(ths)
    ensures Is(ths[t], Runner) ==> Locals(ths) == Local(ths[t])
    ensures Tally(ths, Runner) == 0 ==> Locals(ths) == []
  {
    TallyOne(ths, Runner);
    if Is(ths[t], Runner) {
      LocalsOfRunner(ths, t);
      LocalsOfRunner(ths[t := th], t);
    } else if Tally(ths, Runner) == 0 {
      LocalsNone(ths);
      LocalsOfRunner(ths[t := th], t);
    } else {
      LocalsSame(ths, t, th);
    }
  }

  // ---------- The invariant ----------

  ghost predicate IsAwake(th: Thread) {
    th.Notifying? || th.Starting? || th.Checking?
  }

  /** Some thread still has a notification ahead of it. */
  ghost predicate Awake(ths: seq<Thread>) {
    exists t | 0 <= t < |ths| :: IsAwake(ths[t])
  }

  /** Who holds what. */
  ghost predicate Ownership(s: State) {
    && 0 <= s.sh.status <= 3
    // the watcher is closed exactly while the starter is at work, or after it failed
    && Tally(s.threads, Starter) + One(s.sh.failed) == One(s.sh.status == 0)
    // the node is in one place exactly while the watcher is notified
    && s.sh.posted + Tally(s.threads, NodeHolder) == One(s.sh.status == 2)
    // one runner exactly while the watcher is running
    && Tally(s.threads, Runner) == One(s.sh.status == 3)
    && (forall t | 0 <= t < |s.threads| :: s.threads[t].Halted? ==> s.sh.stopped)
  }

  /** Nothing is lost, duplicated or reordered. */
  ghost predicate Conservation(s: State) {
    && s.sh.size == |s.sh.pending| + Load(s.threads)
    && s.sh.inserted == s.sh.processed + Locals(s.threads) + s.sh.pending
  }

  /** No lost wake-up. */
  ghost predicate Woken(s: State) {
    s.sh.pending != [] ==> s.sh.status == 2 || s.sh.status == 3 || s.sh.failed || Awake(s.threads)
  }

  ghost predicate Inv(s: State) {
    Ownership(s) && Conservation(s) && Woken(s)
  }

  /** A thread that is of a kind contributes to its tally. */
  lemma {:induction false} Counts(ths: seq<Thread>, t: nat, k: Kind)
    requires t < |ths| && Is(ths[t], k)
    ensures Tally(ths, k) >= 1
  {
    TallyOne(ths, k);
  }

  /** What a thread's place in the protocol says of what is shared. */
  ghost predicate Fits(th: Thread, sh: Shared) {
    && 0 <= sh.status <= 3 && sh.size >= |sh.pending| + Weight(th)
    && (Is(th, Starter) ==> sh.status == 0 && !sh.failed)
    && (Is(th, NodeHolder) ==> sh.status == 2 && sh.posted == 0)
    && (Is(th, Runner) ==> sh.status == 3 && sh.inserted == sh.processed + Local(th) + sh.pending)
    && (sh.posted > 0 ==> sh.status == 2)
  }

  lemma Station(s: State, t: nat)
    requires Ownership(s) && Conservation(s) && t < |s.threads|
    ensures Fits(s.threads[t], s.sh)
  {
    LoadAtLeast(s.threads, t);
    if Is(s.threads[t], Starter) { Counts(s.threads, t, Starter); }
    if Is(s.threads[t], NodeHolder) { Counts(s.threads, t, NodeHolder); }
    if Is(s.threads[t], Runner) {
      Counts(s.threads, t, Runner);
      TallyOne(s.threads, Runner);
      LocalsOfRunner(s.threads, t);
    }
  }

  lemma {:induction false} LoadAtLeast(ths: seq<Thread>, t: nat)
    requires t < |ths|
    ensures Load(ths) >= Weight(ths[t])
  {
    if t > 0 {
      LoadAtLeast(ths[1..], t - 1);
    }
  }

  /** How a move changes hands: the starter, the node and the runner. */
  ghost predicate StartTrades(th: Thread, sh: Shared, th': Thread, sh': Shared) {
    One(Is(th', Starter)) + One(sh'.failed) + One(sh.status == 0)
    == One(Is(th, Starter)) + One(sh.failed) + One(sh'.status == 0)
  }

  ghost predicate NodeTrades(th: Thread, sh: Shared, th': Thread, sh': Shared) {
    sh'.posted + One(Is(th', NodeHolder)) + One(sh.status == 2)
    == sh.posted + One(Is(th, NodeHolder)) + One(sh'.status == 2)
  }

  ghost predicate RunTrades(th: Thread, sh: Shared, th': Thread, sh': Shared) {
    One(Is(th', Runner)) + One(sh.status == 3) == One(Is(th, Runner)) + One(sh'.status == 3)
  }

  lemma MoveStartTrades(th: Thread, sh: Shared, c: Choice)
    requires Fits(th, sh)
    ensures var (th', sh') := Move(th, sh, c); StartTrades(th, sh, th', sh') && 0 <= sh'.status <= 3
  {}

  lemma MoveNodeTrades(th: Thread, sh: Shared, c: Choice)
    requires Fits(th, sh)
    ensures var (th', sh') := Move(th, sh, c); NodeTrades(th, sh, th', sh')
  {}

  lemma MoveRunTrades(th: Thread, sh: Shared, c: Choice)
    requires Fits(th, sh)
    ensures var (th', sh') := Move(th, sh, c); RunTrades(th, sh, th', sh')
  {}

  /** How a move carries events between the queue, a batch and the history. */
  ghost predicate Carries(th: Thread, sh: Shared, th': Thread, sh': Shared) {
    if Is(th, Runner) then sh'.inserted == sh'.processed + Local(th') + sh'.pending
    else
      && Local(th') == [] && sh'.processed == sh.processed
      && exists more :: sh'.pending == sh.pending + more && sh'.inserted == sh.inserted + more
  }

  lemma MoveWeighs(th: Thread, sh: Shared, c: Choice)
    requires Fits(th, sh)
    ensures var (th', sh') := Move(th, sh, c);
            sh'.size - sh.size == |sh'.pending| - |sh.pending| + Weight(th') - Weight(th)
  {
    if th.Idle? {
      IdleWeighs(sh, c);
    }
  }

  lemma IdleWeighs(sh: Shared, c: Choice)
    ensures var (th', sh') := Depart(sh, c); Weight(th') == 0 && sh'.size == sh.size && sh'.pending == sh.pending
  {}

  lemma MoveCarries(th: Thread, sh: Shared, c: Choice)
    requires Fits(th, sh)
    ensures var (th', sh') := Move(th, sh, c); Carries(th, sh, th', sh')
  {
    if Is(th, Runner) {
      RunnerCarries(th, sh, c);
    } else {
      OtherCarries(th, sh, c);
    }
  }

  lemma RunnerCarries(th: Thread, sh: Shared, c: Choice)
    requires Fits(th, sh) && Is(th, Runner)
    ensures var (th', sh') := Move(th, sh, c); sh'.inserted == sh'.processed + Local(th') + sh'.pending
  {
    if th.Batch? && th.local != [] {
      var local := th.local;
      assert sh.processed + local + sh.pending == (sh.processed + [local[0]]) + local[1..] + sh.pending;
    } else if th.Moving? {
      assert sh.processed + [] + sh.pending == sh.processed + sh.pending + [];
    }
  }

  lemma OtherCarries(th: Thread, sh: Shared, c: Choice)
    requires !Is(th, Runner)
    ensures var (th', sh') := Move(th, sh, c);
            && Local(th') == [] && sh'.processed == sh.processed
            && exists more :: sh'.pending == sh.pending + more && sh'.inserted == sh.inserted + more
  {
    var (_, sh') := Move(th, sh, c);
    var more := if th.Counted? then [th.e] else [];
    assert sh'.pending == sh.pending + more && sh'.inserted == sh.inserted + more;
  }

  lemma StepKeepsOwnership(s: State, t: nat, c: Choice)
    requires Ownership(s) && Conservation(s) && Enabled(s, t)
    ensures Ownership(Step(s, t, c))
  {
    var (th', sh') := Move(s.threads[t], s.sh, c);
    Station(s, t);
    MoveStartTrades(s.threads[t], s.sh, c);
    MoveNodeTrades(s.threads[t], s.sh, c);
    MoveRunTrades(s.threads[t], s.sh, c);
    TallyUpdate(s.threads, t, th', Starter);
    TallyUpdate(s.threads, t, th', NodeHolder);
    TallyUpdate(s.threads, t, th', Runner);
  }

  lemma StepKeepsConservation(s: State, t: nat, c: Choice)
    requires Ownership(s) && Conservation(s) && Enabled(s, t)
    ensures Conservation(Step(s, t, c))
  {
    var th := s.threads[t];
    var (th', sh') := Move(th, s.sh, c);
    Station(s, t);
    MoveWeighs(th, s.sh, c);
    MoveCarries(th, s.sh, c);
    TallyUpdate(s.threads, t, th', Runner);
    if Is(th, Runner) {
      MovedLocals(s.threads, t, th');
    } else {
      var more :| sh'.pending == s.sh.pending + more && sh'.inserted == s.sh.inserted + more;
      LocalsSame(s.threads, t, th');
    }
  }

  /** A move that leaves events pending keeps the watcher busy, or the mover awake, or lets go of
      neither: only a failed notification drops the guard, and then the watcher is not idle. */
  lemma MoveWakes(th: Thread, sh: Shared, c: Choice)
    requires Fits(th, sh)
    ensures var (th', sh') := Move(th, sh, c);
            sh'.pending != [] ==>
              || sh'.status == 2 || sh'.status == 3 || sh'.failed || IsAwake(th')
              || (!IsAwake(th) && sh'.pending == sh.pending && sh'.status == sh.status && sh'.failed == sh.failed)
              || sh'.status == 0
  {}

  /** While the watcher is closed and has not failed, the starter is at work. */
  lemma StarterAwake(s: State)
    requires Ownership(s) && s.sh.status == 0 && !s.sh.failed
    ensures Awake(s.threads)
  {
    TallyOne(s.threads, Starter);
    var u :| 0 <= u < |s.threads| && Is(s.threads[u], Starter);
    assert IsAwake(s.threads[u]);
  }

  lemma {:induction false} StillAwake(ths: seq<Thread>, t: nat, th: Thread)
    requires t < |ths|
    ensures IsAwake(th) ==> Awake(ths[t := th])
    ensures Awake(ths) && !IsAwake(ths[t]) ==> Awake(ths[t := th])
  {
    if IsAwake(th) {
      assert IsAwake(ths[t := th][t]);
    } else if Awake(ths) && !IsAwake(ths[t]) {
      var u :| 0 <= u < |ths| && IsAwake(ths[u]);
      assert ths[t := th][u] == ths[u];
    }
  }

  lemma StepKeepsWoken(s: State, t: nat, c: Choice)
    requires Inv(s) && Enabled(s, t)
    ensures Woken(Step(s, t, c))
  {
    var (th', sh') := Move(s.threads[t], s.sh, c);
    Station(s, t);
    MoveWakes(s.threads[t], s.sh, c);
    StillAwake(s.threads, t, th');
    StepKeepsOwnership(s, t, c);
    if sh'.status == 0 && !sh'.failed {
      StarterAwake(Step(s, t, c));
    }
  }

  lemma StepKeepsInv(s: State, t: nat, c: Choice)
    requires Inv(s)
    ensures Inv(Step(s, t, c))
  {
    if Enabled(s, t) {
      StepKeepsOwnership(s, t, c);
      StepKeepsConservation(s, t, c);
      StepKeepsWoken(s, t, c);
    }
  }

  // ---------- What holds in every run ----------

  lemma {:induction false} RunKeepsInv(s: State, acts: seq<Action>)
    requires Inv(s)
    ensures Inv(Run(s, acts))
    decreases |acts|
  {
    if acts != [] {
      StepKeepsInv(s, acts[0].t, acts[0].c);
      RunKeepsInv(Step(s, acts[0].t, acts[0].c), acts[1..]);
    }
  }

  lemma InitInv(n: nat)
    ensures Inv(Init(n))
  {
    var idle := seq(n, _ => Idle);
    var ths := [Starting] + idle;
    assert ths[1..] == idle;
    TallyOne(idle, Starter);
    TallyOne(ths, NodeHolder);
    TallyOne(ths, Runner);
    LocalsNone(ths);
    IdleLoad(idle);
  }

  lemma {:induction false} IdleLoad(ths: seq<Thread>)
    requires forall t | 0 <= t < |ths| :: ths[t] == Idle
    ensures Load(ths) == 0
  {
    if ths != [] {
      IdleLoad(ths[1..]);
    }
  }

  lemma {:induction false} Always(n: nat, acts: seq<Action>)
    ensures Inv(Run(Init(n), acts))
  {
    InitInv(n);
    RunKeepsInv(Init(n), acts);
  }

  /** No lost wake-up: while events are pending, the watcher is notified or running, or some thread
      still has a notification ahead of it (unless fnStart failed). */
  lemma {:induction false} NoLostWakeUp(n: nat, acts: seq<Action>)
    ensures var s := Run(Init(n), acts);
            s.sh.pending != [] && !s.sh.failed ==>
              || s.sh.status == 2 || s.sh.status == 3
              || exists t | 0 <= t < |s.threads| ::
                   s.threads[t].Notifying? || s.threads[t].Starting? || (s.threads[t].Checking? && s.sh.size > 0)
  {
    Always(n, acts);
    var s := Run(Init(n), acts);
    if s.sh.pending != [] && Awake(s.threads) {
      var t :| 0 <= t < |s.threads| && IsAwake(s.threads[t]);
      LoadAtLeast(s.threads, t);
    }
  }

  /** No thread has anything left to do. */
  ghost predicate Quiet(s: State) {
    s.sh.posted == 0 && forall t | 0 <= t < |s.threads| :: s.threads[t] == Idle
  }

  /** A quiescent system has dispatched every event, once and in order. */
  lemma {:induction false} QuietMeansDelivered(n: nat, acts: seq<Action>)
    ensures var s := Run(Init(n), acts);
            Quiet(s) && !s.sh.failed ==>
              s.sh.pending == [] && s.sh.processed == s.sh.inserted && s.sh.size == 0 && s.sh.status == 1
  {
    Always(n, acts);
    var s := Run(Init(n), acts);
    if Quiet(s) && !s.sh.failed {
      QuietInv(s);
    }
  }

  lemma QuietInv(s: State)
    requires Inv(s) && Quiet(s) && !s.sh.failed
    ensures s.sh.pending == [] && s.sh.processed == s.sh.inserted && s.sh.size == 0 && s.sh.status == 1
  {
    TallyOne(s.threads, Starter);
    TallyOne(s.threads, NodeHolder);
    TallyOne(s.threads, Runner);
    LocalsNone(s.threads);
    IdleLoad(s.threads);
    assert s.sh.processed + [] + [] == s.sh.processed;
  }

  /** Exclusive dispatch: at most one thread is between taking the watcher and resetting it, and it
      is there exactly while the status is 3; the node is in exactly one place exactly while the
      status is 2; callbacks never overlap. */
  lemma {:induction false} ExclusiveDispatch(n: nat, acts: seq<Action>)
    ensures var s := Run(Init(n), acts);
            && (forall t, u | 0 <= t < u < |s.threads| :: !(Is(s.threads[t], Runner) && Is(s.threads[u], Runner)))
            && ((exists t | 0 <= t < |s.threads| :: Is(s.threads[t], Runner)) <==> s.sh.status == 3)
            && s.sh.posted + Tally(s.threads, NodeHolder) == (if s.sh.status == 2 then 1 else 0)
            && (forall t, u | 0 <= t < u < |s.threads| :: !(s.threads[t].Calling? && s.threads[u].Calling?))
  {
    Always(n, acts);
    TallyOne(Run(Init(n), acts).threads, Runner);
  }

  /** FIFO and conservation: what was dispatched, then the batch in hand, then what is pending, is
      what was inserted; and uiQueueSize counts the undispatched events and those about to be
      inserted, so it never falls below zero. */
  lemma {:induction false} FifoConservation(n: nat, acts: seq<Action>)
    ensures var s := Run(Init(n), acts);
            && s.sh.inserted == s.sh.processed + Locals(s.threads) + s.sh.pending
            && s.sh.processed <= s.sh.inserted
            && s.sh.size == |s.sh.pending| + Load(s.threads)
            && (forall t | 0 <= t < |s.threads| && s.threads[t].Batch? :: s.sh.size >= |s.threads[t].local|)
  {
    Always(n, acts);
    var s := Run(Init(n), acts);
    assert s.sh.inserted == s.sh.processed + (Locals(s.threads) + s.sh.pending);
    forall t | 0 <= t < |s.threads| && s.threads[t].Batch?
      ensures s.sh.size >= |s.threads[t].local|
    {
      LoadAtLeast(s.threads, t);
    }
  }

  // ---------- Nothing can get stuck ----------

  /** Steps that lie ahead of the threads that are not notifying or working yet. */
  ghost function Ahead(th: Thread): nat {
    match th
    case Admitted(_) => 2
    case Counted(_) => 1
    case Starting => 1
    case _ => 0
  }

  /** An upper bound on the moves a thread makes before it idles or dispatches an event; `busy` says
      that undispatched events are left. */
  ghost function Patience(th: Thread, busy: bool): nat {
    match th
    case Notifying => 7
    case Posting => 6
    case Taken => 4
    case Moving => 3
    case Batch(local) => if local == [] then 5 else 2
    case Calling(local) => if local == [] then 5 else 3
    case Drained => 4
    case Resetting => if busy then 10 else 2
    case Checking => if busy then 9 else 1
    case Yielding => 8
    case _ => 0
  }

  ghost function AheadAll(ths: seq<Thread>): nat {
    if ths == [] then 0 else Ahead(ths[0]) + AheadAll(ths[1..])
  }

  ghost function PatienceAll(ths: seq<Thread>, busy: bool): nat {
    if ths == [] then 0 else Patience(ths[0], busy) + PatienceAll(ths[1..], busy)
  }

  lemma {:induction false} SumsUpdate(ths: seq<Thread>, t: nat, th: Thread, busy: bool)
    requires t < |ths|
    ensures AheadAll(ths[t := th]) + Ahead(ths[t]) == AheadAll(ths) + Ahead(th)
    ensures PatienceAll(ths[t := th], busy) + Patience(ths[t], busy) == PatienceAll(ths, busy) + Patience(th, busy)
  {
    if t > 0 {
      assert ths[t := th][1..] == ths[1..][t - 1 := th];
      SumsUpdate(ths[1..], t - 1, th, busy);
    } else {
      assert ths[t := th][1..] == ths[1..];
    }
  }

  lemma {:induction false} NoneAhead(ths: seq<Thread>)
    requires AheadAll(ths) == 0
    ensures forall t | 0 <= t < |ths| :: Ahead(ths[t]) == 0
  {
    if ths != [] {
      NoneAhead(ths[1..]);
      assert forall t | 1 <= t < |ths| :: ths[t] == ths[1..][t - 1];
    }
  }

  lemma {:induction false} LoadIsLocal(ths: seq<Thread>)
    requires AheadAll(ths) == 0
    ensures Load(ths) == |Locals(ths)|
  {
    if ths != [] {
      LoadIsLocal(ths[1..]);
    }
  }

  ghost predicate Busy(sh: Shared) {
    |sh.inserted| > |sh.processed|
  }

  /** The choice that lets a thread get on with what it has begun. */
  ghost function GetOn(th: Thread): Choice {
    if th.Idle? then Work else if th.Starting? then Yes else No
  }

  /** With nothing ahead, every move gets on: it dispatches an event, or uses up patience. */
  lemma MoveGetsOn(th: Thread, sh: Shared)
    requires Fits(th, sh) && Ahead(th) == 0 && !th.Halted? && (th.Idle? ==> sh.posted > 0)
    requires sh.size == |sh.inserted| - |sh.processed|
    ensures var (th', sh') := Move(th, sh, GetOn(th));
            && Ahead(th') == 0 && sh'.inserted == sh.inserted && sh'.failed == sh.failed
            && (|sh'.processed| > |sh.processed| ||
                (sh'.processed == sh.processed
                 && Patience(th', Busy(sh)) + 5 * sh'.posted < Patience(th, Busy(sh)) + 5 * sh.posted))
  {}

  lemma MoveAhead(th: Thread, sh: Shared)
    requires Ahead(th) > 0
    ensures var (th', sh') := Move(th, sh, GetOn(th));
            Ahead(th') < Ahead(th) && sh'.failed == sh.failed && sh.inserted <= sh'.inserted
  {}

  lemma StepGetsOn(s: State, t: nat)
    requires Inv(s) && Enabled(s, t) && AheadAll(s.threads) == 0 && (s.threads[t].Idle? ==> s.sh.posted > 0)
    ensures var s' := Step(s, t, GetOn(s.threads[t]));
            && AheadAll(s'.threads) == 0 && s'.sh.inserted == s.sh.inserted && s'.sh.failed == s.sh.failed
            && (|s'.sh.processed| > |s.sh.processed| ||
                (s'.sh.processed == s.sh.processed
                 && PatienceAll(s'.threads, Busy(s.sh)) + 5 * s'.sh.posted
                    < PatienceAll(s.threads, Busy(s.sh)) + 5 * s.sh.posted))
  {
    var th := s.threads[t];
    NoneAhead(s.threads);
    Station(s, t);
    LoadIsLocal(s.threads);
    MoveGetsOn(th, s.sh);
    SumsUpdate(s.threads, t, Move(th, s.sh, GetOn(th)).0, Busy(s.sh));
  }

  lemma StepAhead(s: State, t: nat)
    requires Enabled(s, t) && Ahead(s.threads[t]) > 0
    ensures var s' := Step(s, t, GetOn(s.threads[t]));
            AheadAll(s'.threads) < AheadAll(s.threads) && s'.sh.failed == s.sh.failed && s.sh.inserted <= s'.sh.inserted
  {
    var th := s.threads[t];
    MoveAhead(th, s.sh);
    SumsUpdate(s.threads, t, Move(th, s.sh, GetOn(th)).0, false);
  }

  /** A thread that can get on, when not everything is done. */
  lemma SomeoneCan(s: State) returns (t: nat)
    requires Inv(s) && !s.sh.stopped && |s.threads| > 0 && !Quiet(s)
    ensures t < |s.threads|
    ensures Ahead(s.threads[t]) > 0 || (AheadAll(s.threads) == 0 && (s.threads[t].Idle? ==> s.sh.posted > 0))
  {
    if AheadAll(s.threads) > 0 {
      t := FirstAhead(s.threads);
    } else if s.sh.posted > 0 {
      t := 0;
    } else {
      t :| t < |s.threads| && s.threads[t] != Idle;
    }
  }

  lemma {:induction false} FirstAhead(ths: seq<Thread>) returns (t: nat)
    requires AheadAll(ths) > 0
    ensures t < |ths| && Ahead(ths[t]) > 0
  {
    if Ahead(ths[0]) > 0 {
      t := 0;
    } else {
      t := FirstAhead(ths[1..]);
      t := t + 1;
    }
  }

  /** From every reachable state, letting the threads get on with what they have begun, without any
      new sends, delivers everything that was inserted or is dispatched up to STOP. */
  lemma {:induction false} CanDeliver(s: State) returns (acts: seq<Action>)
    requires Inv(s) && !s.sh.failed && |s.threads| > 0
    ensures var s' := Run(s, acts);
            && s.sh.inserted <= s'.sh.inserted && !s'.sh.failed
            && (s'.sh.stopped || (Quiet(s') && s'.sh.processed == s'.sh.inserted))
    ensures forall i | 0 <= i < |acts| :: !acts[i].c.Send? && !acts[i].c.StopService?
    decreases AheadAll(s.threads), |s.sh.inserted| - |s.sh.processed|,
              PatienceAll(s.threads, Busy(s.sh)) + 5 * s.sh.posted
  {
    acts := [];
    if Quiet(s) {
      QuietInv(s);
    } else if !s.sh.stopped {
      var t := SomeoneCan(s);
      var c := GetOn(s.threads[t]);
      if Ahead(s.threads[t]) > 0 {
        StepAhead(s, t);
      } else {
        StepGetsOn(s, t);
      }
      StepKeepsInv(s, t, c);
      ProcessedBound(Step(s, t, c));
      var rest := CanDeliver(Step(s, t, c));
      acts := [Action(t, c)] + rest;
      assert acts[1..] == rest;
    }
  }

  lemma ProcessedBound(s: State)
    requires Inv(s)
    ensures |s.sh.processed| <= |s.sh.inserted|
  {}
}
