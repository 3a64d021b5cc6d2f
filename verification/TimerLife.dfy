/** The life of one timer of eventTimer_t.h and eventTimer_t.c that is started once, while the loop runs:
    every interleaving of the starting thread, stopping threads, and the loop's start message, stop
    message and expiry.  Each atomic operation of the callers is a step; a function of the loop is one
    step, because bActive and the heap belong to the loop and it touches bRunning only once. */
module TimerLife {
  /** How far eventTimer_start or the one eventTimer_stop that succeeds has come: bRunning was swapped,
      the reference was added, the message is posted, the loop has run it. */
  datatype Call = NotYet | Swapped | Counted | Posted | Done

  /** bOnce, and whether uiIntervalMs is 0. */
  datatype Kind = Kind(once: bool, immediate: bool)

  /** `active` is bActive: the node is in the loop's heap (EventTimers.EventIO.Held); `owned` is whether the
      creator still holds its reference; `fired` and `closes` count the calls of fn and fnCloseCallback. */
  datatype Timer = Timer(running: bool, active: bool, refs: int, owned: bool,
                         start: Call, stop: Call, fired: nat, closes: nat)

  datatype Step =
    | StartSwap | StartCount | StartPost      // eventTimer_start
    | StopSwap | StopCount | StopPost         // eventTimer_stop by an owner of the timer
    | StopInLoop                              // eventTimer_stop from a callback on the loop
    | RunStart | RunStop                      // the loop runs a message
    | Expire                                  // eventTimer_run
    | Drop                                    // the owner releases its reference

  function Closed(t: Timer): Timer {
    t.(closes := t.closes + 1, refs := t.refs - 1)
  }

  /** fn is called if bRunning could be swapped back to false. */
  function FireOnce(t: Timer): Timer {
    if t.running then t.(running := false, fired := t.fired + 1) else t
  }

  predicate Busy(c: Call) {
    c.Swapped? || c.Counted?
  }

  function Next(k: Kind, t: Timer, s: Step): Timer {
    match s
    case StartSwap =>
      if t.owned && t.start.NotYet? && !t.running then t.(running := true, start := Swapped) else t
    case StartCount => if t.start.Swapped? then t.(refs := t.refs + 1, start := Counted) else t
    case StartPost => if t.start.Counted? then t.(start := Posted) else t
    case StopSwap => if t.owned && t.running then t.(running := false, stop := Swapped) else t
    case StopCount => if t.stop.Swapped? then t.(refs := t.refs + 1, stop := Counted) else t
    case StopPost => if t.stop.Counted? then t.(stop := Posted) else t
    case StopInLoop =>
      if t.start.Done? && t.running then RunStopMessage(t.(running := false, refs := t.refs + 1)) else t
    case RunStart => if t.start.Posted? then RunStartMessage(k, t) else t
    case RunStop => if t.stop.Posted? then RunStopMessage(t) else t
    case Expire => if t.active then Expired(k, t) else t
    case Drop => if t.owned && !Busy(t.start) && !Busy(t.stop) then t.(owned := false, refs := t.refs - 1) else t
  }

  /** inLoop_eventTimer_start */
  function RunStartMessage(k: Kind, t: Timer): Timer {
    if k.immediate then Closed(FireOnce(t.(start := Done)))
    else if t.running then t.(start := Done, active := true)
    else Closed(t.(start := Done))
  }

  /** inLoop_eventTimer_stop */
  function RunStopMessage(t: Timer): Timer {
    var u := if t.active then Closed(t.(active := false)) else t;
    u.(refs := u.refs - 1, stop := Done)
  }

  /** eventTimer_run: the node leaves the heap, and goes back if the timer repeats. */
  function Expired(k: Kind, t: Timer): Timer {
    if k.once then Closed(FireOnce(t.(active := false)))
    else if t.running then t.(fired := t.fired + 1)
    else Closed(t.(active := false))
  }

  function Run(k: Kind, t: Timer, steps: seq<Step>): Timer
    decreases |steps|
  {
    if steps == [] then t else Run(k, Next(k, t, steps[0]), steps[1..])
  }

  /** createEventTimer */
  function Init(): Timer {
    Timer(false, false, 1, true, NotYet, NotYet, 0, 0)
  }

  // ---------- The invariant ----------

  function One(b: bool): nat {
    if b then 1 else 0
  }

  /** The reference that eventTimer_start took is held until the close callback. */
  predicate Alive(t: Timer) {
    t.start.Counted? || t.start.Posted? || (t.start.Done? && t.closes == 0)
  }

  predicate StopHeld(t: Timer) {
    t.stop.Counted? || t.stop.Posted?
  }

  /** The references balance. */
  predicate Balanced(t: Timer) {
    t.refs == (if t.owned then 1 else 0) + (if Alive(t) then 1 else 0) + (if StopHeld(t) then 1 else 0)
  }

  /** bActive and the close callback. */
  predicate Placed(t: Timer) {
    && t.closes <= 1
    && (t.start.Done? ==> (t.active <==> t.closes == 0))
    && (!t.start.Done? ==> !t.active && t.closes == 0 && t.fired == 0)
  }

  /** bRunning and the calls under way. */
  predicate Calling(t: Timer) {
    && (t.running ==> !t.start.NotYet? && t.stop.NotYet?)
    && (t.start.NotYet? ==> t.stop.NotYet?)
    && (t.running && t.start.Done? ==> t.active)
    && (Busy(t.start) || Busy(t.stop) ==> t.owned)
    && (t.stop.Done? ==> !t.active && !t.running)
  }

  /** A one-shot timer fires once at most. */
  predicate Shooting(k: Kind, t: Timer) {
    (k.once || k.immediate ==> t.fired <= 1 && (t.running ==> t.fired == 0)) && (t.active ==> !k.immediate)
  }

  predicate Inv(k: Kind, t: Timer) {
    Balanced(t) && Placed(t) && Calling(t) && Shooting(k, t)
  }

  lemma NextBalanced(k: Kind, t: Timer, s: Step)
    requires Inv(k, t)
    ensures Balanced(Next(k, t, s))
  {}

  lemma NextPlaced(k: Kind, t: Timer, s: Step)
    requires Inv(k, t)
    ensures Placed(Next(k, t, s))
  {}

  lemma NextCalling(k: Kind, t: Timer, s: Step)
    requires Inv(k, t)
    ensures Calling(Next(k, t, s))
  {}

  lemma NextShooting(k: Kind, t: Timer, s: Step)
    requires Inv(k, t)
    ensures Shooting(k, Next(k, t, s))
  {}

  lemma {:induction false} RunKeepsInv(k: Kind, t: Timer, steps: seq<Step>)
    requires Inv(k, t)
    ensures Inv(k, Run(k, t, steps))
    decreases |steps|
  {
    if steps != [] {
      NextBalanced(k, t, steps[0]);
      NextPlaced(k, t, steps[0]);
      NextCalling(k, t, steps[0]);
      NextShooting(k, t, steps[0]);
      RunKeepsInv(k, Next(k, t, steps[0]), steps[1..]);
    }
  }

  /** In every interleaving, between steps: there is at most one close callback, which has come exactly
      when the timer was started and has left the heap for good; fn of a one-shot timer is called at
      most once; and the references balance. */
  lemma {:induction false} Lifecycle(k: Kind, steps: seq<Step>)
    ensures var t := Run(k, Init(), steps);
            && t.closes <= 1
            && (t.start.Done? ==> (t.closes == 1 <==> !t.active))
            && (!t.start.Done? ==> t.closes == 0 && t.fired == 0)
            && (k.once || k.immediate ==> t.fired <= 1)
            && t.refs == One(t.owned) + One(Alive(t)) + One(StopHeld(t))
  {
    RunKeepsInv(k, Init(), steps);
  }

  /** When no message is under way and the node is not in the heap, a started timer was closed exactly
      once and only the owner's reference is left; dropping that one frees it. */
  lemma {:induction false} CompletedLife(k: Kind, steps: seq<Step>)
    ensures var t := Run(k, Init(), steps);
            t.start.Done? && (t.stop.NotYet? || t.stop.Done?) && !t.active ==>
              t.closes == 1 && t.refs == One(t.owned) && !t.running && Next(k, t, Drop).refs == 0
  {
    RunKeepsInv(k, Init(), steps);
  }

  /** A timer that was stopped, early or late, is closed once both messages have run. */
  lemma {:induction false} StopEndsIt(k: Kind, steps: seq<Step>)
    ensures var t := Run(k, Init(), steps);
            t.start.Done? && t.stop.Done? ==> t.closes == 1 && !t.active && !t.running
  {
    RunKeepsInv(k, Init(), steps);
  }

  /** The memory is released (no reference is left) only when nothing can happen to the timer any more. */
  lemma {:induction false} FreedIsOver(k: Kind, steps: seq<Step>, s: Step)
    ensures var t := Run(k, Init(), steps);
            && t.refs >= 0
            && (t.refs == 0 ==> Next(k, t, s) == t)
            && (t.refs == 0 && !t.start.NotYet? ==> t.closes == 1)
  {
    RunKeepsInv(k, Init(), steps);
  }

  /** After the close callback neither callback is called again. */
  lemma {:induction false} NothingAfterClose(k: Kind, steps: seq<Step>, s: Step)
    ensures var t := Run(k, Init(), steps);
            t.closes == 1 ==> Next(k, t, s).closes == 1 && Next(k, t, s).fired == t.fired
  {
    RunKeepsInv(k, Init(), steps);
  }

  // ---------- The callback is called ----------

  /** For a timer that runs once: it still will, or it has, or it was stopped; one of the three. */
  predicate OneFate(k: Kind, t: Timer) {
    (k.once || k.immediate) && !t.start.NotYet? ==> One(t.running) + t.fired + One(!t.stop.NotYet?) == 1
  }

  /** A repeating timer runs from its start to its stop. */
  predicate Repeating(k: Kind, t: Timer) {
    !k.once && !k.immediate ==> (t.running <==> !t.start.NotYet? && t.stop.NotYet?)
  }

  /** A timer in the heap that does not run any more was stopped. */
  predicate Stopping(t: Timer) {
    t.active && !t.running ==> !t.stop.NotYet?
  }

  predicate Fate(k: Kind, t: Timer) {
    Inv(k, t) && OneFate(k, t) && Repeating(k, t) && Stopping(t)
  }

  /** The expiries after the start message and before the stop. */
  function Rings(k: Kind, t: Timer, steps: seq<Step>): nat
    decreases |steps|
  {
    if steps == [] then 0
    else One(steps[0] == Expire && t.start.Done? && t.stop.NotYet?) + Rings(k, Next(k, t, steps[0]), steps[1..])
  }

  lemma NextOneFate(k: Kind, t: Timer, s: Step)
    requires Inv(k, t) && OneFate(k, t)
    ensures OneFate(k, Next(k, t, s))
  {}

  lemma NextRepeating(k: Kind, t: Timer, s: Step)
    requires Inv(k, t) && Repeating(k, t)
    ensures Repeating(k, Next(k, t, s))
  {}

  lemma NextStopping(k: Kind, t: Timer, s: Step)
    requires Inv(k, t) && Stopping(t)
    ensures Stopping(Next(k, t, s))
  {}

  lemma NextRings(k: Kind, t: Timer, s: Step)
    requires Inv(k, t) && Repeating(k, t) && !k.once && !k.immediate
    ensures Next(k, t, s).fired == t.fired + One(s == Expire && t.start.Done? && t.stop.NotYet?)
  {}

  lemma NextFate(k: Kind, t: Timer, s: Step)
    requires Fate(k, t)
    ensures Fate(k, Next(k, t, s))
  {
    NextBalanced(k, t, s);
    NextPlaced(k, t, s);
    NextCalling(k, t, s);
    NextShooting(k, t, s);
    NextOneFate(k, t, s);
    NextRepeating(k, t, s);
    NextStopping(k, t, s);
  }

  lemma {:induction false} RunKeepsFate(k: Kind, t: Timer, steps: seq<Step>)
    requires Fate(k, t)
    ensures Fate(k, Run(k, t, steps))
    ensures !k.once && !k.immediate ==> Run(k, t, steps).fired == t.fired + Rings(k, t, steps)
    decreases |steps|
  {
    if steps != [] {
      NextFate(k, t, steps[0]);
      if !k.once && !k.immediate {
        NextRings(k, t, steps[0]);
      }
      RunKeepsFate(k, Next(k, t, steps[0]), steps[1..]);
    }
  }

  /** A timer that runs once and has been closed was either called, exactly once, or stopped before, and then
      it was not called. */
  lemma {:induction false} CalledOrStopped(k: Kind, steps: seq<Step>)
    requires k.once || k.immediate
    ensures var t := Run(k, Init(), steps);
            t.start.Done? && t.closes == 1 ==> t.fired == if t.stop.NotYet? then 1 else 0
  {
    RunKeepsFate(k, Init(), steps);
  }

  /** A repeating timer is called once for each expiry between its start message and its stop, and for
      nothing else. */
  lemma {:induction false} CalledEachTime(k: Kind, steps: seq<Step>)
    requires !k.once && !k.immediate
    ensures Run(k, Init(), steps).fired == Rings(k, Init(), steps)
  {
    RunKeepsFate(k, Init(), steps);
  }

  // ---------- What has begun can be finished ----------

  /** The rest of eventTimer_start or eventTimer_stop, and the loop runs the message. */
  const START := [StartCount, StartPost, RunStart]
  const STOP := [StopCount, StopPost, RunStop]

  lemma {:induction false} Three(k: Kind, t: Timer, a: Step, b: Step, c: Step)
    ensures Run(k, t, [a, b, c]) == Next(k, Next(k, Next(k, t, a), b), c)
  {
    assert [a, b, c][1..] == [b, c] && [b, c][1..] == [c] && [c][1..] == [];
    assert Run(k, t, [a, b, c]) == Run(k, Next(k, t, a), [b, c]);
    assert Run(k, Next(k, t, a), [b, c]) == Run(k, Next(k, Next(k, t, a), b), [c]);
    assert Run(k, Next(k, Next(k, t, a), b), [c]) == Run(k, Next(k, Next(k, Next(k, t, a), b), c), []);
  }

  /** Once the start message has run, the timer is in the heap, or closed if it has no interval or was
      stopped. */
  lemma {:induction false} StartArrives(k: Kind, steps: seq<Step>)
    ensures var t := Run(k, Init(), steps);
            var u := Run(k, t, START);
            !t.start.NotYet? ==>
              && u.start.Done? && u.stop == t.stop
              && (if u.active then u.running || !u.stop.NotYet? else u.closes == 1)
              && (t.running ==> if k.immediate then u.fired == 1 && u.closes == 1 else u.active && u.running)
  {
    RunKeepsFate(k, Init(), steps);
    var t := Run(k, Init(), steps);
    Three(k, t, StartCount, StartPost, RunStart);
    RunKeepsFate(k, t, START);
  }

  /** Once the stop message has run too, a stopped timer is closed; and no call came of it. */
  lemma {:induction false} StopArrives(k: Kind, steps: seq<Step>)
    ensures var t := Run(k, Init(), steps);
            var u := Run(k, t, STOP);
            t.start.Done? && !t.stop.NotYet? ==> u.stop.Done? && u.closes == 1 && u.fired == t.fired
  {
    RunKeepsFate(k, Init(), steps);
    var t := Run(k, Init(), steps);
    Three(k, t, StopCount, StopPost, RunStop);
    RunKeepsFate(k, t, STOP);
  }

  /** An owner can start the timer once, and stop it for as long as it runs. */
  lemma {:induction false} CanBegin(k: Kind, steps: seq<Step>)
    ensures var t := Run(k, Init(), steps);
            && (t.owned && t.start.NotYet? ==> Next(k, t, StartSwap).running && Next(k, t, StartSwap).start.Swapped?)
            && (t.owned && t.running ==> !Next(k, t, StopSwap).running && Next(k, t, StopSwap).stop.Swapped?)
            && (t.start.Done? && t.running ==> Next(k, t, StopInLoop).closes == 1)
  {
    RunKeepsFate(k, Init(), steps);
  }

  /** The expiry of a running timer calls it, and ends the life of a one-shot timer only. */
  lemma {:induction false} ExpiryCalls(k: Kind, steps: seq<Step>)
    ensures var t := Run(k, Init(), steps);
            t.active && t.running ==>
              && Next(k, t, Expire).fired == t.fired + 1
              && (if k.once then Next(k, t, Expire).closes == 1 else Next(k, t, Expire).active)
  {
    RunKeepsFate(k, Init(), steps);
  }
}
