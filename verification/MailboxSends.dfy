/** What a service dispatches is what was sent to it: the events that callers handed to service_enqueue and
    service_stop, counted from the callers' actions, against those that the mailbox has inserted and
    dispatched. */
module MailboxSends {
  import opened Mailbox

  /** An action hands e in, and the service takes it: only an idle thread calls, and only a running service
      takes anything. */
  ghost predicate Takes(s: State, a: Action, e: Event) {
    && Enabled(s, a.t) && s.threads[a.t].Idle? && s.sh.running
    && (if e.Message? then a.c == Send(e) else a.c == StopService)
  }

  /** How often the actions of a run hand e in. */
  ghost function Sent(s: State, acts: seq<Action>, e: Event): nat
    decreases |acts|
  {
    if acts == [] then 0 else One(Takes(s, acts[0], e)) + Sent(Step(s, acts[0].t, acts[0].c), acts[1..], e)
  }

  /** A caller has e in hand and has not inserted it yet. */
  ghost predicate Has(th: Thread, e: Event) {
    (th.Admitted? || th.Counted?) && th.e == e
  }

  ghost function InFlight(ths: seq<Thread>, e: Event): nat {
    if ths == [] then 0 else One(Has(ths[0], e)) + InFlight(ths[1..], e)
  }

  lemma {:induction false} InFlightUpdate(ths: seq<Thread>, t: nat, th: Thread, e: Event)
    requires t < |ths|
    ensures InFlight(ths[t := th], e) + One(Has(ths[t], e)) == InFlight(ths, e) + One(Has(th, e))
  {
    if t > 0 {
      assert ths[t := th][1..] == ths[1..][t - 1 := th];
      InFlightUpdate(ths[1..], t - 1, th, e);
    } else {
      assert ths[t := th][1..] == ths[1..];
    }
  }

  lemma {:induction false} NoneInFlight(ths: seq<Thread>, e: Event)
    requires forall t | 0 <= t < |ths| :: ths[t].Idle? || ths[t].Starting?
    ensures InFlight(ths, e) == 0
  {
    if ths != [] {
      NoneInFlight(ths[1..], e);
    }
  }

  // ---------- Conservation ----------

  ghost predicate Caller(th: Thread) {
    th.Idle? || th.Admitted? || th.Counted?
  }

  /** A caller's event goes with it from the call into the queue. */
  lemma CallerInserts(s: State, a: Action, e: Event)
    requires Enabled(s, a.t) && Caller(s.threads[a.t])
    ensures var th := s.threads[a.t];
            var (th', sh') := Move(th, s.sh, a.c);
            && sh'.inserted == s.sh.inserted + (if th.Counted? then [th.e] else [])
            && One(Has(th', e)) + One(th.Counted? && th.e == e) == One(Has(th, e)) + One(Takes(s, a, e))
  {}

  /** Other threads insert nothing. */
  lemma OthersInsert(s: State, a: Action, e: Event)
    requires Enabled(s, a.t) && !Caller(s.threads[a.t])
    ensures var (th', sh') := Move(s.threads[a.t], s.sh, a.c);
            sh'.inserted == s.sh.inserted && !Has(th', e)
  {
    if Is(s.threads[a.t], Runner) {
      RunnersInsert(s.threads[a.t], s.sh, a.c, e);
    }
  }

  lemma RunnersInsert(th: Thread, sh: Shared, c: Choice, e: Event)
    requires Is(th, Runner)
    ensures var (th', sh') := Move(th, sh, c); sh'.inserted == sh.inserted && !Has(th', e)
  {}

  lemma Append(es: seq<Event>, e: Event, x: Event)
    ensures multiset(es + [x])[e] == multiset(es)[e] + One(x == e)
  {}

  lemma {:induction false} StepConserves(s: State, a: Action, e: Event)
    ensures var s' := Step(s, a.t, a.c);
            multiset(s'.sh.inserted)[e] + InFlight(s'.threads, e)
            == multiset(s.sh.inserted)[e] + InFlight(s.threads, e) + One(Takes(s, a, e))
  {
    if Enabled(s, a.t) {
      var th := s.threads[a.t];
      InFlightUpdate(s.threads, a.t, Move(th, s.sh, a.c).0, e);
      if Caller(th) {
        CallerInserts(s, a, e);
        if th.Counted? {
          Append(s.sh.inserted, e, th.e);
        } else {
          assert s.sh.inserted + [] == s.sh.inserted;
        }
      } else {
        OthersInsert(s, a, e);
      }
    }
  }

  lemma {:induction false} RunConserves(s: State, acts: seq<Action>, e: Event)
    ensures var s' := Run(s, acts);
            multiset(s'.sh.inserted)[e] + InFlight(s'.threads, e)
            == multiset(s.sh.inserted)[e] + InFlight(s.threads, e) + Sent(s, acts, e)
    decreases |acts|
  {
    if acts != [] {
      StepConserves(s, acts[0], e);
      RunConserves(Step(s, acts[0].t, acts[0].c), acts[1..], e);
    }
  }

  /** In every run, what was inserted and what callers are about to insert is what was sent. */
  lemma {:induction false} InsertedIsSent(n: nat, acts: seq<Action>, e: Event)
    ensures var s := Run(Init(n), acts);
            multiset(s.sh.inserted)[e] + InFlight(s.threads, e) == Sent(Init(n), acts, e)
  {
    NoneInFlight(Init(n).threads, e);
    RunConserves(Init(n), acts, e);
  }

  /** A quiet system has dispatched exactly what was sent. */
  lemma {:induction false} QuietHasDispatchedAll(n: nat, acts: seq<Action>, e: Event)
    ensures var s := Run(Init(n), acts);
            Quiet(s) && !s.sh.failed ==> multiset(s.sh.processed)[e] == Sent(Init(n), acts, e)
  {
    var s := Run(Init(n), acts);
    InsertedIsSent(n, acts, e);
    QuietMeansDelivered(n, acts);
    if Quiet(s) {
      NoneInFlight(s.threads, e);
    }
  }

  /** Nothing is dispatched that was not sent, or more often. */
  lemma {:induction false} OnlySentIsDispatched(n: nat, acts: seq<Action>, e: Event)
    ensures multiset(Run(Init(n), acts).sh.processed)[e] <= Sent(Init(n), acts, e)
  {
    var s := Run(Init(n), acts);
    InsertedIsSent(n, acts, e);
    FifoConservation(n, acts);
    assert s.sh.inserted == s.sh.processed + s.sh.inserted[|s.sh.processed|..];
  }

  // ---------- Stopping ----------

  /** A service takes events until it is asked to stop or its start fails, and it stops when it comes to STOP,
      with which its history ends. */
  ghost predicate Gate(sh: Shared, stops: nat) {
    && stops <= 1
    && (sh.running <==> !sh.failed && stops == 0)
    && (sh.stopped <==> Stop in sh.processed)
    && (sh.stopped ==> sh.processed != [] && Stop !in sh.processed[..|sh.processed| - 1])
  }

  lemma StepKeepsGate(s: State, a: Action, stops: nat)
    requires Gate(s.sh, stops)
    ensures Gate(Step(s, a.t, a.c).sh, stops + One(Takes(s, a, Stop)))
  {
    if Enabled(s, a.t) {
      if s.threads[a.t].Batch? {
        BatchKeepsGate(s.threads[a.t], s.sh, a.c, stops);
      } else {
        OthersKeepGate(s, a, stops);
      }
    }
  }

  lemma BatchKeepsGate(th: Thread, sh: Shared, c: Choice, stops: nat)
    requires Gate(sh, stops) && th.Batch? && !sh.stopped
    ensures Gate(Move(th, sh, c).1, stops)
  {
    if th.local != [] {
      var done := sh.processed + [th.local[0]];
      assert done[..|done| - 1] == sh.processed;
    }
  }

  lemma OthersKeepGate(s: State, a: Action, stops: nat)
    requires Gate(s.sh, stops) && Enabled(s, a.t) && !s.threads[a.t].Batch?
    ensures Gate(Move(s.threads[a.t], s.sh, a.c).1, stops + One(Takes(s, a, Stop)))
  {}

  lemma {:induction false} RunKeepsGate(s: State, acts: seq<Action>, stops: nat)
    requires Gate(s.sh, stops)
    ensures Gate(Run(s, acts).sh, stops + Sent(s, acts, Stop))
    decreases |acts|
  {
    if acts != [] {
      StepKeepsGate(s, acts[0], stops);
      RunKeepsGate(Step(s, acts[0].t, acts[0].c), acts[1..], stops + One(Takes(s, acts[0], Stop)));
    }
  }

  /** STOP is sent once at most; a service whose start did not fail runs until it is sent; it stops exactly
      when it dispatches STOP, and nothing is dispatched after it. */
  lemma {:induction false} StopsOnce(n: nat, acts: seq<Action>)
    ensures var s := Run(Init(n), acts);
            && Sent(Init(n), acts, Stop) <= 1
            && (s.sh.running <==> !s.sh.failed && Sent(Init(n), acts, Stop) == 0)
            && (s.sh.stopped <==> Stop in s.sh.processed)
            && (s.sh.stopped ==> Stop !in s.sh.processed[..|s.sh.processed| - 1])
  {
    RunKeepsGate(Init(n), acts, 0);
  }

  // ---------- Delivery ----------

  ghost predicate NoneSends(acts: seq<Action>) {
    forall i | 0 <= i < |acts| :: !acts[i].c.Send? && !acts[i].c.StopService?
  }

  lemma {:induction false} SentAppend(s: State, acts: seq<Action>, more: seq<Action>, e: Event)
    requires NoneSends(more)
    ensures Run(s, acts + more) == Run(Run(s, acts), more)
    ensures Sent(s, acts + more, e) == Sent(s, acts, e)
    decreases |acts| + |more|
  {
    if acts != [] {
      assert (acts + more)[1..] == acts[1..] + more;
      SentAppend(Step(s, acts[0].t, acts[0].c), acts[1..], more, e);
    } else {
      assert acts + more == more;
      if more != [] {
        var s' := Step(s, more[0].t, more[0].c);
        assert NoneSends(more[1..]) by {
          assert forall i | 0 <= i < |more[1..]| :: more[1..][i] == more[i + 1];
        }
        SentAppend(s', [], more[1..], e);
        assert [] + more[1..] == more[1..];
      }
    }
  }

  /** Whatever was sent arrives: from every reachable state of a service whose start did not fail, letting the
      threads finish what they have begun dispatches exactly what was sent, unless STOP is dispatched first. */
  lemma {:induction false} SentArrives(n: nat, acts: seq<Action>) returns (more: seq<Action>)
    requires !Run(Init(n), acts).sh.failed
    ensures NoneSends(more)
    ensures var s := Run(Init(n), acts + more);
            if s.sh.stopped then Sent(Init(n), acts, Stop) == 1
            else forall e :: multiset(s.sh.processed)[e] == Sent(Init(n), acts, e)
  {
    Always(n, acts);
    RunKeepsThreads(Init(n), acts);
    more := CanDeliver(Run(Init(n), acts));
    forall e
      ensures Sent(Init(n), acts + more, e) == Sent(Init(n), acts, e)
      ensures Run(Init(n), acts + more) == Run(Run(Init(n), acts), more)
    {
      SentAppend(Init(n), acts, more, e);
    }
    StopsOnce(n, acts + more);
    OnlySentIsDispatched(n, acts + more, Stop);
    forall e
      ensures Quiet(Run(Init(n), acts + more)) && !Run(Init(n), acts + more).sh.failed ==>
                multiset(Run(Init(n), acts + more).sh.processed)[e] == Sent(Init(n), acts, e)
    {
      QuietHasDispatchedAll(n, acts + more, e);
    }
  }

  lemma {:induction false} RunKeepsThreads(s: State, acts: seq<Action>)
    ensures |Run(s, acts).threads| == |s.threads|
    decreases |acts|
  {
    if acts != [] {
      RunKeepsThreads(Step(s, acts[0].t, acts[0].c), acts[1..]);
    }
  }

  // ---------- Giving way ----------

  /** A worker that has dispatched a batch gives the watcher back after two steps if events remain and other
      services wait, and will notify it again; otherwise it goes on with what has come in. */
  lemma {:induction false} GivesWay(n: nat, acts: seq<Action>, t: nat, c: Choice)
    requires var s := Run(Init(n), acts); Enabled(s, t) && s.threads[t].Drained?
    ensures var s := Run(Init(n), acts);
            && s.sh.status == 3
            && (s.sh.size > 0 ==>
                  var s' := Step(Step(s, t, Yes), t, c);
                  s'.sh.status == 1 && s'.threads == s.threads[t := Notifying])
            && (s.sh.size > 0 ==>
                  Step(Step(Step(s, t, Yes), t, c), t, c).sh.status == 2
                  && Step(Step(Step(Step(s, t, Yes), t, c), t, c), t, c).sh.posted == s.sh.posted + 1)
            && (s.sh.size == 0 || c == No ==> Step(s, t, c) == s.(threads := s.threads[t := Moving]))
  {
    Always(n, acts);
    Station(Run(Init(n), acts), t);
  }
}
