/** When the timers of a loop run: by the interval they were started with, whatever else is started, stopped
    and run meanwhile.  The laws say it in the caller's terms, not by the keys of the heap. */
module TimerDeadlines {
  import opened HeapShape
  import opened TimerRun

  /** What happens on a loop: it reads its clock, a message starts or stops a timer, it makes a pass. */
  datatype Deed<T> = Clock(now: int) | Call(change: Change<T>) | Pass(turns: seq<Turn<T>>)

  function Do<T(==)>(s: Loop<T>, d: Deed<T>): Loop<T> {
    match d
    case Clock(now) => s.(now := now)
    case Call(c) => Change1(s, c)
    case Pass(turns) => End(s, turns)
  }

  function DoAll<T(==)>(s: Loop<T>, ds: seq<Deed<T>>): Loop<T>
    decreases |ds|
  {
    if ds == [] then s else DoAll(Do(s, ds[0]), ds[1..])
  }

  /** A whole pass from s. */
  ghost predicate IsPass<T>(s: Loop<T>, turns: seq<Turn<T>>) {
    Passes(s, turns) && NoneDue(End(s, turns))
  }

  ghost predicate Happens<T>(s: Loop<T>, ds: seq<Deed<T>>)
    decreases |ds|
  {
    ds == [] || ((ds[0].Pass? ==> IsPass(s, ds[0].turns)) && Happens(Do(s, ds[0]), ds[1..]))
  }

  ghost predicate Stops<T>(d: Deed<T>, t: T) {
    d == Call(Stop(t)) || (d.Pass? && StoppedBy(d.turns, t))
  }

  ghost predicate Runs<T>(d: Deed<T>, t: T) {
    d.Pass? && TakenBy(d.turns, t)
  }

  ghost predicate Starting<T>(c: Change<T>, t: T) {
    c.Start? && c.timer == t
  }

  ghost predicate StartedBy<T>(turns: seq<Turn<T>>, t: T) {
    exists i, k | 0 <= i < |turns| && 0 <= k < |turns[i].changes| :: Starting(turns[i].changes[k], t)
  }

  ghost predicate Starts<T>(d: Deed<T>, t: T) {
    (d.Call? && Starting(d.change, t)) || (d.Pass? && StartedBy(d.turns, t))
  }

  /** Nothing stops t, and the clock stays before the deadline. */
  ghost predicate Undisturbed<T>(ds: seq<Deed<T>>, t: T, deadline: int) {
    forall i | 0 <= i < |ds| :: !Stops(ds[i], t) && (ds[i].Clock? ==> ds[i].now < deadline)
  }

  ghost predicate NoneRuns<T>(ds: seq<Deed<T>>, t: T) {
    forall i | 0 <= i < |ds| :: !Runs(ds[i], t)
  }

  // ---------- A timer in the heap stays there ----------

  /** t is in both heaps, with the same deadline and ID. */
  ghost predicate Kept<T>(s: Loop<T>, s': Loop<T>, t: T) {
    t in s.heap && t in s'.heap && s'.heap[t] == s.heap[t]
  }

  lemma {:induction false} ChangesKeepTimer<T>(s: Loop<T>, cs: seq<Change<T>>, t: T)
    requires t in s.heap && forall k | 0 <= k < |cs| :: cs[k] != Stop(t)
    ensures Kept(s, ChangeAll(s, cs), t)
    decreases |cs|
  {
    if cs != [] {
      assert cs[0] != Stop(t);
      ChangesKeepTimer(Change1(s, cs[0]), cs[1..], t);
    }
  }

  lemma {:induction false} TurnKeepsTimer<T>(s: Loop<T>, turn: Turn<T>, t: T)
    requires t in s.heap && turn.timer != t && forall k | 0 <= k < |turn.changes| :: turn.changes[k] != Stop(t)
    ensures Kept(s, After(s, turn), t)
  {
    var out := Insert(s.(heap := s.heap - {turn.timer}), turn.timer, turn.again);
    ChangesKeepTimer(out, turn.changes, t);
  }

  /** The first turn of a pass, and the others. */
  lemma {:induction false} Later<T>(turns: seq<Turn<T>>, t: T)
    requires turns != []
    ensures TakenBy(turns, t) <==> turns[0].timer == t || TakenBy(turns[1..], t)
    ensures StoppedBy(turns[1..], t) ==> StoppedBy(turns, t)
    ensures !StoppedBy(turns, t) ==> forall k | 0 <= k < |turns[0].changes| :: turns[0].changes[k] != Stop(t)
    ensures StartedBy(turns[1..], t) ==> StartedBy(turns, t)
    ensures !StartedBy(turns, t) ==> forall k | 0 <= k < |turns[0].changes| :: !Starting(turns[0].changes[k], t)
  {
    if TakenBy(turns[1..], t) || StoppedBy(turns[1..], t) {
      HandledLater(turns, t);
    }
    if TakenBy(turns, t) {
      var i :| 0 <= i < |turns| && turns[i].timer == t;
      assert i > 0 ==> turns[1..][i - 1].timer == t;
    }
    if StoppedBy(turns[1..], t) {
      var i, k :| 0 <= i < |turns[1..]| && 0 <= k < |turns[1..][i].changes| && turns[1..][i].changes[k] == Stop(t);
      assert turns[i + 1].changes[k] == Stop(t);
    }
    if StartedBy(turns[1..], t) {
      var i, k :| 0 <= i < |turns[1..]| && 0 <= k < |turns[1..][i].changes| && Starting(turns[1..][i].changes[k], t);
      assert Starting(turns[i + 1].changes[k], t);
    }
  }

  lemma {:induction false} PassKeepsTimer<T>(s: Loop<T>, turns: seq<Turn<T>>, t: T)
    requires t in s.heap && !TakenBy(turns, t) && !StoppedBy(turns, t)
    ensures Kept(s, End(s, turns), t)
    decreases |turns|
  {
    if turns != [] {
      Later(turns, t);
      TurnKeepsTimer(s, turns[0], t);
      PassKeepsTimer(After(s, turns[0]), turns[1..], t);
    }
  }

  /** A pass before the deadline does not take the timer. */
  lemma {:induction false} NotBefore<T>(s: Loop<T>, turns: seq<Turn<T>>, t: T)
    requires TimerRun.Inv(s) && Passes(s, turns) && t !in Due(s)
    ensures !TakenBy(turns, t)
  {
    if TakenBy(turns, t) {
      var i :| 0 <= i < |turns| && turns[i].timer == t;
      NoneEarly(s, turns, i);
    }
  }

  /** One deed before the deadline. */
  lemma DeedWaits<T>(s: Loop<T>, d: Deed<T>, t: T)
    requires TimerRun.Inv(s) && t in s.heap && s.now < s.heap[t].timeout && !Stops(d, t)
    requires d.Clock? ==> d.now < s.heap[t].timeout
    requires d.Pass? ==> IsPass(s, d.turns)
    ensures TimerRun.Inv(Do(s, d)) && Kept(s, Do(s, d), t) && !Runs(d, t) && Do(s, d).now < s.heap[t].timeout
  {
    match d
    case Clock(_) =>
    case Call(c) =>
      ChangeKeeps(s, c);
    case Pass(turns) =>
      NotBefore(s, turns, t);
      PassKeepsTimer(s, turns, t);
      PassKeeps(s, turns);
  }

  lemma {:induction false} Waits<T>(s: Loop<T>, ds: seq<Deed<T>>, t: T)
    requires TimerRun.Inv(s) && t in s.heap && s.now < s.heap[t].timeout
    requires Happens(s, ds) && Undisturbed(ds, t, s.heap[t].timeout)
    ensures TimerRun.Inv(DoAll(s, ds)) && Kept(s, DoAll(s, ds), t) && NoneRuns(ds, t)
    decreases |ds|
  {
    if ds != [] {
      assert !Stops(ds[0], t);
      DeedWaits(s, ds[0], t);
      var rest := ds[1..];
      assert forall i | 0 <= i < |rest| :: rest[i] == ds[i + 1];
      Waits(Do(s, ds[0]), rest, t);
      forall i | 0 <= i < |ds|
        ensures !Runs(ds[i], t)
      {
        if i > 0 { assert ds[i] == rest[i - 1]; }
      }
    }
  }

  // ---------- When a timer runs ----------

  /** A timer is due exactly from its start and its interval on. */
  lemma DueFrom<T>(s: Loop<T>, t: T, interval: nat, later: int)
    requires t !in s.heap && interval > 0
    ensures t in Due(Insert(s, t, interval).(now := later)) <==> later >= s.now + interval
  {}

  /** A timer that is started, and not stopped, is run by the first pass whose clock is at least the start
      plus the interval, and by no pass before, whatever happens to other timers meanwhile. */
  lemma {:induction false} RunsOnTime<T>(s: Loop<T>, t: T, interval: nat, ds: seq<Deed<T>>, later: int,
                                         turns: seq<Turn<T>>)
    requires TimerRun.Inv(s) && t !in s.heap && interval > 0
    requires Happens(Insert(s, t, interval), ds) && Undisturbed(ds, t, s.now + interval)
    requires IsPass(DoAll(Insert(s, t, interval), ds).(now := later), turns) && !StoppedBy(turns, t)
    ensures NoneRuns(ds, t) && (TakenBy(turns, t) <==> later >= s.now + interval)
  {
    var start := Insert(s, t, interval);
    ChangeKeeps(s, Start(t, interval));
    Waits(start, ds, t);
    var end := DoAll(start, ds).(now := later);
    if later >= s.now + interval {
      AllHandled(end, turns, t);
    } else {
      NotBefore(end, turns, t);
    }
  }

  /** Starting a timer that is in the heap changes nothing. */
  lemma StartedTwice<T>(s: Loop<T>, t: T, interval: nat)
    requires t in s.heap
    ensures Insert(s, t, interval) == s
  {}

  /** A turn of a repeating timer that its callback does not stop schedules it again, from the clock on. */
  lemma {:induction false} TurnRepeats<T>(s: Loop<T>, turn: Turn<T>)
    requires turn.again > 0 && forall k | 0 <= k < |turn.changes| :: turn.changes[k] != Stop(turn.timer)
    ensures var s' := After(s, turn);
            && turn.timer in s'.heap
            && forall later :: turn.timer in Due(s'.(now := later)) <==> later >= s.now + turn.again
  {
    var out := Insert(s.(heap := s.heap - {turn.timer}), turn.timer, turn.again);
    ChangesKeepTimer(out, turn.changes, turn.timer);
  }

  /** A repeating timer that a pass has run, and that nothing has stopped since, is due one interval after
      the clock of the pass, and not before. */
  lemma {:induction false} Repeats<T>(s: Loop<T>, turns: seq<Turn<T>>, i: nat)
    requires TimerRun.Inv(s) && Passes(s, turns) && i < |turns| && turns[i].again > 0
    requires !StoppedBy(turns[i..], turns[i].timer)
    ensures var s' := End(s, turns); var t := turns[i].timer;
            t in s'.heap && forall later :: t in Due(s'.(now := later)) <==> later >= s.now + turns[i].again
    decreases |turns|
  {
    TurnKeeps(s, turns[0]);
    if i > 0 {
      assert turns[i..] == turns[1..][i - 1..];
      Repeats(After(s, turns[0]), turns[1..], i - 1);
    } else {
      var t, s' := turns[0].timer, After(s, turns[0]);
      assert turns[0..] == turns;
      Later(turns, t);
      TurnRepeats(s, turns[0]);
      assert t !in Due(s'.(now := s.now));
      NotBefore(s', turns[1..], t);
      PassKeepsTimer(s', turns[1..], t);
      SameDue(s', End(s', turns[1..]), t);
    }
  }

  lemma SameDue<T>(s: Loop<T>, s': Loop<T>, t: T)
    requires Kept(s, s', t)
    ensures forall later :: t in Due(s.(now := later)) <==> t in Due(s'.(now := later))
  {}

  // ---------- When it does not ----------

  lemma {:induction false} ChangesKeepOut<T>(s: Loop<T>, cs: seq<Change<T>>, t: T)
    requires t !in s.heap && forall k | 0 <= k < |cs| :: !Starting(cs[k], t)
    ensures t !in ChangeAll(s, cs).heap
    decreases |cs|
  {
    if cs != [] {
      assert !Starting(cs[0], t);
      ChangesKeepOut(Change1(s, cs[0]), cs[1..], t);
    }
  }

  lemma {:induction false} PassKeepsOut<T>(s: Loop<T>, turns: seq<Turn<T>>, t: T)
    requires Passes(s, turns) && t !in s.heap && !StartedBy(turns, t)
    ensures t !in End(s, turns).heap && !TakenBy(turns, t)
    decreases |turns|
  {
    if turns != [] {
      Later(turns, t);
      var turn := turns[0];
      ChangesKeepOut(Insert(s.(heap := s.heap - {turn.timer}), turn.timer, turn.again), turn.changes, t);
      PassKeepsOut(After(s, turn), turns[1..], t);
    }
  }

  lemma {:induction false} StaysOut<T>(s: Loop<T>, ds: seq<Deed<T>>, t: T)
    requires t !in s.heap && Happens(s, ds) && forall i | 0 <= i < |ds| :: !Starts(ds[i], t)
    ensures t !in DoAll(s, ds).heap && NoneRuns(ds, t)
    decreases |ds|
  {
    if ds != [] {
      assert !Starts(ds[0], t);
      if ds[0].Pass? {
        PassKeepsOut(s, ds[0].turns, t);
      }
      var rest := ds[1..];
      assert forall i | 0 <= i < |rest| :: rest[i] == ds[i + 1];
      StaysOut(Do(s, ds[0]), rest, t);
      forall i | 0 <= i < |ds|
        ensures !Runs(ds[i], t)
      {
        if i > 0 { assert ds[i] == rest[i - 1]; }
      }
    }
  }

  /** A timer that was stopped is not run until it is started again. */
  lemma {:induction false} StoppedIsSilent<T>(s: Loop<T>, t: T, ds: seq<Deed<T>>)
    requires Happens(Change1(s, Stop(t)), ds) && forall i | 0 <= i < |ds| :: !Starts(ds[i], t)
    ensures NoneRuns(ds, t)
  {
    StaysOut(Change1(s, Stop(t)), ds, t);
  }

  /** A turn after which the timer does not come back: it does not repeat, or its callback stops it, and
      starts it no more. */
  ghost predicate Final<T>(turn: Turn<T>) {
    exists k | 0 <= k <= |turn.changes| :: EndsAt(turn, k)
  }

  ghost predicate EndsAt<T>(turn: Turn<T>, k: nat)
    requires k <= |turn.changes|
  {
    && (if k == 0 then turn.again == 0 else turn.changes[k - 1] == Stop(turn.timer))
    && forall m | k <= m < |turn.changes| :: !Starting(turn.changes[m], turn.timer)
  }

  lemma {:induction false} ChangesSplit<T>(s: Loop<T>, cs: seq<Change<T>>, k: nat)
    requires k <= |cs|
    ensures ChangeAll(s, cs) == ChangeAll(ChangeAll(s, cs[..k]), cs[k..])
    decreases k
  {
    if k > 0 {
      ChangesSplit(Change1(s, cs[0]), cs[1..], k - 1);
      assert cs[..k][1..] == cs[1..][..k - 1] && cs[k..] == cs[1..][k - 1..];
    } else {
      assert cs[0..] == cs;
    }
  }

  lemma {:induction false} TurnEnds<T>(s: Loop<T>, turn: Turn<T>)
    requires Final(turn)
    ensures turn.timer !in After(s, turn).heap
  {
    var t, cs := turn.timer, turn.changes;
    var out := Insert(s.(heap := s.heap - {t}), t, turn.again);
    var k :| 0 <= k <= |cs| && EndsAt(turn, k);
    ChangesSplit(out, cs, k);
    if k > 0 {
      var front := cs[..k];
      ChangesSplit(out, front, k - 1);
      assert front[k - 1..] == [Stop(t)];
      assert ChangeAll(ChangeAll(out, front[..k - 1]), [Stop(t)]).heap == ChangeAll(out, front[..k - 1]).heap - {t};
    }
    ChangesKeepOut(ChangeAll(out, cs[..k]), cs[k..], t);
  }

  /** After its last turn a timer is not run again, in that pass or a later one, until it is started. */
  lemma {:induction false} RunsNoMore<T>(s: Loop<T>, turn: Turn<T>, turns: seq<Turn<T>>, ds: seq<Deed<T>>)
    requires Final(turn) && Passes(After(s, turn), turns) && !StartedBy(turns, turn.timer)
    requires Happens(End(After(s, turn), turns), ds) && forall i | 0 <= i < |ds| :: !Starts(ds[i], turn.timer)
    ensures !TakenBy(turns, turn.timer) && NoneRuns(ds, turn.timer)
  {
    TurnEnds(s, turn);
    PassKeepsOut(After(s, turn), turns, turn.timer);
    StaysOut(End(After(s, turn), turns), ds, turn.timer);
  }

  // ---------- Timers that are due at the same time ----------

  /** Of two timers with one deadline, the one with the smaller ID is run first. */
  lemma {:induction false} SmallerIdFirst<T>(s: Loop<T>, t: T, u: T, turns: seq<Turn<T>>, k: nat)
    requires TimerRun.Inv(s) && Passes(s, turns) && k < |turns| && turns[k].timer == u
    requires t in s.heap && u in s.heap && s.heap[t].timeout == s.heap[u].timeout && s.heap[t].id < s.heap[u].id
    ensures TakenBy(turns[..k], t) || StoppedBy(turns[..k], t)
    decreases |turns|
  {
    var front := turns[..k];
    if k > 0 && !TakenBy(front, t) && !StoppedBy(front, t) {
      assert front[0] == turns[0] && front[1..] == turns[1..][..k - 1];
      Later(front, t);
      TurnKeepsTimer(s, turns[0], t);
      TurnKeeps(s, turns[0]);
      NoneEarly(After(s, turns[0]), turns[1..], k - 1);
      SmallerIdFirst(After(s, turns[0]), t, u, turns[1..], k - 1);
    }
  }

  /** Of two timers that are due at the same time, the one that was started first is run first. */
  lemma {:induction false} StartedFirst<T>(s: Loop<T>, t: T, u: T, interval: nat, ds: seq<Deed<T>>, later: int,
                                           turns: seq<Turn<T>>, k: nat)
    requires TimerRun.Inv(s) && t in s.heap && u !in s.heap && interval > 0
    requires s.heap[t].timeout == s.now + interval
    requires var s' := Insert(s, u, interval);
             && Happens(s', ds) && Undisturbed(ds, t, s.now + interval) && Undisturbed(ds, u, s.now + interval)
             && IsPass(DoAll(s', ds).(now := later), turns)
    requires k < |turns| && turns[k].timer == u
    ensures TakenBy(turns[..k], t) || StoppedBy(turns[..k], t)
  {
    var s' := Insert(s, u, interval);
    ChangeKeeps(s, Start(u, interval));
    Waits(s', ds, t);
    Waits(s', ds, u);
    SmallerIdFirst(DoAll(s', ds).(now := later), t, u, turns, k);
  }
}
