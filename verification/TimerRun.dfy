/** eventIO_runTimers: what one pass over the due timers does, whatever their callbacks start and stop.
    The heap is the set of its nodes with their keys (module TimerHeap has its operations). */
module TimerRun {
  import opened HeapShape

  /** uiLoopTime, uiTimerCounter and the timers in the heap. */
  datatype Loop<T> = Loop(now: int, counter: int, heap: map<T, Key>)

  /** What a callback on the loop can do to the heap: a timer started with interval 0 runs at once and
      never enters it. */
  datatype Change<T> = Start(timer: T, interval: nat) | Stop(timer: T)

  /** One round: the timer taken from the heap, the interval with which it is put back (0 for one that is
      not: it runs once, or was stopped), and what its callback does. */
  datatype Turn<T> = Turn(timer: T, again: nat, changes: seq<Change<T>>)

  function Insert<T(==)>(s: Loop<T>, t: T, interval: nat): Loop<T> {
    if interval == 0 || t in s.heap then s
    else Loop(s.now, s.counter + 1, s.heap[t := Key(s.now + interval, s.counter)])
  }

  function Change1<T(==)>(s: Loop<T>, c: Change<T>): Loop<T> {
    match c
    case Start(t, interval) => Insert(s, t, interval)
    case Stop(t) => s.(heap := s.heap - {t})
  }

  function ChangeAll<T(==)>(s: Loop<T>, cs: seq<Change<T>>): Loop<T>
    decreases |cs|
  {
    if cs == [] then s else ChangeAll(Change1(s, cs[0]), cs[1..])
  }

  /** eventTimer_run: out of the heap, back in if it repeats, then the callback. */
  function After<T(==)>(s: Loop<T>, turn: Turn<T>): Loop<T> {
    ChangeAll(Insert(s.(heap := s.heap - {turn.timer}), turn.timer, turn.again), turn.changes)
  }

  /** The loop takes the minimum of the heap, if it is due. */
  ghost predicate Takes<T>(s: Loop<T>, t: T) {
    t in s.heap && s.heap[t].timeout <= s.now && forall u | u in s.heap :: !KeyLess(s.heap[u], s.heap[t])
  }

  ghost predicate NoneDue<T>(s: Loop<T>) {
    forall u | u in s.heap :: s.heap[u].timeout > s.now
  }

  /** The turns of a pass, as far as it has come. */
  ghost predicate Passes<T>(s: Loop<T>, turns: seq<Turn<T>>)
    decreases |turns|
  {
    turns == [] || (Takes(s, turns[0].timer) && Passes(After(s, turns[0]), turns[1..]))
  }

  function End<T(==)>(s: Loop<T>, turns: seq<Turn<T>>): Loop<T>
    decreases |turns|
  {
    if turns == [] then s else End(After(s, turns[0]), turns[1..])
  }

  /** The keys under which the timers of the turns were taken. */
  ghost function Keys<T>(s: Loop<T>, turns: seq<Turn<T>>): (ks: seq<Key>)
    requires Passes(s, turns)
    ensures |ks| == |turns|
    decreases |turns|
  {
    if turns == [] then [] else [s.heap[turns[0].timer]] + Keys(After(s, turns[0]), turns[1..])
  }

  /** IDs come from the counter, so no two timers in the heap share one. */
  ghost predicate Inv<T>(s: Loop<T>) {
    && (forall t | t in s.heap :: s.heap[t].id < s.counter)
    && (forall t, u | t in s.heap && u in s.heap && s.heap[t].id == s.heap[u].id :: t == u)
  }

  // ---------- One turn ----------

  /** What a turn leaves of the heap: due timers that were there before, with the same keys, and others
      that are not due. */
  ghost predicate OnlyLater<T>(s: Loop<T>, s': Loop<T>) {
    && s'.now == s.now
    && forall u | u in s'.heap :: (u in s.heap && s'.heap[u] == s.heap[u]) || s'.heap[u].timeout > s.now
  }

  lemma ChangeKeeps<T>(s: Loop<T>, c: Change<T>)
    requires Inv(s)
    ensures Inv(Change1(s, c)) && OnlyLater(s, Change1(s, c))
  {}

  lemma {:induction false} ChangesKeep<T>(s: Loop<T>, cs: seq<Change<T>>)
    requires Inv(s)
    ensures Inv(ChangeAll(s, cs)) && OnlyLater(s, ChangeAll(s, cs))
    decreases |cs|
  {
    if cs != [] {
      ChangeKeeps(s, cs[0]);
      ChangesKeep(Change1(s, cs[0]), cs[1..]);
    }
  }

  /** A turn takes its timer: whatever is due afterwards was due before, is not that timer, and comes
      later in the order. */
  lemma TurnKeeps<T>(s: Loop<T>, turn: Turn<T>)
    requires Inv(s) && Takes(s, turn.timer)
    ensures var s' := After(s, turn);
            && Inv(s') && s'.now == s.now
            && forall u | u in s'.heap && s'.heap[u].timeout <= s.now ::
                 u in s.heap && s'.heap[u] == s.heap[u] && u != turn.timer && KeyLess(s.heap[turn.timer], s.heap[u])
  {
    var t := turn.timer;
    var out := s.(heap := s.heap - {t});
    ChangeKeeps(out, Start(t, turn.again));
    ChangesKeep(Insert(out, t, turn.again), turn.changes);
  }

  // ---------- Whole passes ----------

  ghost function Due<T>(s: Loop<T>): set<T> {
    set t | t in s.heap && s.heap[t].timeout <= s.now
  }

  /** A pass ends, whatever the callbacks start and stop: it has no more turns than timers were due when
      it began. */
  lemma {:induction false} PassEnds<T>(s: Loop<T>, turns: seq<Turn<T>>)
    requires Inv(s) && Passes(s, turns)
    ensures |turns| <= |Due(s)|
    decreases |turns|
  {
    if turns != [] {
      TurnKeeps(s, turns[0]);
      PassEnds(After(s, turns[0]), turns[1..]);
      var rest := Due(s) - {turns[0].timer};
      assert Due(After(s, turns[0])) <= rest;
      Fewer(Due(After(s, turns[0])), rest);
    }
  }

  lemma {:induction false} Fewer<T>(a: set<T>, b: set<T>)
    requires a <= b
    ensures |a| <= |b|
  {
    if a != {} {
      var x :| x in a;
      Fewer(a - {x}, b - {x});
    }
  }

  /** The loop is ready for another pass after one. */
  lemma {:induction false} PassKeeps<T>(s: Loop<T>, turns: seq<Turn<T>>)
    requires Inv(s) && Passes(s, turns)
    ensures Inv(End(s, turns)) && End(s, turns).now == s.now
    decreases |turns|
  {
    if turns != [] {
      TurnKeeps(s, turns[0]);
      PassKeeps(After(s, turns[0]), turns[1..]);
    }
  }

  /** Every timer that a pass takes was in the heap, under the same key, when the pass began, and was due
      then: none runs early, and nothing started during the pass runs in it. */
  lemma {:induction false} NoneEarly<T>(s: Loop<T>, turns: seq<Turn<T>>, i: nat)
    requires Inv(s) && Passes(s, turns) && i < |turns|
    ensures turns[i].timer in Due(s) && s.heap[turns[i].timer] == Keys(s, turns)[i]
    decreases |turns|
  {
    if i > 0 {
      TurnKeeps(s, turns[0]);
      NoneEarly(After(s, turns[0]), turns[1..], i - 1);
    }
  }

  /** The timers of a pass are taken in strictly increasing order of (timeout, id), so none twice. */
  lemma {:induction false} InOrder<T>(s: Loop<T>, turns: seq<Turn<T>>, i: nat, j: nat)
    requires Inv(s) && Passes(s, turns) && i < j < |turns|
    ensures KeyLess(Keys(s, turns)[i], Keys(s, turns)[j]) && turns[i].timer != turns[j].timer
    decreases |turns|
  {
    TurnKeeps(s, turns[0]);
    if i == 0 {
      NoneEarly(After(s, turns[0]), turns[1..], j - 1);
    } else {
      InOrder(After(s, turns[0]), turns[1..], i - 1, j - 1);
    }
  }

  ghost predicate StoppedBy<T>(turns: seq<Turn<T>>, t: T) {
    exists i, k | 0 <= i < |turns| && 0 <= k < |turns[i].changes| :: turns[i].changes[k] == Stop(t)
  }

  ghost predicate TakenBy<T>(turns: seq<Turn<T>>, t: T) {
    exists i | 0 <= i < |turns| :: turns[i].timer == t
  }

  /** When a pass is over nothing is due, and every timer that was due when it began was taken, once, or
      was stopped by a callback before its turn. */
  lemma {:induction false} AllHandled<T>(s: Loop<T>, turns: seq<Turn<T>>, t: T)
    requires Inv(s) && Passes(s, turns) && NoneDue(End(s, turns)) && t in Due(s)
    ensures TakenBy(turns, t) || StoppedBy(turns, t)
    decreases |turns|
  {
    var turn := turns[0];
    var rest, s' := turns[1..], After(s, turn);
    if turn.timer != t {
      TurnKeeps(s, turn);
      var out := Insert(s.(heap := s.heap - {turn.timer}), turn.timer, turn.again);
      if t in Due(s') {
        AllHandled(s', rest, t);
        HandledLater(turns, t);
      } else {
        OnlyStopRemoves(out, turn.changes, t);
        assert turns[0].changes == turn.changes;
      }
    }
  }

  lemma {:induction false} HandledLater<T>(turns: seq<Turn<T>>, t: T)
    requires turns != [] && (TakenBy(turns[1..], t) || StoppedBy(turns[1..], t))
    ensures TakenBy(turns, t) || StoppedBy(turns, t)
  {
    if TakenBy(turns[1..], t) {
      var i :| 0 <= i < |turns[1..]| && turns[1..][i].timer == t;
      assert turns[i + 1].timer == t;
    } else {
      var i, k :| 0 <= i < |turns[1..]| && 0 <= k < |turns[1..][i].changes| && turns[1..][i].changes[k] == Stop(t);
      assert turns[i + 1].changes[k] == Stop(t);
    }
  }

  /** A timer that a callback removed from the heap was stopped by it. */
  lemma {:induction false} OnlyStopRemoves<T>(s: Loop<T>, cs: seq<Change<T>>, t: T)
    requires Inv(s) && t in Due(s) && t !in Due(ChangeAll(s, cs))
    ensures exists k | 0 <= k < |cs| :: cs[k] == Stop(t)
    decreases |cs|
  {
    if cs[0] != Stop(t) {
      ChangeKeeps(s, cs[0]);
      OnlyStopRemoves(Change1(s, cs[0]), cs[1..], t);
      var k :| 0 <= k < |cs[1..]| && cs[1..][k] == Stop(t);
      assert cs[k + 1] == Stop(t);
    } else {
      assert cs[0] == Stop(t);
    }
  }

  // ---------- Waiting ----------

  /** A cast to int32_t, in two's complement. */
  function Int32(n: int): int {
    var m := n % 0x1_0000_0000;
    if m < 0x8000_0000 then m else m - 0x1_0000_0000
  }

  /** eventIO_nextTimeout, given the minimum of the heap. */
  function NextTimeout(now: int, min: int): int {
    if min <= now then 0 else Int32(min - now)
  }

  ghost predicate Least<T>(s: Loop<T>, t: T) {
    t in s.heap && forall u | u in s.heap :: !KeyLess(s.heap[u], s.heap[t])
  }

  /** Nothing is due w milliseconds later. */
  ghost predicate Asleep<T>(s: Loop<T>, w: nat) {
    NoneDue(s.(now := s.now + w))
  }

  /** The wait tells exactly how long nothing is due. */
  ghost predicate Tells<T>(s: Loop<T>, wait: int) {
    forall w: nat :: Asleep(s, w) <==> w < wait
  }

  lemma AsleepUntil<T>(s: Loop<T>, t: T, w: nat)
    requires Least(s, t)
    ensures Asleep(s, w) <==> s.now + w < s.heap[t].timeout
  {}

  /** The cast keeps the differences below 2^31, and none above. */
  lemma Int32Keeps(n: int)
    requires n >= 0
    ensures Int32(n) == n <==> n < 0x8000_0000
    ensures n >= 0x8000_0000 ==> Int32(n) < n
  {}

  /** eventIO_nextTimeout tells how long nothing is due exactly if the least timeout is less than 2^31 ms
      ahead.  Otherwise the cast makes it less or negative, and epoll_wait takes any negative value for no
      timeout. */
  lemma {:induction false} SleepsUntilDue<T>(s: Loop<T>, t: T)
    requires Least(s, t)
    ensures Tells(s, NextTimeout(s.now, s.heap[t].timeout)) <==> s.heap[t].timeout - s.now < 0x8000_0000
    ensures s.heap[t].timeout - s.now < 0x8000_0000 ==> NextTimeout(s.now, s.heap[t].timeout) >= 0
  {
    var ahead := s.heap[t].timeout - s.now;
    var wait := NextTimeout(s.now, s.heap[t].timeout);
    forall w: nat
      ensures Asleep(s, w) <==> w < ahead
    {
      AsleepUntil(s, t, w);
    }
    if ahead > 0 {
      Int32Keeps(ahead);
      if ahead >= 0x8000_0000 {
        var w := if wait < 0 then 0 else wait;
        assert Asleep(s, w) && !(w < wait);
      }
    }
  }

  /** 2^31 ms ahead the timeout is negative, and for the longest interval, 0xffffffff ms, it is -1, which
      otherwise means that there is no timer. */
  lemma LongTimers(now: int)
    ensures NextTimeout(now, now + 0x7fff_ffff) == 0x7fff_ffff
    ensures NextTimeout(now, now + 0x8000_0000) == -0x8000_0000
    ensures NextTimeout(now, now + 0xffff_ffff) == -1
  {}
}
