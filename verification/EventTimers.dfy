/** The timers of an event loop in its heap: the loop's part of eventTimer_t.h, eventIO_runTimers and
    eventIO_nextTimeout of eventIO_t.c. */
module EventTimers {
  import opened HeapShape
  import opened TimerHeap
  import opened TimerRun
  import TimerDeadlines

  /** The keys of the nodes of a heap. */
  ghost function KeysIn(m: Memory): map<Node, Key> {
    map n | n in m :: m[n].key
  }

  lemma OneIn(m: Memory, m': Memory, n: Node, key: Key)
    requires n !in m && m'.Keys == m.Keys + {n} && SameKeys(m, m') && m'[n].key == key
    ensures KeysIn(m') == KeysIn(m)[n := key]
  {}

  lemma OneOut(m: Memory, m': Memory, n: Node)
    requires m'.Keys == m.Keys - {n} && forall u | u in m' :: m'[u].key == m[u].key
    ensures KeysIn(m') == KeysIn(m) - {n}
  {}

  class EventIO {
    const heap: Heap              // timerHeap
    var loopTime: int             // uiLoopTime
    var counter: int              // uiTimerCounter
    ghost const timers: set<Node> // every timer of this loop, in the heap or not

    /** bActive says which timers are in the heap. */
    ghost predicate Held()
      reads this, heap, heap.mem.Keys, timers
    {
      heap.Valid() && heap.mem.Keys <= timers && forall n | n in timers :: n.active <==> n in heap.mem
    }

    ghost predicate Valid()
      reads this, heap, heap.mem.Keys, timers
    {
      Held() && TimerRun.Inv(View())
    }

    ghost function View(): Loop<Node>
      reads this, heap
    {
      Loop(loopTime, counter, KeysIn(heap.mem))
    }

    constructor (ghost timers: set<Node>)
      requires forall n | n in timers :: !n.active
      ensures Valid() && this.timers == timers && fresh(heap) && View() == Loop(0, 0, map[])
    {
      heap := new Heap();
      loopTime, counter := 0, 0;
      this.timers := timers;
      new;
      assert heap.mem == map[];
    }

    /** Giving a timer that is not in the heap its time and ID. */
    method Stamp(n: Node, interval: nat)
      requires Held() && n in timers && !n.active
      modifies this`counter, n`timeout, n`id
      ensures Held() && View() == old(View()).(counter := old(counter) + 1)
      ensures n.timeout == loopTime + interval && n.id == old(counter)
    {
      n.timeout := loopTime + interval;
      n.id := counter;
      counter := counter + 1;
    }

    /** Putting it into the heap. */
    method Enter(n: Node)
      requires Held() && n in timers && !n.active
      modifies heap, timers
      ensures Held() && n.active
      ensures View() == old(View()).(heap := old(View()).heap[n := Key(old(n.timeout), old(n.id))])
    {
      ghost var before, key := heap.mem, Key(n.timeout, n.id);
      heap.Insert(n);
      n.active := true;
      OneIn(before, heap.mem, n, key);
    }

    lemma Stamped(n: Node)
      requires Held() && n.active && n in timers
      ensures n in View().heap && View().heap[n] == Key(n.timeout, n.id)
    {}

    /** inLoop_eventTimer_start and the repeating branch of eventTimer_run. */
    method Schedule(n: Node, interval: nat)
      requires Held() && n in timers && !n.active && interval > 0
      modifies this`counter, heap, timers
      ensures Held() && View() == Insert(old(View()), n, interval)
      ensures n.active && n.timeout == loopTime + interval
    {
      Stamp(n, interval);
      Enter(n);
      Stamped(n);
    }

    /** inLoop_eventTimer_start: a timer without an interval does not enter the heap. */
    method StartTimer(n: Node, interval: nat)
      requires Valid() && n in timers
      modifies this`counter, heap, timers
      ensures Valid() && View() == Insert(old(View()), n, interval)
      ensures if interval > 0 && !old(n.active) then n.active && n.timeout == loopTime + interval
              else n.active == old(n.active) && n.timeout == old(n.timeout)
    {
      ChangeKeeps(View(), Start(n, interval));
      if interval > 0 && !n.active {
        Schedule(n, interval);
      }
    }

    method TakeOut(n: Node)
      requires Held() && n in timers && n.active
      modifies heap, timers
      ensures Held() && View() == old(View()).(heap := old(View()).heap - {n}) && !n.active
    {
      ghost var before := heap.mem;
      n.active := false;
      heap.Remove(n);
      OneOut(before, heap.mem, n);
    }

    /** inLoop_eventTimer_stop */
    method StopTimer(n: Node)
      requires Valid() && n in timers
      modifies heap, timers
      ensures Valid() && View() == Change1(old(View()), Stop(n)) && !n.active
    {
      ChangeKeeps(View(), Stop(n));
      if n.active {
        TakeOut(n);
      } else {
        assert View().heap - {n} == View().heap;
      }
    }

    /** What a callback does to the heap. */
    method Callback(changes: seq<Change<Node>>)
      requires Valid() && forall k | 0 <= k < |changes| :: changes[k].timer in timers
      modifies this`counter, heap, timers
      ensures Valid() && View() == ChangeAll(old(View()), changes)
      decreases |changes|
    {
      if changes != [] {
        ghost var s := View();
        match changes[0] {
          case Start(n, interval) => StartTimer(n, interval);
          case Stop(n) => StopTimer(n);
        }
        assert View() == Change1(s, changes[0]);
        Callback(changes[1..]);
      }
    }

    /** eventTimer_run; `again` is the interval of a repeating timer that was not stopped, otherwise 0. */
    method RunTimer(n: Node, again: nat, changes: seq<Change<Node>>)
      requires Valid() && n in timers && n.active
      requires forall k | 0 <= k < |changes| :: changes[k].timer in timers
      modifies this`counter, heap, timers
      ensures Valid() && View() == After(old(View()), Turn(n, again, changes))
      ensures again > 0 && Stop(n) !in changes ==> n.active && n.timeout == loopTime + again
      ensures again == 0 && changes == [] ==> !n.active
    {
      ChangeKeeps(View(), Stop(n));
      TakeOut(n);
      StartTimer(n, again);
      ghost var s := View();
      Callback(changes);
      StillScheduled(s, n, changes);
    }

    /** The loop reads its clock, or adds the time it has slept. */
    method SetTime(now: int)
      requires Valid()
      modifies this`loopTime
      ensures Valid() && View() == old(View()).(now := now)
    {
      loopTime := now;
    }

    /** The tests of eventIO_runTimers: the timer to run next, or null. */
    method NextDue() returns (n: Node?)
      requires Valid()
      ensures n == null ==> NoneDue(View())
      ensures n != null ==> Takes(View(), n) && n in timers && n.active
    {
      n := heap.Min();
      if n != null && n.timeout > loopTime {
        n := null;
      }
    }

    /** eventIO_runTimers; the k-th turn's interval and callback come from the script, which may be any. */
    method RunTimers(script: nat -> (nat, seq<Change<Node>>)) returns (ghost turns: seq<Turn<Node>>)
      requires Valid()
      requires forall k: nat, i | 0 <= i < |script(k).1| :: script(k).1[i].timer in timers
      modifies this`counter, heap, timers
      ensures Valid() && Passes(old(View()), turns) && View() == End(old(View()), turns) && NoneDue(View())
    {
      turns := [];
      ghost var start := View();
      var k := 0;
      while true
        invariant Valid() && Passes(start, turns) && View() == End(start, turns)
        decreases |Due(View())|
      {
        var n := NextDue();
        if n == null {
          return;
        }
        var (again, changes) := script(k);
        ghost var turn := Turn(n, again, changes);
        FewerDue(View(), turn);
        RunTimer(n, again, changes);
        OneMore(start, turns, turn);
        turns := turns + [turn];
        k := k + 1;
      }
    }

    /** eventIO_nextTimeout: -1 without timers; otherwise the time until the earliest is due, exactly if that
        is less than 2^31 ms ahead. */
    method NextWait() returns (wait: int)
      requires Valid()
      ensures View().heap == map[] ==> wait == -1
      ensures View().heap != map[] ==>
                exists n | Least(View(), n) ::
                  && wait == NextTimeout(loopTime, View().heap[n].timeout)
                  && (Tells(View(), wait) <==> View().heap[n].timeout - loopTime < 0x8000_0000)
    {
      var n := heap.Min();
      if n == null {
        assert View().heap == map[];
        return -1;
      }
      wait := NextTimeout(loopTime, n.timeout);
      assert Least(View(), n) && n.timeout == View().heap[n].timeout;
      SleepsUntilDue(View(), n);
    }
  }

  /** A timer that a callback does not stop keeps its place. */
  lemma StillScheduled(s: Loop<Node>, n: Node, changes: seq<Change<Node>>)
    ensures n in s.heap && Stop(n) !in changes ==> TimerDeadlines.Kept(s, ChangeAll(s, changes), n)
  {
    if n in s.heap && Stop(n) !in changes {
      TimerDeadlines.ChangesKeepTimer(s, changes, n);
    }
  }

  lemma FewerDue(s: Loop<Node>, turn: Turn<Node>)
    requires TimerRun.Inv(s) && Takes(s, turn.timer)
    ensures TimerRun.Inv(After(s, turn)) && After(s, turn).now == s.now && |Due(After(s, turn))| < |Due(s)|
  {
    TurnKeeps(s, turn);
    assert Due(After(s, turn)) <= Due(s) - {turn.timer};
    Fewer(Due(After(s, turn)), Due(s) - {turn.timer});
  }

  lemma {:induction false} OneMore(s: Loop<Node>, turns: seq<Turn<Node>>, turn: Turn<Node>)
    requires Passes(s, turns) && Takes(End(s, turns), turn.timer)
    ensures Passes(s, turns + [turn]) && End(s, turns + [turn]) == After(End(s, turns), turn)
    decreases |turns|
  {
    if turns == [] {
      assert ([] + [turn])[1..] == [];
    } else {
      assert (turns + [turn])[1..] == turns[1..] + [turn];
      OneMore(After(s, turns[0]), turns[1..], turn);
    }
  }
}
