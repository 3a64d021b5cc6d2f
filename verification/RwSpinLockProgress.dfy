/** Who gets the lock of rwSpinLock_t.h: which attempts succeed, in terms of what the other threads hold, and
    that everybody who has it can let go. */
module RwSpinLockProgress {
  import opened RwSpinLock

  ghost predicate AllFree(ths: seq<Thread>) {
    forall u | 0 <= u < |ths| :: ths[u].Free?
  }

  ghost predicate OthersFree(ths: seq<Thread>, t: nat) {
    forall u | 0 <= u < |ths| && u != t :: ths[u].Free?
  }

  /** Nobody holds the lock for writing, and nobody has it upgraded. */
  ghost predicate Open(ths: seq<Thread>) {
    forall u | 0 <= u < |ths| :: !Is(ths[u], Holding) && !Is(ths[u], Upgrading)
  }

  // ---------- What the bits say of the threads ----------

  lemma {:induction false} FreeTallies(ths: seq<Thread>)
    ensures AllFree(ths) <==> Tally(ths, Counted) == 0 && Tally(ths, Holding) == 0 && Tally(ths, Upgrading) == 0
    ensures Open(ths) <==> Tally(ths, Holding) == 0 && Tally(ths, Upgrading) == 0
  {
    TallyBounds(ths, Counted);
    TallyBounds(ths, Holding);
    TallyBounds(ths, Upgrading);
    if Tally(ths, Counted) == 0 && Tally(ths, Holding) == 0 && Tally(ths, Upgrading) == 0 {
      forall u | 0 <= u < |ths|
        ensures ths[u].Free?
      {
        assert !Is(ths[u], Counted) && !Is(ths[u], Holding) && !Is(ths[u], Upgrading);
      }
    }
  }

  lemma FromBits(bits: int, counted: int, confirmed: int, holding: int, upgrading: int, u: bool)
    requires BitsOk(bits, counted, confirmed, holding, upgrading, u)
    ensures bits == 0 <==> counted == 0 && holding == 0 && upgrading == 0
    ensures !HasWriter(bits) && !HasUpgraded(bits) <==> holding == 0 && upgrading == 0
    ensures upgrading == 1 ==> (bits == RW_UPGRADED <==> counted == 0)
  {
    ReadBits(bits, counted, confirmed, holding, upgrading, u);
  }

  /** The bits are 0 exactly if every thread is free, and W and U are clear exactly if the lock is open:
      an attempt to upgrade that fails leaves U behind only while there is a writer or upgrader. */
  lemma {:induction false} BitsTell(n: nat, acts: seq<Action>)
    ensures var s := Run(Init(n), acts);
            && (s.bits == 0 <==> AllFree(s.threads))
            && (!HasWriter(s.bits) && !HasUpgraded(s.bits) <==> Open(s.threads))
  {
    Always(n, acts);
    var s := Run(Init(n), acts);
    var u: bool :| InvWith(s, u);
    FromBits(s.bits, Tally(s.threads, Counted), Tally(s.threads, Confirmed), Tally(s.threads, Holding),
             Tally(s.threads, Upgrading), u);
    FreeTallies(s.threads);
  }

  /** The bits are just U exactly if everybody but the upgrader is free. */
  lemma {:induction false} UpgraderAlone(n: nat, acts: seq<Action>, t: nat)
    requires t < |Run(Init(n), acts).threads| && Run(Init(n), acts).threads[t].Upgrader?
    ensures var s := Run(Init(n), acts); s.bits == RW_UPGRADED <==> OthersFree(s.threads, t)
  {
    Always(n, acts);
    var s := Run(Init(n), acts);
    var ths, others := s.threads, s.threads[t := Free];
    var u: bool :| InvWith(s, u);
    TallyRest(ths, t, Free);
    FreeTallies(others);
    assert OthersFree(ths, t) <==> AllFree(others) by {
      assert forall v | 0 <= v < |ths| && v != t :: others[v] == ths[v];
    }
  }

  // ---------- Attempts ----------

  /** Which attempts of a free thread succeed, in every run: to write, exactly if every thread is free; to
      read or to upgrade, exactly if nobody writes or is upgraded. */
  lemma {:induction false} Attempts(n: nat, acts: seq<Action>, t: nat)
    requires t < n
    ensures var s := Run(Init(n), acts);
            |s.threads| == n &&
            (s.threads[t].Free? ==>
              && Step(s, t, TryWrite).threads == s.threads[t := if AllFree(s.threads) then Writer else Free]
              && Step(s, t, TryRead).threads == s.threads[t := if Open(s.threads) then Reader else BackingOff]
              && Step(s, t, TryUpgrade).threads == s.threads[t := if Open(s.threads) then Upgrader else Free])
  {
    Always(n, acts);
    BitsTell(n, acts);
  }

  /** An upgrader becomes the writer exactly if every other thread is free; otherwise it stays what it is. */
  lemma {:induction false} Upgrade(n: nat, acts: seq<Action>, t: nat)
    requires t < n
    ensures var s := Run(Init(n), acts);
            |s.threads| == n &&
            (s.threads[t].Upgrader? ==>
              Step(s, t, ToWriter).threads == s.threads[t := if OthersFree(s.threads, t) then Writer else Upgrader])
  {
    Always(n, acts);
    if Run(Init(n), acts).threads[t].Upgrader? {
      UpgraderAlone(n, acts, t);
    }
  }

  /** A thread that lets go or hands over is what it asked to be after two operations of its own at most,
      whatever it chooses for the second, and no other thread is changed. */
  lemma {:induction false} LetsGo(s: State, t: nat, c: Choice)
    requires t < |s.threads|
    ensures var th := s.threads[t];
            && Run(s, [Action(t, Unlock), Action(t, Unlock)]).threads == s.threads[t := Free]
            && (th.BackingOff? ==> Step(s, t, c).threads == s.threads[t := Free])
            && (th.Reader? || th.Writer? || th.Upgrader? ==> Step(s, t, Unlock).threads == s.threads[t := Free])
            && (th.Writer? ==>
                  && Step(Step(s, t, ToReader), t, c).threads == s.threads[t := Reader]
                  && Step(Step(s, t, ToUpgrader), t, c).threads == s.threads[t := Upgrader])
            && (th.Upgrader? ==> Step(s, t, ToReader).threads == s.threads[t := Reader])
  {
    var a := Action(t, Unlock);
    assert [a, a][1..] == [a] && [a][1..] == [];
    var once := Step(s, t, Unlock);
    assert Run(s, [a, a]) == Run(once, [a]);
    assert Run(once, [a]) == Run(Step(once, t, Unlock), []);
  }

  // ---------- Nobody is shut out for ever ----------

  lemma {:induction false} RunAppend(s: State, acts: seq<Action>, more: seq<Action>)
    ensures Run(s, acts + more) == Run(Run(s, acts), more)
    decreases |acts|
  {
    if acts == [] {
      assert acts + more == more;
    } else {
      assert (acts + more)[1..] == acts[1..] + more;
      RunAppend(Step(s, acts[0].t, acts[0].c), acts[1..], more);
    }
  }

  /** The first k threads let go. */
  lemma {:induction false} AllLetGo(s: State, k: nat) returns (acts: seq<Action>)
    requires k <= |s.threads|
    ensures var s' := Run(s, acts);
            && |s'.threads| == |s.threads| && (forall u | 0 <= u < k :: s'.threads[u].Free?)
            && forall u | k <= u < |s.threads| :: s'.threads[u] == s.threads[u]
    ensures forall i | 0 <= i < |acts| :: acts[i].c == Unlock
  {
    if k == 0 {
      acts := [];
    } else {
      acts := AllLetGo(s, k - 1);
      var more := [Action(k - 1, Unlock), Action(k - 1, Unlock)];
      RunAppend(s, acts, more);
      var s' := Run(s, acts);
      LetsGo(s', k - 1, Unlock);
      acts := acts + more;
    }
  }

  /** From every reachable state, once those who have the lock have let go, any thread can get it in any of
      the three ways. */
  lemma {:induction false} NeverStuck(n: nat, acts: seq<Action>, t: nat) returns (more: seq<Action>)
    requires t < n
    ensures forall i | 0 <= i < |more| :: more[i].c == Unlock
    ensures var s := Run(Init(n), acts + more);
            && |s.threads| == n && s.bits == 0 && AllFree(s.threads)
            && Step(s, t, TryWrite).threads[t].Writer?
            && Step(s, t, TryRead).threads[t].Reader?
            && Step(s, t, TryUpgrade).threads[t].Upgrader?
  {
    Always(n, acts);
    more := AllLetGo(Run(Init(n), acts), n);
    RunAppend(Init(n), acts, more);
    Attempts(n, acts + more, t);
    BitsTell(n, acts + more);
  }
}
