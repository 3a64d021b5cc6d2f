/** The reader, writer and upgrade lock of rwSpinLock_t.h, for any number of threads.  Every atomic
    operation on iBits is one step. */
module RwSpinLock {
  const RW_WRITER := 1
  const RW_UPGRADED := 2
  const RW_READER := 4

  datatype Thread =
    | Free
    | BackingOff    // tryrdlock added a reader and found W or U set: subtract it
    | Reader
    | Writer
    | Upgrader
    | Downgrading   // wrunlock_rdlock added its reader: clear W and U
    | Demoting      // wrunlock_uplock set U: clear W

  datatype Choice =
    | TryRead | TryWrite | TryUpgrade
    | Unlock | ToReader | ToUpgrader | ToWriter

  datatype State = State(bits: int, threads: seq<Thread>)

  // ---------- The bits ----------

  /** bits & RW_WRITER: the low two bits are 01 or 11. */
  predicate HasWriter(bits: int) {
    bits % 4 == 1 || bits % 4 == 3
  }

  /** bits & RW_UPGRADED: the low two bits are 10 or 11. */
  predicate HasUpgraded(bits: int) {
    bits % 4 >= 2
  }

  /** bits | RW_UPGRADED */
  function OrUpgraded(bits: int): int {
    if HasUpgraded(bits) then bits else bits + RW_UPGRADED
  }

  /** bits & ~(RW_WRITER | RW_UPGRADED) */
  function Cleared(bits: int): int {
    bits - bits % 4
  }

  // ---------- Steps ----------

  /** The next atomic operation of a thread; a failed attempt leaves it where it is, to spin or to
      give up. */
  function Move(th: Thread, bits: int, c: Choice): (Thread, int) {
    match (th, c)
    case (Free, TryRead) => (if HasWriter(bits) || HasUpgraded(bits) then BackingOff else Reader, bits + RW_READER)
    case (Free, TryWrite) => if bits == 0 then (Writer, RW_WRITER) else (Free, bits)
    case (Free, TryUpgrade) => (if HasWriter(bits) || HasUpgraded(bits) then Free else Upgrader, OrUpgraded(bits))
    case (BackingOff, _) => (Free, bits - RW_READER)
    case (Reader, Unlock) => (Free, bits - RW_READER)
    case (Writer, Unlock) => (Free, Cleared(bits))
    case (Writer, ToReader) => (Downgrading, bits + RW_READER)
    case (Writer, ToUpgrader) => (Demoting, OrUpgraded(bits))
    case (Downgrading, _) => (Reader, Cleared(bits))
    case (Demoting, _) => (Upgrader, bits - RW_WRITER)
    case (Upgrader, Unlock) => (Free, bits - RW_UPGRADED)
    case (Upgrader, ToWriter) => if bits == RW_UPGRADED then (Writer, RW_WRITER) else (Upgrader, bits)
    case (Upgrader, ToReader) => (Reader, bits + (RW_READER - RW_UPGRADED))
    case (_, _) => (th, bits)
  }

  function Step(s: State, t: nat, c: Choice): State {
    if t >= |s.threads| then s
    else
      var (th, bits) := Move(s.threads[t], s.bits, c);
      State(bits, s.threads[t := th])
  }

  datatype Action = Action(t: nat, c: Choice)

  function Run(s: State, acts: seq<Action>): State
    decreases |acts|
  {
    if acts == [] then s else Run(Step(s, acts[0].t, acts[0].c), acts[1..])
  }

  function Init(n: nat): State {
    State(0, seq(n, _ => Free))
  }

  // ---------- Counting threads ----------

  datatype Kind = Counted | Confirmed | Holding | Upgrading

  ghost predicate Is(th: Thread, k: Kind) {
    match k
    case Counted => th.Reader? || th.BackingOff? || th.Downgrading?   // a reader is in the bits
    case Confirmed => th.Reader?
    case Holding => th.Writer? || th.Downgrading? || th.Demoting?     // W is this thread's
    case Upgrading => th.Upgrader?
  }

  ghost function Has(th: Thread, k: Kind): nat {
    if Is(th, k) then 1 else 0
  }

  ghost function Tally(ths: seq<Thread>, k: Kind): nat {
    if ths == [] then 0 else Has(ths[0], k) + Tally(ths[1..], k)
  }

  lemma {:induction false} TallyUpdate(ths: seq<Thread>, t: nat, th: Thread, k: Kind)
    requires t < |ths|
    ensures Tally(ths[t := th], k) + Has(ths[t], k) == Tally(ths, k) + Has(th, k)
  {
    if t > 0 {
      assert ths[t := th][1..] == ths[1..][t - 1 := th];
      TallyUpdate(ths[1..], t - 1, th, k);
    } else {
      assert ths[t := th][1..] == ths[1..];
    }
  }

  lemma {:induction false} TallyBounds(ths: seq<Thread>, k: Kind)
    ensures Tally(ths, k) <= |ths|
    ensures Tally(ths, k) == 0 <==> forall t | 0 <= t < |ths| :: !Is(ths[t], k)
    ensures Tally(ths, k) <= 1 ==> forall t, u | 0 <= t < u < |ths| :: !(Is(ths[t], k) && Is(ths[u], k))
  {
    if ths != [] {
      TallyBounds(ths[1..], k);
      assert forall t | 1 <= t < |ths| :: ths[t] == ths[1..][t - 1];
    }
  }

  // ---------- The invariant ----------

  /** The bits count the readers, confirmed or about to back off, U (when `u`) and the writer.  A
      writer excludes confirmed readers and upgraders; without one, U is set exactly while there is an
      upgrader. */
  ghost predicate BitsOk(bits: int, counted: int, confirmed: int, holding: int, upgrading: int, u: bool) {
    && bits == 4 * counted + (if u then 2 else 0) + holding
    && 0 <= holding <= 1 && 0 <= confirmed <= counted && 0 <= upgrading
    && (holding == 0 ==> upgrading == if u then 1 else 0)
    && (holding == 1 ==> confirmed == 0 && upgrading == 0)
  }

  ghost predicate BitsOf(bits: int, ths: seq<Thread>, u: bool) {
    BitsOk(bits, Tally(ths, Counted), Tally(ths, Confirmed), Tally(ths, Holding), Tally(ths, Upgrading), u)
  }

  ghost predicate InvWith(s: State, u: bool) {
    && BitsOf(s.bits, s.threads, u)
    // wrunlock_uplock has set U by the time it clears W
    && forall t | 0 <= t < |s.threads| && s.threads[t].Demoting? :: u
  }

  ghost predicate Inv(s: State) {
    exists u: bool :: InvWith(s, u)
  }

  /** Reading and changing the two low bits. */
  lemma ReadBits(bits: int, counted: int, confirmed: int, holding: int, upgrading: int, u: bool)
    requires BitsOk(bits, counted, confirmed, holding, upgrading, u)
    ensures (HasWriter(bits) <==> holding == 1) && (HasUpgraded(bits) <==> u)
    ensures Cleared(bits) == 4 * counted
    ensures OrUpgraded(bits) == 4 * counted + 2 + holding
  {
    assert bits % 4 == (if u then 2 else 0) + holding;
  }

  /** A thread, and how many others are in which place. */
  ghost predicate Before(th: Thread, bits: int, counted: int, confirmed: int, holding: int, upgrading: int, u: bool) {
    && BitsOk(bits, counted + Has(th, Counted), confirmed + Has(th, Confirmed), holding + Has(th, Holding),
              upgrading + Has(th, Upgrading), u)
    && (th.Demoting? ==> u)
    && 0 <= confirmed <= counted && 0 <= holding && 0 <= upgrading
  }

  /** U after a move. */
  ghost function NextU(th: Thread, bits: int, c: Choice, u: bool): bool {
    match (th, c)
    case (Free, TryUpgrade) => true
    case (Writer, ToUpgrader) => true
    case (Writer, Unlock) => false
    case (Downgrading, _) => false
    case (Upgrader, Unlock) => false
    case (Upgrader, ToReader) => false
    case (Upgrader, ToWriter) => if bits == RW_UPGRADED then false else u
    case (_, _) => u
  }

  /** One move, with the numbers of the other threads. */
  ghost predicate MoveOk(th: Thread, bits: int, c: Choice, counted: int, confirmed: int, holding: int, upgrading: int,
                         u: bool)
  {
    var (th', bits') := Move(th, bits, c);
    var u' := NextU(th, bits, c, u);
    && BitsOk(bits', counted + Has(th', Counted), confirmed + Has(th', Confirmed), holding + Has(th', Holding),
              upgrading + Has(th', Upgrading), u')
    && (th'.Demoting? ==> u') && (holding == 1 && u ==> u')
  }

  lemma FreeMove(bits: int, c: Choice, counted: int, confirmed: int, holding: int, upgrading: int, u: bool)
    requires Before(Free, bits, counted, confirmed, holding, upgrading, u)
    ensures MoveOk(Free, bits, c, counted, confirmed, holding, upgrading, u)
  {
    ReadBits(bits, counted, confirmed, holding, upgrading, u);
  }

  lemma WriterMove(bits: int, c: Choice, counted: int, confirmed: int, holding: int, upgrading: int, u: bool)
    requires Before(Writer, bits, counted, confirmed, holding, upgrading, u)
    ensures MoveOk(Writer, bits, c, counted, confirmed, holding, upgrading, u)
  {
    ReadBits(bits, counted, confirmed, holding + 1, upgrading, u);
  }

  lemma UpgraderMove(bits: int, c: Choice, counted: int, confirmed: int, holding: int, upgrading: int, u: bool)
    requires Before(Upgrader, bits, counted, confirmed, holding, upgrading, u)
    ensures MoveOk(Upgrader, bits, c, counted, confirmed, holding, upgrading, u)
  {}

  lemma OtherMove(th: Thread, bits: int, c: Choice, counted: int, confirmed: int, holding: int, upgrading: int, u: bool)
    requires Before(th, bits, counted, confirmed, holding, upgrading, u) && !th.Free? && !th.Writer? && !th.Upgrader?
    ensures MoveOk(th, bits, c, counted, confirmed, holding, upgrading, u)
  {
    ReadBits(bits, counted + Has(th, Counted), confirmed + Has(th, Confirmed), holding + Has(th, Holding),
             upgrading, u);
  }

  lemma MoveKeeps(th: Thread, bits: int, c: Choice, counted: int, confirmed: int, holding: int, upgrading: int, u: bool)
    requires Before(th, bits, counted, confirmed, holding, upgrading, u)
    ensures MoveOk(th, bits, c, counted, confirmed, holding, upgrading, u)
  {
    match th
    case Free => FreeMove(bits, c, counted, confirmed, holding, upgrading, u);
    case Writer => WriterMove(bits, c, counted, confirmed, holding, upgrading, u);
    case Upgrader => UpgraderMove(bits, c, counted, confirmed, holding, upgrading, u);
    case _ => OtherMove(th, bits, c, counted, confirmed, holding, upgrading, u);
  }

  lemma {:induction false} StepKeepsBits(s: State, t: nat, c: Choice, u: bool)
    requires InvWith(s, u) && t < |s.threads|
    ensures var th, others := s.threads[t], s.threads[t := Free];
            && BitsOf(Step(s, t, c).bits, Step(s, t, c).threads, NextU(th, s.bits, c, u))
            && (Move(th, s.bits, c).0.Demoting? ==> NextU(th, s.bits, c, u))
            && (Tally(others, Holding) == 1 && u ==> NextU(th, s.bits, c, u))
  {
    var th, others := s.threads[t], s.threads[t := Free];
    TallyRest(s.threads, t, Move(th, s.bits, c).0);
    MoveKeeps(th, s.bits, c, Tally(others, Counted), Tally(others, Confirmed), Tally(others, Holding),
              Tally(others, Upgrading), u);
  }

  lemma {:induction false} StepKeepsInv(s: State, t: nat, c: Choice)
    requires Inv(s)
    ensures Inv(Step(s, t, c))
  {
    if t < |s.threads| {
      var u: bool :| InvWith(s, u);
      var s', u' := Step(s, t, c), NextU(s.threads[t], s.bits, c, u);
      StepKeepsBits(s, t, c, u);
      forall v | 0 <= v < |s'.threads| && s'.threads[v].Demoting?
        ensures u'
      {
        if v != t {
          TallyOther(s.threads, t, v);
        }
      }
      assert InvWith(s', u');
    }
  }

  lemma {:induction false} TallyWithout(ths: seq<Thread>, t: nat, th': Thread, k: Kind)
    requires t < |ths|
    ensures Tally(ths, k) == Tally(ths[t := Free], k) + Has(ths[t], k)
    ensures Tally(ths[t := th'], k) == Tally(ths[t := Free], k) + Has(th', k)
  {
    TallyUpdate(ths, t, Free, k);
    TallyUpdate(ths, t, th', k);
  }

  /** All threads but `t` (counting it as free), and `t` before and after its move. */
  lemma {:induction false} TallyRest(ths: seq<Thread>, t: nat, th': Thread)
    requires t < |ths|
    ensures forall k: Kind :: Tally(ths, k) == Tally(ths[t := Free], k) + Has(ths[t], k)
    ensures forall k: Kind :: Tally(ths[t := th'], k) == Tally(ths[t := Free], k) + Has(th', k)
    ensures Tally(ths[t := Free], Confirmed) <= Tally(ths[t := Free], Counted)
  {
    forall k: Kind
      ensures Tally(ths, k) == Tally(ths[t := Free], k) + Has(ths[t], k)
      ensures Tally(ths[t := th'], k) == Tally(ths[t := Free], k) + Has(th', k)
    {
      TallyWithout(ths, t, th', k);
    }
    ConfirmedCounted(ths[t := Free]);
  }

  lemma {:induction false} ConfirmedCounted(ths: seq<Thread>)
    ensures Tally(ths, Confirmed) <= Tally(ths, Counted)
  {
    if ths != [] {
      ConfirmedCounted(ths[1..]);
    }
  }

  /** When another thread holds W, it is the only one. */
  lemma {:induction false} TallyOther(ths: seq<Thread>, t: nat, u: nat)
    requires t < |ths| && u < |ths| && u != t && Is(ths[u], Holding) && Tally(ths, Holding) <= 1
    ensures Tally(ths[t := Free], Holding) == 1 && !Is(ths[t], Holding)
  {
    TallyBounds(ths, Holding);
    var i, j := if t < u then t else u, if t < u then u else t;
    assert !(Is(ths[i], Holding) && Is(ths[j], Holding));
    TallyUpdate(ths, t, Free, Holding);
  }

  // ---------- What holds in every run ----------

  lemma {:induction false} Always(n: nat, acts: seq<Action>)
    ensures Inv(Run(Init(n), acts)) && |Run(Init(n), acts).threads| == n
  {
    var s := Init(n);
    assert InvWith(s, false) by {
      NoneAtFirst(n);
    }
    RunKeepsInv(s, acts);
  }

  lemma NoneAtFirst(n: nat)
    ensures forall k: Kind :: Tally(Init(n).threads, k) == 0
  {
    forall k: Kind
      ensures Tally(Init(n).threads, k) == 0
    {
      TallyBounds(Init(n).threads, k);
    }
  }

  lemma {:induction false} RunKeepsInv(s: State, acts: seq<Action>)
    requires Inv(s)
    ensures Inv(Run(s, acts)) && |Run(s, acts).threads| == |s.threads|
    decreases |acts|
  {
    if acts != [] {
      StepKeepsInv(s, acts[0].t, acts[0].c);
      RunKeepsInv(Step(s, acts[0].t, acts[0].c), acts[1..]);
    }
  }

  /** The value of iBits: four times the readers in it, confirmed or about to back off, plus U, plus W
      exactly while there is a writer; with W clear, U is set exactly while there is an upgrader. */
  lemma {:induction false} BitsCount(n: nat, acts: seq<Action>)
    ensures var s := Run(Init(n), acts);
            && |s.threads| == n
            && s.bits == 4 * Tally(s.threads, Counted) + (if HasUpgraded(s.bits) then 2 else 0)
                         + Tally(s.threads, Holding)
            && (HasWriter(s.bits) <==> Tally(s.threads, Holding) == 1)
            && (!HasWriter(s.bits) ==> (HasUpgraded(s.bits) <==> exists t | 0 <= t < n :: Is(s.threads[t], Upgrading)))
            && 0 <= s.bits <= 4 * n + 3
  {
    Always(n, acts);
    var s := Run(Init(n), acts);
    var u: bool :| InvWith(s, u);
    ReadBits(s.bits, Tally(s.threads, Counted), Tally(s.threads, Confirmed), Tally(s.threads, Holding),
             Tally(s.threads, Upgrading), u);
    TallyBounds(s.threads, Counted);
    TallyBounds(s.threads, Upgrading);
  }

  /** A writer excludes readers, upgraders and other writers, and there is one upgrader at most. */
  lemma {:induction false} Exclusion(n: nat, acts: seq<Action>, t: nat, u: nat)
    requires t < n && u < n && t != u
    ensures var ths := Run(Init(n), acts).threads;
            |ths| == n
            && (Is(ths[t], Holding) ==> !ths[u].Reader? && !ths[u].Upgrader? && !Is(ths[u], Holding))
            && (ths[t].Upgrader? ==> !ths[u].Upgrader?)
  {
    Always(n, acts);
    var ths := Run(Init(n), acts).threads;
    var u': bool :| InvWith(Run(Init(n), acts), u');
    TallyBounds(ths, Holding);
    TallyBounds(ths, Confirmed);
    TallyBounds(ths, Upgrading);
    var i, j := if t < u then t else u, if t < u then u else t;
    assert !(Is(ths[i], Holding) && Is(ths[j], Holding)) && !(Is(ths[i], Upgrading) && Is(ths[j], Upgrading));
    assert ths[u].Reader? ==> Is(ths[u], Confirmed);
  }
}
