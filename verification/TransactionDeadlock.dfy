/** When the mutexes of hw5/src/transaction.c can deadlock: trans_add_dependency takes t and then d < t
    (lines 142-143), while the cascade of trans_abort holds a transaction and then takes a dependent
    with a larger id (lines 225, 240 and 246). */
module TransactionDeadlock {
  import opened TransactionAbort
  import opened TransactionRuns

  // ----- waiting ---------------------------------------------------------------------------------

  /** The mutex thread th has to take next is that of u. */
  ghost predicate WaitsFor(s: State, th: nat, u: nat) {
    th in s.pcs &&
    match s.pcs[th]
    case Adding(_, d) => u == d
    case Aborting(fs) => fs != [] && u == fs[0].next && u < |s.txs| && u != fs[0].t && fs[0].t in s.txs[u].deps
    case _ => false
  }

  ghost predicate Holds(s: State, th: nat, u: nat) {
    th in s.pcs && HoldsMutex(s.pcs[th], u)
  }

  ghost predicate WaitsOn(s: State, th: nat, th2: nat) {
    exists u: nat :: WaitsFor(s, th, u) && Holds(s, th2, u)
  }

  ghost predicate WaitsWithin(s: State, th: nat, D: set<nat>) {
    exists th2: nat :: th2 in D && WaitsOn(s, th, th2)
  }

  /** Every thread of D waits for a mutex that a thread of D holds. */
  ghost predicate Deadlock(s: State, D: set<nat>) {
    D != {} && forall th :: th in D ==> WaitsWithin(s, th, D)
  }

  ghost predicate CanStep(s: State, th: nat) {
    exists s2, t: nat, d: nat :: ThreadStep(s, s2, th, t, d)
  }

  ghost predicate Blocked(s: State, th: nat) {
    exists u: nat :: WaitsFor(s, th, u) && !Free(s, u)
  }

  /** A thread in the middle of a call is only ever stopped by a mutex. */
  lemma StuckIsBlocked(s: State, th: nat)
    requires Inv(s) && th in s.pcs && s.pcs[th] != Idle
    ensures CanStep(s, th) <==> !Blocked(s, th)
  {
    assert PcInv(s.txs, s.pcs[th]);
    match s.pcs[th]
    case Idle =>
    case Committing(t, rest, flag) => CommitGoesOn(s, th);
    case Adding(t, d) => AddGoesOn(s, th);
    case Aborting(fs) => AbortGoesOn(s, th);
  }

  lemma StepIs(s: State, s2: State, th: nat, t: nat, d: nat)
    requires ThreadStep(s, s2, th, t, d)
    ensures CanStep(s, th)
  {
  }

  lemma CommitGoesOn(s: State, th: nat)
    requires th in s.pcs && s.pcs[th].Committing? && PcInv(s.txs, s.pcs[th]) && TxInv(s.txs, s.pcs[th].t)
    ensures CanStep(s, th) && !Blocked(s, th)
  {
    var Committing(t, rest, flag) := s.pcs[th];
    assert rest[0] == s.txs[t].deps[|s.txs[t].deps| - |rest|] && rest[0] in s.txs[t].deps;
    assert CommitScan(s, Scan(s, th), th);
    hide Scan;
    StepIs(s, Scan(s, th), th, 0, 0);
  }

  lemma AddGoesOn(s: State, th: nat)
    requires th in s.pcs && s.pcs[th].Adding? && PcInv(s.txs, s.pcs[th])
    ensures CanStep(s, th) <==> !Blocked(s, th)
  {
    var Adding(t, d) := s.pcs[th];
    hide HoldsMutex;
    assert WaitsFor(s, th, d);
    if Free(s, d) {
      var s2 := s.(txs := s.txs[t := s.txs[t].(deps := [d] + s.txs[t].deps)], pcs := s.pcs[th := Idle]);
      assert AddSecond(s, s2, th);
      StepIs(s, s2, th, 0, 0);
    }
  }

  lemma AbortGoesOn(s: State, th: nat)
    requires th in s.pcs && s.pcs[th].Aborting? && PcInv(s.txs, s.pcs[th])
    ensures CanStep(s, th) <==> !Blocked(s, th)
    ensures !Blocked(s, th) ==> exists s2 :: AbortScan(s, s2, th)
  {
    var fs := s.pcs[th].frames;
    var f := fs[0];
    hide HoldsMutex;
    assert WaitsFor(s, th, f.next) <==> f.next < |s.txs| && f.next != f.t && f.t in s.txs[f.next].deps;
    if !Blocked(s, th) {
      var s2 := if f.next >= |s.txs| then s.(pcs := s.pcs[th := if |fs| == 1 then Idle else Aborting(fs[1..])])
                else if f.next == f.t || f.t !in s.txs[f.next].deps then Onward(s, th)
                else Visit(s, th);
      hide Onward, Visit;
      assert AbortScan(s, s2, th);
      StepIs(s, s2, th, 0, 0);
    }
  }

  // ----- both calls are needed ---------------------------------------------------------------------

  ghost predicate Adds(s: State, th: nat) {
    th in s.pcs && s.pcs[th].Adding?
  }

  ghost predicate Aborts(s: State, th: nat) {
    th in s.pcs && s.pcs[th].Aborting?
  }

  ghost predicate AddOnAbort(s: State, D: set<nat>) {
    exists a: nat, b: nat :: a in D && b in D && Adds(s, a) && Aborts(s, b) && WaitsOn(s, a, b)
  }

  ghost predicate AbortOnAdd(s: State, D: set<nat>) {
    exists a: nat, b: nat :: a in D && b in D && Aborts(s, a) && Adds(s, b) && WaitsOn(s, a, b)
  }

  /** trans_add_dependency waits for a smaller id than it holds, so a chain of its waits ends at a cascade. */
  lemma {:induction false} AddsDescend(s: State, D: set<nat>, th: nat) returns (a: nat, b: nat)
    requires Inv(s) && Deadlock(s, D) && th in D && Adds(s, th)
    ensures a in D && b in D && Adds(s, a) && Aborts(s, b) && WaitsOn(s, a, b)
    decreases s.pcs[th].t
  {
    hide Inv, Deadlock;
    var th2 := HeldBy(s, D, th);
    var _ := HeldBy(s, D, th2);
    AddLater(s, th);
    a, b := th, th2;
    if Adds(s, th2) { a, b := AddsDescend(s, D, th2); }
  }

  /** A thread of the deadlock that has what th waits for. */
  lemma HeldBy(s: State, D: set<nat>, th: nat) returns (th2: nat)
    requires Deadlock(s, D) && th in D
    ensures th2 in D && WaitsOn(s, th, th2) && (Adds(s, th) || Aborts(s, th))
  {
    assert WaitsWithin(s, th, D);
    th2 :| th2 in D && WaitsOn(s, th, th2);
  }

  lemma AddLater(s: State, th: nat)
    requires Inv(s) && Adds(s, th)
    ensures s.pcs[th].d < s.pcs[th].t
  {
    assert PcInv(s.txs, s.pcs[th]);
  }

  /** A cascade waits for a larger id than all it holds, so a chain of its waits ends at the other call. */
  lemma {:induction false} AbortsAscend(s: State, D: set<nat>, th: nat) returns (a: nat, b: nat)
    requires Inv(s) && Deadlock(s, D) && th in D && Aborts(s, th)
    ensures a in D && b in D && Aborts(s, a) && Adds(s, b) && WaitsOn(s, a, b)
    decreases var fs := s.pcs[th].frames; if fs != [] && fs[0].t < |s.txs| then |s.txs| - fs[0].t else 0
  {
    hide Inv, TxInv, PcInv, FramesInv, HoldsMutex, Deadlock;
    var th2 := HeldBy(s, D, th);
    var _ := HeldBy(s, D, th2);
    var u: nat :| WaitsFor(s, th, u) && Holds(s, th2, u);
    AbortEarlier(s, th, u);
    a, b := th, th2;
    if Aborts(s, th2) {
      AbortHolds(s, th2, u);
      a, b := AbortsAscend(s, D, th2);
    }
  }

  lemma AbortEarlier(s: State, th: nat, u: nat)
    requires Inv(s) && Aborts(s, th) && WaitsFor(s, th, u)
    ensures s.pcs[th].frames != [] && s.pcs[th].frames[0].t < u < |s.txs|
  {
    assert TxInv(s.txs, u);
  }

  lemma AbortHolds(s: State, th: nat, u: nat)
    requires Inv(s) && Aborts(s, th) && Holds(s, th, u)
    ensures s.pcs[th].frames != [] && u <= s.pcs[th].frames[0].t < |s.txs|
  {
    var fs := s.pcs[th].frames;
    assert FramesInv(s.txs, fs) by { assert PcInv(s.txs, s.pcs[th]); }
    var i :| 0 <= i < |fs| && fs[i].t == u;
    FramesDescend(s.txs, fs, i);
  }

  /** Every deadlock involves both calls, each waiting for the other. */
  lemma DeadlockNeedsBoth(s: State, D: set<nat>)
    requires Inv(s) && Deadlock(s, D)
    ensures AddOnAbort(s, D) && AbortOnAdd(s, D)
  {
    hide Inv, WaitsOn, Deadlock, Adds, Aborts;
    var th := Member(s, D);
    var _ := HeldBy(s, D, th);
    if Adds(s, th) {
      var a, b := AddsDescend(s, D, th);
      var c, e := AbortsAscend(s, D, b);
    } else {
      var a, b := AbortsAscend(s, D, th);
      var c, e := AddsDescend(s, D, b);
    }
  }

  lemma Member(s: State, D: set<nat>) returns (th: nat)
    requires Deadlock(s, D)
    ensures th in D
  {
    th :| th in D;
  }

  ghost function Busy(s: State): set<nat> {
    set th | th in s.pcs && s.pcs[th] != Idle
  }

  /** When no call under way can go on, all of them are deadlocked. */
  lemma AllStuck(s: State)
    requires Inv(s) && Busy(s) != {} && forall th :: th in Busy(s) ==> !CanStep(s, th)
    ensures Deadlock(s, Busy(s))
  {
    hide Inv, CanStep, HoldsMutex, WaitsFor;
    forall th | th in Busy(s) ensures WaitsWithin(s, th, Busy(s)) {
      StuckIsBlocked(s, th);
      var u: nat :| WaitsFor(s, th, u) && !Free(s, u);
      var th2 :| th2 in s.pcs && HoldsMutex(s.pcs[th2], u);
      assert Holds(s, th2, u) && WaitsOn(s, th, th2);
      IdleHoldsNothing(s, th2, u);
    }
  }

  lemma IdleHoldsNothing(s: State, th: nat, u: nat)
    requires Holds(s, th, u)
    ensures s.pcs[th] != Idle
  {
  }

  /** As long as no trans_add_dependency overlaps a trans_abort, at every moment of every run some
      call under way can go on. */
  lemma SomeCallGoesOn(run: seq<State>, k: nat)
    requires IsRun(run) && k < |run| && Busy(run[k]) != {}
    requires (forall th: nat :: !Adds(run[k], th)) || (forall th: nat :: !Aborts(run[k], th))
    ensures exists th :: th in Busy(run[k]) && CanStep(run[k], th)
  {
    hide Inv, CanStep, Deadlock;
    RunInv(run, k);
    if forall th :: th in Busy(run[k]) ==> !CanStep(run[k], th) {
      AllStuck(run[k]);
      DeadlockNeedsBoth(run[k], Busy(run[k]));
      assert false;
    }
  }

  // ----- for good ------------------------------------------------------------------------------------

  /** Every thread of the deadlock is where it was. */
  ghost predicate AllStay(s: State, s2: State, D: set<nat>) {
    forall th :: th in D ==> th in s.pcs && th in s2.pcs && s2.pcs[th] == s.pcs[th]
  }

  lemma DeadlockStays(s: State, s2: State, D: set<nat>)
    requires Inv(s) && Next(s, s2) && Deadlock(s, D)
    ensures Deadlock(s2, D) && AllStay(s, s2, D)
  {
    hide Inv, Next, WaitsWithin;
    forall th | th in D ensures th in s.pcs && th in s2.pcs && s2.pcs[th] == s.pcs[th] && WaitsWithin(s2, th, D) {
      StaysWithin(s, s2, D, th);
    }
  }

  lemma StaysWithin(s: State, s2: State, D: set<nat>, th: nat)
    requires Inv(s) && Next(s, s2) && Deadlock(s, D) && th in D
    ensures th in s.pcs && th in s2.pcs && s2.pcs[th] == s.pcs[th] && WaitsWithin(s2, th, D)
  {
    hide Inv, WaitsOn, ThreadStep, Touches, Deadlock, Create;
    var th2 := HeldBy(s, D, th);
    var th3 := HeldBy(s, D, th2);
    if Create(s, s2) {
      WaitCreated(s, s2, th, th2);
    } else {
      var th0, t, d :| ThreadStep(s, s2, th0, t, d);
      ThreadStepKeepsInv(s, s2, th0, t, d);
      var u: nat :| Touches(s, s2, th0, u);
      Stays(s, s2, th, th2, th0, t, d);
      Stays(s, s2, th2, th3, th0, t, d);
      WaitTouched(s, s2, th, th2, th0, u);
    }
  }

  lemma WaitCreated(s: State, s2: State, th: nat, th2: nat)
    requires Create(s, s2) && WaitsOn(s, th, th2)
    ensures th in s.pcs && th in s2.pcs && s2.pcs[th] == s.pcs[th] && WaitsOn(s2, th, th2)
  {
    hide HoldsMutex;
    var u: nat :| WaitsFor(s, th, u) && Holds(s, th2, u);
    assert WaitsFor(s2, th, u) && Holds(s2, th2, u);
  }

  /** A waiting thread does not step. */
  lemma Stays(s: State, s2: State, th: nat, th2: nat, th0: nat, t: nat, d: nat)
    requires Inv(s) && WaitsOn(s, th, th2) && ThreadStep(s, s2, th0, t, d)
    ensures th in s.pcs && th != th0
  {
    hide Inv, ThreadStep;
    var u: nat :| WaitsFor(s, th, u) && Holds(s, th2, u);
    assert Blocked(s, th) by { assert !Free(s, u); }
    StuckIsBlocked(s, th);
    if th == th0 { StepIs(s, s2, th, t, d); }
  }

  lemma WaitTouched(s: State, s2: State, th: nat, th2: nat, th0: nat, v: nat)
    requires WaitsOn(s, th, th2) && Touches(s, s2, th0, v) && th in s.pcs && th != th0 && th2 != th0
    ensures th in s2.pcs && s2.pcs[th] == s.pcs[th] && WaitsOn(s2, th, th2)
  {
    hide HoldsMutex;
    var u: nat :| WaitsFor(s, th, u) && Holds(s, th2, u);
    assert u != v;
    assert WaitsFor(s2, th, u) && Holds(s2, th2, u);
  }

  /** A deadlock is for good: at every later moment the same threads are where they were. */
  lemma {:induction false} DeadlockForGood(run: seq<State>, i: nat, j: nat, D: set<nat>)
    requires IsRun(run) && i <= j < |run| && Deadlock(run[i], D)
    ensures Deadlock(run[j], D) && AllStay(run[i], run[j], D)
    decreases j
  {
    hide Next, Deadlock, Inv, IsRun;
    if i == j {
      StayPut(run[i], D);
    } else {
      DeadlockForGood(run, i, j - 1, D);
      RunInv(run, j - 1);
      StepOfRun(run, j);
      DeadlockStays(run[j - 1], run[j], D);
    }
  }

  lemma StayPut(s: State, D: set<nat>)
    requires Deadlock(s, D)
    ensures AllStay(s, s, D)
  {
    forall th | th in D ensures th in s.pcs {
      var _ := HeldBy(s, D, th);
    }
  }

  lemma StepOfRun(run: seq<State>, j: nat)
    requires IsRun(run) && 0 < j < |run|
    ensures Next(run[j - 1], run[j])
  {
  }
}
