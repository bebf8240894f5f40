/** What a call of trans_abort has done by the time it returns (hw5/src/transaction.c:231-252), whatever
    the other threads do meanwhile. */
module TransactionCascade {
  import opened TransactionAbort
  import opened TransactionRuns
  import opened TransactionDeadlock
  import opened TransactionOverlap

  /** Call p of the cascade of thread th, counted from the outermost, is for t. */
  ghost predicate InCall(s: State, th: nat, p: nat, t: nat) {
    && th in s.pcs && s.pcs[th].Aborting? && p < |s.pcs[th].frames|
    && s.pcs[th].frames[|s.pcs[th].frames| - 1 - p].t == t
  }

  /** The list entry it looks at next. */
  ghost function Looked(s: State, th: nat, p: nat): nat {
    if th in s.pcs && s.pcs[th].Aborting? && p < |s.pcs[th].frames|
    then s.pcs[th].frames[|s.pcs[th].frames| - 1 - p].next else 0
  }

  /** One step: a dependent that a call passes is not pending any more. */
  lemma PassedNow(s: State, s2: State, th: nat, p: nat, t: nat, v: nat)
    requires Inv(s) && Next(s, s2) && InCall(s, th, p, t) && InCall(s2, th, p, t)
    requires Looked(s, th, p) <= v < Looked(s2, th, p) && v < |s.txs| && t in s.txs[v].deps
    ensures v < |s2.txs| && s2.txs[v].status != Pending
  {
    hide Inv, ThreadStep, HoldsMutex, Create;
    OwnStep(s, s2, th);
    var fs2 := CascadeMoves(s, s2, th);
    var fs := s.pcs[th].frames;
    assert s2.pcs[th].frames == fs2;
    CallsKept(fs, fs2, p, |s.txs|);
  }

  /** Only its own steps move a thread on in a cascade. */
  lemma OwnStep(s: State, s2: State, th: nat)
    requires Inv(s) && Next(s, s2) && th in s.pcs && s.pcs[th].Aborting? && th in s2.pcs && s2.pcs[th] != s.pcs[th]
    ensures AbortScan(s, s2, th)
  {
    hide Inv, Touches;
    assert !Create(s, s2);
    var th0, t, d :| ThreadStep(s, s2, th0, t, d);
    ThreadStepKeepsInv(s, s2, th0, t, d);
    var u: nat :| Touches(s, s2, th0, u);
    Others(s, s2, th, th0, u);
  }

  lemma Others(s: State, s2: State, th: nat, th0: nat, u: nat)
    requires Touches(s, s2, th0, u) && th in s.pcs && th in s2.pcs && s2.pcs[th] != s.pcs[th]
    ensures th == th0
  {
    hide HoldsMutex;
  }

  /** Of the calls of a cascade only the innermost moves on. */
  lemma CallsKept(fs: seq<Frame>, fs2: seq<Frame>, p: nat, n: nat)
    requires fs != [] && p < |fs| && p < |fs2|
    requires fs2 == fs[1..] || fs2 == Descended(fs) || fs2 == [Frame(fs[0].t, fs[0].next + 1)] + fs[1..]
    ensures var f, f2 := fs[|fs| - 1 - p], fs2[|fs2| - 1 - p];
      f2 == f || (f == fs[0] && f2 == Frame(f.t, f.next + 1) && fs2 != fs[1..])
  {
  }

  /** At every moment of every run: when a call of the cascade has passed list entry v, then v is
      aborted, if it was a dependent at any moment of the call before. */
  lemma {:induction false} PassedIsAborted(run: seq<State>, i: nat, j: nat, th: nat, p: nat, t: nat, v: nat)
    requires IsRun(run) && i <= j < |run| && forall k :: i <= k <= j ==> InCall(run[k], th, p, t)
    requires Looked(run[i], th, p) <= v < Looked(run[j], th, p)
    requires v < |run[i].txs| && t in run[i].txs[v].deps
    ensures v < |run[j].txs| && run[j].txs[v].status == Aborted
    decreases j
  {
    hide IsRun, Inv, Next, Looked, InCall;
    RunInv(run, j - 1);
    RunStable(run, i, j - 1);
    StepOfRun(run, j);
    if v < Looked(run[j - 1], th, p) {
      PassedIsAborted(run, i, j - 1, th, p, t, v);
    } else {
      PassedNow(run[j - 1], run[j], th, p, t, v);
    }
    RunStable(run, j - 1, j);
    RunInv(run, j);
    NotCommitted(run[j], th, p, t, v);
  }

  lemma NotCommitted(s: State, th: nat, p: nat, t: nat, v: nat)
    requires Inv(s) && InCall(s, th, p, t) && v < |s.txs| && t in s.txs[v].deps
    ensures s.txs[v].status != Committed
  {
    assert FramesInv(s.txs, s.pcs[th].frames) by { assert PcInv(s.txs, s.pcs[th]); }
    assert TxInv(s.txs, v);
  }

  /** So no call misses a dependent: when it is about to return, every transaction that depended on t
      when it began is aborted. */
  lemma CallMissesNone(run: seq<State>, i: nat, j: nat, th: nat, p: nat, t: nat, v: nat)
    requires IsRun(run) && i <= j < |run| && forall k :: i <= k <= j ==> InCall(run[k], th, p, t)
    requires Looked(run[i], th, p) == 0 && Looked(run[j], th, p) >= |run[j].txs|
    requires v < |run[i].txs| && t in run[i].txs[v].deps
    ensures v < |run[j].txs| && run[j].txs[v].status == Aborted
  {
    RunStable(run, i, j);
    PassedIsAborted(run, i, j, th, p, t, v);
  }
}
