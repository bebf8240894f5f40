/** One trans_add_dependency and one trans_abort that overlap (hw5/src/transaction.c): when exactly the
    two deadlock. */
module TransactionOverlap {
  import opened TransactionAbort
  import opened TransactionRuns
  import opened TransactionDeadlock

  /** Pending transactions, each depending on the one before. */
  ghost predicate Chain(txs: seq<Tx>, p: seq<nat>) {
    && p != []
    && (forall i :: 0 <= i < |p| ==> p[i] < |txs| && txs[p[i]].status == Pending)
    && forall i :: 0 < i < |p| ==> p[i - 1] in txs[p[i]].deps
  }

  /** A chain from a dependent that frame f has not looked at yet to t. */
  ghost predicate LeadsTo(txs: seq<Tx>, f: Frame, p: seq<nat>, t: nat) {
    Chain(txs, p) && f.next <= p[0] && f.t in txs[p[0]].deps && p[|p| - 1] == t
  }

  /** The cascade, before it returns from call k, has t ahead of it. */
  ghost predicate Ahead(txs: seq<Tx>, fs: seq<Frame>, k: nat, t: nat) {
    exists i: nat, p :: i <= k && i < |fs| && LeadsTo(txs, fs[i], p, t)
  }

  /** Thread a is in trans_add_dependency(t, d), thread b in a cascade whose call k is for d, and no
      other thread is in a call. */
  ghost predicate Overlap(s: State, a: nat, b: nat, t: nat, d: nat, k: nat) {
    && Inv(s) && a != b && a in s.pcs && s.pcs[a] == Adding(t, d)
    && b in s.pcs && s.pcs[b].Aborting? && k < |s.pcs[b].frames| && s.pcs[b].frames[k].t == d
    && forall th :: th in s.pcs && th != a && th != b ==> s.pcs[th] == Idle
  }

  /** A step of either call. */
  ghost predicate EitherStep(s: State, s2: State, a: nat, b: nat) {
    AddSecond(s, s2, a) || AbortScan(s, s2, b)
  }

  ghost predicate EitherRun(run: seq<State>, a: nat, b: nat): (yes: bool)
    ensures yes ==> run != []
  {
    run != [] && forall i :: 0 < i < |run| ==> EitherStep(run[i - 1], run[i], a, b)
  }

  // ----- what a step of the cascade leaves ahead of it ------------------------------------------------

  lemma {:induction false} ChainRises(txs: seq<Tx>, p: seq<nat>, i: nat, j: nat)
    requires Chain(txs, p) && i < j < |p| && forall t: nat :: t < |txs| ==> TxInv(txs, t)
    ensures p[i] < p[j]
    decreases j
  {
    assert TxInv(txs, p[j]) && p[j - 1] in txs[p[j]].deps;
    if i < j - 1 { ChainRises(txs, p, i, j - 1); }
  }

  /** A call that has looked at everything has nothing ahead of it. */
  lemma AheadReturn(txs: seq<Tx>, fs: seq<Frame>, k: nat, t: nat)
    requires fs != [] && fs[0].next >= |txs|
    ensures if k == 0 then !Ahead(txs, fs, k, t) else Ahead(txs, fs, k, t) <==> Ahead(txs, fs[1..], k - 1, t)
  {
    if Ahead(txs, fs, k, t) {
      var i: nat, p :| i <= k && i < |fs| && LeadsTo(txs, fs[i], p, t);
      assert i > 0;
      assert fs[1..][i - 1] == fs[i];
    }
    if k > 0 && Ahead(txs, fs[1..], k - 1, t) {
      var i: nat, p :| i <= k - 1 && i < |fs[1..]| && LeadsTo(txs, fs[1..][i], p, t);
      assert fs[i + 1] == fs[1..][i];
    }
  }

  /** An entry that is no pending dependent may be passed. */
  lemma AheadOnward(txs: seq<Tx>, fs: seq<Frame>, k: nat, t: nat)
    requires fs != [] && fs[0].next < |txs|
    requires fs[0].t in txs[fs[0].next].deps ==> txs[fs[0].next].status != Pending
    ensures var fs2 := [Frame(fs[0].t, fs[0].next + 1)] + fs[1..];
      Ahead(txs, fs, k, t) <==> Ahead(txs, fs2, k, t)
  {
    var fs2 := [Frame(fs[0].t, fs[0].next + 1)] + fs[1..];
    if Ahead(txs, fs, k, t) {
      var i: nat, p :| i <= k && i < |fs| && LeadsTo(txs, fs[i], p, t);
      assert LeadsTo(txs, fs2[i], p, t);
    }
    if Ahead(txs, fs2, k, t) {
      var i: nat, p :| i <= k && i < |fs2| && LeadsTo(txs, fs2[i], p, t);
      assert LeadsTo(txs, fs[i], p, t);
    }
  }

  ghost function Descended(fs: seq<Frame>): seq<Frame>
    requires fs != []
  {
    [Frame(fs[0].next, 0), Frame(fs[0].t, fs[0].next + 1)] + fs[1..]
  }

  /** Aborting a dependent w on the way: what is left of the chain after w is ahead of the new call. */
  lemma AheadDescend(txs: seq<Tx>, txs2: seq<Tx>, fs: seq<Frame>, k: nat, t: nat)
    requires fs != [] && k < |fs| && fs[0].next < |txs| && fs[0].next != t
    requires fs[0].t in txs[fs[0].next].deps && txs[fs[0].next].status == Pending
    requires forall u: nat :: u < |txs| ==> TxInv(txs, u)
    requires txs2 == txs[fs[0].next := txs[fs[0].next].(status := Aborted)]
    ensures Ahead(txs, fs, k, t) <==> Ahead(txs2, Descended(fs), k + 1, t)
  {
    hide TxInv;
    if Ahead(txs, fs, k, t) {
      var i: nat, p :| i <= k && i < |fs| && LeadsTo(txs, fs[i], p, t);
      DescendForth(txs, txs2, fs, i, p, t);
    }
    if Ahead(txs2, Descended(fs), k + 1, t) {
      var i: nat, p :| i <= k + 1 && i < |Descended(fs)| && LeadsTo(txs2, Descended(fs)[i], p, t);
      DescendBack(txs, txs2, fs, i, p, t);
    }
  }

  lemma DescendForth(txs: seq<Tx>, txs2: seq<Tx>, fs: seq<Frame>, i: nat, p: seq<nat>, t: nat)
    requires fs != [] && i < |fs| && LeadsTo(txs, fs[i], p, t) && fs[0].next < |txs| && fs[0].next != t
    requires forall u: nat :: u < |txs| ==> TxInv(txs, u)
    requires txs2 == txs[fs[0].next := txs[fs[0].next].(status := Aborted)]
    ensures exists j: nat, q :: j <= i + 1 && LeadsTo(txs2, Descended(fs)[j], q, t)
  {
    var w := fs[0].next;
    if w in p {
      var j :| 0 <= j < |p| && p[j] == w;
      var q := p[j + 1..];
      forall m | 0 <= m < |q| ensures q[m] != w {
        ChainRises(txs, p, j, j + 1 + m);
      }
      assert q[|q| - 1] == t;
      assert p[j] in txs[p[j + 1]].deps;
      assert LeadsTo(txs2, Descended(fs)[0], q, t);
    } else {
      assert LeadsTo(txs2, Descended(fs)[i + 1], p, t) by {
        assert Descended(fs)[i + 1].t == fs[i].t;
        assert p[0] in p;
        assert forall m :: 0 <= m < |p| ==> p[m] in p;
      }
    }
  }

  lemma DescendBack(txs: seq<Tx>, txs2: seq<Tx>, fs: seq<Frame>, i: nat, p: seq<nat>, t: nat)
    requires fs != [] && i < |Descended(fs)| && fs[0].next < |txs|
    requires fs[0].t in txs[fs[0].next].deps && txs[fs[0].next].status == Pending
    requires txs2 == txs[fs[0].next := txs[fs[0].next].(status := Aborted)]
    requires LeadsTo(txs2, Descended(fs)[i], p, t)
    ensures exists j: nat, q :: j + 1 <= (if i == 0 then 1 else i) && LeadsTo(txs, fs[j], q, t)
  {
    if i == 0 {
      var q := [fs[0].next] + p;
      assert q[1..] == p;
      forall m | 0 < m < |q| ensures q[m - 1] in txs[q[m]].deps {
        if m > 1 { assert p[m - 2] in txs2[p[m - 1]].deps; }
      }
      assert LeadsTo(txs, fs[0], q, t);
    } else {
      assert LeadsTo(txs, fs[i - 1], p, t);
    }
  }

  // ----- one step ----------------------------------------------------------------------------------------

  ghost function Pendings(txs: seq<Tx>): set<nat> {
    set u: nat | u < |txs| && txs[u].status == Pending
  }

  /** How much the calls of a cascade have left to look at. */
  ghost function Load(fs: seq<Frame>, n: nat): nat {
    if fs == [] then 0 else 1 + (if fs[0].next < n then n - fs[0].next else 0) + Load(fs[1..], n)
  }

  ghost predicate Less(txs: seq<Tx>, fs: seq<Frame>, txs2: seq<Tx>, fs2: seq<Frame>) {
    || |Pendings(txs2)| < |Pendings(txs)|
    || (|Pendings(txs2)| == |Pendings(txs)| && Load(fs2, |txs2|) < Load(fs, |txs|))
  }

  /** What a step of the cascade makes of its list and calls. */
  ghost predicate Moved(s: State, s2: State, b: nat, fs2: seq<Frame>)
    requires b in s.pcs && s.pcs[b].Aborting? && s.pcs[b].frames != []
  {
    var fs := s.pcs[b].frames;
    var f := fs[0];
    && s2.pcs == s.pcs[b := if fs2 == [] then Idle else Aborting(fs2)] && s2.halted == s.halted
    && if f.next >= |s.txs| then s2.txs == s.txs && fs2 == fs[1..]
       else if f.t in s.txs[f.next].deps && s.txs[f.next].status == Pending then
         && Free(s, f.next) && s2.txs == s.txs[f.next := s.txs[f.next].(status := Aborted)]
         && fs2 == Descended(fs)
       else s2.txs == s.txs && fs2 == [Frame(f.t, f.next + 1)] + fs[1..]
  }

  lemma CascadeMoves(s: State, s2: State, b: nat) returns (fs2: seq<Frame>)
    requires Inv(s) && AbortScan(s, s2, b)
    ensures s.pcs[b].frames != [] && Moved(s, s2, b, fs2)
  {
    var fs := s.pcs[b].frames;
    var f := fs[0];
    assert FramesInv(s.txs, fs) by { assert PcInv(s.txs, s.pcs[b]); }
    assert TxInv(s.txs, f.t);
    if f.next < |s.txs| && f.t in s.txs[f.next].deps { CascadeIsSafe(s, b); }
    hide Inv, TxInv, FramesInv, HoldsMutex;
    fs2 := if f.next >= |s.txs| then fs[1..] else s2.pcs[b].frames;
  }

  /** Whether the cascade has t ahead of it is the same after every step up to the return from call k. */
  lemma CascadeStep(s: State, s2: State, a: nat, b: nat, t: nat, d: nat, k: nat) returns (k2: nat)
    requires Overlap(s, a, b, t, d, k) && AbortScan(s, s2, b)
    requires k > 0 || s.pcs[b].frames[0].next < |s.txs|
    ensures Overlap(s2, a, b, t, d, k2)
    ensures Ahead(s.txs, s.pcs[b].frames, k, t) <==> Ahead(s2.txs, s2.pcs[b].frames, k2, t)
    ensures Less(s.txs, s.pcs[b].frames, s2.txs, s2.pcs[b].frames)
  {
    hide Inv, AbortScan, Ahead, HoldsMutex, Pendings, Load, Overlap, Free;
    OverlapParts(s, a, b, t, d, k);
    AbortScanKeepsInv(s, s2, b);
    var fs2 := CascadeMoves(s, s2, b);
    var fs := s.pcs[b].frames;
    var f := fs[0];
    if f.next >= |s.txs| {
      k2 := k - 1;
      assert fs[1..][k - 1] == fs[k];
      AheadReturn(s.txs, fs, k, t);
      LoadReturn(fs, |s.txs|);
      OverlapKept(s, s2, a, b, t, d, k, fs2, k2);
    } else if f.t in s.txs[f.next].deps && s.txs[f.next].status == Pending {
      k2 := k + 1;
      AheadDescend(s.txs, s2.txs, fs, k, t);
      PendingsLess(s.txs, s2.txs, f.next);
      OverlapKept(s, s2, a, b, t, d, k, fs2, k2);
    } else {
      k2 := k;
      AheadOnward(s.txs, fs, k, t);
      LoadOnward(fs, |s.txs|);
      OverlapKept(s, s2, a, b, t, d, k, fs2, k2);
    }
  }

  lemma OverlapKept(s: State, s2: State, a: nat, b: nat, t: nat, d: nat, k: nat, fs2: seq<Frame>, k2: nat)
    requires Overlap(s, a, b, t, d, k) && Inv(s2) && k2 < |fs2| && fs2[k2].t == d
    requires s2.pcs == s.pcs[b := Aborting(fs2)]
    ensures Overlap(s2, a, b, t, d, k2)
  {
    hide Inv;
  }

  lemma OverlapParts(s: State, a: nat, b: nat, t: nat, d: nat, k: nat)
    requires Overlap(s, a, b, t, d, k)
    ensures Inv(s) && forall u: nat :: u < |s.txs| ==> TxInv(s.txs, u)
    ensures b in s.pcs && s.pcs[b].Aborting? && k < |s.pcs[b].frames| && s.pcs[b].frames[k].t == d
    ensures !Free(s, t)
  {
    assert HoldsMutex(s.pcs[a], t);
  }

  lemma LoadReturn(fs: seq<Frame>, n: nat)
    requires fs != []
    ensures Load(fs[1..], n) < Load(fs, n)
  {
  }

  lemma LoadOnward(fs: seq<Frame>, n: nat)
    requires fs != [] && fs[0].next < n
    ensures Load([Frame(fs[0].t, fs[0].next + 1)] + fs[1..], n) < Load(fs, n)
  {
    var fs2 := [Frame(fs[0].t, fs[0].next + 1)] + fs[1..];
    assert fs2[1..] == fs[1..];
  }

  lemma PendingsLess(txs: seq<Tx>, txs2: seq<Tx>, w: nat)
    requires w < |txs| && txs[w].status == Pending && txs2 == txs[w := txs[w].(status := Aborted)]
    ensures |Pendings(txs2)| < |Pendings(txs)|
  {
    assert Pendings(txs2) == Pendings(txs) - {w};
  }

  // ----- whole runs ----------------------------------------------------------------------------------------

  /** With t ahead, the cascade runs into it while it still holds d. */
  lemma {:induction false} RunsInto(s: State, a: nat, b: nat, t: nat, d: nat, k: nat) returns (run: seq<State>)
    requires Overlap(s, a, b, t, d, k) && Ahead(s.txs, s.pcs[b].frames, k, t)
    ensures EitherRun(run, a, b) && run[0] == s && Deadlock(run[|run| - 1], {a, b})
    decreases |Pendings(s.txs)|, Load(s.pcs[b].frames, |s.txs|)
  {
    hide Inv, Ahead, Pendings, Load, AbortScan, AddSecond, Deadlock, Blocked;
    if Blocked(s, b) {
      BothWait(s, a, b, t, d, k);
      run := [s];
    } else {
      AbortPc(s, b);
      AbortGoesOn(s, b);
      var s2 :| AbortScan(s, s2, b);
      if k == 0 && s.pcs[b].frames[0].next >= |s.txs| {
        AheadReturn(s.txs, s.pcs[b].frames, k, t);
        assert false;
      }
      var k2 := CascadeStep(s, s2, a, b, t, d, k);
      var rest := RunsInto(s2, a, b, t, d, k2);
      run := [s] + rest;
      Prepended(s, rest, a, b);
    }
  }

  lemma AbortPc(s: State, b: nat)
    requires Inv(s) && b in s.pcs
    ensures PcInv(s.txs, s.pcs[b])
  {
  }

  lemma Prepended(s: State, rest: seq<State>, a: nat, b: nat)
    requires EitherRun(rest, a, b) && EitherStep(s, rest[0], a, b)
    ensures EitherRun([s] + rest, a, b) && ([s] + rest)[|rest|] == rest[|rest| - 1]
  {
    hide EitherStep;
    var run := [s] + rest;
    forall i | 0 < i < |run| ensures EitherStep(run[i - 1], run[i], a, b) {
      assert run[i] == rest[i - 1] && (i > 1 ==> run[i - 1] == rest[i - 2]);
    }
  }

  /** The cascade can only be blocked by the other thread, which waits for it. */
  lemma BothWait(s: State, a: nat, b: nat, t: nat, d: nat, k: nat)
    requires Overlap(s, a, b, t, d, k) && Blocked(s, b)
    ensures Deadlock(s, {a, b})
  {
    var u: nat :| WaitsFor(s, b, u) && !Free(s, u);
    CascadeIsSafe(s, b);
    var th :| th in s.pcs && HoldsMutex(s.pcs[th], u);
    assert th == a;
    assert WaitsOn(s, b, a) by { assert WaitsFor(s, b, u) && Holds(s, a, u); }
    assert WaitsOn(s, a, b) by { assert WaitsFor(s, a, d) && Holds(s, b, d); }
    assert WaitsWithin(s, a, {a, b}) && WaitsWithin(s, b, {a, b});
  }

  /** The cascade has let go of d for good, or has t no longer ahead of it. */
  ghost predicate Harmless(s: State, a: nat, b: nat, t: nat, d: nat) {
    Released(s, a, b, t, d) || exists k: nat :: Past(s, a, b, t, d, k)
  }

  /** The cascade still holds d, but t is not ahead of it any more. */
  ghost predicate Past(s: State, a: nat, b: nat, t: nat, d: nat, k: nat) {
    Overlap(s, a, b, t, d, k) && !Ahead(s.txs, s.pcs[b].frames, k, t)
  }

  /** The cascade does not hold d, and will not again: d is aborted. */
  ghost predicate Released(s: State, a: nat, b: nat, t: nat, d: nat) {
    && Inv(s) && a != b && a in s.pcs && (s.pcs[a] == Idle || s.pcs[a] == Adding(t, d))
    && b in s.pcs && (s.pcs[b] == Idle || s.pcs[b].Aborting?) && !HoldsMutex(s.pcs[b], d)
    && d < |s.txs| && s.txs[d].status != Pending
    && forall th :: th in s.pcs && th != a && th != b ==> s.pcs[th] == Idle
  }

  lemma ReleasedStep(s: State, s2: State, a: nat, b: nat, t: nat, d: nat)
    requires Released(s, a, b, t, d) && EitherStep(s, s2, a, b)
    ensures Released(s2, a, b, t, d)
  {
    if AddSecond(s, s2, a) {
      AddSecondKeepsInv(s, s2, a);
      hide Inv;
    } else {
      AbortScanKeepsInv(s, s2, b);
      var fs2 := CascadeMoves(s, s2, b);
      var fs := s.pcs[b].frames;
      forall i | 0 <= i < |fs| ensures fs[i].t != d {
      }
      forall i | 0 <= i < |fs2| ensures fs2[i].t != d {
        assert fs2[i].t == fs[0].next || fs2[i].t == fs[0].t || fs2[i] in fs;
      }
      hide Inv;
    }
  }

  lemma OverlapStep(s: State, s2: State, a: nat, b: nat, t: nat, d: nat, k: nat)
    requires Past(s, a, b, t, d, k) && EitherStep(s, s2, a, b)
    ensures Harmless(s2, a, b, t, d)
  {
    OverlapParts(s, a, b, t, d, k);
    assert !Free(s, d) by { assert HoldsMutex(s.pcs[b], d); }
    if k > 0 || s.pcs[b].frames[0].next < |s.txs| {
      hide Overlap, Ahead, Inv, Less;
      var k2 := CascadeStep(s, s2, a, b, t, d, k);
      assert Past(s2, a, b, t, d, k2);
    } else {
      LastReturn(s, s2, a, b, t, d);
    }
  }

  /** Call k returns: the calls outside it are for smaller ids. */
  lemma LastReturn(s: State, s2: State, a: nat, b: nat, t: nat, d: nat)
    requires Overlap(s, a, b, t, d, 0) && s.pcs[b].frames[0].next >= |s.txs| && AbortScan(s, s2, b)
    ensures Released(s2, a, b, t, d)
  {
    AbortScanKeepsInv(s, s2, b);
    var fs2 := CascadeMoves(s, s2, b);
    var fs := s.pcs[b].frames;
    assert FramesInv(s.txs, fs) by { assert PcInv(s.txs, s.pcs[b]); }
    forall i | 0 <= i < |fs2| ensures fs2[i].t != d {
      FramesDescend(s.txs, fs[1..], i) by { if |fs| > 1 { Popped(s.txs, fs); } }
      assert fs[1].t < fs[0].t;
    }
    hide Inv;
  }

  lemma HarmlessNow(s: State, a: nat, b: nat, t: nat, d: nat, D: set<nat>)
    requires Harmless(s, a, b, t, d)
    ensures !Deadlock(s, D)
  {
    hide Ahead, Deadlock, WaitsOn;
    if Deadlock(s, D) {
      DeadlockNeedsBoth(s, D);
      if Released(s, a, b, t, d) {
        var x: nat, y: nat :| x in D && y in D && Adds(s, x) && Aborts(s, y) && WaitsOn(s, x, y);
        ReleasedFree(s, a, b, t, d, x, y);
      } else {
        var k: nat :| Past(s, a, b, t, d, k);
        var x: nat, y: nat :| x in D && y in D && Aborts(s, x) && Adds(s, y) && WaitsOn(s, x, y);
        WantsAhead(s, a, b, t, d, k, x, y);
      }
      assert false;
    }
  }

  lemma ReleasedFree(s: State, a: nat, b: nat, t: nat, d: nat, x: nat, y: nat)
    requires Released(s, a, b, t, d) && Adds(s, x) && Aborts(s, y)
    ensures !WaitsOn(s, x, y)
  {
    assert x == a && y == b;
  }

  lemma WantsAhead(s: State, a: nat, b: nat, t: nat, d: nat, k: nat, x: nat, y: nat)
    requires Overlap(s, a, b, t, d, k) && Aborts(s, x) && Adds(s, y) && WaitsOn(s, x, y)
    ensures Ahead(s.txs, s.pcs[b].frames, k, t)
  {
    assert x == b && y == a;
    var u: nat :| WaitsFor(s, x, u) && Holds(s, y, u);
    assert PcInv(s.txs, s.pcs[a]);
    assert LeadsTo(s.txs, s.pcs[b].frames[0], [t], t);
  }

  lemma {:induction false} HarmlessRun(run: seq<State>, a: nat, b: nat, t: nat, d: nat, i: nat)
    requires EitherRun(run, a, b) && i < |run| && Harmless(run[0], a, b, t, d)
    ensures Harmless(run[i], a, b, t, d)
  {
    hide Past, Released, EitherStep;
    if i > 0 {
      HarmlessRun(run, a, b, t, d, i - 1);
      var s, s2 := run[i - 1], run[i];
      if Released(s, a, b, t, d) {
        ReleasedStep(s, s2, a, b, t, d);
      } else {
        var k: nat :| Past(s, a, b, t, d, k);
        OverlapStep(s, s2, a, b, t, d, k);
      }
    }
  }

  /** Some schedule of the two calls from s on ends in a deadlock. */
  ghost predicate CanDeadlock(s: State, a: nat, b: nat) {
    exists run, D :: EitherRun(run, a, b) && run[0] == s && EndsIn(run, D)
  }

  ghost predicate EndsIn(run: seq<State>, D: set<nat>) {
    run != [] && Deadlock(run[|run| - 1], D)
  }

  /** At any moment at which the cascade holds d and the other thread has t and waits for d: the two can
      deadlock if and only if the call for d, or one it made, still has t ahead of it. */
  lemma DeadlocksExactly(s: State, a: nat, b: nat, t: nat, d: nat, k: nat)
    requires Overlap(s, a, b, t, d, k)
    ensures CanDeadlock(s, a, b) <==> Ahead(s.txs, s.pcs[b].frames, k, t)
  {
    hide Ahead, EitherRun, Deadlock, Released, Inv;
    if Ahead(s.txs, s.pcs[b].frames, k, t) {
      var run := RunsInto(s, a, b, t, d, k);
      assert EndsIn(run, {a, b});
    } else if CanDeadlock(s, a, b) {
      var run, D :| EitherRun(run, a, b) && run[0] == s && EndsIn(run, D);
      assert Past(s, a, b, t, d, k);
      HarmlessRun(run, a, b, t, d, |run| - 1);
      HarmlessNow(run[|run| - 1], a, b, t, d, D);
      assert false;
    }
  }

  /** t depends on d through pending transactions. */
  ghost predicate DependsOn(txs: seq<Tx>, t: nat, d: nat) {
    exists p :: Chain(txs, p) && d in txs[p[0]].deps && p[|p| - 1] == t
  }

  /** Thread a has called trans_add_dependency(t, d) and taken t; thread b has called trans_abort(d) and
      marked d. */
  ghost function BothBegun(s: State, a: nat, b: nat, t: nat, d: nat): State
    requires d < |s.txs|
  {
    State(s.txs[d := s.txs[d].(status := Aborted, doomed := true)],
          s.pcs[a := Adding(t, d)][b := Aborting([Frame(d, 0)])], s.halted)
  }

  /** Nobody is in a call, and the two calls may be made. */
  ghost predicate Quiet(s: State, a: nat, b: nat, t: nat, d: nat) {
    && Inv(s) && !s.halted && a != b && a in s.pcs && b in s.pcs && (forall th :: th in s.pcs ==> s.pcs[th] == Idle)
    && d < t < |s.txs| && s.txs[t].status == Pending && s.txs[d].status == Pending
  }

  lemma BothBegin(s: State, a: nat, b: nat, t: nat, d: nat) returns (mid: State)
    requires Quiet(s, a, b, t, d)
    ensures Next(s, mid) && Next(mid, BothBegun(s, a, b, t, d)) && Overlap(BothBegun(s, a, b, t, d), a, b, t, d, 0)
  {
    mid := s.(pcs := s.pcs[a := Adding(t, d)]);
    var s2 := BothBegun(s, a, b, t, d);
    assert AddFirst(s, mid, a, t, d);
    assert AbortStart(mid, s2, b, d);
    AddFirstKeepsInv(s, mid, a, t, d);
    AbortStartKeepsInv(mid, s2, b, d);
    hide Inv, AddFirst, AbortStart;
    OneStep(s, mid, a, t, d);
    OneStep(mid, s2, b, d, 0);
  }

  /** A client adds a dependency of t on d while another aborts d: the two calls can deadlock if and only
      if t depends on d already, through pending transactions. */
  lemma OverlapDeadlocks(s: State, a: nat, b: nat, t: nat, d: nat)
    requires Quiet(s, a, b, t, d)
    ensures CanDeadlock(BothBegun(s, a, b, t, d), a, b) <==> DependsOn(s.txs, t, d)
  {
    var s2 := BothBegun(s, a, b, t, d);
    var _ := BothBegin(s, a, b, t, d);
    DeadlocksExactly(s2, a, b, t, d, 0);
    AheadOfFresh(s.txs, s2.txs, t, d);
  }

  lemma AheadOfFresh(txs: seq<Tx>, txs2: seq<Tx>, t: nat, d: nat)
    requires d < |txs| && txs2 == txs[d := txs[d].(status := Aborted, doomed := true)]
    requires forall u: nat :: u < |txs| ==> TxInv(txs, u)
    ensures Ahead(txs2, [Frame(d, 0)], 0, t) <==> DependsOn(txs, t, d)
  {
    var fs := [Frame(d, 0)];
    if Ahead(txs2, fs, 0, t) {
      var i: nat, p :| i <= 0 && i < |fs| && LeadsTo(txs2, fs[i], p, t);
      assert Chain(txs, p);
    }
    if DependsOn(txs, t, d) {
      var p :| Chain(txs, p) && d in txs[p[0]].deps && p[|p| - 1] == t;
      LaterThan(txs, p, d);
      assert LeadsTo(txs2, fs[0], p, t);
    }
  }

  lemma LaterThan(txs: seq<Tx>, p: seq<nat>, d: nat)
    requires Chain(txs, p) && d in txs[p[0]].deps && forall t: nat :: t < |txs| ==> TxInv(txs, t)
    ensures forall i :: 0 <= i < |p| ==> p[i] > d
  {
    assert TxInv(txs, p[0]);
    forall i: nat | 0 < i < |p| ensures p[i] > d {
      ChainRises(txs, p, 0, i);
    }
  }
}
