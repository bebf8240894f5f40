/** The transaction manager of hw5/src/transaction.c as interleaved atomic steps of any number of
    threads. A commit reads one dependency per step; an abort looks at one list entry per step. */
module TransactionRuns {
  import opened TransactionAbort

  /** One transaction. doomed: some client has asked for its abort, so its owner may not commit. */
  datatype Tx = Tx(status: Status, deps: seq<nat>, doomed: bool)

  /** One call of trans_abort: its transaction and the next list entry to look at. */
  datatype Frame = Frame(t: nat, next: nat)

  /** Where a thread is. Committing: still to read rest of t's list, flag as in the source.
      Adding: trans_add_dependency holds the mutex of t and waits for that of d.
      Aborting: the calls of trans_abort it is in, innermost first. */
  datatype Pc =
    | Idle
    | Committing(t: nat, rest: seq<nat>, flag: bool)
    | Adding(t: nat, d: nat)
    | Aborting(frames: seq<Frame>)

  /** halted: exit(-1) was called. */
  datatype State = State(txs: seq<Tx>, pcs: map<nat, Pc>, halted: bool)

  /** The mutexes a thread holds. */
  predicate HoldsMutex(pc: Pc, t: nat) {
    match pc
    case Idle => false
    case Committing(u, _, _) => u == t
    case Adding(u, _) => u == t
    case Aborting(fs) => exists i :: 0 <= i < |fs| && fs[i].t == t
  }

  ghost predicate Free(s: State, t: nat) {
    forall th :: th in s.pcs ==> !HoldsMutex(s.pcs[th], t)
  }

  // ----- steps -----------------------------------------------------------------------------------

  /** trans_create (lines 63-84). */
  ghost predicate Create(s: State, s2: State) {
    s2 == s.(txs := s.txs + [Tx(Pending, [], false)])
  }

  /** trans_add_dependency takes the mutex of t (line 142). Clients add dependencies only to pending
      transactions, on transactions with smaller ids (hw5/include/store.h:66-74). */
  ghost predicate AddFirst(s: State, s2: State, th: nat, t: nat, d: nat) {
    && th in s.pcs && s.pcs[th] == Idle && d < t < |s.txs| && Free(s, t) && s.txs[t].status == Pending
    && s2 == s.(pcs := s.pcs[th := Adding(t, d)])
  }

  /** It then takes the mutex of d and links the entry in front (lines 143-156). */
  ghost predicate AddSecond(s: State, s2: State, th: nat) {
    && th in s.pcs && s.pcs[th].Adding? && Free(s, s.pcs[th].d)
    && var t, d := s.pcs[th].t, s.pcs[th].d;
    && t < |s.txs|
    && s2 == s.(txs := s.txs[t := s.txs[t].(deps := [d] + s.txs[t].deps)], pcs := s.pcs[th := Idle])
  }

  /** trans_commit up to the start of the scan (lines 174-182). */
  ghost predicate CommitStart(s: State, s2: State, th: nat, t: nat) {
    && th in s.pcs && s.pcs[th] == Idle && t < |s.txs| && Free(s, t) && !s.txs[t].doomed
    && s2 == if s.txs[t].deps == [] then SetStatus(s, t, Committed)
             else s.(pcs := s.pcs[th := Committing(t, s.txs[t].deps, false)])
  }

  function SetStatus(s: State, t: nat, st: Status): State
    requires t < |s.txs|
  {
    s.(txs := s.txs[t := s.txs[t].(status := st)])
  }

  /** One round of the loop at lines 183-204. */
  function Scan(s: State, th: nat): State
    requires th in s.pcs && s.pcs[th].Committing? && s.pcs[th].rest != []
    requires s.pcs[th].t < |s.txs| && s.pcs[th].rest[0] < |s.txs|
  {
    var Committing(t, rest, flag) := s.pcs[th];
    var st := s.txs[rest[0]].status;
    if st == Aborted then
      SetStatus(s, t, Aborted).(pcs := s.pcs[th := Idle])
    else
      var flag2 := flag || st != Committed;
      if |rest| > 1 then s.(pcs := s.pcs[th := Committing(t, rest[1..], flag2)])
      else if flag2 then s.(pcs := s.pcs[th := Committing(t, s.txs[t].deps, false)])
      else SetStatus(s, t, Committed).(pcs := s.pcs[th := Idle])
  }

  ghost predicate CommitScan(s: State, s2: State, th: nat) {
    && th in s.pcs && s.pcs[th].Committing? && s.pcs[th].rest != []
    && s.pcs[th].t < |s.txs| && s.pcs[th].rest[0] < |s.txs|
    && s2 == Scan(s, th)
  }

  /** A client calls trans_abort (lines 225-231). */
  ghost predicate AbortStart(s: State, s2: State, th: nat, t: nat) {
    && th in s.pcs && s.pcs[th] == Idle && t < |s.txs| && Free(s, t)
    && var s1 := s.(txs := s.txs[t := s.txs[t].(doomed := true)]);
    && s2 == match s.txs[t].status
             case Committed => s1.(halted := true)
             case Aborted => s1
             case Pending => SetStatus(s1, t, Aborted).(pcs := s.pcs[th := Aborting([Frame(t, 0)])])
  }

  /** The innermost trans_abort moves on to the next list entry. */
  function Onward(s: State, th: nat): State
    requires th in s.pcs && s.pcs[th].Aborting? && s.pcs[th].frames != []
  {
    var fs := s.pcs[th].frames;
    s.(pcs := s.pcs[th := Aborting([Frame(fs[0].t, fs[0].next + 1)] + fs[1..])])
  }

  /** It calls trans_abort for the entry it looks at, which is pending. */
  function Descend(s: State, th: nat): State
    requires th in s.pcs && s.pcs[th].Aborting? && s.pcs[th].frames != [] && s.pcs[th].frames[0].next < |s.txs|
  {
    var fs := s.pcs[th].frames;
    SetStatus(s, fs[0].next, Aborted).(pcs := s.pcs[th :=
      Aborting([Frame(fs[0].next, 0), Frame(fs[0].t, fs[0].next + 1)] + fs[1..])])
  }

  /** One list entry of the innermost trans_abort (lines 232-252), or its return (254-256). */
  ghost predicate AbortScan(s: State, s2: State, th: nat) {
    && th in s.pcs && s.pcs[th].Aborting? && s.pcs[th].frames != []
    && var fs := s.pcs[th].frames;
    && var f := fs[0];
    && if f.next >= |s.txs| then s2 == s.(pcs := s.pcs[th := if |fs| == 1 then Idle else Aborting(fs[1..])])
       else if f.next == f.t || f.t !in s.txs[f.next].deps then s2 == Onward(s, th)
       else Free(s, f.next) && s2 == Visit(s, th)
  }

  /** What trans_abort does with a dependent once it has its mutex. */
  function Visit(s: State, th: nat): State
    requires th in s.pcs && s.pcs[th].Aborting? && s.pcs[th].frames != [] && s.pcs[th].frames[0].next < |s.txs|
  {
    match s.txs[s.pcs[th].frames[0].next].status
    case Committed => s.(halted := true)
    case Aborted => Onward(s, th)
    case Pending => Descend(s, th)
  }

  ghost predicate Next(s: State, s2: State) {
    !s.halted &&
    (Create(s, s2) || exists th, t, d :: ThreadStep(s, s2, th, t, d))
  }

  ghost predicate ThreadStep(s: State, s2: State, th: nat, t: nat, d: nat) {
    || AddFirst(s, s2, th, t, d) || AddSecond(s, s2, th)
    || CommitStart(s, s2, th, t) || CommitScan(s, s2, th)
    || AbortStart(s, s2, th, t) || AbortScan(s, s2, th)
  }

  ghost predicate Init(s: State) {
    s.txs == [] && !s.halted && forall th :: th in s.pcs ==> s.pcs[th] == Idle
  }

  // ----- invariant ---------------------------------------------------------------------------------

  /** Dependencies have smaller ids; committed means all dependencies are committed; aborted means a
      client asked for it or a dependency is aborted. */
  ghost predicate TxInv(txs: seq<Tx>, t: nat)
    requires t < |txs|
  {
    && (forall d :: d in txs[t].deps ==> d < t)
    && (txs[t].status == Committed ==> forall d :: d in txs[t].deps && d < |txs| ==> txs[d].status == Committed)
    && (txs[t].status == Aborted ==>
      txs[t].doomed || exists d :: d in txs[t].deps && d < |txs| && txs[d].status == Aborted)
  }

  /** A commit under way: read is the part of the list read in this pass; as long as flag is clear
      everything read is committed. */
  ghost predicate CommitInv(txs: seq<Tx>, t: nat, rest: seq<nat>, flag: bool) {
    && t < |txs| && !txs[t].doomed
    && 0 < |rest| <= |txs[t].deps| && rest == txs[t].deps[|txs[t].deps| - |rest|..]
    && (!flag ==> forall i :: 0 <= i < |txs[t].deps| - |rest| ==>
      txs[t].deps[i] < |txs| && txs[txs[t].deps[i]].status == Committed)
  }

  /** Abort calls under way: each inner call is for a dependent of the outer one, with a larger id;
      all of them are aborted already. */
  ghost predicate FramesInv(txs: seq<Tx>, fs: seq<Frame>) {
    && fs != []
    && (forall i :: 0 <= i < |fs| ==> fs[i].t < |txs| && txs[fs[i].t].status == Aborted)
    && (forall i :: 0 < i < |fs| ==> fs[i].t in txs[fs[i - 1].t].deps && fs[i].t < fs[i - 1].t)
  }

  ghost predicate PcInv(txs: seq<Tx>, pc: Pc) {
    match pc
    case Idle => true
    case Committing(t, rest, flag) => CommitInv(txs, t, rest, flag)
    case Adding(t, d) => d < t < |txs| && txs[t].status == Pending
    case Aborting(fs) => FramesInv(txs, fs)
  }

  ghost predicate Inv(s: State) {
    && (forall t: nat :: t < |s.txs| ==> TxInv(s.txs, t))
    && (forall th :: th in s.pcs ==> PcInv(s.txs, s.pcs[th]))
    && (forall t: nat, th, th2 :: th in s.pcs && th2 in s.pcs && th != th2 ==>
      !(HoldsMutex(s.pcs[th], t) && HoldsMutex(s.pcs[th2], t)))
  }

  // ----- preservation --------------------------------------------------------------------------------

  /** A step of thread th that touches transaction t only, whose mutex no other thread holds. */
  ghost predicate Touches(s: State, s2: State, th: nat, t: nat) {
    && th in s.pcs && t < |s.txs| && s2.pcs.Keys == s.pcs.Keys
    && |s2.txs| == |s.txs|
    && (forall u :: 0 <= u < |s.txs| && u != t ==> s2.txs[u] == s.txs[u])
    && (forall th2 :: th2 in s.pcs && th2 != th ==> s2.pcs[th2] == s.pcs[th2] && !HoldsMutex(s.pcs[th2], t))
    && (s.txs[t].status != Pending ==> s2.txs[t].status == s.txs[t].status)
    && (forall u: nat :: HoldsMutex(s2.pcs[th], u) ==> HoldsMutex(s.pcs[th], u) || u == t)
  }

  lemma OthersKeep(s: State, s2: State, th: nat, t: nat, th2: nat)
    requires Inv(s) && Touches(s, s2, th, t) && th2 in s.pcs && th2 != th
    ensures PcInv(s2.txs, s2.pcs[th2])
  {
    match s.pcs[th2]
    case Idle =>
    case Committing(u, rest, flag) =>
    case Adding(u, d) =>
    case Aborting(fs) =>
      forall i | 0 <= i < |fs| ensures fs[i].t != t {
        assert HoldsMutex(s.pcs[th2], fs[i].t);
      }
  }

  lemma TxKeeps(s: State, s2: State, th: nat, t: nat, u: nat)
    requires Inv(s) && Touches(s, s2, th, t) && u < |s.txs| && u != t
    ensures TxInv(s2.txs, u)
  {
    assert TxInv(s.txs, u);
  }

  lemma TouchKeepsInv(s: State, s2: State, th: nat, t: nat)
    requires Inv(s) && Touches(s, s2, th, t) && TxInv(s2.txs, t) && PcInv(s2.txs, s2.pcs[th])
    ensures Inv(s2)
  {
    hide PcInv, TxInv, HoldsMutex;
    forall u: nat | u < |s2.txs| ensures TxInv(s2.txs, u) {
      if u != t { TxKeeps(s, s2, th, t, u); }
    }
    forall th2 | th2 in s2.pcs ensures PcInv(s2.txs, s2.pcs[th2]) {
      if th2 != th { OthersKeep(s, s2, th, t, th2); }
    }
  }

  lemma CreateKeepsInv(s: State, s2: State)
    requires Inv(s) && Create(s, s2)
    ensures Inv(s2)
  {
    forall t: nat | t < |s2.txs| ensures TxInv(s2.txs, t) {
      if t < |s.txs| { assert TxInv(s.txs, t); }
    }
    forall th | th in s2.pcs ensures PcInv(s2.txs, s2.pcs[th]) {
      assert PcInv(s.txs, s.pcs[th]);
    }
  }

  lemma AddFirstKeepsInv(s: State, s2: State, th: nat, t: nat, d: nat)
    requires Inv(s) && AddFirst(s, s2, th, t, d)
    ensures Inv(s2) && Touches(s, s2, th, t)
  {
    assert TxInv(s.txs, t);
    TouchKeepsInv(s, s2, th, t);
  }

  lemma AddSecondKeepsInv(s: State, s2: State, th: nat)
    requires Inv(s) && AddSecond(s, s2, th)
    ensures Inv(s2) && Touches(s, s2, th, s.pcs[th].t)
  {
    var t := s.pcs[th].t;
    assert HoldsMutex(s.pcs[th], t);
    assert TxInv(s.txs, t) && PcInv(s.txs, s.pcs[th]);
    TouchKeepsInv(s, s2, th, t);
  }

  lemma CommitStartKeepsInv(s: State, s2: State, th: nat, t: nat)
    requires Inv(s) && CommitStart(s, s2, th, t)
    ensures Inv(s2) && Touches(s, s2, th, t)
  {
    assert TxInv(s.txs, t);
    NothingHeld();
    assert TxInv(s2.txs, t) && PcInv(s2.txs, s2.pcs[th]);
    hide TxInv, PcInv;
    TouchKeepsInv(s, s2, th, t);
  }

  lemma CommitScanKeepsInv(s: State, s2: State, th: nat)
    requires Inv(s) && CommitScan(s, s2, th)
    ensures Inv(s2) && Touches(s, s2, th, s.pcs[th].t)
  {
    var Committing(t, rest, flag) := s.pcs[th];
    assert HoldsMutex(s.pcs[th], t);
    assert TxInv(s.txs, t) && CommitInv(s.txs, t, rest, flag);
    ScanInv(s.txs, s, th);
    ScanTouches(s, th);
    hide CommitInv, TxInv, Scan, Touches;
    TouchKeepsInv(s, s2, th, t);
  }

  lemma ScanTouches(s: State, th: nat)
    requires Inv(s) && th in s.pcs && s.pcs[th].Committing? && s.pcs[th].rest != []
    requires s.pcs[th].t < |s.txs| && s.pcs[th].rest[0] < |s.txs|
    requires var t := s.pcs[th].t; s.txs[t].status != Pending ==> Scan(s, th).txs[t].status == s.txs[t].status
    ensures Touches(s, Scan(s, th), th, s.pcs[th].t)
  {
    assert HoldsMutex(s.pcs[th], s.pcs[th].t);
    NothingHeld();
    hide CommitInv, TxInv, PcInv;
  }

  /** What one round of the commit loop leaves behind. */
  lemma ScanInv(txs: seq<Tx>, s: State, th: nat)
    requires txs == s.txs && th in s.pcs && s.pcs[th].Committing? && s.pcs[th].t < |txs|
    requires TxInv(txs, s.pcs[th].t) && CommitInv(txs, s.pcs[th].t, s.pcs[th].rest, s.pcs[th].flag)
    ensures s.pcs[th].rest != [] && s.pcs[th].rest[0] < |txs|
    ensures PcInv(Scan(s, th).txs, Scan(s, th).pcs[th]) && TxInv(Scan(s, th).txs, s.pcs[th].t)
    ensures txs[s.pcs[th].t].status != Pending ==> Scan(s, th).txs[s.pcs[th].t].status == txs[s.pcs[th].t].status
  {
    var Committing(t, rest, flag) := s.pcs[th];
    var ds := txs[t].deps;
    var k := |ds| - |rest|;
    assert ds[k] == rest[0] && rest[0] in ds;
    if txs[rest[0]].status != Aborted && |rest| == 1 && !flag && txs[rest[0]].status == Committed {
      forall d | d in ds ensures txs[d].status == Committed {
        var i :| 0 <= i < |ds| && ds[i] == d;
      }
    }
  }

  lemma AbortStartKeepsInv(s: State, s2: State, th: nat, t: nat)
    requires Inv(s) && AbortStart(s, s2, th, t)
    ensures Inv(s2) && Touches(s, s2, th, t)
  {
    assert TxInv(s.txs, t);
    TouchKeepsInv(s, s2, th, t);
  }

  /** The cascade never meets a committed dependent, and never waits for a mutex of its own. */
  lemma CascadeIsSafe(s: State, th: nat)
    requires Inv(s) && th in s.pcs && s.pcs[th].Aborting? && s.pcs[th].frames != []
    requires var f := s.pcs[th].frames[0]; f.next < |s.txs| && f.t in s.txs[f.next].deps
    ensures var f := s.pcs[th].frames[0];
      s.txs[f.next].status != Committed && !HoldsMutex(s.pcs[th], f.next)
  {
    var fs := s.pcs[th].frames;
    assert FramesInv(s.txs, fs) && TxInv(s.txs, fs[0].next);
    forall i | 0 <= i < |fs| ensures fs[i].t <= fs[0].t {
      FramesDescend(s.txs, fs, i);
    }
  }

  lemma {:induction false} FramesDescend(txs: seq<Tx>, fs: seq<Frame>, i: nat)
    requires FramesInv(txs, fs) && i < |fs|
    ensures fs[i].t <= fs[0].t
  {
    if i > 0 { FramesDescend(txs, fs, i - 1); }
  }

  lemma AbortScanKeepsInv(s: State, s2: State, th: nat)
    requires Inv(s) && AbortScan(s, s2, th)
    ensures Inv(s2) && !s2.halted == !s.halted
    ensures s.pcs[th].frames != [] && exists t: nat :: Touches(s, s2, th, t)
  {
    var fs := s.pcs[th].frames;
    var f := fs[0];
    assert PcInv(s.txs, s.pcs[th]) && FramesInv(s.txs, fs);
    assert HoldsMutex(s.pcs[th], f.t);
    assert TxInv(s.txs, f.t);
    if f.next < |s.txs| && f.next != f.t && f.t in s.txs[f.next].deps {
      CascadeIsSafe(s, th);
      assert TxInv(s.txs, f.next);
    }
    AbortTouches(s, s2, th);
    if f.next < |s.txs| && f.next != f.t && f.t in s.txs[f.next].deps && s.txs[f.next].status == Pending {
      TouchKeepsInv(s, s2, th, f.next);
    } else {
      TouchKeepsInv(s, s2, th, f.t);
    }
  }

  lemma AbortTouches(s: State, s2: State, th: nat)
    requires Inv(s) && AbortScan(s, s2, th) && FramesInv(s.txs, s.pcs[th].frames)
    requires var f := s.pcs[th].frames[0];
      f.next < |s.txs| && f.t in s.txs[f.next].deps ==> s.txs[f.next].status != Committed
    ensures var f := s.pcs[th].frames[0];
      if f.next < |s.txs| && f.next != f.t && f.t in s.txs[f.next].deps && s.txs[f.next].status == Pending
      then Touches(s, s2, th, f.next) && PcInv(s2.txs, s2.pcs[th])
      else Touches(s, s2, th, f.t) && PcInv(s2.txs, s2.pcs[th])
  {
    var fs := s.pcs[th].frames;
    var f := fs[0];
    assert HoldsMutex(s.pcs[th], f.t);
    hide TxInv, FramesInv, HoldsMutex;
    if f.next >= |s.txs| {
      ReturnTouches(s, s2, th);
    } else if f.next == f.t || f.t !in s.txs[f.next].deps || s.txs[f.next].status == Aborted {
      OnwardTouches(s, th);
    } else {
      DescendTouches(s, th);
    }
  }

  lemma OnwardTouches(s: State, th: nat)
    requires Inv(s) && th in s.pcs && s.pcs[th].Aborting? && FramesInv(s.txs, s.pcs[th].frames)
    ensures Touches(s, Onward(s, th), th, s.pcs[th].frames[0].t) && PcInv(s.txs, Onward(s, th).pcs[th])
  {
    var fs := s.pcs[th].frames;
    assert HoldsMutex(s.pcs[th], fs[0].t) && fs[0].t < |s.txs|;
    hide TxInv, FramesInv, HoldsMutex;
    Renumbered(s.txs, fs);
  }

  lemma DescendTouches(s: State, th: nat)
    requires Inv(s) && th in s.pcs && s.pcs[th].Aborting? && FramesInv(s.txs, s.pcs[th].frames)
    requires var f := s.pcs[th].frames[0];
      f.next < |s.txs| && f.t in s.txs[f.next].deps && s.txs[f.next].status == Pending && Free(s, f.next)
    ensures Touches(s, Descend(s, th), th, s.pcs[th].frames[0].next)
    ensures PcInv(Descend(s, th).txs, Descend(s, th).pcs[th])
  {
    var fs := s.pcs[th].frames;
    assert fs != [] && fs[0].next < |s.txs|;
    hide TxInv, FramesInv, HoldsMutex;
    Pushed(s.txs, fs, Descend(s, th).txs);
  }

  lemma ReturnTouches(s: State, s2: State, th: nat)
    requires Inv(s) && th in s.pcs && s.pcs[th].Aborting? && FramesInv(s.txs, s.pcs[th].frames)
    requires s.pcs[th].frames[0].next >= |s.txs|
    requires var fs := s.pcs[th].frames; s2 == s.(pcs := s.pcs[th := if |fs| == 1 then Idle else Aborting(fs[1..])])
    ensures Touches(s, s2, th, s.pcs[th].frames[0].t) && PcInv(s2.txs, s2.pcs[th])
  {
    var fs := s.pcs[th].frames;
    assert HoldsMutex(s.pcs[th], fs[0].t) && fs[0].t < |s.txs|;
    hide TxInv, FramesInv, HoldsMutex;
    if |fs| > 1 { Popped(s.txs, fs); } else { NothingHeld(); }
  }

  lemma NothingHeld()
    ensures forall u: nat :: !HoldsMutex(Idle, u)
  {
  }

  lemma Popped(txs: seq<Tx>, fs: seq<Frame>)
    requires FramesInv(txs, fs) && |fs| > 1
    ensures FramesInv(txs, fs[1..])
    ensures forall u: nat :: HoldsMutex(Aborting(fs[1..]), u) ==> HoldsMutex(Aborting(fs), u)
  {
    forall u: nat | HoldsMutex(Aborting(fs[1..]), u) ensures HoldsMutex(Aborting(fs), u) {
      var i :| 0 <= i < |fs[1..]| && fs[1..][i].t == u;
      assert fs[i + 1].t == u;
    }
  }

  lemma Renumbered(txs: seq<Tx>, fs: seq<Frame>)
    requires FramesInv(txs, fs)
    ensures var fs2 := [Frame(fs[0].t, fs[0].next + 1)] + fs[1..];
      FramesInv(txs, fs2) && forall u: nat :: HoldsMutex(Aborting(fs2), u) ==> HoldsMutex(Aborting(fs), u)
  {
    var fs2 := [Frame(fs[0].t, fs[0].next + 1)] + fs[1..];
    assert forall i :: 0 <= i < |fs| ==> fs2[i].t == fs[i].t;
  }

  lemma Pushed(txs: seq<Tx>, fs: seq<Frame>, txs2: seq<Tx>)
    requires FramesInv(txs, fs) && (forall t: nat :: t < |txs| ==> TxInv(txs, t))
    requires fs[0].next < |txs| && fs[0].t in txs[fs[0].next].deps
    requires txs2 == txs[fs[0].next := txs[fs[0].next].(status := Aborted)]
    ensures var fs2 := [Frame(fs[0].next, 0), Frame(fs[0].t, fs[0].next + 1)] + fs[1..];
      && FramesInv(txs2, fs2)
      && forall u: nat :: HoldsMutex(Aborting(fs2), u) ==> HoldsMutex(Aborting(fs), u) || u == fs[0].next
  {
    var fs2 := [Frame(fs[0].next, 0), Frame(fs[0].t, fs[0].next + 1)] + fs[1..];
    assert TxInv(txs, fs[0].next);
    assert forall i :: 0 < i < |fs2| ==> fs2[i].t == fs[i - 1].t;
    forall u: nat | HoldsMutex(Aborting(fs2), u) && u != fs[0].next ensures HoldsMutex(Aborting(fs), u) {
      var i :| 0 <= i < |fs2| && fs2[i].t == u;
      assert fs[i - 1].t == u;
    }
  }

  /** A thread's step keeps the invariant and touches one transaction. */
  lemma ThreadStepKeepsInv(s: State, s2: State, th: nat, t: nat, d: nat)
    requires Inv(s) && ThreadStep(s, s2, th, t, d)
    ensures Inv(s2) && exists u: nat :: Touches(s, s2, th, u)
  {
    hide Inv, Touches, AddFirst, AddSecond, CommitStart, CommitScan, AbortStart, AbortScan;
    if AddFirst(s, s2, th, t, d) {
      AddFirstKeepsInv(s, s2, th, t, d);
    } else if AddSecond(s, s2, th) {
      AddSecondPc(s, s2, th);
      AddSecondKeepsInv(s, s2, th);
    } else if CommitStart(s, s2, th, t) {
      CommitStartKeepsInv(s, s2, th, t);
    } else if CommitScan(s, s2, th) {
      CommitScanPc(s, s2, th);
      CommitScanKeepsInv(s, s2, th);
    } else if AbortStart(s, s2, th, t) {
      AbortStartKeepsInv(s, s2, th, t);
    } else {
      AbortScanKeepsInv(s, s2, th);
    }
  }

  lemma AddSecondPc(s: State, s2: State, th: nat)
    requires AddSecond(s, s2, th)
    ensures th in s.pcs && s.pcs[th].Adding?
  {
  }

  lemma CommitScanPc(s: State, s2: State, th: nat)
    requires CommitScan(s, s2, th)
    ensures th in s.pcs && s.pcs[th].Committing?
  {
  }

  /** Every step keeps the invariant. */
  lemma NextKeepsInv(s: State, s2: State)
    requires Inv(s) && Next(s, s2)
    ensures Inv(s2) && Stable(s, s2)
  {
    hide Inv, Touches, ThreadStep, Stable;
    if Create(s, s2) {
      CreateKeepsInv(s, s2);
      CreateStable(s, s2);
    } else {
      var th, t, d :| ThreadStep(s, s2, th, t, d);
      ThreadStepKeepsInv(s, s2, th, t, d);
      var u: nat :| Touches(s, s2, th, u);
      StepStable(s, s2, th, t, d, u);
    }
  }

  lemma CreateStable(s: State, s2: State)
    requires Create(s, s2)
    ensures Stable(s, s2)
  {
  }

  lemma StepStable(s: State, s2: State, th: nat, t: nat, d: nat, u: nat)
    requires Touches(s, s2, th, u) && ThreadStep(s, s2, th, t, d)
    ensures Stable(s, s2)
  {
    forall v: nat | v < |s.txs| ensures forall e :: e in s.txs[v].deps ==> e in s2.txs[v].deps {
      if AddSecond(s, s2, th) {
      } else if AbortScan(s, s2, th) {
        assert s2.txs[v].deps == s.txs[v].deps;
      } else {
        assert s2.txs[v].deps == s.txs[v].deps;
      }
    }
  }

  /** Final statuses are final, and dependencies are never dropped. */
  ghost predicate Stable(s: State, s2: State) {
    && |s.txs| <= |s2.txs|
    && forall t: nat :: t < |s.txs| ==>
      && (s.txs[t].status != Pending ==> s2.txs[t].status == s.txs[t].status)
      && (forall d :: d in s.txs[t].deps ==> d in s2.txs[t].deps)
  }

  // ----- whole runs ----------------------------------------------------------------------------------

  ghost predicate IsRun(run: seq<State>)
    ensures IsRun(run) ==> run != []
  {
    && run != [] && Init(run[0])
    && forall i :: 0 < i < |run| ==> Next(run[i - 1], run[i])
  }

  lemma {:induction false} RunInv(run: seq<State>, i: nat)
    requires IsRun(run) && i < |run|
    ensures Inv(run[i])
  {
    if i > 0 {
      RunInv(run, i - 1);
      NextKeepsInv(run[i - 1], run[i]);
    }
  }

  lemma {:induction false} RunStable(run: seq<State>, i: nat, j: nat)
    requires IsRun(run) && i <= j < |run|
    ensures Stable(run[i], run[j])
    decreases j
  {
    if i < j {
      hide Next;
      RunStable(run, i, j - 1);
      RunInv(run, j - 1);
      NextKeepsInv(run[j - 1], run[j]);
    }
  }

  /** A committed transaction has only committed dependencies, at every later moment too. */
  lemma CommittedForGood(run: seq<State>, i: nat, j: nat, t: nat, d: nat)
    requires IsRun(run) && i <= j < |run| && t < |run[i].txs| && run[i].txs[t].status == Committed
    requires t < |run[j].txs| && d in run[j].txs[t].deps
    ensures |run[i].txs| <= |run[j].txs| && run[j].txs[t].status == Committed
    ensures d < t && run[j].txs[d].status == Committed
  {
    RunStable(run, i, j);
    RunInv(run, j);
    assert TxInv(run[j].txs, t);
  }

  /** No dependent of an aborted transaction is ever committed, before or after. */
  lemma DependentsOfAborted(run: seq<State>, i: nat, j: nat, t: nat, d: nat)
    requires IsRun(run) && i < |run| && j < |run| && t < |run[i].txs| && t < |run[j].txs|
    requires d in run[i].txs[t].deps && d < |run[i].txs| && run[i].txs[d].status == Aborted
    ensures run[j].txs[t].status != Committed
  {
    var k := if i < j then j else i;
    RunStable(run, i, k);
    RunStable(run, j, k);
    RunInv(run, k);
    assert TxInv(run[k].txs, t);
  }

  /** exit(-1) is only reached when a client asks to abort a committed transaction. */
  lemma OnlyClientsHalt(s: State, s2: State)
    requires Inv(s) && Next(s, s2) && s2.halted
    ensures exists th: nat, t: nat :: AbortStart(s, s2, th, t) && s.txs[t].status == Committed
  {
    var th, t, d :| ThreadStep(s, s2, th, t, d);
    if AbortScan(s, s2, th) {
      AbortScanKeepsInv(s, s2, th);
    }
    assert AbortStart(s, s2, th, t);
  }

  // ----- progress --------------------------------------------------------------------------------------

  /** th is back from its commit, or in it with a sane list. */
  predicate Scanning(s: State, th: nat) {
    th in s.pcs &&
    match s.pcs[th]
    case Idle => true
    case Committing(t, rest, _) =>
      && t < |s.txs| && 0 < |rest| <= |s.txs[t].deps| && rest == s.txs[t].deps[|s.txs[t].deps| - |rest|..]
      && forall i :: 0 <= i < |s.txs[t].deps| ==> s.txs[t].deps[i] < t
    case _ => false
  }

  lemma ScanKeepsScanning(s: State, th: nat)
    requires Scanning(s, th) && s.pcs[th].Committing?
    ensures Scanning(Scan(s, th), th)
  {
    var Committing(t, rest, flag) := s.pcs[th];
    assert s.txs[t].deps[|s.txs[t].deps| - |rest|] == rest[0];
  }
  /** k rounds of the commit loop of thread th, undisturbed; nothing once it has returned. */
  function Scans(s: State, th: nat, k: nat): (r: State)
    requires Scanning(s, th)
    ensures Scanning(r, th) && r.pcs.Keys == s.pcs.Keys && |r.txs| == |s.txs|
    decreases k
  {
    if k == 0 || s.pcs[th] == Idle then s
    else
      ScanKeepsScanning(s, th);
      Scans(Scan(s, th), th, k - 1)
  }

  /** What a commit makes of its dependencies' final statuses. */
  function Verdict(txs: seq<Tx>, ds: seq<nat>): Status {
    if exists d :: d in ds && d < |txs| && txs[d].status == Aborted then Aborted else Committed
  }

  /** Every dependency of the transaction in commit is final, and those passed without raising the
      flag are committed. */
  ghost predicate Resolved(s: State, th: nat)
    requires Scanning(s, th) && s.pcs[th].Committing?
  {
    var Committing(t, rest, flag) := s.pcs[th];
    var ds := s.txs[t].deps;
    && (forall d :: d in ds ==> s.txs[d].status != Pending)
    && (!flag ==> forall i :: 0 <= i < |ds| - |rest| ==> s.txs[ds[i]].status == Committed)
  }

  /** How many rounds a commit has to go: another pass follows if the flag is up. */
  function Rounds(s: State, th: nat): nat
    requires Scanning(s, th) && s.pcs[th].Committing?
  {
    var Committing(t, rest, flag) := s.pcs[th];
    |rest| + if flag then |s.txs[t].deps| else 0
  }

  /** In s2 the commit of th in s has returned with the verdict on its dependencies. */
  ghost predicate Returned(s: State, s2: State, th: nat)
    requires Scanning(s, th) && s.pcs[th].Committing?
  {
    var t := s.pcs[th].t;
    th in s2.pcs && s2.pcs[th] == Idle && |s2.txs| == |s.txs| && s2.txs[t].status == Verdict(s.txs, s.txs[t].deps)
  }

  /** Once every dependency is committed or aborted, a commit left to itself returns after at most two
      passes: aborted if some dependency is aborted, else committed. What the transaction's own
      status was does not matter. */
  lemma {:induction false} CommitOutcome(s: State, th: nat)
    requires Scanning(s, th) && s.pcs[th].Committing?
    requires Resolved(s, th)
    ensures Returned(s, Scans(s, th, Rounds(s, th)), th)
    decreases s.pcs[th].flag, |s.pcs[th].rest|
  {
    FirstEntry(s, th);
    hide Scan, Scans, Verdict, Scanning, Resolved, Returned;
    var Committing(t, rest, flag) := s.pcs[th];
    var s1 := Scan(s, th);
    ScansStep(s, th, Rounds(s, th));
    if s.txs[rest[0]].status == Aborted || (|rest| == 1 && !flag) {
      LastScan(s, th);
      ScansIdle(s1, th, Rounds(s, th) - 1);
    } else {
      MiddleScan(s, th);
      CommitOutcome(s1, th);
      ReturnedToo(s, s1, Scans(s1, th, Rounds(s1, th)), th);
    }
  }

  lemma ReturnedToo(s: State, s1: State, s2: State, th: nat)
    requires Scanning(s, th) && s.pcs[th].Committing? && Scanning(s1, th) && s1.pcs[th].Committing?
    requires s1.txs == s.txs && s1.pcs[th].t == s.pcs[th].t && Returned(s1, s2, th)
    ensures Returned(s, s2, th)
  {
  }

  lemma ScansStep(s: State, th: nat, n: nat)
    requires Scanning(s, th) && s.pcs[th].Committing? && n > 0
    ensures Scanning(Scan(s, th), th) && Scans(s, th, n) == Scans(Scan(s, th), th, n - 1)
  {
    ScanKeepsScanning(s, th);
  }

  lemma FirstEntry(s: State, th: nat)
    requires Scanning(s, th) && s.pcs[th].Committing?
    ensures var Committing(t, rest, _) := s.pcs[th];
      0 < |rest| <= |s.txs[t].deps| && rest[0] < t < |s.txs| && rest[0] in s.txs[t].deps
  {
    var Committing(t, rest, _) := s.pcs[th];
    assert s.txs[t].deps[|s.txs[t].deps| - |rest|] == rest[0];
  }

  /** A round that does not end the commit. */
  lemma MiddleScan(s: State, th: nat)
    requires Scanning(s, th) && s.pcs[th].Committing?
    requires Resolved(s, th)
    requires var Committing(t, rest, flag) := s.pcs[th]; s.txs[rest[0]].status != Aborted && (|rest| > 1 || flag)
    ensures var Committing(t, rest, flag) := s.pcs[th]; var s1 := Scan(s, th);
      && s1.txs == s.txs && Scanning(s1, th) && s1.pcs[th].Committing? && Resolved(s1, th)
      && s1.pcs[th] == if |rest| > 1 then Committing(t, rest[1..], flag) else Committing(t, s.txs[t].deps, false)
  {
    var Committing(t, rest, flag) := s.pcs[th];
    var ds := s.txs[t].deps;
    assert ds[|ds| - |rest|] == rest[0] && rest[0] in ds;
    ScanKeepsScanning(s, th);
  }

  /** The round that ends a commit. */
  lemma LastScan(s: State, th: nat)
    requires Scanning(s, th) && s.pcs[th].Committing?
    requires Resolved(s, th)
    requires var Committing(t, rest, flag) := s.pcs[th]; s.txs[rest[0]].status == Aborted || (|rest| == 1 && !flag)
    ensures Scanning(Scan(s, th), th) && Scan(s, th).pcs[th] == Idle && Returned(s, Scan(s, th), th)
  {
    var Committing(t, rest, flag) := s.pcs[th];
    var ds := s.txs[t].deps;
    var k := |ds| - |rest|;
    assert ds[k] == rest[0] && rest[0] in ds;
    if s.txs[rest[0]].status != Aborted {
      forall d | d in ds ensures s.txs[d].status != Aborted {
        var i :| 0 <= i < |ds| && ds[i] == d;
      }
    }
  }

  lemma ScansIdle(s: State, th: nat, k: nat)
    requires Scanning(s, th) && s.pcs[th] == Idle
    ensures Scans(s, th, k) == s
  {
  }

  /** If every pending transaction is in its commit loop, the oldest one can leave: its own thread,
      scheduled alone, brings it to a final status. So commits never wait for each other forever. */
  lemma SomeCommitCanLeave(s: State) returns (t: nat, th: nat, k: nat)
    requires Inv(s) && exists t: nat :: t < |s.txs| && s.txs[t].status == Pending
    requires forall t: nat :: t < |s.txs| && s.txs[t].status == Pending ==>
      exists th :: th in s.pcs && s.pcs[th].Committing? && s.pcs[th].t == t
    ensures t < |s.txs| && s.txs[t].status == Pending && Scanning(s, th)
    ensures Scans(s, th, k).txs[t].status != Pending
  {
    hide Scans;
    t := OldestPending(s.txs);
    th :| th in s.pcs && s.pcs[th].Committing? && s.pcs[th].t == t;
    assert PcInv(s.txs, s.pcs[th]) && TxInv(s.txs, t);
    var ds := s.txs[t].deps;
    var Committing(_, rest, flag) := s.pcs[th];
    assert forall i :: 0 <= i < |ds| ==> ds[i] in ds;
    CommitOutcome(s, th);
    k := |rest| + if flag then |ds| else 0;
  }

  /** The pending transaction with the smallest id: its dependencies are all final. */
  lemma {:induction false} OldestPending(txs: seq<Tx>) returns (t: nat)
    requires exists t: nat :: t < |txs| && txs[t].status == Pending
    ensures t < |txs| && txs[t].status == Pending && forall u :: 0 <= u < t ==> txs[u].status != Pending
  {
    t := 0;
    while txs[t].status != Pending
      invariant t < |txs| && forall u :: 0 <= u < t ==> txs[u].status != Pending
      decreases |txs| - t
    {
      t := t + 1;
    }
  }

  // ----- two ways the source goes wrong -------------------------------------------------------------------

  /** trans_commit from its start, undisturbed, without asking whether t was aborted before. */
  function CommitAlone(s: State, th: nat, t: nat): State
    requires th in s.pcs && t < |s.txs| && forall i :: 0 <= i < |s.txs[t].deps| ==> s.txs[t].deps[i] < t
  {
    var ds := s.txs[t].deps;
    if ds == [] then SetStatus(s, t, Committed)
    else Scans(s.(pcs := s.pcs[th := Committing(t, ds, false)]), th, |ds|)
  }

  /** A commit of a transaction its client has already aborted leaves it aborted exactly when one of
      its dependencies is aborted; this is why a run above lets no owner commit after an abort. */
  lemma CommitAfterAbort(s: State, th: nat, t: nat)
    requires th in s.pcs && t < |s.txs| && (forall i :: 0 <= i < |s.txs[t].deps| ==> s.txs[t].deps[i] < t)
    requires s.txs[t].status == Aborted && forall d :: d in s.txs[t].deps ==> s.txs[d].status != Pending
    ensures |CommitAlone(s, th, t).txs| == |s.txs|
    ensures CommitAlone(s, th, t).txs[t].status == Aborted <==>
      exists d :: d in s.txs[t].deps && s.txs[d].status == Aborted
  {
    var ds := s.txs[t].deps;
    if ds != [] {
      CommitOutcome(s.(pcs := s.pcs[th := Committing(t, ds, false)]), th);
    }
  }

  /** An aborted transaction without dependencies is committed by its owner's commit. */
  lemma AbortedIsCommitted()
    ensures CommitAlone(State([Tx(Aborted, [], true)], map[0 := Idle], false), 0, 0).txs[0].status == Committed
  {
  }

  /** Three fresh transactions and two idle threads. */
  lemma ThreeTransactions() returns (run: seq<State>)
    ensures IsRun(run)
    ensures var p := Tx(Pending, [], false);
      run[|run| - 1] == State([p, p, p], map[0 := Idle, 1 := Idle], false)
  {
    var p := Tx(Pending, [], false);
    var pcs := map[0 := Idle, 1 := Idle];
    var s0, s1, s2, s3 := State([], pcs, false), State([p], pcs, false), State([p, p], pcs, false),
      State([p, p, p], pcs, false);
    assert Create(s0, s1) && Create(s1, s2) && Create(s2, s3);
    run := [s0, s1, s2, s3];
  }

  /** Transaction 2 depends on 1 and 1 on 0. */
  lemma ChainOfThree() returns (run: seq<State>)
    ensures IsRun(run)
    ensures run[|run| - 1] ==
      State([Tx(Pending, [], false), Tx(Pending, [0], false), Tx(Pending, [1], false)],
        map[0 := Idle, 1 := Idle], false)
  {
    hide Next, IsRun;
    run := ThreeTransactions();
    var mid, s := Depend(run[|run| - 1], 0, 1, 0);
    run := Extend(Extend(run, mid), s);
    assert s.txs[1].deps == [0];
    assert s.txs == [Tx(Pending, [], false), Tx(Pending, [0], false), Tx(Pending, [], false)];
    mid, s := Depend(s, 0, 2, 1);
    run := Extend(Extend(run, mid), s);
    assert s.txs[2].deps == [1];
    assert s.txs == [Tx(Pending, [], false), Tx(Pending, [0], false), Tx(Pending, [1], false)];
  }

  /** And thread 1 holds the mutex of 2, to make it depend on 0 as well. */
  lemma DeadlockSetup() returns (run: seq<State>)
    ensures IsRun(run)
    ensures run[|run| - 1] ==
      State([Tx(Pending, [], false), Tx(Pending, [0], false), Tx(Pending, [1], false)],
        map[0 := Idle, 1 := Adding(2, 0)], false)
  {
    hide Next, IsRun;
    run := ChainOfThree();
    var s := run[|run| - 1];
    var s2 := s.(pcs := s.pcs[1 := Adding(2, 0)]);
    OneStep(s, s2, 1, 2, 0) by { assert AddFirst(s, s2, 1, 2, 0); }
    run := Extend(run, s2);
    assert s2.pcs == map[0 := Idle, 1 := Adding(2, 0)];
  }

  /** A run with one more state. */
  ghost function Extend(run: seq<State>, s2: State): (r: seq<State>)
    requires IsRun(run) && Next(run[|run| - 1], s2)
    ensures IsRun(r) && r[|r| - 1] == s2
  {
    run + [s2]
  }

  /** An undisturbed trans_add_dependency. */
  lemma Depend(s: State, th: nat, t: nat, d: nat) returns (mid: State, s2: State)
    requires !s.halted && th in s.pcs && (forall th2 :: th2 in s.pcs ==> s.pcs[th2] == Idle)
    requires d < t < |s.txs| && s.txs[t].status == Pending
    ensures Next(s, mid) && Next(mid, s2)
    ensures s2 == s.(txs := s.txs[t := s.txs[t].(deps := [d] + s.txs[t].deps)])
  {
    mid := s.(pcs := s.pcs[th := Adding(t, d)]);
    OneStep(s, mid, th, t, d) by { assert AddFirst(s, mid, th, t, d); }
    s2 := mid.(txs := mid.txs[t := mid.txs[t].(deps := [d] + mid.txs[t].deps)], pcs := mid.pcs[th := Idle]);
    OneStep(mid, s2, th, t, d) by { assert AddSecond(mid, s2, th); }
    assert s2.pcs == s.pcs;
  }

  /** A run that ends with two threads waiting for each other: the cascade from transaction 0 wants
      the mutex of transaction 2, held by trans_add_dependency, which wants the mutex of 0. */
  lemma CascadeCanDeadlock() returns (run: seq<State>)
    ensures IsRun(run)
    ensures var s := run[|run| - 1];
      && s.pcs.Keys == {0, 1} && s.pcs[0].Aborting? && s.pcs[1].Adding?
      && forall s2, th: nat, t: nat, d: nat :: !ThreadStep(s, s2, th, t, d)
  {
    hide Next, IsRun;
    var setup := DeadlockSetup();
    var s8 := setup[|setup| - 1];
    var d8 := s8.(txs := s8.txs[0 := s8.txs[0].(doomed := true)]);
    var s9 := SetStatus(d8, 0, Aborted).(pcs := s8.pcs[0 := Aborting([Frame(0, 0)])]);
    OneStep(s8, s9, 0, 0, 0) by { assert AbortStart(s8, s9, 0, 0); }
    var s10 := Onward(s9, 0);
    assert s10.pcs[0].frames == [Frame(0, 1)];
    OneStep(s9, s10, 0, 0, 0) by { assert AbortScan(s9, s10, 0); }
    var s11 := Descend(s10, 0);
    assert s11.pcs[0].frames == [Frame(1, 0), Frame(0, 2)];
    OneStep(s10, s11, 0, 0, 0) by { assert AbortScan(s10, s11, 0); }
    var s12 := Onward(s11, 0);
    assert s12.pcs[0].frames == [Frame(1, 1), Frame(0, 2)];
    OneStep(s11, s12, 0, 0, 0) by { assert AbortScan(s11, s12, 0); }
    var s13 := Onward(s12, 0);
    assert s13.pcs[0].frames == [Frame(1, 2), Frame(0, 2)];
    OneStep(s12, s13, 0, 0, 0) by { assert AbortScan(s12, s13, 0); }
    run := Extend(Extend(Extend(Extend(Extend(setup, s9), s10), s11), s12), s13);
    StuckPair(s13);
  }

  lemma OneStep(s: State, s2: State, th: nat, t: nat, d: nat)
    requires !s.halted && ThreadStep(s, s2, th, t, d)
    ensures Next(s, s2)
  {
  }

  /** Each of the two threads waits for a mutex the other holds. */
  lemma StuckPair(s: State)
    requires s.pcs.Keys == {0, 1} && |s.txs| == 3 && 1 in s.txs[2].deps
    requires s.pcs[0] == Aborting([Frame(1, 2), Frame(0, 2)]) && s.pcs[1] == Adding(2, 0)
    ensures forall s2, th: nat, t: nat, d: nat :: !ThreadStep(s, s2, th, t, d)
  {
    assert HoldsMutex(s.pcs[1], 2);
    assert HoldsMutex(s.pcs[0], 0) by { assert s.pcs[0].frames[1].t == 0; }
    assert !Free(s, 2) && !Free(s, 0);
  }
}
