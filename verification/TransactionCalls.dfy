/** What each call of hw5/src/transaction.c has done at the moment it returns, in every run. */
module TransactionCalls {
  import opened TransactionAbort
  import opened TransactionRuns

  /** A step of trans_commit(t) by thread th. */
  ghost predicate Commits(s: State, s2: State, th: nat, t: nat) {
    CommitStart(s, s2, th, t) || (CommitScan(s, s2, th) && s.pcs[th].t == t)
  }

  /** No transaction but t has changed. */
  ghost predicate OnlyOf(s: State, s2: State, t: nat) {
    |s2.txs| == |s.txs| && forall u :: 0 <= u < |s.txs| && u != t ==> s2.txs[u] == s.txs[u]
  }

  ghost predicate AllCommitted(txs: seq<Tx>, t: nat)
    requires t < |txs|
  {
    forall d :: d in txs[t].deps ==> d < |txs| && txs[d].status == Committed
  }

  ghost predicate SomeAborted(txs: seq<Tx>, t: nat)
    requires t < |txs|
  {
    exists d :: d in txs[t].deps && d < |txs| && txs[d].status == Aborted
  }

  /** t is committed if all its dependencies are, and aborted if one of them is. */
  ghost predicate Decided(txs: seq<Tx>, t: nat) {
    t < |txs| && txs[t].status != Pending
    && (txs[t].status == Committed <==> AllCommitted(txs, t))
    && (txs[t].status == Aborted <==> SomeAborted(txs, t))
  }

  /** A commit that returns has decided its transaction; one that goes on has changed nothing. */
  lemma CommitReturns(s: State, s2: State, th: nat, t: nat)
    requires Inv(s) && Commits(s, s2, th, t)
    ensures th in s2.pcs && t < |s.txs| && OnlyOf(s, s2, t) && s2.txs[t].deps == s.txs[t].deps
    ensures if s2.pcs[th] == Idle then Decided(s2.txs, t) else s2.txs == s.txs && s2.pcs[th].Committing?
  {
    assert PcInv(s.txs, s.pcs[th]);
    assert t < |s.txs| && TxInv(s.txs, t);
    if CommitStart(s, s2, th, t) {
      assert s.txs[t].status == Aborted ==> SomeAborted(s.txs, t);
    } else {
      ScanReturns(s, th);
    }
  }

  lemma ScanReturns(s: State, th: nat)
    requires th in s.pcs && s.pcs[th].Committing? && CommitInv(s.txs, s.pcs[th].t, s.pcs[th].rest, s.pcs[th].flag)
    requires s.pcs[th].t < |s.txs| && TxInv(s.txs, s.pcs[th].t)
    ensures s.pcs[th].rest[0] < |s.txs|
    ensures var s2, t := Scan(s, th), s.pcs[th].t;
      && OnlyOf(s, s2, t) && s2.txs[t].deps == s.txs[t].deps
      && if s2.pcs[th] == Idle then Decided(s2.txs, t) else s2.txs == s.txs && s2.pcs[th].Committing?
  {
    var Committing(t, rest, flag) := s.pcs[th];
    var ds := s.txs[t].deps;
    var k := |ds| - |rest|;
    assert ds[k] == rest[0] && rest[0] in ds;
    var s2 := Scan(s, th);
    if s.txs[rest[0]].status == Aborted {
      assert rest[0] in s2.txs[t].deps && s2.txs[rest[0]].status == Aborted;
      assert SomeAborted(s2.txs, t) && !AllCommitted(s2.txs, t);
    } else if |rest| == 1 && !flag && s.txs[rest[0]].status == Committed {
      forall d | d in ds ensures d < t && s.txs[d].status == Committed {
        var i :| 0 <= i < |ds| && ds[i] == d;
      }
      assert AllCommitted(s2.txs, t) && !SomeAborted(s2.txs, t);
    }
  }

  /** In every run: what a commit has decided when it returns was right then, and stands for good. */
  lemma CommitDecides(run: seq<State>, k: nat, j: nat, th: nat, t: nat)
    requires IsRun(run) && 0 < k <= j < |run| && Commits(run[k - 1], run[k], th, t)
    requires th in run[k].pcs && run[k].pcs[th] == Idle
    ensures Decided(run[k].txs, t) && t < |run[j].txs| && run[j].txs[t].status == run[k].txs[t].status
  {
    hide Inv, Commits, Decided;
    RunInv(run, k - 1);
    CommitReturns(run[k - 1], run[k], th, t);
    RunStable(run, k, j);
    IsDecided(run[k].txs, t);
  }

  lemma IsDecided(txs: seq<Tx>, t: nat)
    requires Decided(txs, t)
    ensures t < |txs| && txs[t].status != Pending
  {
  }

  /** trans_add_dependency has added exactly its dependency, to a transaction that is still pending. */
  lemma AddReturns(s: State, s2: State, th: nat)
    requires Inv(s) && AddSecond(s, s2, th)
    ensures th in s2.pcs && s2.pcs[th] == Idle
    ensures var t, d := s.pcs[th].t, s.pcs[th].d;
      && t < |s.txs| && OnlyOf(s, s2, t) && s2.txs[t].status == Pending
      && multiset(s2.txs[t].deps) == multiset(s.txs[t].deps) + multiset{d}
  {
    assert PcInv(s.txs, s.pcs[th]);
  }

  /** trans_abort has aborted its transaction when it returns, unless that was committed. */
  lemma AbortReturns(s: State, s2: State, th: nat, t: nat)
    requires Inv(s) && th in s2.pcs && s2.pcs[th] == Idle && !s2.halted
    requires AbortStart(s, s2, th, t) ||
      (AbortScan(s, s2, th) && s.pcs[th].frames[|s.pcs[th].frames| - 1].t == t)
    ensures t < |s2.txs| && s2.txs[t].status == Aborted
  {
    if !AbortStart(s, s2, th, t) {
      assert FramesInv(s.txs, s.pcs[th].frames) by { assert PcInv(s.txs, s.pcs[th]); }
    }
  }

  /** A call can begin exactly when the mutex of its transaction is free, and its client keeps the rules:
      no commit after an abort, and dependencies of pending transactions on older ones only. */
  lemma CallsBegin(s: State, th: nat, t: nat, d: nat)
    requires th in s.pcs && s.pcs[th] == Idle && t < |s.txs|
    ensures (exists s2 :: CommitStart(s, s2, th, t)) <==> Free(s, t) && !s.txs[t].doomed
    ensures (exists s2 :: AbortStart(s, s2, th, t)) <==> Free(s, t)
    ensures (exists s2 :: AddFirst(s, s2, th, t, d)) <==> Free(s, t) && d < t && s.txs[t].status == Pending
  {
    hide Free;
    if Free(s, t) {
      var s1 := s.(txs := s.txs[t := s.txs[t].(doomed := true)]);
      var s2 := match s.txs[t].status
                case Committed => s1.(halted := true)
                case Aborted => s1
                case Pending => SetStatus(s1, t, Aborted).(pcs := s.pcs[th := Aborting([Frame(t, 0)])]);
      assert AbortStart(s, s2, th, t);
      if !s.txs[t].doomed {
        var s3 := if s.txs[t].deps == [] then SetStatus(s, t, Committed)
                  else s.(pcs := s.pcs[th := Committing(t, s.txs[t].deps, false)]);
        assert CommitStart(s, s3, th, t);
      }
      if d < t && s.txs[t].status == Pending {
        assert AddFirst(s, s.(pcs := s.pcs[th := Adding(t, d)]), th, t, d);
      }
    }
  }
}
