/** The abort cascade of hw5/src/transaction.c:224-257 run to its end, and its dependency scan. */
module TransactionAbort {

  datatype Status = Pending | Committed | Aborted

  /** A transaction is named by its place in the transaction list, which is the order of its id. */
  type Deps = seq<seq<nat>>          // deps[t]: the dependency list of t, head first
  type Statuses = seq<Status>

  /** No committed transaction depends on one that is not committed. */
  ghost predicate CommittedClosed(st: Statuses, deps: Deps)
    requires |st| == |deps|
  {
    forall t, d :: 0 <= t < |st| && st[t] == Committed && d in deps[t] && d < |st| ==> st[d] == Committed
  }

  /** path leads from t to u along "depends on" edges, through transactions pending in st. */
  ghost predicate PendingPath(st: Statuses, deps: Deps, t: nat, u: nat, path: seq<nat>)
    requires |st| == |deps|
  {
    && |path| > 0 && path[0] == t && path[|path| - 1] == u
    && (forall i :: 0 <= i < |path| ==> path[i] < |st| && st[path[i]] == Pending)
    && (forall i :: 0 < i < |path| ==> path[i - 1] in deps[path[i]])
  }

  /** u is t or depends on t, directly or through pending transactions. */
  ghost predicate Dependent(st: Statuses, deps: Deps, t: nat, u: nat)
    requires |st| == |deps|
  {
    exists path :: PendingPath(st, deps, t, u, path)
  }

  /** Only pending transactions change, and only to aborted. */
  ghost predicate OnlyAborts(st: Statuses, st2: Statuses) {
    |st2| == |st| && forall u :: 0 <= u < |st| ==> st2[u] == st[u] || (st[u] == Pending && st2[u] == Aborted)
  }

  ghost function PendingSet(st: Statuses): set<nat> {
    set u | 0 <= u < |st| && st[u] == Pending
  }

  lemma DependentStep(st: Statuses, deps: Deps, mid: Statuses, t: nat, v: nat, u: nat)
    requires |st| == |deps| && OnlyAborts(st, mid) && t < |st| && v < |st| && st[t] == Pending && t in deps[v]
    requires Dependent(mid, deps, v, u)
    ensures Dependent(st, deps, t, u)
  {
    var path :| PendingPath(mid, deps, v, u, path);
    assert forall i :: 0 <= i < |path| ==> st[path[i]] == Pending;
    assert PendingPath(st, deps, t, u, [t] + path);
  }

  class Manager {
    var st: Statuses
    const deps: Deps

    constructor (st: Statuses, deps: Deps)
      requires |st| == |deps|
      ensures this.st == st && this.deps == deps
    {
      this.st, this.deps := st, deps;
    }

    /** trans_abort. crash tells whether exit(-1) was met, here or in the cascade. */
    method Abort(t: nat) returns (crash: bool)
      requires t < |st| == |deps| && CommittedClosed(st, deps)
      modifies this
      ensures |st| == |deps| && |old(st)| == |st|
      ensures crash <==> old(st[t]) == Committed
      ensures crash || old(st[t]) == Aborted ==> st == old(st)
      ensures !crash ==> st[t] == Aborted
      ensures CommittedClosed(st, deps) && OnlyAborts(old(st), st)
      // exactly t and its pending dependents change
      ensures forall u: nat :: u < |st| ==> (st[u] != old(st)[u] <==> Dependent(old(st), deps, t, u))
      ensures Settled(old(st), st, deps)
      decreases PendingSet(st)
    {
      ghost var st0 := st;
      if st[t] == Committed {
        NoDependents(st, deps, t);
        return true;
      }
      if st[t] == Aborted {
        NoDependents(st, deps, t);
        return false;
      }
      st := st[t := Aborted];
      assert st0[t] == Pending && t in PendingSet(st0) && t !in PendingSet(st);
      DependentSelf(st0, deps, t);
      crash := false;
      var i := 0;
      while i < |st|
        invariant i <= |st| && |st| == |deps| && !crash
        invariant OnlyAborts(st0, st) && st[t] == Aborted && CommittedClosed(st, deps)
        invariant PendingSet(st) < PendingSet(st0)
        invariant forall u: nat :: u < |st| && st[u] != st0[u] ==> Dependent(st0, deps, t, u)
        invariant SettledBut(st0, st, deps, t)
        invariant forall v: nat :: v < i && t in deps[v] && v != t ==> st[v] != Pending
      {
        if i != t && t in deps[i] {
          ghost var mid := st;
          assert st[i] != Committed;
          crash := Abort(i);
          forall u: nat | u < |st| && st[u] != mid[u] ensures Dependent(st0, deps, t, u) {
            DependentStep(st0, deps, mid, t, i, u);
          }
          StillSettled(st0, mid, st, deps, t);
        }
        i := i + 1;
      }
      forall u: nat | u < |st| && Dependent(st0, deps, t, u) ensures st[u] != st0[u] {
        var path :| PendingPath(st0, deps, t, u, path);
        ReachedChanged(st0, st, deps, path, |path| - 1);
      }
    }
  }

  /** Nothing that changed between st and st2 has a pending dependent left. */
  ghost predicate Settled(st: Statuses, st2: Statuses, deps: Deps)
    requires |st| == |st2| == |deps|
  {
    forall v: nat, w: nat :: v < |st| && w < |st| && st2[v] != st[v] && v in deps[w] && v != w ==> st2[w] != Pending
  }

  /** The same for everything but t. */
  ghost predicate SettledBut(st: Statuses, st2: Statuses, deps: Deps, t: nat)
    requires |st| == |st2| == |deps|
  {
    forall v: nat, w: nat ::
      v < |st| && w < |st| && v != t && st2[v] != st[v] && v in deps[w] && v != w ==> st2[w] != Pending
  }

  lemma StillSettled(st0: Statuses, mid: Statuses, st2: Statuses, deps: Deps, t: nat)
    requires |st0| == |mid| == |st2| == |deps| && OnlyAborts(st0, mid) && OnlyAborts(mid, st2)
    requires SettledBut(st0, mid, deps, t) && Settled(mid, st2, deps)
    ensures SettledBut(st0, st2, deps, t)
  {
  }

  lemma DependentSelf(st: Statuses, deps: Deps, t: nat)
    requires t < |st| == |deps| && st[t] == Pending
    ensures Dependent(st, deps, t, t)
  {
    assert PendingPath(st, deps, t, t, [t]);
  }

  lemma NoDependents(st: Statuses, deps: Deps, t: nat)
    requires t < |st| == |deps| && st[t] != Pending
    ensures forall u: nat :: !Dependent(st, deps, t, u)
  {
  }

  /** Along a pending path from t everything has changed. */
  lemma {:induction false} ReachedChanged(st: Statuses, st2: Statuses, deps: Deps, path: seq<nat>, k: nat)
    requires |st| == |st2| == |deps| && k < |path| && OnlyAborts(st, st2) && Settled(st, st2, deps)
    requires forall i :: 0 <= i < |path| ==> path[i] < |st| && st[path[i]] == Pending
    requires forall i :: 0 < i < |path| ==> path[i - 1] in deps[path[i]]
    requires st2[path[0]] != st[path[0]]
    ensures st2[path[k]] != st[path[k]]
  {
    if k > 0 {
      ReachedChanged(st, st2, deps, path, k - 1);
      assert path[k - 1] in deps[path[k]];
    }
  }

  // ----- the scan as written -------------------------------------------------------------------------

  /** The test at lines 237-250 with its inner loop run for at most fuel rounds: `d` stays at the
      head of the list, so every round looks at the second entry again. None: still looping. */
  function ScanAsWritten(ds: seq<nat>, t: nat, fuel: nat): (r: Answer)
  {
    if ds == [] then No
    else if ds[0] == t then Yes
    else InnerLoop(ds, t, fuel)
  }

  datatype Answer = Yes | No | Looping

  function InnerLoop(ds: seq<nat>, t: nat, fuel: nat): (r: Answer)
    requires ds != []
  {
    if |ds| == 1 then No
    else if fuel == 0 then Looping
    else if ds[1] == t then Yes
    else InnerLoop(ds, t, fuel - 1)
  }

  /** The scan as written ends exactly when t is among the first two entries or there is at most one
      entry; when it ends, it answers whether t is in the list. */
  lemma {:induction false} ScanEnds(ds: seq<nat>, t: nat, fuel: nat)
    requires fuel > 0
    ensures ScanAsWritten(ds, t, fuel) == Looping <==> |ds| >= 2 && ds[0] != t && ds[1] != t
    ensures ScanAsWritten(ds, t, fuel) != Looping ==> (ScanAsWritten(ds, t, fuel) == Yes <==> t in ds)
  {
    if |ds| >= 2 && ds[0] != t && ds[1] != t { LoopsOn(ds, t, fuel); }
  }

  lemma {:induction false} LoopsOn(ds: seq<nat>, t: nat, fuel: nat)
    requires |ds| >= 2 && ds[1] != t
    ensures InnerLoop(ds, t, fuel) == Looping
  {
    if fuel > 0 { LoopsOn(ds, t, fuel - 1); }
  }

  /** A transaction with three dependencies of which the third aborts: the abort never returns. */
  lemma ScanHangs(fuel: nat)
    requires fuel > 0
    ensures 7 in [9, 8, 7] && ScanAsWritten([9, 8, 7], 7, fuel) == Looping
  {
    ScanEnds([9, 8, 7], 7, fuel);
  }
}
