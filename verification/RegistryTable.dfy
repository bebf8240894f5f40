/** The table of hw5/src/client_registry.c as a multiset of descriptors: what every step does to it, and
    what it holds at every moment of every run. */
module RegistryTable {
  import opened ClientRegistry

  /** The descriptors in the table. */
  ghost function Held(buf: seq<int>): multiset<int> {
    multiset(buf)[EMPTY := 0]
  }

  lemma Replaced(buf: seq<int>, i: nat, x: int)
    requires i < |buf|
    ensures multiset(buf[i := x]) == multiset(buf) - multiset{buf[i]} + multiset{x}
  {
    var rest := buf[..i] + buf[i + 1..];
    assert buf == buf[..i] + [buf[i]] + buf[i + 1..];
    assert buf[i := x] == buf[..i] + [x] + buf[i + 1..];
    assert multiset(buf) == multiset(rest) + multiset{buf[i]};
    assert multiset(buf[i := x]) == multiset(rest) + multiset{x};
  }

  lemma HeldReplaced(buf: seq<int>, i: nat, x: int)
    requires i < |buf|
    ensures buf[i] == EMPTY && x != EMPTY ==> Held(buf[i := x]) == Held(buf) + multiset{x}
    ensures buf[i] != EMPTY && x == EMPTY ==> Held(buf[i := x]) == Held(buf) - multiset{buf[i]}
    ensures buf[i] != EMPTY ==> buf[i] in Held(buf)
  {
    Replaced(buf, i, x);
    assert buf[i] in multiset(buf);
  }

  lemma HeldIn(buf: seq<int>, fd: int)
    requires fd != EMPTY
    ensures fd in Held(buf) <==> exists j :: 0 <= j < |buf| && buf[j] == fd
  {
    assert fd in Held(buf) <==> fd in multiset(buf);
  }

  /** Thread th has put its descriptor into the table with this step. */
  ghost predicate Puts(s: State, s2: State, th: nat) {
    th in s.pcs && th in s2.pcs && s.pcs[th].RegScan? && s2.pcs[th].RegPlaced?
  }

  /** Thread th has taken its descriptor out of it. */
  ghost predicate Takes(s: State, s2: State, th: nat) {
    th in s.pcs && th in s2.pcs && s.pcs[th].UnregScan? && s2.pcs[th].UnregRemoved?
  }

  /** Thread th has found that its descriptor is not there. */
  ghost predicate Misses(s: State, s2: State, th: nat) {
    th in s.pcs && th in s2.pcs && s.pcs[th].UnregScan? && s2.pcs[th].UnregMissed?
  }

  /** Registering adds one descriptor, unregistering removes one, and no other step changes the table. */
  ghost predicate TableStep(s: State, s2: State, th: nat) {
    if Puts(s, s2, th) then Held(s2.buf) == Held(s.buf) + multiset{s.pcs[th].fd}
    else if Takes(s, s2, th) then
      s.pcs[th].fd in Held(s.buf) && Held(s2.buf) == Held(s.buf) - multiset{s.pcs[th].fd}
    else s2.buf == s.buf && (Misses(s, s2, th) ==> s.pcs[th].fd !in Held(s.buf))
  }

  lemma StepOnTable(s: State, s2: State, th: nat, fd: int, i: nat, flag: bool)
    requires Inv(s) && Step(s, s2, th, fd, i, flag)
    ensures th in s.pcs && s2.pcs.Keys == s.pcs.Keys && TableStep(s, s2, th)
    ensures forall th2 :: th2 in s.pcs && th2 != th ==> s2.pcs[th2] == s.pcs[th2]
  {
    hide Held, Counts;
    assert PcInv(s.buf, s.pcs[th]);
    if RegisterScan(s, s2, th, fd, i) {
      HeldReplaced(s.buf, i, fd);
    } else if UnregisterScan(s, s2, th, fd, i) {
      if i < |s.buf| { HeldReplaced(s.buf, i, EMPTY); }
      HeldIn(s.buf, fd);
    } else {
      QuietTable(s, s2, th, fd, i, flag);
    }
  }

  lemma QuietTable(s: State, s2: State, th: nat, fd: int, i: nat, flag: bool)
    requires Step(s, s2, th, fd, i, flag) && !RegisterScan(s, s2, th, fd, i) && !UnregisterScan(s, s2, th, fd, i)
    ensures th in s.pcs && s2.pcs == s.pcs[th := s2.pcs[th]] && s2.buf == s.buf
    ensures !Puts(s, s2, th) && !Takes(s, s2, th) && !Misses(s, s2, th)
  {
  }

  // ----- whole runs ----------------------------------------------------------------------------------

  ghost predicate SomePuts(s: State, s2: State, fd: int) {
    exists th :: Puts(s, s2, th) && s.pcs[th].fd == fd
  }

  ghost predicate SomeTakes(s: State, s2: State, fd: int) {
    exists th :: Takes(s, s2, th) && s.pcs[th].fd == fd
  }

  /** How often fd was registered in the first k steps. */
  ghost function Registered(run: seq<State>, k: nat, fd: int): nat
    requires k < |run|
  {
    if k == 0 then 0 else Registered(run, k - 1, fd) + if SomePuts(run[k - 1], run[k], fd) then 1 else 0
  }

  /** How often fd was unregistered. */
  ghost function Unregistered(run: seq<State>, k: nat, fd: int): nat
    requires k < |run|
  {
    if k == 0 then 0 else Unregistered(run, k - 1, fd) + if SomeTakes(run[k - 1], run[k], fd) then 1 else 0
  }

  lemma CountStep(s: State, s2: State, th: nat, fd: int)
    requires th in s.pcs && s2.pcs.Keys == s.pcs.Keys && TableStep(s, s2, th)
    requires forall th2 :: th2 in s.pcs && th2 != th ==> s2.pcs[th2] == s.pcs[th2]
    ensures Held(s2.buf)[fd] == Held(s.buf)[fd] + (if SomePuts(s, s2, fd) then 1 else 0)
                                - (if SomeTakes(s, s2, fd) then 1 else 0)
  {
    hide Held;
    assert forall th2 :: Puts(s, s2, th2) || Takes(s, s2, th2) ==> th2 == th;
    assert SomePuts(s, s2, fd) <==> Puts(s, s2, th) && s.pcs[th].fd == fd;
    assert SomeTakes(s, s2, fd) <==> Takes(s, s2, th) && s.pcs[th].fd == fd;
  }

  /** At every moment of every run the table holds every descriptor as often as it was registered and not
      yet unregistered. */
  lemma {:induction false} TableIsRegistered(run: seq<State>, k: nat, fd: int)
    requires IsRun(run) && k < |run|
    ensures Held(run[k].buf)[fd] == Registered(run, k, fd) - Unregistered(run, k, fd)
  {
    hide Inv, Step, Held, IsRun, TableStep;
    if k == 0 {
      StartsEmpty(run, fd);
    } else {
      TableIsRegistered(run, k - 1, fd);
      RunInv(run, k - 1);
      RunStep(run, k);
      var th, fd2, i, flag :| Step(run[k - 1], run[k], th, fd2, i, flag);
      StepOnTable(run[k - 1], run[k], th, fd2, i, flag);
      CountStep(run[k - 1], run[k], th, fd);
    }
  }

  lemma StartsEmpty(run: seq<State>, fd: int)
    requires IsRun(run)
    ensures Held(run[0].buf)[fd] == 0
  {
    if fd != EMPTY { HeldIn(run[0].buf, fd); }
  }

  /** An unregister misses exactly when its descriptor is not registered at the end of its scan. */
  lemma MissesExactly(run: seq<State>, k: nat, th: nat)
    requires IsRun(run) && 0 < k < |run| && th in run[k - 1].pcs && run[k - 1].pcs[th].UnregScan?
    requires th in run[k].pcs && !run[k].pcs[th].UnregScan?
    ensures var fd := run[k - 1].pcs[th].fd;
      Misses(run[k - 1], run[k], th) <==> Registered(run, k - 1, fd) == Unregistered(run, k - 1, fd)
  {
    hide Inv, IsRun, Held;
    var s, s2 := run[k - 1], run[k];
    TableIsRegistered(run, k - 1, s.pcs[th].fd);
    RunInv(run, k - 1);
    RunStep(run, k);
    var th2, fd, i, flag :| Step(s, s2, th2, fd, i, flag);
    StepOnTable(s, s2, th2, fd, i, flag);
    assert th2 == th;
    hide Step;
    assert Misses(s, s2, th) || Takes(s, s2, th) by { ScanEnds(s, s2, th, fd, i, flag); }
  }

  lemma ScanEnds(s: State, s2: State, th: nat, fd: int, i: nat, flag: bool)
    requires Step(s, s2, th, fd, i, flag) && s.pcs[th].UnregScan? && th in s2.pcs && !s2.pcs[th].UnregScan?
    ensures Misses(s, s2, th) || Takes(s, s2, th)
  {
  }

  // ----- creg_shutdown_all -------------------------------------------------------------------------------

  /** While a shutdown scans, the table does not change, and the scan moves one slot at a time. */
  lemma ShutdownStepwise(s: State, s2: State, th: nat, th2: nat, fd: int, i: nat, flag: bool)
    requires Inv(s) && Step(s, s2, th2, fd, i, flag) && th in s2.pcs && s2.pcs[th].ShutScan?
    ensures th in s.pcs && (s2.pcs[th] == s.pcs[th] || s2.pcs[th].i == 0 ||
                            s.pcs[th] == ShutScan(s2.pcs[th].i - 1))
    ensures s.pcs[th].ShutScan? ==> s2.buf == s.buf
  {
    hide Counts;
    StepOnTable(s, s2, th2, fd, i, flag);
    if th2 != th {
      assert Counts(s);
      if HasMutex(s.pcs[th]) && HasMutex(s.pcs[th2]) { Exclusive(s, th, th2); }
    }
  }

  /** When a shutdown has come to slot i, it has looked at every slot before, and the table was then as it
      is now: what it shut down is what the table holds. */
  lemma {:induction false} ShutdownSees(run: seq<State>, k: nat, th: nat, j: nat) returns (m: nat)
    requires IsRun(run) && k < |run| && th in run[k].pcs && run[k].pcs[th].ShutScan? && j < run[k].pcs[th].i
    ensures m < k && th in run[m].pcs && run[m].pcs[th] == ShutScan(j) && run[m].buf == run[k].buf
    decreases k
  {
    hide Inv, Step, IsRun;
    if k == 0 {
      StartsIdle(run, th);
    } else {
      RunInv(run, k - 1);
      RunStep(run, k);
      var th2, fd, i, flag :| Step(run[k - 1], run[k], th2, fd, i, flag);
      ShutdownStepwise(run[k - 1], run[k], th, th2, fd, i, flag);
      if j < run[k - 1].pcs[th].i {
        m := ShutdownSees(run, k - 1, th, j);
      } else {
        m := k - 1;
      }
    }
  }

  lemma StartsIdle(run: seq<State>, th: nat)
    requires IsRun(run)
    ensures th in run[0].pcs ==> run[0].pcs[th] == Idle
  {
  }
}
