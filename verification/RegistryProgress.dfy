/** When calls of hw5/src/client_registry.c go on: a thread waits at a semaphore only, and the only
    waiting that can last is that of a register for a slot in a full table. */
module RegistryProgress {
  import opened ClientRegistry

  ghost predicate CanStep(s: State, th: nat) {
    exists s2, fd, i, flag :: Step(s, s2, th, fd, i, flag)
  }

  /** Thread th is in a call that has not returned. */
  ghost predicate MidCall(s: State, th: nat) {
    th in s.pcs && s.pcs[th] != Idle && s.pcs[th] != Returned
  }

  ghost predicate AtSemaphore(s: State, th: nat) {
    th in s.pcs &&
    match s.pcs[th]
    case RegLocked(_) => s.slots == 0
    case RegSlot(_) => s.mutex == 0
    case UnregItem(_) => s.mutex == 0
    case _ => false
  }

  lemma StepIs(s: State, s2: State, th: nat, fd: int, i: nat, flag: bool)
    requires Step(s, s2, th, fd, i, flag)
    ensures CanStep(s, th)
  {
  }

  /** A call under way goes on unless the semaphore it comes to is zero; every scan goes on to the end of
      the table and no further. */
  lemma GoesOn(s: State, th: nat)
    requires Inv(s) && MidCall(s, th)
    ensures CanStep(s, th) <==> !AtSemaphore(s, th)
  {
    assert PcInv(s.buf, s.pcs[th]);
    if s.pcs[th].RegScan? { SlotAhead(s, th); }
    hide Counts;
    if AtSemaphore(s, th) {
      StaysAt(s, th);
    } else {
      Onward(s, th);
    }
  }

  lemma StaysAt(s: State, th: nat)
    requires AtSemaphore(s, th)
    ensures !CanStep(s, th)
  {
  }

  lemma Onward(s: State, th: nat)
    requires |s.buf| == SLOTS && MidCall(s, th) && PcInv(s.buf, s.pcs[th]) && !AtSemaphore(s, th)
    requires s.pcs[th].RegScan? ==> s.pcs[th].i < |s.buf|
    ensures CanStep(s, th)
  {
    if s.pcs[th].RegLocked? || s.pcs[th].RegSlot? || s.pcs[th].RegScan? {
      RegisterOnward(s, th, s.pcs[th].fd);
    } else if s.pcs[th].RegPlaced? || s.pcs[th].RegUnmutexed? || s.pcs[th].RegPosted? {
      RegisterOnward(s, th, 0);
    } else if s.pcs[th].UnregItem? || s.pcs[th].UnregScan? {
      UnregisterOnward(s, th, s.pcs[th].fd);
    } else if s.pcs[th].ShutScan? {
      var i := s.pcs[th].i;
      var s2 := if i < |s.buf| then Go(s, th, ShutScan(i + 1)) else Go(s, th, Idle).(mutex := s.mutex + 1);
      assert ShutdownStep(s, s2, th, i);
      StepIs(s, s2, th, EMPTY, i, false);
    } else if s.pcs[th].WaitScan? {
      var WaitScan(i, flag) := s.pcs[th];
      var flag2 := (if i == 0 then false else flag) || s.buf[i] != EMPTY;
      var s2 := if i < SLOTS - 1 then Go(s, th, WaitScan(i + 1, flag2))
                else if flag2 then Go(s, th, WaitScan(0, flag2))
                else Go(s, th, Returned);
      assert WaitRound(s, s2, th, i, flag);
      StepIs(s, s2, th, EMPTY, i, flag);
    } else {
      UnregisterOnward(s, th, 0);
    }
  }

  ghost function Index(pc: Pc): nat {
    match pc
    case RegScan(_, i) => i
    case UnregScan(_, i) => i
    case _ => 0
  }

  lemma RegisterOnward(s: State, th: nat, fd: int)
    requires th in s.pcs && fd != EMPTY && !AtSemaphore(s, th)
    requires match s.pcs[th]
             case RegLocked(f) => f == fd
             case RegSlot(f) => f == fd
             case RegScan(f, i) => f == fd && i < |s.buf|
             case RegPlaced => true
             case RegUnmutexed => true
             case RegPosted => true
             case _ => false
    ensures CanStep(s, th)
  {
    var i := Index(s.pcs[th]);
    var pc := s.pcs[th];
    var s2 := if pc.RegLocked? then Go(s, th, RegSlot(fd)).(slots := s.slots - 1)
              else if pc.RegSlot? then Go(s, th, RegScan(fd, 0)).(mutex := s.mutex - 1)
              else if pc.RegScan? then
                if s.buf[i] == EMPTY then Go(s, th, RegPlaced).(buf := s.buf[i := fd])
                else Go(s, th, RegScan(fd, i + 1))
              else if pc.RegPlaced? then Go(s, th, RegUnmutexed).(mutex := s.mutex + 1)
              else if pc.RegUnmutexed? then Go(s, th, RegPosted).(items := s.items + 1)
              else Go(s, th, Idle).(lock := s.lock + 1);
    assert RegisterStep(s, s2, th, fd) || RegisterScan(s, s2, th, fd, i);
    assert Uses(s, s2, th, fd, i);
    StepIs(s, s2, th, fd, i, false);
  }

  lemma UnregisterOnward(s: State, th: nat, fd: int)
    requires th in s.pcs && fd != EMPTY && !AtSemaphore(s, th)
    requires match s.pcs[th]
             case UnregItem(f) => f == fd
             case UnregScan(f, _) => f == fd
             case UnregRemoved => true
             case UnregUnmutexed => true
             case UnregMissed => true
             case UnregRestored => true
             case _ => false
    ensures CanStep(s, th)
  {
    var i := Index(s.pcs[th]);
    var pc := s.pcs[th];
    var s2 := if pc.UnregItem? then Go(s, th, UnregScan(fd, 0)).(mutex := s.mutex - 1)
              else if pc.UnregScan? then
                if i >= |s.buf| then Go(s, th, UnregMissed)
                else if s.buf[i] == fd then Go(s, th, UnregRemoved).(buf := s.buf[i := EMPTY])
                else Go(s, th, UnregScan(fd, i + 1))
              else if pc.UnregRemoved? then Go(s, th, UnregUnmutexed).(mutex := s.mutex + 1)
              else if pc.UnregUnmutexed? then Go(s, th, Idle).(slots := s.slots + 1)
              else if pc.UnregMissed? then Go(s, th, UnregRestored).(items := s.items + 1)
              else Go(s, th, Idle).(mutex := s.mutex + 1);
    assert UnregisterStep(s, s2, th, fd) || UnregisterScan(s, s2, th, fd, i);
    assert Uses(s, s2, th, fd, i);
    StepIs(s, s2, th, fd, i, false);
  }

  /** Any call can begin as soon as its first semaphore is not zero. */
  lemma CanBegin(s: State, th: nat, fd: int)
    requires At(s, th, Idle)
    ensures (exists s2 :: RegisterStep(s, s2, th, fd)) <==> s.lock > 0
    ensures (exists s2 :: UnregisterStep(s, s2, th, fd)) <==> s.items > 0
    ensures (exists s2 :: ShutdownStep(s, s2, th, 0)) <==> s.mutex > 0
    ensures (exists s2 :: WaitStart(s, s2, th)) <==> s.lock > 0
  {
    if s.lock > 0 {
      assert RegisterStep(s, Go(s, th, RegLocked(fd)).(lock := s.lock - 1), th, fd);
      assert WaitStart(s, Go(s, th, WaitScan(0, false)).(lock := s.lock - 1), th);
    }
    if s.items > 0 { assert UnregisterStep(s, Go(s, th, UnregItem(fd)).(items := s.items - 1), th, fd); }
    if s.mutex > 0 { assert ShutdownStep(s, Go(s, th, ShutScan(0)).(mutex := s.mutex - 1), th, 0); }
  }

  // ----- no deadlock ---------------------------------------------------------------------------------

  ghost predicate AllStuck(s: State) {
    forall th :: MidCall(s, th) ==> !CanStep(s, th)
  }

  lemma SomeoneHas(pcs: map<nat, Pc>, P: Pc -> bool) returns (th: nat)
    requires Count(pcs, P) > 0
    ensures th in pcs && P(pcs[th])
  {
    assert Those(pcs, P) != {};
    th :| th in Those(pcs, P);
  }

  /** Somebody who has the mutex goes on, so nobody waits for it for good. */
  lemma MutexIsFree(s: State)
    requires Inv(s) && AllStuck(s)
    ensures s.mutex == 1
  {
    if s.mutex != 1 {
      var th := SomeoneHas(s.pcs, HasMutex);
      GoesOn(s, th);
      assert false;
    }
  }

  /** If no call under way can go on, each is a register that holds the lock and waits for a slot, and
      the table is full. */
  lemma StuckMeansFull(run: seq<State>, k: nat)
    requires IsRun(run) && k < |run| && AllStuck(run[k])
    ensures var s := run[k];
      && (forall th :: MidCall(s, th) ==> s.pcs[th].RegLocked?)
      && (forall th, th2 :: MidCall(s, th) && MidCall(s, th2) ==> th == th2)
      && ((exists th :: MidCall(s, th)) ==> |s.buf| == SLOTS && forall j :: 0 <= j < SLOTS ==> s.buf[j] != EMPTY)
  {
    RunInv(run, k);
    var s := run[k];
    MutexIsFree(s);
    hide CanStep;
    forall th | MidCall(s, th) ensures s.pcs[th].RegLocked? && s.slots == 0 {
      GoesOn(s, th);
    }
    forall th, th2 | MidCall(s, th) && MidCall(s, th2) ensures th == th2 {
      if th != th2 {
        Exclusive(s, th, th2);
        assert false;
      }
    }
    if th :| MidCall(s, th) {
      NoneOwes(s);
      NoFreeSlot(s);
    }
  }

  lemma NoneOwes(s: State)
    requires forall th :: MidCall(s, th) ==> s.pcs[th].RegLocked?
    ensures Count(s.pcs, OwesSlot) == 0
  {
    assert Those(s.pcs, OwesSlot) == {};
  }

  lemma NoFreeSlot(s: State)
    requires Inv(s) && s.slots == 0 && Count(s.pcs, OwesSlot) == 0
    ensures |s.buf| == SLOTS && forall j :: 0 <= j < SLOTS ==> s.buf[j] != EMPTY
  {
    hide Count;
    assert FreeSlots(s.buf) == {};
    forall j | 0 <= j < SLOTS ensures s.buf[j] != EMPTY {
      assert j !in FreeSlots(s.buf);
    }
  }
}
