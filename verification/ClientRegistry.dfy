/** The client registry of hw5/src/client_registry.c: any number of threads, one semaphore
    operation or one table read per step. */
module ClientRegistry {

  const SLOTS := 1024
  const EMPTY := -1

  /** Where a thread is in the call it is making; fd is its descriptor, i the next table index. */
  datatype Pc =
    | Idle
    // creg_register (lines 35-49): lock taken; slot taken; mutex taken and scanning; descriptor
    // placed; mutex posted; items posted
    | RegLocked(fd: int) | RegSlot(fd: int) | RegScan(fd: int, i: nat) | RegPlaced | RegUnmutexed | RegPosted
    // creg_unregister (lines 51-70): item taken; mutex taken and scanning; descriptor removed; mutex
    // posted; or not found; item put back
    | UnregItem(fd: int) | UnregScan(fd: int, i: nat) | UnregRemoved | UnregUnmutexed | UnregMissed | UnregRestored
    // creg_shutdown_all (lines 99-107): mutex taken and scanning
    | ShutScan(i: nat)
    // creg_wait_for_empty (lines 73-97): scanning; returned, with the lock still taken
    | WaitScan(i: nat, flag: bool) | Returned

  datatype State = State(buf: seq<int>, lock: nat, mutex: nat, slots: nat, items: nat, pcs: map<nat, Pc>)

  predicate HasLock(pc: Pc) {
    pc.RegLocked? || pc.RegSlot? || pc.RegScan? || pc.RegPlaced? || pc.RegUnmutexed? || pc.RegPosted?
    || pc.WaitScan? || pc.Returned?
  }

  predicate HasMutex(pc: Pc) {
    pc.RegScan? || pc.RegPlaced? || pc.UnregScan? || pc.UnregRemoved? || pc.UnregMissed? || pc.UnregRestored? ||
      pc.ShutScan?
  }

  /** Between taking a slot and using it, or between freeing one and posting it. */
  predicate OwesSlot(pc: Pc) {
    pc.RegSlot? || pc.RegScan? || pc.UnregRemoved? || pc.UnregUnmutexed?
  }

  /** Between filling a slot and posting the item, or between taking an item and emptying a slot. */
  predicate OwesItem(pc: Pc) {
    pc.RegPlaced? || pc.RegUnmutexed? || pc.UnregItem? || pc.UnregScan? || pc.UnregMissed?
  }

  // ----- steps -----------------------------------------------------------------------------------

  ghost predicate At(s: State, th: nat, pc: Pc) {
    th in s.pcs && s.pcs[th] == pc
  }

  function Go(s: State, th: nat, pc: Pc): State {
    s.(pcs := s.pcs[th := pc])
  }

  ghost predicate RegisterStep(s: State, s2: State, th: nat, fd: int) {
    || (At(s, th, Idle) && s.lock > 0 && s2 == Go(s, th, RegLocked(fd)).(lock := s.lock - 1))
    || (At(s, th, RegLocked(fd)) && s.slots > 0 && s2 == Go(s, th, RegSlot(fd)).(slots := s.slots - 1))
    || (At(s, th, RegSlot(fd)) && s.mutex > 0 && s2 == Go(s, th, RegScan(fd, 0)).(mutex := s.mutex - 1))
    || (At(s, th, RegPlaced) && s2 == Go(s, th, RegUnmutexed).(mutex := s.mutex + 1))
    || (At(s, th, RegUnmutexed) && s2 == Go(s, th, RegPosted).(items := s.items + 1))
    || (At(s, th, RegPosted) && s2 == Go(s, th, Idle).(lock := s.lock + 1))
  }

  /** One round of the loop at lines 39-44. */
  ghost predicate RegisterScan(s: State, s2: State, th: nat, fd: int, i: nat) {
    At(s, th, RegScan(fd, i)) && i < |s.buf| &&
    s2 == if s.buf[i] == EMPTY then Go(s, th, RegPlaced).(buf := s.buf[i := fd])
          else Go(s, th, RegScan(fd, i + 1))
  }

  ghost predicate UnregisterStep(s: State, s2: State, th: nat, fd: int) {
    || (At(s, th, Idle) && s.items > 0 && s2 == Go(s, th, UnregItem(fd)).(items := s.items - 1))
    || (At(s, th, UnregItem(fd)) && s.mutex > 0 && s2 == Go(s, th, UnregScan(fd, 0)).(mutex := s.mutex - 1))
    || (At(s, th, UnregRemoved) && s2 == Go(s, th, UnregUnmutexed).(mutex := s.mutex + 1))
    || (At(s, th, UnregUnmutexed) && s2 == Go(s, th, Idle).(slots := s.slots + 1))
    || (At(s, th, UnregMissed) && s2 == Go(s, th, UnregRestored).(items := s.items + 1))
    || (At(s, th, UnregRestored) && s2 == Go(s, th, Idle).(mutex := s.mutex + 1))
  }

  /** One round of the loop at lines 55-61, or its end without a match. */
  ghost predicate UnregisterScan(s: State, s2: State, th: nat, fd: int, i: nat) {
    At(s, th, UnregScan(fd, i)) &&
    s2 == if i >= |s.buf| then Go(s, th, UnregMissed)
          else if s.buf[i] == fd then Go(s, th, UnregRemoved).(buf := s.buf[i := EMPTY])
          else Go(s, th, UnregScan(fd, i + 1))
  }

  ghost predicate ShutdownStep(s: State, s2: State, th: nat, i: nat) {
    || (At(s, th, Idle) && s.mutex > 0 && s2 == Go(s, th, ShutScan(0)).(mutex := s.mutex - 1))
    || (At(s, th, ShutScan(i)) && i < |s.buf| && s2 == Go(s, th, ShutScan(i + 1)))
    || (At(s, th, ShutScan(i)) && i >= |s.buf| && s2 == Go(s, th, Idle).(mutex := s.mutex + 1))
  }

  ghost predicate WaitStart(s: State, s2: State, th: nat) {
    At(s, th, Idle) && s.lock > 0 && s2 == Go(s, th, WaitScan(0, false)).(lock := s.lock - 1)
  }

  /** One round of the loop at lines 77-95; no mutex is held. */
  ghost predicate WaitRound(s: State, s2: State, th: nat, i: nat, flag: bool) {
    At(s, th, WaitScan(i, flag)) && i < |s.buf| &&
    var flag2 := (if i == 0 then false else flag) || s.buf[i] != EMPTY;
    s2 == if i < SLOTS - 1 then Go(s, th, WaitScan(i + 1, flag2))
          else if flag2 then Go(s, th, WaitScan(0, flag2))
          else Go(s, th, Returned)
  }

  /** A step of creg_register or creg_unregister with descriptor fd. */
  ghost predicate Uses(s: State, s2: State, th: nat, fd: int, i: nat) {
    || RegisterStep(s, s2, th, fd) || RegisterScan(s, s2, th, fd, i)
    || UnregisterStep(s, s2, th, fd) || UnregisterScan(s, s2, th, fd, i)
  }

  /** Clients register and unregister any descriptor but -1; RegisteredAccounts, UnregisteredAccounts
      and the two lemmas on -1 at the end show why. */
  ghost predicate Step(s: State, s2: State, th: nat, fd: int, i: nat, flag: bool) {
    || (fd != EMPTY && Uses(s, s2, th, fd, i))
    || ShutdownStep(s, s2, th, i) || WaitStart(s, s2, th) || WaitRound(s, s2, th, i, flag)
  }

  ghost predicate Next(s: State, s2: State) {
    exists th, fd, i, flag :: Step(s, s2, th, fd, i, flag)
  }

  ghost predicate Init(s: State) {
    && |s.buf| == SLOTS && (forall j :: 0 <= j < SLOTS ==> s.buf[j] == EMPTY)
    && s.lock == 1 && s.mutex == 1 && s.slots == SLOTS && s.items == 0
    && forall th :: th in s.pcs ==> s.pcs[th] == Idle
  }

  // ----- invariant ---------------------------------------------------------------------------------

  ghost function FreeSlots(buf: seq<int>): set<int> {
    set j | 0 <= j < |buf| && buf[j] == EMPTY
  }

  ghost function Those(pcs: map<nat, Pc>, P: Pc -> bool): set<nat> {
    set th | th in pcs && P(pcs[th])
  }

  /** How many threads satisfy P. */
  ghost function Count(pcs: map<nat, Pc>, P: Pc -> bool): nat {
    |Those(pcs, P)|
  }

  /** What a thread in the middle of a scan knows about the table. */
  ghost predicate PcInv(buf: seq<int>, pc: Pc) {
    match pc
    case RegLocked(fd) => fd != EMPTY
    case RegSlot(fd) => fd != EMPTY
    case RegScan(fd, i) => fd != EMPTY && i <= |buf| && forall j :: 0 <= j < i ==> buf[j] != EMPTY
    case UnregItem(fd) => fd != EMPTY
    case UnregScan(fd, i) => fd != EMPTY && i <= |buf| && forall j :: 0 <= j < i ==> buf[j] != fd
    case ShutScan(i) => i <= |buf|
    case WaitScan(i, flag) => i < |buf| && (i > 0 && !flag ==> forall j :: 0 <= j < i ==> buf[j] == EMPTY)
    case Returned => forall j :: 0 <= j < |buf| ==> buf[j] == EMPTY
    case _ => true
  }

  ghost predicate Counts(s: State) {
    && |s.buf| == SLOTS
    && s.lock + Count(s.pcs, HasLock) == 1
    && s.mutex + Count(s.pcs, HasMutex) == 1
    && |FreeSlots(s.buf)| == s.slots + Count(s.pcs, OwesSlot)
    && SLOTS - |FreeSlots(s.buf)| == s.items + Count(s.pcs, OwesItem)
  }

  ghost predicate Inv(s: State) {
    Counts(s) && forall th :: th in s.pcs ==> PcInv(s.buf, s.pcs[th])
  }

  // ----- counting ------------------------------------------------------------------------------------

  lemma CountMove(pcs: map<nat, Pc>, th: nat, pc: Pc, P: Pc -> bool)
    requires th in pcs
    ensures Count(pcs[th := pc], P) == Count(pcs, P) - (if P(pcs[th]) then 1 else 0) + (if P(pc) then 1 else 0)
  {
    var A := Those(pcs, P);
    var B := Those(pcs[th := pc], P);
    assert B == (A - {th}) + (if P(pc) then {th} else {});
  }

  /** Two different threads that satisfy P make the count at least 2. */
  lemma TwoCounted(pcs: map<nat, Pc>, P: Pc -> bool, th: nat, th2: nat)
    requires th in pcs && th2 in pcs && th != th2 && P(pcs[th]) && P(pcs[th2])
    ensures Count(pcs, P) >= 2
  {
    var A := Those(pcs, P);
    assert A == {th, th2} + (A - {th, th2});
  }

  lemma OneCounted(pcs: map<nat, Pc>, P: Pc -> bool, th: nat)
    requires th in pcs && P(pcs[th])
    ensures Count(pcs, P) >= 1
  {
    var A := Those(pcs, P);
    assert A == {th} + (A - {th});
  }

  lemma SlotFilled(buf: seq<int>, i: nat, fd: int)
    requires i < |buf|
    ensures buf[i] == EMPTY && fd != EMPTY ==> |FreeSlots(buf[i := fd])| == |FreeSlots(buf)| - 1
    ensures buf[i] != EMPTY && fd == EMPTY ==> |FreeSlots(buf[i := fd])| == |FreeSlots(buf)| + 1
  {
    if buf[i] == EMPTY && fd != EMPTY { assert FreeSlots(buf[i := fd]) == FreeSlots(buf) - {i}; }
    if buf[i] != EMPTY && fd == EMPTY { assert FreeSlots(buf[i := fd]) == FreeSlots(buf) + {i}; }
  }

  lemma CountsMove(s: State, th: nat, pc: Pc)
    requires th in s.pcs
    ensures Count(s.pcs[th := pc], HasLock) == Count(s.pcs, HasLock) - Bit(HasLock(s.pcs[th])) + Bit(HasLock(pc))
    ensures Count(s.pcs[th := pc], HasMutex) == Count(s.pcs, HasMutex) - Bit(HasMutex(s.pcs[th])) + Bit(HasMutex(pc))
    ensures Count(s.pcs[th := pc], OwesSlot) == Count(s.pcs, OwesSlot) - Bit(OwesSlot(s.pcs[th])) + Bit(OwesSlot(pc))
    ensures Count(s.pcs[th := pc], OwesItem) == Count(s.pcs, OwesItem) - Bit(OwesItem(s.pcs[th])) + Bit(OwesItem(pc))
  {
    CountMove(s.pcs, th, pc, HasLock);
    CountMove(s.pcs, th, pc, HasMutex);
    CountMove(s.pcs, th, pc, OwesSlot);
    CountMove(s.pcs, th, pc, OwesItem);
  }

  function Bit(b: bool): int { if b then 1 else 0 }

  // ----- preservation ----------------------------------------------------------------------------------

  /** A step that leaves the table alone. */
  lemma QuietStep(s: State, s2: State, th: nat)
    requires Inv(s) && Quiet(s, s2, th)
    ensures Inv(s2)
  {
    hide Count, HasLock, HasMutex, OwesSlot, OwesItem;
    CountsMove(s, th, s2.pcs[th]);
  }

  /** Two threads never hold the lock, or the mutex, at once. */
  lemma Exclusive(s: State, th: nat, th2: nat)
    requires Counts(s) && th in s.pcs && th2 in s.pcs && th != th2
    ensures !(HasLock(s.pcs[th]) && HasLock(s.pcs[th2]))
    ensures !(HasMutex(s.pcs[th]) && HasMutex(s.pcs[th2]))
  {
    if HasLock(s.pcs[th]) && HasLock(s.pcs[th2]) { TwoCounted(s.pcs, HasLock, th, th2); }
    if HasMutex(s.pcs[th]) && HasMutex(s.pcs[th2]) { TwoCounted(s.pcs, HasMutex, th, th2); }
  }

  /** A thread that scans for a free slot always has one ahead of it. */
  lemma SlotAhead(s: State, th: nat)
    requires Inv(s) && th in s.pcs && s.pcs[th].RegScan?
    ensures exists j :: s.pcs[th].i <= j < |s.buf| && s.buf[j] == EMPTY
  {
    OneCounted(s.pcs, OwesSlot, th);
    assert |FreeSlots(s.buf)| >= 1;
    var j :| j in FreeSlots(s.buf);
    assert s.buf[j] == EMPTY && PcInv(s.buf, s.pcs[th]);
  }

  lemma RegisterScanKeepsInv(s: State, s2: State, th: nat, fd: int, i: nat)
    requires Inv(s) && RegisterScan(s, s2, th, fd, i) && fd != EMPTY
    ensures Inv(s2)
  {
    assert PcInv(s.buf, s.pcs[th]);
    if s.buf[i] == EMPTY {
      CountsMove(s, th, RegPlaced);
      SlotFilled(s.buf, i, fd);
      assert Counts(s2) by { hide Count, FreeSlots; }
      forall th2 | th2 in s2.pcs ensures PcInv(s2.buf, s2.pcs[th2]) {
        if th2 != th {
          assert PcInv(s.buf, s.pcs[th2]);
          Exclusive(s, th, th2);
        }
      }
    } else {
      QuietStep(s, s2, th);
    }
  }

  lemma UnregisterScanKeepsInv(s: State, s2: State, th: nat, fd: int, i: nat)
    requires Inv(s) && UnregisterScan(s, s2, th, fd, i) && fd != EMPTY
    ensures Inv(s2)
  {
    assert PcInv(s.buf, s.pcs[th]);
    if i >= |s.buf| {
      QuietStep(s, s2, th);
    } else if s.buf[i] == fd {
      CountsMove(s, th, UnregRemoved);
      SlotFilled(s.buf, i, EMPTY);
      assert Counts(s2) by { hide Count, FreeSlots; }
      forall th2 | th2 in s2.pcs ensures PcInv(s2.buf, s2.pcs[th2]) {
        if th2 != th {
          assert PcInv(s.buf, s.pcs[th2]);
          Exclusive(s, th, th2);
        }
      }
    } else {
      QuietStep(s, s2, th);
    }
  }

  lemma StepKeepsInv(s: State, s2: State, th: nat, fd: int, i: nat, flag: bool)
    requires Inv(s) && Step(s, s2, th, fd, i, flag)
    ensures Inv(s2)
  {
    assert th in s.pcs && PcInv(s.buf, s.pcs[th]);
    hide RegisterStep, UnregisterStep, ShutdownStep, WaitStart, WaitRound;
    if fd != EMPTY && RegisterScan(s, s2, th, fd, i) {
      RegisterScanKeepsInv(s, s2, th, fd, i);
    } else if fd != EMPTY && UnregisterScan(s, s2, th, fd, i) {
      UnregisterScanKeepsInv(s, s2, th, fd, i);
    } else {
      hide Quiet;
      if fd != EMPTY && RegisterStep(s, s2, th, fd) {
        QuietRegister(s, s2, th, fd);
      } else if fd != EMPTY && UnregisterStep(s, s2, th, fd) {
        QuietUnregister(s, s2, th, fd);
      } else {
        QuietOther(s, s2, th, i, flag);
      }
      QuietStep(s, s2, th);
    }
  }

  /** Thread th moves on and the semaphores change by what its old and new place owe. */
  ghost predicate Quiet(s: State, s2: State, th: nat) {
    && th in s.pcs && th in s2.pcs && s2.pcs == s.pcs[th := s2.pcs[th]] && s2.buf == s.buf && PcInv(s.buf, s2.pcs[th])
    && s2.lock == s.lock + Bit(HasLock(s.pcs[th])) - Bit(HasLock(s2.pcs[th]))
    && s2.mutex == s.mutex + Bit(HasMutex(s.pcs[th])) - Bit(HasMutex(s2.pcs[th]))
    && s2.slots == s.slots + Bit(OwesSlot(s.pcs[th])) - Bit(OwesSlot(s2.pcs[th]))
    && s2.items == s.items + Bit(OwesItem(s.pcs[th])) - Bit(OwesItem(s2.pcs[th]))
  }

  lemma QuietRegister(s: State, s2: State, th: nat, fd: int)
    requires |s.buf| == SLOTS && th in s.pcs && PcInv(s.buf, s.pcs[th]) && RegisterStep(s, s2, th, fd) && fd != EMPTY
    ensures Quiet(s, s2, th)
  {
  }

  lemma QuietUnregister(s: State, s2: State, th: nat, fd: int)
    requires |s.buf| == SLOTS && th in s.pcs && PcInv(s.buf, s.pcs[th]) && UnregisterStep(s, s2, th, fd) && fd != EMPTY
    ensures Quiet(s, s2, th)
  {
  }

  lemma QuietOther(s: State, s2: State, th: nat, i: nat, flag: bool)
    requires |s.buf| == SLOTS && th in s.pcs && PcInv(s.buf, s.pcs[th])
    requires ShutdownStep(s, s2, th, i) || WaitStart(s, s2, th) || WaitRound(s, s2, th, i, flag)
    ensures Quiet(s, s2, th)
  {
  }

  lemma InitInv(s: State)
    requires Init(s)
    ensures Inv(s)
  {
    AllFree(s.buf);
    NobodyCounted(s.pcs, HasLock);
    NobodyCounted(s.pcs, HasMutex);
    NobodyCounted(s.pcs, OwesSlot);
    NobodyCounted(s.pcs, OwesItem);
  }

  lemma NobodyCounted(pcs: map<nat, Pc>, P: Pc -> bool)
    requires !P(Idle) && forall th :: th in pcs ==> pcs[th] == Idle
    ensures Count(pcs, P) == 0
  {
    assert Those(pcs, P) == {};
  }

  lemma AllFree(buf: seq<int>)
    requires forall j :: 0 <= j < |buf| ==> buf[j] == EMPTY
    ensures |FreeSlots(buf)| == |buf|
  {
    assert FreeSlots(buf) == Indices(|buf|);
  }

  ghost function Indices(n: nat): (r: set<int>)
    ensures |r| == n && forall j :: j in r <==> 0 <= j < n
  {
    if n == 0 then {} else Indices(n - 1) + {n - 1}
  }

  // ----- whole runs --------------------------------------------------------------------------------------

  ghost predicate IsRun(run: seq<State>) {
    && run != [] && Init(run[0])
    && forall k :: 0 < k < |run| ==> Next(run[k - 1], run[k])
  }

  lemma {:induction false} RunInv(run: seq<State>, k: nat)
    requires IsRun(run) && k < |run|
    ensures Inv(run[k])
  {
    if k == 0 {
      InitInv(run[0]);
    } else {
      RunInv(run, k - 1);
      var th, fd, i, flag :| Step(run[k - 1], run[k], th, fd, i, flag);
      StepKeepsInv(run[k - 1], run[k], th, fd, i, flag);
    }
  }

  /** In every run a register that has passed the slots semaphore finds a free slot: its scan never
      runs off the table, and the table never holds more than its 1024 descriptors. */
  lemma RegisterFindsSlot(run: seq<State>, k: nat, th: nat)
    requires IsRun(run) && k < |run| && th in run[k].pcs && run[k].pcs[th].RegScan?
    ensures var i := run[k].pcs[th].i;
      i < SLOTS && exists s2 :: RegisterScan(run[k], s2, th, run[k].pcs[th].fd, i)
    ensures |run[k].buf| == SLOTS && exists j :: run[k].pcs[th].i <= j < SLOTS && run[k].buf[j] == EMPTY
  {
    RunInv(run, k);
    SlotAhead(run[k], th);
    var s, fd, i := run[k], run[k].pcs[th].fd, run[k].pcs[th].i;
    var s2 := if s.buf[i] == EMPTY then Go(s, th, RegPlaced).(buf := s.buf[i := fd]) else Go(s, th, RegScan(fd, i + 1));
    assert RegisterScan(s, s2, th, fd, i);
  }

  /** Slot and item accounts balance at every moment of every run. */
  lemma AccountsBalance(run: seq<State>, k: nat)
    requires IsRun(run) && k < |run|
    ensures |FreeSlots(run[k].buf)| == run[k].slots + Count(run[k].pcs, OwesSlot)
    ensures SLOTS - |FreeSlots(run[k].buf)| == run[k].items + Count(run[k].pcs, OwesItem)
    ensures run[k].lock + Count(run[k].pcs, HasLock) == 1 && run[k].mutex + Count(run[k].pcs, HasMutex) == 1
  {
    RunInv(run, k);
  }

  /** When creg_wait_for_empty has returned, the table is empty, and it stays empty for good,
      although the scan took no mutex. */
  lemma {:induction false} EmptyForGood(run: seq<State>, k: nat, m: nat, th: nat)
    requires IsRun(run) && k <= m < |run| && th in run[k].pcs && run[k].pcs[th] == Returned
    ensures th in run[m].pcs && run[m].pcs[th] == Returned
    ensures |run[m].buf| == SLOTS && forall j :: 0 <= j < SLOTS ==> run[m].buf[j] == EMPTY
    decreases m
  {
    hide Step, Inv, IsRun;
    RunInv(run, m);
    if k < m {
      EmptyForGood(run, k, m - 1, th);
      RunStep(run, m);
      var th2, fd, i, flag :| Step(run[m - 1], run[m], th2, fd, i, flag);
      ReturnedStays(run[m - 1], run[m], th, th2, fd, i, flag);
    }
    ReturnedMeansEmpty(run[m], th);
  }

  lemma RunStep(run: seq<State>, m: nat)
    requires IsRun(run) && 0 < m < |run|
    ensures Next(run[m - 1], run[m])
  {
  }

  lemma ReturnedMeansEmpty(s: State, th: nat)
    requires Inv(s) && At(s, th, Returned)
    ensures |s.buf| == SLOTS && forall j :: 0 <= j < SLOTS ==> s.buf[j] == EMPTY
  {
    assert PcInv(s.buf, s.pcs[th]);
  }

  /** No step starts from Returned. */
  lemma ReturnedStays(s: State, s2: State, th: nat, th2: nat, fd: int, i: nat, flag: bool)
    requires Step(s, s2, th2, fd, i, flag) && At(s, th, Returned)
    ensures At(s2, th, Returned)
  {
  }

  // ----- descriptor -1 -----------------------------------------------------------------------------------

  /** Putting a descriptor into a free slot keeps the accounts exactly when it is not -1. */
  lemma RegisteredAccounts(s: State, s2: State, th: nat, fd: int, i: nat)
    requires Counts(s) && RegisterScan(s, s2, th, fd, i) && s.buf[i] == EMPTY
    ensures Counts(s2) <==> fd != EMPTY
  {
    hide Count, FreeSlots;
    CountsMove(s, th, RegPlaced);
    SlotFilled(s.buf, i, fd);
    assert s.buf[i := EMPTY] == s.buf;
  }

  /** Freeing the slot that matches keeps the accounts exactly when the descriptor is not -1: any free
      slot matches -1. */
  lemma UnregisteredAccounts(s: State, s2: State, th: nat, fd: int, i: nat)
    requires Counts(s) && UnregisterScan(s, s2, th, fd, i) && i < |s.buf| && s.buf[i] == fd
    ensures Counts(s2) <==> fd != EMPTY
  {
    hide Count, FreeSlots;
    CountsMove(s, th, UnregRemoved);
    SlotFilled(s.buf, i, EMPTY);
    assert s.buf[i := EMPTY] == s.buf <==> fd == EMPTY;
  }

  ghost predicate UsesSome(s: State, s2: State, th: nat, fd: int) {
    exists i :: Uses(s, s2, th, fd, i)
  }

  /** Steps of thread th alone, in a call with descriptor fd. */
  ghost predicate Alone(run: seq<State>, th: nat, fd: int) {
    run != [] && forall k :: 0 < k < |run| ==> UsesSome(run[k - 1], run[k], th, fd)
  }

  lemma AloneStep(s: State, rest: seq<State>, th: nat, fd: int, i: nat)
    requires rest != [] && Alone(rest, th, fd) && Uses(s, rest[0], th, fd, i)
    ensures rest != [] && Alone([s] + rest, th, fd) && ([s] + rest)[|rest|] == rest[|rest| - 1]
  {
    hide Uses;
    var run := [s] + rest;
    assert UsesSome(run[0], run[1], th, fd);
    forall k | 1 < k < |run| ensures UsesSome(run[k - 1], run[k], th, fd) {
      assert run[k] == rest[k - 1] && run[k - 1] == rest[k - 2];
    }
  }

  /** The rest of either scan up to the first free slot j, in a call with descriptor -1. */
  lemma {:induction false} ScanTo(s: State, th: nat, i: nat, j: nat) returns (run: seq<State>)
    requires Counts(s) && i <= j < |s.buf| && s.buf[j] == EMPTY && forall k :: i <= k < j ==> s.buf[k] != EMPTY
    requires At(s, th, RegScan(EMPTY, i)) || At(s, th, UnregScan(EMPTY, i))
    ensures run != [] && Alone(run, th, EMPTY) && run[0] == s && !Counts(run[|run| - 1])
    decreases j - i
  {
    hide Counts;
    var reg := s.pcs[th].RegScan?;
    if i == j {
      var s2 := if reg then Go(s, th, RegPlaced).(buf := s.buf[i := EMPTY])
                else Go(s, th, UnregRemoved).(buf := s.buf[i := EMPTY]);
      if reg { RegisteredAccounts(s, s2, th, EMPTY, i); } else { UnregisteredAccounts(s, s2, th, EMPTY, i); }
      run := [s2];
      AloneStep(s, run, th, EMPTY, i);
      run := [s] + run;
    } else {
      var s2 := Go(s, th, if reg then RegScan(EMPTY, i + 1) else UnregScan(EMPTY, i + 1));
      CountsGo(s, s2, th);
      run := ScanTo(s2, th, i + 1, j);
      AloneStep(s, run, th, EMPTY, i);
      run := [s] + run;
    }
  }

  /** The accounts do not notice how far a scan is. */
  lemma CountsGo(s: State, s2: State, th: nat)
    requires Counts(s) && th in s.pcs && th in s2.pcs && s2 == Go(s, th, s2.pcs[th])
    requires (s.pcs[th].RegScan? && s2.pcs[th].RegScan?) || (s.pcs[th].UnregScan? && s2.pcs[th].UnregScan?)
    ensures Counts(s2)
  {
    hide Count;
    CountsMove(s, th, s2.pcs[th]);
  }

  lemma FirstFree(buf: seq<int>) returns (j: nat)
    requires exists k :: 0 <= k < |buf| && buf[k] == EMPTY
    ensures j < |buf| && buf[j] == EMPTY && forall k :: 0 <= k < j ==> buf[k] != EMPTY
  {
    j := 0;
    while buf[j] != EMPTY
      invariant j < |buf| && forall k :: 0 <= k < j ==> buf[k] != EMPTY
      invariant exists k :: j <= k < |buf| && buf[k] == EMPTY
      decreases |buf| - j
    {
      j := j + 1;
    }
  }

  /** creg_unregister(-1) breaks the accounts whenever it gets past its semaphores and some slot is
      free. */
  lemma UnregisterMinusOne(s: State, th: nat) returns (run: seq<State>)
    requires Inv(s) && At(s, th, Idle) && s.items > 0 && s.mutex > 0
    requires exists j :: 0 <= j < |s.buf| && s.buf[j] == EMPTY
    ensures run != [] && Alone(run, th, EMPTY) && run[0] == s && !Counts(run[|run| - 1])
  {
    var a := Go(s, th, UnregItem(EMPTY)).(items := s.items - 1);
    var b := Go(a, th, UnregScan(EMPTY, 0)).(mutex := a.mutex - 1);
    CountsMove(s, th, UnregItem(EMPTY));
    CountsMove(a, th, UnregScan(EMPTY, 0));
    assert Counts(b) by { hide Count, FreeSlots; }
    var j := FirstFree(s.buf);
    run := ScanTo(b, th, 0, j);
    assert UnregisterStep(a, b, th, EMPTY) && UnregisterStep(s, a, th, EMPTY);
    AloneStep(a, run, th, EMPTY, 0);
    AloneStep(s, [a] + run, th, EMPTY, 0);
    run := [s] + ([a] + run);
  }

  /** The three semaphores of creg_register. */
  lemma RegisterEnters(s: State, th: nat, fd: int) returns (a: State, b: State, c: State)
    requires Counts(s) && At(s, th, Idle) && s.lock > 0 && s.slots > 0 && s.mutex > 0
    ensures Uses(s, a, th, fd, 0) && Uses(a, b, th, fd, 0) && Uses(b, c, th, fd, 0)
    ensures At(c, th, RegScan(fd, 0)) && c.buf == s.buf && Counts(c) && |FreeSlots(s.buf)| > 0
  {
    hide Count, FreeSlots;
    a := Go(s, th, RegLocked(fd)).(lock := s.lock - 1);
    b := Go(a, th, RegSlot(fd)).(slots := a.slots - 1);
    c := Go(b, th, RegScan(fd, 0)).(mutex := b.mutex - 1);
    CountsMove(s, th, RegLocked(fd));
    CountsMove(a, th, RegSlot(fd));
    CountsMove(b, th, RegScan(fd, 0));
    assert RegisterStep(s, a, th, fd) && RegisterStep(a, b, th, fd) && RegisterStep(b, c, th, fd);
  }

  /** creg_register(-1) breaks them whenever it gets past its semaphores. */
  lemma RegisterMinusOne(s: State, th: nat) returns (run: seq<State>)
    requires Inv(s) && At(s, th, Idle) && s.lock > 0 && s.slots > 0 && s.mutex > 0
    ensures run != [] && Alone(run, th, EMPTY) && run[0] == s && !Counts(run[|run| - 1])
  {
    hide Uses, Alone, Count;
    var a, b, c := RegisterEnters(s, th, EMPTY);
    var k :| k in FreeSlots(s.buf);
    assert s.buf[k] == EMPTY;
    var j := FirstFree(s.buf);
    run := ScanTo(c, th, 0, j);
    AloneStep(b, run, th, EMPTY, 0);
    AloneStep(a, [b] + run, th, EMPTY, 0);
    AloneStep(s, [a] + ([b] + run), th, EMPTY, 0);
    run := [s] + ([a] + ([b] + run));
  }
}
