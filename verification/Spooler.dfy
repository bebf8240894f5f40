/** The print spooler's interactive command loop and dispatch pass (hw4/src/main.c:446-815). */
module Spooler {
  import opened Sequences
  import opened PrinterSets

  datatype Printer = Printer(name: string, typ: string, enabled: bool, busy: bool)   // its id is its place

  datatype Status = Queued | Running | Paused | Completed | Aborted

  datatype Choice = Nobody | Chosen(printer: nat)

  datatype Job = Job(name: string, typ: string, status: Status, eligible: nat, chosen: Choice)

  /** Job j may run on printer p with the given id. */
  predicate Fits(j: Job, p: Printer, id: nat) {
    j.typ == p.typ && Bit(j.eligible, id)
  }

  predicate Idle(p: Printer) {
    !p.busy && p.enabled
  }

  ghost predicate Runs(js: seq<Job>, i: nat, p: nat) {
    i < |js| && js[i].status == Running && js[i].chosen == Chosen(p)
  }

  /** chosen_printer is a bijection from running jobs to busy printers, each fit for its job, and no
      job is ever paused or completed. */
  ghost predicate Consistent(ps: seq<Printer>, js: seq<Job>) {
    && (forall i :: 0 <= i < |js| ==> js[i].status in {Queued, Running, Aborted})
    && (forall i :: 0 <= i < |js| && js[i].status == Running ==> js[i].chosen.Chosen?)
    && (forall i: nat, p: nat :: Runs(js, i, p) ==> p < |ps| && ps[p].busy && Fits(js[i], ps[p], p))
    && (forall i: nat, k: nat, p: nat :: Runs(js, i, p) && Runs(js, k, p) ==> i == k)
    && (forall p :: 0 <= p < |ps| && ps[p].busy ==> Served(js, p))
  }

  ghost predicate Served(js: seq<Job>, p: nat) {
    exists i: nat :: Runs(js, i, p)
  }

  /** No idle enabled printer fits job j. */
  ghost predicate Stuck(j: Job, ps: seq<Printer>) {
    forall p :: 0 <= p < |ps| ==> !(Idle(ps[p]) && Fits(j, ps[p], p))
  }

  ghost predicate NoneWaiting(ps: seq<Printer>, js: seq<Job>) {
    forall i :: 0 <= i < |js| && js[i].status == Queued ==> Stuck(js[i], ps)
  }

  ghost predicate NamesApart(ps: seq<Printer>) {
    forall p, q :: 0 <= p < q < |ps| ==> ps[p].name != ps[q].name
  }

  /** The first printer from z on that can take job j now, or |ps|. */
  ghost function Pick(j: Job, ps: seq<Printer>, z: nat): (p: nat)
    requires z <= |ps|
    ensures z <= p <= |ps|
    ensures p < |ps| ==> Idle(ps[p]) && Fits(j, ps[p], p)
    ensures forall q :: z <= q < p ==> !(Idle(ps[q]) && Fits(j, ps[q], q))
    decreases |ps| - z
  {
    if z == |ps| || (Idle(ps[z]) && Fits(j, ps[z], z)) then z else Pick(j, ps, z + 1)
  }

  /** Jobs i and later get their printers, in order. */
  ghost function Dispatched(ps: seq<Printer>, js: seq<Job>, i: nat): (seq<Printer>, seq<Job>)
    requires i <= |js|
    decreases |js| - i
  {
    if i == |js| then (ps, js)
    else var (ps2, js2) := Started(ps, js, i); Dispatched(ps2, js2, i + 1)
  }

  ghost function Started(ps: seq<Printer>, js: seq<Job>, i: nat): (r: (seq<Printer>, seq<Job>))
    requires i < |js|
    ensures |r.0| == |ps| && |r.1| == |js|
  {
    var p := Pick(js[i], ps, 0);
    if js[i].status == Queued && p < |ps| then
      (ps[p := ps[p].(busy := true)], js[i := js[i].(status := Running, chosen := Chosen(p))])
    else (ps, js)
  }

  lemma StartedKeepsConsistent(ps: seq<Printer>, js: seq<Job>, i: nat)
    requires Consistent(ps, js) && i < |js|
    ensures Consistent(Started(ps, js, i).0, Started(ps, js, i).1)
  {
    var (ps2, js2) := Started(ps, js, i);
    var p := Pick(js[i], ps, 0);
    if js[i].status == Queued && p < |ps| {
      forall k: nat, q: nat | Runs(js2, k, q) ensures (k == i && q == p) || (k != i && q != p && Runs(js, k, q)) {
        if k != i {
          assert Runs(js, k, q);
        }
      }
      forall q | 0 <= q < |ps2| && ps2[q].busy ensures Served(js2, q) {
        if q == p {
          assert Runs(js2, i, p);
        } else {
          assert Served(js, q);
          var k: nat :| Runs(js, k, q);
          assert Runs(js2, k, q);
        }
      }
    }
  }

  /** Busier printers leave a stuck job stuck. */
  ghost predicate Busier(ps: seq<Printer>, ps2: seq<Printer>) {
    |ps2| == |ps| && forall p :: 0 <= p < |ps| ==> ps2[p] == ps[p] || ps2[p] == ps[p].(busy := true)
  }

  /** The pass keeps the bijection, leaves no queued job with a printer to run on, and changes nothing
      but making queued jobs run and printers busy. */
  lemma {:induction false} DispatchedIsSettled(ps: seq<Printer>, js: seq<Job>, i: nat)
    requires Consistent(ps, js) && i <= |js|
    requires forall k :: 0 <= k < i && js[k].status == Queued ==> Stuck(js[k], ps)
    ensures var (ps2, js2) := Dispatched(ps, js, i);
      Consistent(ps2, js2) && NoneWaiting(ps2, js2) && Busier(ps, ps2) && OnlyStarted(js, js2)
    decreases |js| - i
  {
    hide Consistent;
    if i < |js| {
      var (ps1, js1) := Started(ps, js, i);
      StartedKeepsConsistent(ps, js, i);
      assert Busier(ps, ps1) && OnlyStarted(js, js1);
      forall k | 0 <= k < i + 1 && js1[k].status == Queued ensures Stuck(js1[k], ps1) {
        assert js1[k] == js[k];
      }
      DispatchedIsSettled(ps1, js1, i + 1);
    }
  }

  ghost predicate OnlyStarted(js: seq<Job>, js2: seq<Job>) {
    |js2| == |js| && forall i :: 0 <= i < |js| ==>
      js2[i] == js[i] || (js[i].status == Queued && js2[i] == js[i].(status := Running, chosen := js2[i].chosen))
  }

  /** With nothing waiting the pass does nothing. */
  lemma {:induction false} DispatchedAgain(ps: seq<Printer>, js: seq<Job>, i: nat)
    requires NoneWaiting(ps, js) && i <= |js|
    ensures Dispatched(ps, js, i) == (ps, js)
    decreases |js| - i
  {
    if i < |js| {
      DispatchedAgain(ps, js, i + 1);
    }
  }

  /** What strtok(name, ".") yields last (lines 641-647): the file's type. */
  function LastToken(name: string): string {
    if name == [] then []
    else if name[|name| - 1] == '.' then LastToken(name[..|name| - 1])
    else AfterDot(name)
  }

  function AfterDot(name: string): string {
    if name == [] || name[|name| - 1] == '.' then [] else AfterDot(name[..|name| - 1]) + [name[|name| - 1]]
  }

  /** The first printer so named, or |ps|. */
  ghost function Named(ps: seq<Printer>, name: string): (p: nat)
    ensures p <= |ps| && (p < |ps| ==> ps[p].name == name) && forall q :: 0 <= q < p ==> ps[q].name != name
  {
    if ps == [] then 0
    else
      var rest := Named(ps[..|ps| - 1], name);
      if rest < |ps| - 1 || ps[|ps| - 1].name == name then rest else |ps|
  }

  /** The ids of those named printers that exist, in the order named (lines 677-685). */
  ghost function FoundIds(ps: seq<Printer>, named: seq<string>): (ids: seq<nat>)
    ensures |ids| <= |named|
  {
    if named == [] then [] else
      FoundIds(ps, named[..|named| - 1]) + FoundId(ps, named[|named| - 1])
  }

  ghost function FoundId(ps: seq<Printer>, n: string): (ids: seq<nat>)
    ensures |ids| <= 1
  {
    if Named(ps, n) < |ps| then [Named(ps, n)] else []
  }

  ghost predicate AllFound(ps: seq<Printer>, named: seq<string>) {
    forall n :: n in named ==> Named(ps, n) < |ps|
  }

  lemma {:induction false} FoundAll(ps: seq<Printer>, named: seq<string>)
    ensures |FoundIds(ps, named)| == |named| <==> AllFound(ps, named)
    ensures AllFound(ps, named) ==> forall i :: 0 <= i < |named| ==> FoundIds(ps, named)[i] == Named(ps, named[i])
    decreases |named|
  {
    if named != [] {
      var rest, n := named[..|named| - 1], named[|named| - 1];
      assert named == rest + [n];
      FoundAll(ps, rest);
      assert AllFound(ps, named) <==> AllFound(ps, rest) && Named(ps, n) < |ps|;
    }
  }

  lemma NoneNamed(ps: seq<Printer>)
    ensures FoundIds(ps, []) == [] && Mask([]) == 0
  {
  }

  lemma OneMoreName(ps: seq<Printer>, named: seq<string>, n: string)
    ensures FoundIds(ps, named + [n]) == FoundIds(ps, named) + FoundId(ps, n)
    ensures Mask(FoundIds(ps, named + [n])) ==
      Mask(FoundIds(ps, named)) + if Named(ps, n) < |ps| then Pow2(Named(ps, n)) else 0
  {
    assert (named + [n])[..|named|] == named;
    var ids := FoundIds(ps, named);
    assert ids + [] == ids;
    assert (ids + [Named(ps, n)])[..|ids|] == ids;
  }

  datatype Command =
    | Type(name: string)
    | AddPrinter(name: string, typ: string)
    | Print(file: string, named: seq<string>)
    | Cancel(file: string)
    | Disable(name: string)
    | Enable(name: string)
    | Other                            // help, printers, jobs, conversion and unknown commands

  datatype State = State(types: seq<string>, printers: seq<Printer>, jobs: seq<Job>)

  /** What holds at every prompt. */
  ghost predicate Good(s: State) {
    |s.printers| <= 32 && NamesApart(s.printers) && Consistent(s.printers, s.jobs) && NoneWaiting(s.printers, s.jobs)
  }

  /** The tables have room, file names have a type, and a sum of named printers fits uint32_t. */
  ghost predicate Allowed(s: State, c: Command) {
    match c
    case Type(_) => |s.types| < 100
    case AddPrinter(_, _) => |s.printers| < 32
    case Print(file, named) => |s.jobs| < 1024 && LastToken(file) != [] &&
      Mask(FoundIds(s.printers, named)) <= ANY_PRINTER
    case _ => true
  }

  ghost function Cancelled(js: seq<Job>, file: string): (js2: seq<Job>)
    ensures |js2| == |js|
    ensures forall i :: 0 <= i < |js| ==>
      js2[i] == if js[i].name == file && js[i].status == Queued then js[i].(status := Aborted) else js[i]
  {
    seq(|js|, i requires 0 <= i < |js| =>
      if js[i].name == file && js[i].status == Queued then js[i].(status := Aborted) else js[i])
  }

  ghost function Switched(ps: seq<Printer>, name: string, on: bool): (ps2: seq<Printer>)
    ensures |ps2| == |ps|
    ensures forall p :: 0 <= p < |ps| ==> ps2[p] == if ps[p].name == name then ps[p].(enabled := on) else ps[p]
  {
    seq(|ps|, p requires 0 <= p < |ps| => if ps[p].name == name then ps[p].(enabled := on) else ps[p])
  }

  ghost function NewJob(ps: seq<Printer>, file: string, named: seq<string>): Job {
    Job(file, LastToken(file), Queued, if named == [] then ANY_PRINTER else Mask(FoundIds(ps, named)), Nobody)
  }

  /** Whether a command ends in the dispatch pass; the others leave by continue. */
  ghost predicate Accepted(s: State, c: Command) {
    match c
    case AddPrinter(name, typ) => typ in s.types && forall p :: p in s.printers ==> p.name != name
    case Print(file, named) => LastToken(file) in s.types && AllFound(s.printers, named)
    case _ => true
  }

  /** What an accepted command does before the pass. */
  ghost function Effect(s: State, c: Command): State {
    match c
    case Type(name) => s.(types := if name in s.types then s.types else s.types + [name])
    case AddPrinter(name, typ) => s.(printers := s.printers + [Printer(name, typ, false, false)])
    case Print(file, named) => s.(jobs := s.jobs + [NewJob(s.printers, file, named)])
    case Cancel(file) => s.(jobs := Cancelled(s.jobs, file))
    case Disable(name) => s.(printers := Switched(s.printers, name, false))
    case Enable(name) => s.(printers := Switched(s.printers, name, true))
    case Other => s
  }

  ghost function After(s: State, c: Command): State {
    if Accepted(s, c) then
      var t := Effect(s, c);
      var (ps, js) := Dispatched(t.printers, t.jobs, 0);
      State(t.types, ps, js)
    else s
  }

  lemma EffectKeepsConsistent(s: State, c: Command)
    requires Good(s) && Allowed(s, c) && Accepted(s, c)
    ensures var t := Effect(s, c); |t.printers| <= 32 && NamesApart(t.printers) && Consistent(t.printers, t.jobs)
  {
    var t := Effect(s, c);
    forall i: nat, p: nat | Runs(t.jobs, i, p) ensures Runs(s.jobs, i, p) {
    }
    forall p: nat | p < |t.printers| && t.printers[p].busy ensures Served(t.jobs, p) {
      assert Served(s.jobs, p);
      var i: nat :| Runs(s.jobs, i, p);
      assert Runs(t.jobs, i, p);
    }
  }

  lemma BusierKeepsNames(ps: seq<Printer>, ps2: seq<Printer>)
    requires NamesApart(ps) && Busier(ps, ps2)
    ensures NamesApart(ps2)
  {
    forall p | 0 <= p < |ps| ensures ps2[p].name == ps[p].name {
    }
  }

  /** One command of the loop: from prompt to prompt everything in Good is kept. */
  lemma AfterKeepsGood(s: State, c: Command)
    requires Good(s) && Allowed(s, c)
    ensures Good(After(s, c))
  {
    hide Consistent, NoneWaiting, NamesApart;
    if Accepted(s, c) {
      EffectKeepsConsistent(s, c);
      var t := Effect(s, c);
      DispatchedIsSettled(t.printers, t.jobs, 0);
      BusierKeepsNames(t.printers, After(s, c).printers);
    }
  }

  ghost predicate AllowedAll(s: State, cs: seq<Command>)
    decreases |cs|
  {
    cs == [] || (Allowed(s, cs[0]) && AllowedAll(After(s, cs[0]), cs[1..]))
  }

  ghost function AfterAll(s: State, cs: seq<Command>): State
    decreases |cs|
  {
    if cs == [] then s else AfterAll(After(s, cs[0]), cs[1..])
  }

  /** A started job keeps its printer for good, and a cancelled one never starts. */
  ghost predicate Settled(js: seq<Job>, js2: seq<Job>) {
    |js| <= |js2| && forall i :: 0 <= i < |js| && js[i].status in {Running, Aborted} ==> js2[i] == js[i]
  }

  lemma AfterSettles(s: State, c: Command)
    requires Good(s) && Allowed(s, c)
    ensures Settled(s.jobs, After(s, c).jobs)
  {
    if Accepted(s, c) {
      EffectKeepsConsistent(s, c);
      DispatchedIsSettled(Effect(s, c).printers, Effect(s, c).jobs, 0);
    }
  }

  /** Every run of the command loop. */
  lemma {:induction false} RunKeepsGood(s: State, cs: seq<Command>)
    requires Good(s) && AllowedAll(s, cs)
    ensures Good(AfterAll(s, cs)) && Settled(s.jobs, AfterAll(s, cs).jobs)
    decreases |cs|
  {
    hide Good, Allowed, After;
    if cs != [] {
      AfterKeepsGood(s, cs[0]);
      AfterSettles(s, cs[0]);
      RunKeepsGood(After(s, cs[0]), cs[1..]);
    }
  }

  /** With printers named, the job is eligible for exactly those if and only if none is named twice. */
  lemma EligibleAsNamed(ps: seq<Printer>, file: string, named: seq<string>)
    requires NamesApart(ps) && named != [] && AllFound(ps, named)
    ensures (forall p: nat :: Bit(NewJob(ps, file, named).eligible, p) <==> IsNamed(ps, named, p))
            <==> Distinct(named)
  {
    hide FoundIds, Bit, AllFound;
    var ids := FoundIds(ps, named);
    FoundAll(ps, named);
    MaskIsNamedSet(ids);
    forall p: nat ensures p in ids <==> IsNamed(ps, named, p) {
      FoundIfNamed(ps, named, p);
    }
    NamedOnce(ps, named);
  }

  ghost predicate IsNamed(ps: seq<Printer>, named: seq<string>, p: nat) {
    p < |ps| && ps[p].name in named
  }

  lemma FoundIfNamed(ps: seq<Printer>, named: seq<string>, p: nat)
    requires NamesApart(ps) && AllFound(ps, named)
    ensures p in FoundIds(ps, named) <==> IsNamed(ps, named, p)
  {
    hide FoundIds;
    FoundAll(ps, named);
    var ids := FoundIds(ps, named);
    if p in ids {
      var i :| 0 <= i < |ids| && ids[i] == p;
      assert named[i] in named;
    }
    if IsNamed(ps, named, p) {
      var i :| 0 <= i < |named| && named[i] == ps[p].name;
      assert ids[i] == p;
    }
  }

  lemma NamedOnce(ps: seq<Printer>, named: seq<string>)
    requires AllFound(ps, named)
    ensures Distinct(FoundIds(ps, named)) <==> Distinct(named)
  {
    hide FoundIds;
    FoundAll(ps, named);
    var ids := FoundIds(ps, named);
    forall i, j | 0 <= i < j < |named| ensures ids[i] == ids[j] <==> named[i] == named[j] {
      assert named[i] in named && named[j] in named;
    }
  }

  /** With no printer named, the job is eligible for every printer there can be. */
  lemma AnyIsEligible(ps: seq<Printer>, file: string, p: nat)
    requires p < 32
    ensures Bit(NewJob(ps, file, []).eligible, p)
  {
    AnyPrinter(p);
  }

  ghost function RunningJobs(js: seq<Job>): (r: set<nat>)
    ensures forall i: nat :: i in r <==> i < |js| && js[i].status == Running
  {
    if js == [] then {} else
      RunningJobs(js[..|js| - 1]) + if js[|js| - 1].status == Running then {|js| - 1} else {}
  }

  /** Any way to put jobs that still want to print on enabled printers fit for them. */
  ghost predicate Assignment(s: State, a: map<nat, nat>) {
    && (forall i :: i in a ==> i < |s.jobs| && s.jobs[i].status in {Queued, Running})
    && (forall i :: i in a ==>
      a[i] < |s.printers| && s.printers[a[i]].enabled && Fits(s.jobs[i], s.printers[a[i]], a[i]))
    && forall i, k :: i in a && k in a && a[i] == a[k] ==> i == k
  }

  lemma {:induction false} Injection(a: set<nat>, b: set<nat>, f: map<nat, nat>)
    requires forall i :: i in a ==> i in f && f[i] in b
    requires forall i, k :: i in a && k in a && f[i] == f[k] ==> i == k
    ensures |a| <= |b|
    decreases |a|
  {
    if a != {} {
      var i :| i in a;
      Injection(a - {i}, b - {f[i]}, f);
    }
  }

  /** Greedy dispatch keeps at least half as many jobs running as the best assignment could. */
  lemma HalfOfBest(s: State, a: map<nat, nat>)
    requires Good(s) && Assignment(s, a)
    ensures |a| <= 2 * |RunningJobs(s.jobs)|
  {
    var running := RunningJobs(s.jobs);
    var queued := a.Keys - running;
    forall i | i in queued ensures s.printers[a[i]].busy {
      assert Stuck(s.jobs[i], s.printers);
    }
    var servers := ServersOf(s, a, queued);
    Injection(queued, running, servers);
    assert a.Keys <= queued + running;
    CardinalityOfSubset(a.Keys, queued + running);
    assert |queued + running| <= |queued| + |running|;
    assert |a| == |a.Keys|;
  }

  lemma {:induction false} CardinalityOfSubset(a: set<nat>, b: set<nat>)
    requires a <= b
    ensures |a| <= |b|
    decreases |a|
  {
    if a != {} {
      var i :| i in a;
      CardinalityOfSubset(a - {i}, b - {i});
    }
  }

  /** The running job on the printer that a gives to each queued job. */
  lemma {:induction false} ServersOf(s: State, a: map<nat, nat>, queued: set<nat>) returns (f: map<nat, nat>)
    requires Good(s) && Assignment(s, a) && queued <= a.Keys && forall i :: i in queued ==> s.printers[a[i]].busy
    ensures f.Keys == queued && forall i :: i in queued ==> f[i] in RunningJobs(s.jobs) && Runs(s.jobs, f[i], a[i])
    ensures forall i, k :: i in queued && k in queued && f[i] == f[k] ==> i == k
    decreases |queued|
  {
    f := map[];
    if queued != {} {
      var i :| i in queued;
      var g := ServersOf(s, a, queued - {i});
      assert Served(s.jobs, a[i]);
      var k: nat :| Runs(s.jobs, k, a[i]);
      f := g[i := k];
    }
  }

  class Spooler {
    var types: seq<string>
    var printers: seq<Printer>
    var jobs: seq<Job>

    ghost function Now(): State
      reads this
    {
      State(types, printers, jobs)
    }

    constructor ()
      ensures Now() == State([], [], []) && Good(Now())
    {
      types, printers, jobs := [], [], [];
    }

    /** Lines 491-504. */
    method AddType(name: string)
      modifies `types
      ensures Now() == Effect(old(Now()), Type(name))
    {
      var typeflag := false;
      for i := 0 to |types|
        invariant !typeflag && name !in types[..i]
      {
        if types[i] == name {
          typeflag := true;
          break;
        }
      }
      if !typeflag {
        types := types + [name];
      }
    }

    /** Lines 510-545; pass says whether the dispatch pass follows. */
    method Declare(name: string, typ: string) returns (pass: bool)
      modifies `printers
      ensures pass == Accepted(old(Now()), AddPrinter(name, typ))
      ensures Now() == if pass then Effect(old(Now()), AddPrinter(name, typ)) else old(Now())
    {
      for i := 0 to |printers|
        invariant forall p :: 0 <= p < i ==> printers[p].name != name
      {
        if printers[i].name == name {
          return false;
        }
      }
      if typ !in types {
        return false;
      }
      printers := printers + [Printer(name, typ, false, false)];
      return true;
    }

    /** Lines 675-685: the sum for the named printers that exist, and how many they are. */
    method SumNamed(named: seq<string>) returns (temp: nat, count: nat)
      ensures temp == Mask(FoundIds(printers, named)) && count == |FoundIds(printers, named)|
    {
      hide Mask, FoundIds;
      temp, count := 0, 0;
      NoneNamed(printers);
      assert named[..0] == [];
      for i := 0 to |named|
        invariant temp == Mask(FoundIds(printers, named[..i])) && count == |FoundIds(printers, named[..i])|
      {
        var z := 0;
        while z < |printers| && printers[z].name != named[i]
          invariant z <= |printers| && forall p :: 0 <= p < z ==> printers[p].name != named[i]
        {
          z := z + 1;
        }
        assert z == Named(printers, named[i]);
        assert named[..i + 1] == named[..i] + [named[i]];
        OneMoreName(printers, named[..i], named[i]);
        if z < |printers| {
          temp := temp + Pow2(z);
          count := count + 1;
        }
      }
      assert named[..|named|] == named;
    }

    /** Lines 637-727. */
    method Submit(file: string, named: seq<string>) returns (pass: bool)
      modifies `jobs
      ensures pass == Accepted(old(Now()), Print(file, named))
      ensures Now() == if pass then Effect(old(Now()), Print(file, named)) else old(Now())
    {
      hide LastToken, Mask, FoundIds, AllFound, Named;
      FoundAll(printers, named);
      var eligible := ANY_PRINTER;
      if named != [] {
        var temp, count := SumNamed(named);
        if count != |named| {
          return false;
        }
        eligible := temp;
      }
      var typ := LastToken(file);
      if typ !in types {
        return false;
      }
      jobs := jobs + [Job(file, typ, Queued, eligible, Nobody)];
      return true;
    }

    /** Lines 730-739. */
    method CancelJobs(file: string)
      modifies `jobs
      ensures Now() == Effect(old(Now()), Cancel(file))
    {
      for i := 0 to |jobs|
        invariant |jobs| == |old(jobs)| && jobs[i..] == old(jobs)[i..]
        invariant jobs[..i] == Cancelled(old(jobs), file)[..i]
      {
        assert jobs[i] == jobs[i..][0] == old(jobs)[i];
        if jobs[i].name == file {
          if jobs[i].status == Queued {
            jobs := jobs[i := jobs[i].(status := Aborted)];
          }
        }
      }
    }

    /** Lines 748-761 and 768-781. A printer already so stops the search. */
    method Switch(name: string, on: bool)
      requires NamesApart(printers)
      modifies `printers
      ensures Now() == Effect(old(Now()), if on then Enable(name) else Disable(name))
    {
      for i := 0 to |printers|
        invariant |printers| == |old(printers)| && printers[i..] == old(printers)[i..]
        invariant printers[..i] == Switched(old(printers), name, on)[..i]
      {
        assert printers[i] == printers[i..][0] == old(printers)[i];
        if printers[i].name == name {
          if printers[i].enabled == on {
            break;
          }
          printers := printers[i := printers[i].(enabled := on)];
        }
      }
      assert printers == Switched(old(printers), name, on);
    }

    /** Lines 794-813. */
    method Dispatch()
      modifies `printers, `jobs
      ensures types == old(types) && (printers, jobs) == Dispatched(old(printers), old(jobs), 0)
    {
      for i := 0 to |jobs|
        invariant |jobs| == |old(jobs)|
        invariant Dispatched(printers, jobs, i) == Dispatched(old(printers), old(jobs), 0)
      {
        ghost var ps, js := printers, jobs;
        for j := 0 to |printers|
          invariant printers == ps && jobs == js
          invariant js[i].status == Queued ==> Pick(js[i], ps, j) == Pick(js[i], ps, 0)
        {
          if jobs[i].typ == printers[j].typ {
            if jobs[i].status == Queued && !printers[j].busy && printers[j].enabled {
              if Bit(jobs[i].eligible, j) {
                jobs := jobs[i := jobs[i].(status := Running, chosen := Chosen(j))];
                printers := printers[j := printers[j].(busy := true)];
                break;
              }
            }
          }
        }
        assert (printers, jobs) == Started(ps, js, i);
      }
    }

    /** One command read at the prompt. */
    method Do(c: Command)
      requires Good(Now()) && Allowed(Now(), c)
      modifies this
      ensures Now() == After(old(Now()), c) && Good(Now())
    {
      hide Good, Allowed;
      AfterKeepsGood(Now(), c);
      GoodNames(Now());
      var pass := true;
      match c {
        case Type(name) => AddType(name);
        case AddPrinter(name, typ) => pass := Declare(name, typ);
        case Print(file, named) => pass := Submit(file, named);
        case Cancel(file) => CancelJobs(file);
        case Disable(name) => Switch(name, false);
        case Enable(name) => Switch(name, true);
        case Other =>
      }
      if pass {
        Dispatch();
      }
    }
  }

  lemma GoodNames(s: State)
    requires Good(s)
    ensures NamesApart(s.printers)
  {
  }
}
