/** What the user of the spooler sees (hw4/src/main.c:446-815): which job gets which printer in a
    dispatch pass, and what each command changes. */
module SpoolerCommands {
  import opened Sequences
  import opened PrinterSets
  import opened Spooler

  // ----- the pass ---------------------------------------------------------------------------------

  /** Job i got printer p in the pass that took js to js2. */
  ghost predicate Got(js: seq<Job>, js2: seq<Job>, i: nat, p: nat) {
    && i < |js| <= |js2| && js[i].status == Queued && js2[i].status == Running && js2[i].chosen == Chosen(p)
  }

  ghost predicate Taken(js: seq<Job>, js2: seq<Job>, lo: nat, hi: nat, p: nat) {
    exists i: nat :: lo <= i < hi && Got(js, js2, i, p)
  }

  /** Earlier jobs go first: a job that gets nothing could not have run on what a later one gets. */
  ghost predicate FirstCome(ps: seq<Printer>, js: seq<Job>, js2: seq<Job>, n: nat) {
    forall i: nat, k: nat, p: nat ::
      n <= i < k && k < |js| == |js2| && js[i].status == Queued && js2[i].status == Queued && Got(js, js2, k, p) ==>
        p < |ps| && !Fits(js[i], ps[p], p)
  }

  /** Every job gets an idle printer that fits it, the first one that no earlier job got. */
  ghost predicate FirstFree(ps: seq<Printer>, js: seq<Job>, js2: seq<Job>, n: nat) {
    forall i: nat, p: nat :: n <= i && Got(js, js2, i, p) ==>
      && p < |ps| && Idle(ps[p]) && Fits(js[i], ps[p], p)
      && forall q: nat :: q < p && Idle(ps[q]) && Fits(js[i], ps[q], q) ==> Taken(js, js2, n, i, q)
  }

  /** The busy printers are those that were busy and those that got a job. */
  ghost predicate BusyIs(ps: seq<Printer>, ps2: seq<Printer>, js: seq<Job>, js2: seq<Job>, n: nat) {
    |ps2| == |ps| && forall p: nat :: p < |ps| ==>
      && ps2[p] == ps[p].(busy := ps2[p].busy)
      && (ps2[p].busy <==> ps[p].busy || Taken(js, js2, n, |js|, p))
  }

  /** Jobs before n are not looked at, and a job changes only by getting a printer. */
  ghost predicate OthersStay(js: seq<Job>, js2: seq<Job>, n: nat) {
    |js2| == |js| && forall i: nat :: i < |js| ==>
      && (i < n ==> js2[i] == js[i])
      && (js2[i] == js[i] ||
          exists p: nat :: Got(js, js2, i, p) && js2[i] == js[i].(status := Running, chosen := Chosen(p)))
  }

  /** The jobs from n on get their printers first come, first served. */
  lemma {:induction false} DispatchInOrder(ps: seq<Printer>, js: seq<Job>, n: nat)
    requires n <= |js|
    ensures var (ps2, js2) := Dispatched(ps, js, n);
      OthersStay(js, js2, n) && FirstCome(ps, js, js2, n) && FirstFree(ps, js, js2, n) && BusyIs(ps, ps2, js, js2, n)
    decreases |js| - n
  {
    if n < |js| {
      var (ps1, js1) := Started(ps, js, n);
      var (ps2, js2) := Dispatched(ps1, js1, n + 1);
      DispatchInOrder(ps1, js1, n + 1);
      hide Fits, Idle;
      StartedOne(ps, js, n);
      OthersOnce(ps, js, ps1, js1, js2, n);
      FirstComeOnce(ps, js, ps1, js1, js2, n);
      FirstFreeOnce(ps, js, ps1, js1, js2, n);
      BusyOnce(ps, js, ps1, js1, ps2, js2, n);
    }
  }

  /** One start: job n gets the first idle printer that fits, or there is none. */
  ghost predicate One(ps: seq<Printer>, js: seq<Job>, ps1: seq<Printer>, js1: seq<Job>, n: nat) {
    && |ps1| == |ps| && |js1| == |js| && n < |js|
    && (forall i :: 0 <= i < |js| && i != n ==> js1[i] == js[i])
    && if js1[n] == js[n] then ps1 == ps && (js[n].status == Queued ==> Stuck(js[n], ps))
       else exists p: nat :: StartsOn(ps, js, ps1, js1, n, p)
  }

  ghost predicate StartsOn(ps: seq<Printer>, js: seq<Job>, ps1: seq<Printer>, js1: seq<Job>, n: nat, p: nat) {
    && n < |js| && p < |ps| && js[n].status == Queued && Idle(ps[p]) && Fits(js[n], ps[p], p)
    && (forall q :: 0 <= q < p ==> !(Idle(ps[q]) && Fits(js[n], ps[q], q)))
    && js1 == js[n := js[n].(status := Running, chosen := Chosen(p))] && ps1 == ps[p := ps[p].(busy := true)]
  }

  lemma StartedOne(ps: seq<Printer>, js: seq<Job>, n: nat)
    requires n < |js|
    ensures One(ps, js, Started(ps, js, n).0, Started(ps, js, n).1, n)
  {
    hide Fits;
    var (ps1, js1) := Started(ps, js, n);
    var p := Pick(js[n], ps, 0);
    if js[n].status == Queued && p < |ps| {
      assert StartsOn(ps, js, ps1, js1, n, p);
    }
  }

  lemma OthersOnce(ps: seq<Printer>, js: seq<Job>, ps1: seq<Printer>, js1: seq<Job>, js2: seq<Job>, n: nat)
    requires One(ps, js, ps1, js1, n) && OthersStay(js1, js2, n + 1)
    ensures OthersStay(js, js2, n)
  {
    forall i: nat | i < |js|
      ensures js2[i] == js[i] ||
        exists p: nat :: Got(js, js2, i, p) && js2[i] == js[i].(status := Running, chosen := Chosen(p))
    {
      if i == n {
        if js1[n] != js[n] {
          var p: nat :| StartsOn(ps, js, ps1, js1, n, p);
          assert Got(js, js2, n, p);
        }
      } else if js2[i] != js1[i] {
        var p: nat :| Got(js1, js2, i, p) && js2[i] == js1[i].(status := Running, chosen := Chosen(p));
        assert Got(js, js2, i, p);
      }
    }
  }

  /** Later jobs got the same in the rest of the pass. */
  lemma GotLater(js: seq<Job>, js1: seq<Job>, js2: seq<Job>, n: nat)
    requires n < |js| == |js1| && (forall i :: 0 <= i < |js| && i != n ==> js1[i] == js[i])
    ensures forall i: nat, p: nat :: i > n ==> (Got(js1, js2, i, p) <==> Got(js, js2, i, p))
  {
  }

  lemma FirstComeOnce(ps: seq<Printer>, js: seq<Job>, ps1: seq<Printer>, js1: seq<Job>, js2: seq<Job>, n: nat)
    requires One(ps, js, ps1, js1, n) && OthersStay(js1, js2, n + 1)
    requires FirstCome(ps1, js1, js2, n + 1) && FirstFree(ps1, js1, js2, n + 1)
    ensures FirstCome(ps, js, js2, n)
  {
    GotLater(js, js1, js2, n);
    TypesStay(ps, js, ps1, js1, n);
    forall i: nat, k: nat, p: nat |
      n <= i < k && k < |js| == |js2| && js[i].status == Queued && js2[i].status == Queued && Got(js, js2, k, p)
      ensures p < |ps| && !Fits(js[i], ps[p], p)
    {
      assert Got(js1, js2, k, p);
      if i == n { assert js2[n] == js1[n] && js1[n] == js[n]; }
    }
  }

  lemma TypesStay(ps: seq<Printer>, js: seq<Job>, ps1: seq<Printer>, js1: seq<Job>, n: nat)
    requires One(ps, js, ps1, js1, n)
    ensures forall p, j, q :: 0 <= p < |ps| ==> (Fits(j, ps1[p], q) <==> Fits(j, ps[p], q))
    ensures forall p: nat :: p < |ps| && Idle(ps1[p]) ==> Idle(ps[p])
    ensures forall p: nat :: p < |ps| && Idle(ps[p]) && !Idle(ps1[p]) ==> js1[n] != js[n] && js1[n].chosen == Chosen(p)
  {
  }

  lemma FirstFreeOnce(ps: seq<Printer>, js: seq<Job>, ps1: seq<Printer>, js1: seq<Job>, js2: seq<Job>, n: nat)
    requires One(ps, js, ps1, js1, n) && OthersStay(js1, js2, n + 1) && FirstFree(ps1, js1, js2, n + 1)
    ensures FirstFree(ps, js, js2, n)
  {
    GotLater(js, js1, js2, n);
    TypesStay(ps, js, ps1, js1, n);
    hide Fits, Idle;
    assert js2[n] == js1[n];
    forall i: nat, p: nat | n <= i && Got(js, js2, i, p)
      ensures p < |ps| && Idle(ps[p]) && Fits(js[i], ps[p], p)
      ensures forall q: nat :: q < p && Idle(ps[q]) && Fits(js[i], ps[q], q) ==> Taken(js, js2, n, i, q)
    {
      if i == n {
        assert js1[n] != js[n];
        var p1: nat :| StartsOn(ps, js, ps1, js1, n, p1);
      } else {
        assert Got(js1, js2, i, p);
        forall q: nat | q < p && Idle(ps[q]) && Fits(js[i], ps[q], q) ensures Taken(js, js2, n, i, q) {
          if Idle(ps1[q]) {
            TakenLater(js, js1, js2, n, i, q);
          } else {
            assert Got(js, js2, n, q);
          }
        }
      }
    }
  }

  lemma TakenLater(js: seq<Job>, js1: seq<Job>, js2: seq<Job>, n: nat, hi: nat, q: nat)
    requires Taken(js1, js2, n + 1, hi, q)
    requires forall i: nat, p: nat :: i > n ==> (Got(js1, js2, i, p) <==> Got(js, js2, i, p))
    ensures Taken(js, js2, n, hi, q)
  {
    var i: nat :| n + 1 <= i < hi && Got(js1, js2, i, q);
    assert Got(js, js2, i, q);
  }

  lemma BusyOnce(ps: seq<Printer>, js: seq<Job>, ps1: seq<Printer>, js1: seq<Job>, ps2: seq<Printer>, js2: seq<Job>,
                 n: nat)
    requires One(ps, js, ps1, js1, n) && OthersStay(js1, js2, n + 1) && BusyIs(ps1, ps2, js1, js2, n + 1)
    ensures BusyIs(ps, ps2, js, js2, n)
  {
    GotLater(js, js1, js2, n);
    assert js2[n] == js1[n];
    forall p: nat | p < |ps| ensures ps2[p].busy <==> ps[p].busy || Taken(js, js2, n, |js|, p) {
      if Taken(js1, js2, n + 1, |js|, p) { TakenLater(js, js1, js2, n, |js|, p); }
      if ps1[p].busy && !ps[p].busy { assert Got(js, js2, n, p); }
      if Taken(js, js2, n, |js|, p) {
        var i: nat :| n <= i < |js| && Got(js, js2, i, p);
        if i > n { assert Got(js1, js2, i, p); }
      }
    }
  }

  // ----- file types -------------------------------------------------------------------------------

  ghost predicate NoDot(s: string) {
    forall i :: 0 <= i < |s| ==> s[i] != '.'
  }

  lemma {:induction false} AfterLastDot(base: string, ext: string)
    requires NoDot(ext) && (base == [] || base[|base| - 1] == '.')
    ensures AfterDot(base + ext) == ext
    decreases |ext|
  {
    if ext == [] {
      assert base + ext == base;
    } else {
      var n := |ext| - 1;
      AfterLastDot(base, ext[..n]);
      assert (base + ext)[..|base| + n] == base + ext[..n];
    }
  }

  /** A file's type is what follows its last point, the whole name if it has none; points at the end do
      not count. */
  lemma FileType(name: string, base: string, ext: string)
    ensures LastToken(name + ".") == LastToken(name)
    ensures NoDot(ext) && ext != [] ==> LastToken(ext) == ext && LastToken(base + "." + ext) == ext
  {
    assert (name + ".")[..|name|] == name;
    if NoDot(ext) && ext != [] {
      AfterLastDot(base + ".", ext);
      AfterLastDot([], ext);
      assert [] + ext == ext;
    }
  }

  // ----- the commands -----------------------------------------------------------------------------------

  /** Types are never forgotten, and only type adds one. */
  ghost predicate TypesAfter(s: State, s2: State, c: Command) {
    && s.types <= s2.types && (Distinct(s.types) ==> Distinct(s2.types))
    && forall t :: t in s2.types <==> t in s.types || c == Type(t)
  }

  /** A printer keeps its name and type, and is enabled or disabled by the command of that name only. */
  ghost predicate PrintersAfter(s: State, s2: State, c: Command) {
    |s.printers| <= |s2.printers| &&
    forall p :: 0 <= p < |s.printers| ==>
      && s2.printers[p].name == s.printers[p].name && s2.printers[p].typ == s.printers[p].typ
      && s2.printers[p].enabled == (c == Enable(s.printers[p].name) ||
                                    (s.printers[p].enabled && c != Disable(s.printers[p].name)))
  }

  /** printer adds one printer of a known type with a new name; it is disabled and idle. */
  ghost predicate PrinterAdded(s: State, s2: State, c: Command) {
    if c.AddPrinter? && c.typ in s.types && forall p :: p in s.printers ==> p.name != c.name then
      && |s2.printers| == |s.printers| + 1
      && s2.printers[|s.printers|] == Printer(c.name, c.typ, false, false)
    else |s2.printers| == |s.printers|
  }

  /** A job keeps its file, type and printers it may run on. It is cancelled exactly by cancel of its file
      while it waits; otherwise it waits on, or starts. */
  ghost predicate JobsAfter(s: State, s2: State, c: Command) {
    |s.jobs| <= |s2.jobs| &&
    forall i :: 0 <= i < |s.jobs| ==>
      && s2.jobs[i].name == s.jobs[i].name && s2.jobs[i].typ == s.jobs[i].typ
      && s2.jobs[i].eligible == s.jobs[i].eligible
      && (s2.jobs[i].status == Aborted <==>
          s.jobs[i].status == Aborted || (s.jobs[i].status == Queued && c == Cancel(s.jobs[i].name)))
      && (s.jobs[i].status == Running ==> s2.jobs[i] == s.jobs[i])
      && (s2.jobs[i].status == Queued ==> s.jobs[i].status == Queued)
  }

  /** print adds one job, if its type and all named printers are known. */
  ghost predicate JobAdded(s: State, s2: State, c: Command) {
    if c.Print? && LastToken(c.file) in s.types &&
      (forall n :: n in c.named ==> exists p :: p in s.printers && p.name == n) then
      && |s2.jobs| == |s.jobs| + 1
      && var j := s2.jobs[|s.jobs|];
         j.name == c.file && j.typ == LastToken(c.file) && j.status in {Queued, Running}
         && j.eligible == NewJob(s.printers, c.file, c.named).eligible
    else |s2.jobs| == |s.jobs|
  }

  lemma AllFoundMeans(ps: seq<Printer>, named: seq<string>)
    ensures AllFound(ps, named) <==> forall n :: n in named ==> exists p :: p in ps && p.name == n
  {
    forall n ensures Named(ps, n) < |ps| <==> exists p :: p in ps && p.name == n {
      if Named(ps, n) < |ps| { assert ps[Named(ps, n)] in ps; }
      forall p | p in ps && p.name == n ensures Named(ps, n) < |ps| {
        var q :| 0 <= q < |ps| && ps[q] == p;
      }
    }
  }

  /** All a pass can do: make waiting jobs run and printers busy. */
  ghost predicate Passed(t: State, s2: State) {
    && s2.types == t.types && |s2.printers| == |t.printers| && |s2.jobs| == |t.jobs|
    && (forall p :: 0 <= p < |t.printers| ==> s2.printers[p] == t.printers[p].(busy := s2.printers[p].busy))
    && OnlyStarted(t.jobs, s2.jobs)
  }

  lemma CommandPasses(s: State, c: Command)
    requires Accepted(s, c)
    ensures Passed(Effect(s, c), After(s, c))
  {
    var t := Effect(s, c);
    DispatchInOrder(t.printers, t.jobs, 0);
    hide Effect, Dispatched, FirstCome, FirstFree;
  }

  lemma TypesChange(s: State, s2: State, c: Command)
    requires Accepted(s, c) && Passed(Effect(s, c), s2)
    ensures TypesAfter(s, s2, c)
  {
    hide Cancelled, Switched, NewJob;
  }

  lemma PrintersChange(s: State, s2: State, c: Command)
    requires Accepted(s, c) && Passed(Effect(s, c), s2)
    ensures PrintersAfter(s, s2, c)
  {
    hide Cancelled, NewJob;
  }

  lemma JobsChange(s: State, s2: State, c: Command)
    requires Accepted(s, c) && Passed(Effect(s, c), s2)
    ensures JobsAfter(s, s2, c)
  {
    hide Switched, NewJob;
  }

  /** A disabled printer gets no job. */
  lemma PrinterAdds(s: State, c: Command)
    requires Accepted(s, c)
    ensures PrinterAdded(s, After(s, c), c)
  {
    CommandPasses(s, c);
    if c.AddPrinter? {
      var t := Effect(s, c);
      DispatchInOrder(t.printers, t.jobs, 0);
      var n := |s.printers|;
      var js2 := After(s, c).jobs;
      assert forall i: nat :: !Got(t.jobs, js2, i, n);
    }
    hide Dispatched, FirstCome, FirstFree;
  }

  lemma JobAdds(s: State, s2: State, c: Command)
    requires Accepted(s, c) && Passed(Effect(s, c), s2)
    ensures JobAdded(s, s2, c)
  {
    if c.Print? { AllFoundMeans(s.printers, c.named); }
    hide Switched, AllFound, LastToken;
  }

  /** From one prompt to the next; a command that is not accepted changes nothing. */
  lemma CommandChanges(s: State, c: Command)
    ensures var s2 := After(s, c);
      && TypesAfter(s, s2, c) && PrintersAfter(s, s2, c) && PrinterAdded(s, s2, c)
      && JobsAfter(s, s2, c) && JobAdded(s, s2, c)
  {
    if Accepted(s, c) {
      hide *;
      CommandPasses(s, c);
      TypesChange(s, After(s, c), c);
      PrintersChange(s, After(s, c), c);
      JobsChange(s, After(s, c), c);
      PrinterAdds(s, c);
      JobAdds(s, After(s, c), c);
    } else {
      if c.Print? { AllFoundMeans(s.printers, c.named); }
    }
  }

  /** A job prints on a printer of its type that it may use, and each printer on one job at most. */
  ghost predicate PrintsRight(s: State) {
    && (forall i :: 0 <= i < |s.jobs| && s.jobs[i].status == Running ==>
        && s.jobs[i].chosen.Chosen?
        && var p := s.jobs[i].chosen.printer;
           && p < |s.printers| && s.printers[p].busy
           && s.printers[p].typ == s.jobs[i].typ && Bit(s.jobs[i].eligible, p))
    && forall i, k :: 0 <= i < k < |s.jobs| && s.jobs[i].status == Running && s.jobs[k].status == Running ==>
         s.jobs[i].chosen != s.jobs[k].chosen
  }

  /** A job waits only as long as every printer of its type that it may use is busy or disabled. */
  ghost predicate WaitsRight(s: State) {
    forall i, p: nat :: 0 <= i < |s.jobs| && p < |s.printers| ==>
      (s.jobs[i].status == Queued && s.printers[p].typ == s.jobs[i].typ && Bit(s.jobs[i].eligible, p) ==>
        s.printers[p].busy || !s.printers[p].enabled)
  }

  /** At every prompt of every run. */
  lemma PromptMeans(s: State, cs: seq<Command>)
    requires Good(s) && AllowedAll(s, cs)
    ensures PrintsRight(AfterAll(s, cs)) && WaitsRight(AfterAll(s, cs))
  {
    RunKeepsGood(s, cs);
    GoodMeans(AfterAll(s, cs));
  }

  lemma GoodMeans(s: State)
    requires Good(s)
    ensures PrintsRight(s) && WaitsRight(s)
  {
    hide Bit;
    forall i: nat | i < |s.jobs| && s.jobs[i].status == Running ensures Runs(s.jobs, i, s.jobs[i].chosen.printer) {
    }
    forall i: nat | i < |s.jobs| && s.jobs[i].status == Queued ensures Stuck(s.jobs[i], s.printers) {
    }
  }

  /** A job starts on a printer that was enabled and idle. */
  lemma StartsEnabled(ps: seq<Printer>, js: seq<Job>, i: nat, p: nat)
    requires Got(js, Dispatched(ps, js, 0).1, i, p)
    ensures p < |ps| && ps[p].enabled && !ps[p].busy && ps[p].typ == js[i].typ && Bit(js[i].eligible, p)
  {
    DispatchInOrder(ps, js, 0);
  }
}
