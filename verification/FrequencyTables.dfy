/** do_freqs and do_quantiles over a whole course (hw2/src/stats.c:144-164, 225-249). */
module FrequencyTables {
  import opened Sequences
  import opened Gradebook
  import opened StatsLinks
  import opened Frequencies

  /** The table of one class or section record is the histogram of the grades tallied for it. */
  ghost predicate Tabled(st: Stats)
    reads st`freqs, st`nodes, st`scores, st`tallied, set f | f in st.nodes
  {
    Linked(st.freqs, st.nodes) && Histogram(Buckets(st.nodes), st.scores) && st.tallied == |st.scores|
  }

  /** The records all have tables of their own. */
  ghost predicate AllTabled(all: set<Stats>)
    reads all`freqs, all`nodes, all`scores, all`tallied, set st, f | st in all && f in st.nodes :: f
  {
    && (forall st :: st in all ==> Tabled(st))
    && forall st1, st2, f :: st1 in all && st2 in all && st1 != st2 && f in st1.nodes ==> f !in st2.nodes
  }

  /** Lines 154-156, and 157-159 for the section. */
  method Tally(st: Stats, g: real, ghost all: set<Stats>)
    requires AllTabled(all) && st in all
    modifies st`freqs, st`tallied, st`nodes, st`scores, st.nodes
    ensures AllTabled(all) && st.scores == old(st.scores) + [g]
    ensures forall f :: f in st.nodes && f !in old(st.nodes) ==> fresh(f)
  {
    hide Linked, Histogram, Buckets;
    ghost var nodes2;
    st.freqs, nodes2 := CountScore(g, st.freqs, st.nodes, st.scores);
    st.tallied := st.tallied + 1;
    st.nodes := nodes2;
    st.scores := st.scores + [g];
  }

  /** The scores of the students xs one after the other. */
  ghost function Chained(xs: seq<Student>, scores: map<Student, seq<Score>>): seq<Score>
    requires forall x :: x in xs ==> x in scores
  {
    if xs == [] then [] else Chained(xs[..|xs| - 1], scores) + scores[xs[|xs| - 1]]
  }

  /** The grades among scs that count for the record st. */
  ghost function GradesFor(scs: seq<Score>, m: Targets, st: Stats): seq<real> {
    if scs == [] then [] else
      var s := scs[|scs| - 1];
      GradesFor(scs[..|scs| - 1], m, st) +
      if s in m && s.tallies && (m[s].0 == st || m[s].1 == st) then [s.grade] else []
  }

  /** Every score of xs that is tallied has a class record and a section record to go to. */
  ghost predicate Targeted(scs: seq<Score>, m: Targets, all: set<Stats>) {
    forall s :: s in scs ==> s in m && (s.tallies ==> Goes(m[s], all))
  }

  ghost predicate Goes(to: (Stats?, Stats?), all: set<Stats>) {
    to.0 != null && to.1 != null && to.0 in all && to.1 in all && to.0.section == null && to.1.section != null
  }

  /** All records hold exactly the grades that count for them among scs. */
  ghost predicate Tallied(all: set<Stats>, scs: seq<Score>, m: Targets)
    reads all`freqs, all`nodes, all`scores, all`tallied, set st, f | st in all && f in st.nodes :: f
  {
    AllTabled(all) && forall st :: st in all ==> st.scores == GradesFor(scs, m, st)
  }

  /** Lines 153-161: one score. */
  method TallyScore(scp: Score, ghost all: set<Stats>, ghost scs: seq<Score>, ghost m: Targets)
    requires Tallied(all, scs, m) && Targeted([scp], m, all)
    requires m[scp] == (scp.cstats, scp.sstats)
    modifies all`freqs, all`tallied, all`nodes, all`scores, set st, f | st in all && f in st.nodes :: f
    ensures Tallied(all, scs + [scp], m)
    ensures forall st, f :: st in all && f in st.nodes && f !in old(st.nodes) ==> fresh(f)
  {
    hide Tabled;
    assert (scs + [scp])[..|scs|] == scs;
    assert scp in [scp];
    if scp.tallies {
      assert forall j :: 0 <= j < |scp.cstats.nodes| ==> scp.cstats.nodes[j] in scp.cstats.nodes;
      Tally(scp.cstats, scp.grade, all);
      assert forall j :: 0 <= j < |scp.sstats.nodes| ==> scp.sstats.nodes[j] in scp.sstats.nodes;
      Tally(scp.sstats, scp.grade, all);
    }
  }

  ghost predicate ScoresListed(xs: seq<Student>, scores: map<Student, seq<Score>>) {
    forall x :: x in xs ==> x in scores && ScoreList(x.rawscores, scores[x])
  }

  /** Lines 152-162: one student. */
  method TallyStudent(stp: Student, ghost scs: seq<Score>, ghost all: set<Stats>, ghost done: seq<Score>,
                      ghost pool: set<Score>)
    requires Tallied(all, done, TargetsOf(pool)) && ScoreList(stp.rawscores, scs) && Targeted(scs, TargetsOf(pool), all)
    modifies all`freqs, all`tallied, all`nodes, all`scores, set st, f | st in all && f in st.nodes :: f
    ensures Tallied(all, done + scs, TargetsOf(pool))
    ensures forall st, f :: st in all && f in st.nodes && f !in old(st.nodes) ==> fresh(f)
  {
    hide Tallied;
    var scp := stp.rawscores;
    ghost var k := 0;
    ghost var m := TargetsOf(pool);
    assert done + scs[..0] == done;
    while scp != null
      invariant k <= |scs| && ScoreList(scp, scs[k..]) && TargetsOf(pool) == m
      invariant Tallied(all, done + scs[..k], m)
      invariant forall st, f :: st in all && f in st.nodes && f !in old(st.nodes) ==> fresh(f)
      decreases |scs| - k
    {
      assert scp == scs[k];
      assert done + scs[..k] + [scp] == done + scs[..k + 1];
      TallyScore(scp, all, done + scs[..k], m);
      scp := scp.next;
      k := k + 1;
    }
    assert done + scs[..k] == done + scs;
  }

  /** A record as buildstats leaves it (lines 55-59, 73-76). */
  ghost predicate Empty(st: Stats)
    reads st
  {
    st.freqs == null && st.tallied == 0 && st.nodes == [] && st.scores == []
  }

  /** Lines 144-164. */
  method DoFreqs(c: Course, ghost xs: seq<Student>, ghost scores: map<Student, seq<Score>>, ghost all: set<Stats>,
                 ghost pool: set<Score>)
    requires Roster(c.roster, xs, CNext) && ScoresListed(xs, scores) &&
      Targeted(Chained(xs, scores), TargetsOf(pool), all)
    requires forall st :: st in all ==> Empty(st)
    modifies all`freqs, all`tallied, all`nodes, all`scores
    ensures Tallied(all, Chained(xs, scores), TargetsOf(pool))
    ensures forall st, f :: st in all && f in st.nodes ==> fresh(f)
  {
    hide Tallied, Roster, Targeted;
    var stp := c.roster;
    ghost var k := 0;
    ghost var m := TargetsOf(pool);
    NothingTallied(all, m);
    RosterStep(c.roster, xs, 0);
    while stp != null
      invariant k <= |xs| && stp == Nth(xs, k) && Roster(c.roster, xs, CNext) && TargetsOf(pool) == m
      invariant Tallied(all, Chained(xs[..k], scores), m)
      invariant forall st, f :: st in all && f in st.nodes ==> fresh(f)
      decreases |xs| - k
    {
      assert xs[..k + 1][..k] == xs[..k];
      TargetedPart(xs, k, scores, m, all);
      TallyStudent(stp, scores[stp], all, Chained(xs[..k], scores), pool);
      RosterStep(c.roster, xs, k);
      stp := stp.cnext;
      k := k + 1;
    }
    assert xs[..k] == xs;
  }

  lemma NothingTallied(all: set<Stats>, m: Targets)
    requires forall st :: st in all ==> Empty(st)
    ensures Tallied(all, [], m)
  {
    assert Histogram([], []);
  }

  lemma RosterStep(head: Student?, xs: seq<Student>, k: nat)
    requires Roster(head, xs, CNext)
    ensures head == Nth(xs, 0) && (k < |xs| ==> xs[k].cnext == Nth(xs, k + 1))
  {
    if k < |xs| {
      assert Get(xs[k], CNext) == xs[k].cnext;
    }
  }

  lemma {:induction false} TargetedPart(xs: seq<Student>, k: nat, scores: map<Student, seq<Score>>, m: Targets,
                                        all: set<Stats>)
    requires ScoresListed(xs, scores) && Targeted(Chained(xs, scores), m, all) && k < |xs|
    ensures Targeted(scores[xs[k]], m, all)
    decreases |xs|
  {
    var n := |xs| - 1;
    forall s | s in Chained(xs[..n], scores) || s in scores[xs[n]] ensures s in Chained(xs, scores) {
    }
    if k < n {
      TargetedPart(xs[..n], k, scores, m, all);
    }
  }

  /** Every bucket of the record carries its true ranks. */
  ghost predicate RankedRecord(st: Stats)
    reads st`nodes, st`scores, set f | f in st.nodes
  {
    Ranked(st.nodes, st.scores)
  }

  ghost function NodesOf(all: set<Stats>): set<Freqs>
    reads all
  {
    set st, f | st in all && f in st.nodes :: f
  }

  method RankRecord(st: Stats, ghost all: set<Stats>, ghost done: set<Stats>)
    requires AllTabled(all) && st in all && done <= all && forall r :: r in done ==> RankedRecord(r)
    modifies NodesOf(all)`numless, NodesOf(all)`numlesseq
    ensures AllTabled(all) && forall r :: r in done + {st} ==> RankedRecord(r)
  {
    hide Histogram;
    RankTable(st.freqs, st.nodes, st.scores);
  }

  ghost function Members(sts: seq<Stats>): set<Stats> {
    set st | st in sts
  }

  /** Lines 240-247. */
  method RankSections(head: Stats?, ghost ss: seq<Stats>, ghost all: set<Stats>, ghost done: set<Stats>)
    requires StatsList(head, ss) && Members(ss) <= all
    requires AllTabled(all) && done <= all && forall r :: r in done ==> RankedRecord(r)
    modifies NodesOf(all)`numless, NodesOf(all)`numlesseq
    ensures AllTabled(all) && forall r :: r in done + Members(ss) ==> RankedRecord(r)
  {
    hide AllTabled, RankedRecord;
    var ssp := head;
    ghost var j := 0;
    while ssp != null
      invariant j <= |ss| && StatsList(ssp, ss[j..])
      invariant AllTabled(all) && forall r :: r in done + Members(ss[..j]) ==> RankedRecord(r)
      decreases |ss| - j
    {
      assert ssp == ss[j] && ssp in Members(ss);
      assert Members(ss[..j + 1]) == Members(ss[..j]) + {ssp} by { assert ss[..j + 1] == ss[..j] + [ssp]; }
      RankRecord(ssp, all, done + Members(ss[..j]));
      ssp := ssp.next;
      j := j + 1;
    }
    assert ss[..j] == ss;
  }

  /** The class records cs and the section records behind them. */
  ghost function Records(cs: seq<Stats>, sss: seq<seq<Stats>>): set<Stats>
    requires |cs| == |sss|
  {
    if cs == [] then {} else
      var n := |cs| - 1;
      Records(cs[..n], sss[..n]) + {cs[n]} + Members(sss[n])
  }

  /** Lines 225-249. */
  method DoQuantiles(cstats: Stats?, ghost cs: seq<Stats>, ghost sss: seq<seq<Stats>>, ghost all: set<Stats>)
    requires StatsList(cstats, cs) && |cs| == |sss| && forall t :: 0 <= t < |cs| ==> StatsList(cs[t].sstats, sss[t])
    requires all == Records(cs, sss) && AllTabled(all)
    modifies NodesOf(all)`numless, NodesOf(all)`numlesseq
    ensures AllTabled(all) && forall st :: st in all ==> RankedRecord(st)
  {
    hide AllTabled, RankedRecord;
    var csp := cstats;
    ghost var t := 0;
    while csp != null
      invariant t <= |cs| && StatsList(csp, cs[t..])
      invariant AllTabled(all) && forall r :: r in Records(cs[..t], sss[..t]) ==> RankedRecord(r)
      decreases |cs| - t
    {
      assert cs[..t + 1][..t] == cs[..t] && sss[..t + 1][..t] == sss[..t];
      RecordsGrow(cs, sss, t);
      RankRecord(csp, all, Records(cs[..t], sss[..t]));
      RankSections(csp.sstats, sss[t], all, Records(cs[..t], sss[..t]) + {csp});
      csp := csp.next;
      t := t + 1;
    }
    assert cs[..t] == cs && sss[..t] == sss;
  }

  lemma {:induction false} RecordsGrow(cs: seq<Stats>, sss: seq<seq<Stats>>, t: nat)
    requires |cs| == |sss| && t < |cs|
    ensures Records(cs[..t], sss[..t]) + {cs[t]} + Members(sss[t]) <= Records(cs, sss)
    decreases |cs|
  {
    var n := |cs| - 1;
    if t < n {
      RecordsGrow(cs[..n], sss[..n], t);
      assert cs[..n][..t] == cs[..t] && sss[..n][..t] == sss[..t];
    }
  }

  /** All grades that count for one of the records. */
  ghost function GradesForAll(scs: seq<Score>, m: Targets, sts: seq<Stats>): multiset<real> {
    if sts == [] then multiset{} else
      GradesForAll(scs, m, sts[..|sts| - 1]) + multiset(GradesFor(scs, m, sts[|sts| - 1]))
  }

  lemma GradesForLast(scs: seq<Score>, s: Score, m: Targets, st: Stats)
    ensures GradesFor(scs + [s], m, st) ==
            GradesFor(scs, m, st) + if s in m && s.tallies && (m[s].0 == st || m[s].1 == st) then [s.grade] else []
  {
    assert (scs + [s])[..|scs|] == scs;
  }

  /** One more score counts for at most one of the section records. */
  lemma {:induction false} GradesForAllLast(scs: seq<Score>, s: Score, m: Targets, ss: seq<Stats>)
    requires s in m && Distinct(ss) && m[s].0 !in ss
    ensures GradesForAll(scs + [s], m, ss) ==
            GradesForAll(scs, m, ss) + if s.tallies && m[s].1 in ss then multiset{s.grade} else multiset{}
    decreases |ss|
  {
    hide GradesFor, Distinct;
    if ss != [] {
      var n := |ss| - 1;
      var part, st := ss[..n], ss[n];
      LastApart(ss);
      GradesForLast(scs, s, m, st);
      GradesForAllLast(scs, s, m, part);
    }
  }

  lemma LastApart(ss: seq<Stats>)
    requires ss != [] && Distinct(ss)
    ensures Distinct(ss[..|ss| - 1]) && ss[|ss| - 1] !in ss[..|ss| - 1]
    ensures forall st :: st in ss <==> st in ss[..|ss| - 1] || st == ss[|ss| - 1]
  {
    assert ss == ss[..|ss| - 1] + [ss[|ss| - 1]];
  }

  /** If the scores of the class record are those of its sections, so are the grades. */
  lemma {:induction false} SectionsMakeClass(scs: seq<Score>, m: Targets, csp: Stats, ss: seq<Stats>)
    requires Distinct(ss)
    requires forall s :: s in scs ==> s in m && m[s].0 !in ss && m[s].1 != csp && (m[s].0 == csp <==> m[s].1 in ss)
    ensures multiset(GradesFor(scs, m, csp)) == GradesForAll(scs, m, ss)
    decreases |scs|
  {
    if scs == [] {
      NoGrades(m, ss);
    } else {
      var n := |scs| - 1;
      var rest := scs[..n];
      assert scs == rest + [scs[n]];
      SectionsMakeClass(rest, m, csp, ss);
      GradesForLast(rest, scs[n], m, csp);
      GradesForAllLast(rest, scs[n], m, ss);
    }
  }

  lemma {:induction false} NoGrades(m: Targets, ss: seq<Stats>)
    ensures GradesForAll([], m, ss) == multiset{}
    decreases |ss|
  {
    if ss != [] {
      NoGrades(m, ss[..|ss| - 1]);
    }
  }

  /** After do_links, the grades of assignment t's class record are those of its section records
      together, so its table is the histogram of the sections' grades. */
  lemma ClassIsItsSections(m0: Targets, m1: Targets, rosters: seq<seq<Student>>, scores: map<Student, seq<Score>>,
                           asgts: seq<Assignment>,
                           cs: seq<Stats>, sss: seq<seq<Stats>>, secs: seq<Section>, scs: seq<Score>, t: nat)
    requires Built(cs, sss, asgts, secs) && Distinct(asgts) && Distinct(secs) && |rosters| == |secs|
    requires LinksDone(m0, m1, rosters, scores, asgts, |asgts|, cs, sss) && t < |asgts|
    requires forall s :: s in scs ==>
      s in m0 && s.asgt in asgts && exists j :: 0 <= j < |secs| && s in ScoresOf(rosters[j], scores)
    ensures multiset(GradesFor(scs, m1, cs[t])) == GradesForAll(scs, m1, sss[t])
  {
    hide ScoresOf;
    assert BuiltFor(cs[t], sss[t], asgts[t], secs);
    forall s | s in scs
      ensures s in m1 && m1[s].0 !in sss[t] && m1[s].1 != cs[t] && (m1[s].0 == cs[t] <==> m1[s].1 in sss[t])
    {
      var j :| 0 <= j < |secs| && s in ScoresOf(rosters[j], scores);
      var u :| 0 <= u < |asgts| && asgts[u] == s.asgt;
      assert m1[s] == (cs[u], sss[u][j]);
      assert BuiltFor(cs[u], sss[u], asgts[u], secs);
    }
    SectionsMakeClass(scs, m1, cs[t], sss[t]);
  }
}
