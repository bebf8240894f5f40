/** statistics() as a whole (hw2/src/stats.c:16-31): linking, counting, ranking and summing together. */
module Statistics {
  import opened Sequences
  import opened Gradebook
  import opened StatsLinks
  import opened Frequencies
  import opened FrequencyTables
  import opened Moments

  /** Every score is for an assignment of the course, as the reader makes sure
      (hw2/src/read.c:203-212). */
  ghost predicate Declared(pool: set<Score>, asgts: seq<Assignment>) {
    forall s :: s in pool ==> s.asgt != null && s.asgt in asgts
  }

  /** A record as buildstats leaves it (lines 55-59, 73-76). */
  ghost predicate Fresh(st: Stats)
    reads st
  {
    Empty(st) && st.valid == 0 && st.sum == 0.0 && st.sumsq == 0.0
  }

  lemma FreshMeansEmpty(all: set<Stats>)
    requires forall st :: st in all ==> Fresh(st)
    ensures forall st :: st in all ==> Empty(st)
    ensures forall st :: st in all ==> st.valid == 0 && st.sum == 0.0 && st.sumsq == 0.0
  {
  }

  lemma AllListed(flat: seq<Student>, scores: map<Student, seq<Score>>)
    requires OwnScores(flat, scores)
    ensures ScoresListed(flat, scores)
  {
  }

  lemma {:induction false} ChainedIn(xs: seq<Student>, scores: map<Student, seq<Score>>, s: Score)
    requires ScoresListed(xs, scores) && s in Chained(xs, scores)
    ensures s in ScoresOf(xs, scores)
    decreases |xs|
  {
    if xs != [] {
      var n := |xs| - 1;
      if s !in scores[xs[n]] {
        ChainedIn(xs[..n], scores, s);
      }
    }
  }

  lemma {:induction false} InSomeSection(rosters: seq<seq<Student>>, x: Student) returns (j: nat)
    requires x in Flat(rosters)
    ensures j < |rosters| && x in rosters[j]
    decreases |rosters|
  {
    var n := |rosters| - 1;
    if x in rosters[n] {
      j := n;
    } else {
      j := InSomeSection(rosters[..n], x);
    }
  }

  /** A score of the course belongs to one of its sections. */
  lemma ScoreSection(rosters: seq<seq<Student>>, scores: map<Student, seq<Score>>, s: Score) returns (j: nat)
    requires s in ScoresOf(Flat(rosters), scores)
    ensures j < |rosters| && s in ScoresOf(rosters[j], scores)
  {
    hide Flat;
    var x :| x in Flat(rosters) && x in scores && s in scores[x];
    j := InSomeSection(rosters, x);
  }

  /** After do_links every score has a class record and a section record to be counted in. */
  lemma AllTargeted(m0: Targets, m: Targets, rosters: seq<seq<Student>>, scores: map<Student, seq<Score>>,
                    asgts: seq<Assignment>,
                    cs: seq<Stats>, sss: seq<seq<Stats>>, secs: seq<Section>, pool: set<Score>, scs: seq<Score>)
    requires Built(cs, sss, asgts, secs) && Distinct(asgts) && Distinct(secs) && |rosters| == |secs|
    requires LinksDone(m0, m, rosters, scores, asgts, |asgts|, cs, sss)
    requires m0.Keys == pool == ScoresOf(Flat(rosters), scores) && Declared(pool, asgts)
    requires forall s :: s in scs ==> s in pool
    ensures Targeted(scs, m, Records(cs, sss))
    ensures forall t :: 0 <= t < |asgts| ==> multiset(GradesFor(scs, m, cs[t])) == GradesForAll(scs, m, sss[t])
  {
    hide Flat, ScoresOf, GradesFor, GradesForAll, Records;
    forall s | s in scs
      ensures exists j :: 0 <= j < |secs| && s in ScoresOf(rosters[j], scores)
      ensures Goes(m[s], Records(cs, sss))
    {
      var j := ScoreSection(rosters, scores, s);
      var t :| 0 <= t < |asgts| && asgts[t] == s.asgt;
      assert m[s] == (cs[t], sss[t][j]);
      assert BuiltFor(cs[t], sss[t], asgts[t], secs);
      RecordsGrow(cs, sss, t);
      assert sss[t][j] in Members(sss[t]);
    }
    forall t | 0 <= t < |asgts| ensures multiset(GradesFor(scs, m, cs[t])) == GradesForAll(scs, m, sss[t]) {
      ClassIsItsSections(m0, m, rosters, scores, asgts, cs, sss, secs, scs, t);
    }
  }

  lemma KeysOf(pool: set<Score>)
    ensures TargetsOf(pool).Keys == pool
  {
  }

  lemma TalliedIsTabled(all: set<Stats>, scs: seq<Score>, m: Targets)
    requires Tallied(all, scs, m)
    ensures AllTabled(all) && forall st :: st in all ==> st.scores == GradesFor(scs, m, st)
  {
  }

  lemma TabledIsTallied(all: set<Stats>, scs: seq<Score>, m: Targets)
    requires AllTabled(all) && forall st :: st in all ==> st.scores == GradesFor(scs, m, st)
    ensures Tallied(all, scs, m)
  {
  }

  lemma BuiltLists(cs: seq<Stats>, sss: seq<seq<Stats>>, asgts: seq<Assignment>, secs: seq<Section>)
    requires Built(cs, sss, asgts, secs)
    ensures |cs| == |sss| == |asgts| && forall t :: 0 <= t < |cs| ==>
      StatsList(cs[t].sstats, sss[t]) && |sss[t]| == |secs|
  {
    forall t | 0 <= t < |cs| ensures StatsList(cs[t].sstats, sss[t]) && |sss[t]| == |secs| {
      assert BuiltFor(cs[t], sss[t], asgts[t], secs);
    }
  }

  /** Lines 25-28, on records as buildstats leaves them. */
  method Count(c: Course, cstats: Stats?, ghost cs: seq<Stats>, ghost sss: seq<seq<Stats>>, ghost flat: seq<Student>,
               ghost scores: map<Student, seq<Score>>, ghost pool: set<Score>, ghost all: set<Stats>,
               root: real -> real)
    requires Roster(c.roster, flat, CNext) && ScoresListed(flat, scores) &&
      Targeted(Chained(flat, scores), TargetsOf(pool), all)
    requires StatsList(cstats, cs) && |cs| == |sss| &&
      (forall t :: 0 <= t < |cs| ==> StatsList(cs[t].sstats, sss[t])) && all == Records(cs, sss)
    requires IsRoot(root) && forall st :: st in all ==> Fresh(st)
    modifies all
    ensures var scs, m := Chained(flat, scores), TargetsOf(pool);
      Tallied(all, scs, m) && (forall st :: st in all ==> RankedRecord(st)) && Summed(all, scs, m)
      && Momented(all, scs, m)
  {
    hide Roster, Targeted, Tallied, AllTabled, Summed, Momented, IsRoot, RankedRecord, TargetsOf, Chained, Records,
      StatsList, Fresh, NodesOf;
    FreshMeansEmpty(all);
    ghost var scs, m := Chained(flat, scores), TargetsOf(pool);
    DoFreqs(c, flat, scores, all, pool);
    TalliedIsTabled(all, scs, m);
    NodesAre(all);
    DoQuantiles(cstats, cs, sss, all);
    TabledIsTallied(all, scs, m);
    DoSums(c, flat, scores, all, pool);
    DoMoments(cstats, root, cs, sss, all, scs, m);
  }

  lemma NodesAre(all: set<Stats>)
    ensures forall f :: f in NodesOf(all) ==> exists st :: st in all && f in st.nodes
  {
  }

  /** The course roster that do_links leaves: all sections one after the other, or nobody when there is
      no assignment. */
  ghost function Enrolled(asgts: seq<Assignment>, rosters: seq<seq<Student>>): seq<Student> {
    if asgts == [] then [] else Flat(rosters)
  }

  /** Every record's table and sums are those of exactly its grades, ranks are true, and an assignment's
      class record holds the grades of its sections. */
  ghost predicate Computed(cs: seq<Stats>, sss: seq<seq<Stats>>, scs: seq<Score>, m: Targets)
    requires |cs| == |sss|
    reads Records(cs, sss), set st, f | st in Records(cs, sss) && f in st.nodes :: f
  {
    && Tallied(Records(cs, sss), scs, m) && (forall st :: st in Records(cs, sss) ==> RankedRecord(st))
    && Summed(Records(cs, sss), scs, m) && Momented(Records(cs, sss), scs, m)
    && forall t :: 0 <= t < |cs| ==> multiset(GradesFor(scs, m, cs[t])) == GradesForAll(scs, m, sss[t])
  }

  /** Lines 23-28, on records as buildstats leaves them. */
  method Compute(c: Course, cstats: Stats?, ghost asgts: seq<Assignment>, ghost cs: seq<Stats>,
                 ghost sss: seq<seq<Stats>>, ghost secs: seq<Section>,
                 ghost rosters: seq<seq<Student>>, ghost scores: map<Student, seq<Score>>, ghost pool: set<Score>,
                 ghost all: set<Stats>, root: real -> real)
    requires AssignmentList(c.assignments, asgts) && Distinct(asgts)
    requires SectionList(c.sections, secs) && Distinct(secs)
    requires StatsList(cstats, cs) && Built(cs, sss, asgts, secs) && Sections(secs, rosters) && all == Records(cs, sss)
    requires Distinct(Flat(rosters)) && OwnScores(Flat(rosters), scores) && pool == ScoresOf(Flat(rosters), scores)
    requires IsRoot(root) && Declared(pool, asgts) && forall st :: st in all ==> Fresh(st)
    modifies c`roster, (set x | x in Flat(rosters))`cnext, pool, all
    ensures Roster(c.roster, Enrolled(asgts, rosters), CNext) && ScoresListed(Enrolled(asgts, rosters), scores)
    ensures Computed(cs, sss, Chained(Enrolled(asgts, rosters), scores), TargetsOf(pool))
  {
    hide Built, OwnScores, LinksDone, Tallied, Summed, Momented, IsRoot, RankedRecord, Flat, ScoresOf, TargetsOf,
      Targeted, Chained, ScoresListed, Records, Roster;
    ghost var flat := Flat(rosters);
    ghost var m0 := TargetsOf(pool);
    KeysOf(pool);
    AllListed(flat, scores);
    BuiltLists(cs, sss, asgts, secs);
    DoLinks(c, cstats, asgts, cs, sss, secs, rosters, scores, pool);
    flat := Enrolled(asgts, rosters);
    Nobody(c.roster, scores);
    ghost var m, scs := TargetsOf(pool), Chained(flat, scores);
    forall s | s in scs ensures s in pool {
      ChainedIn(flat, scores, s);
    }
    AllTargeted(m0, m, rosters, scores, asgts, cs, sss, secs, pool, scs);
    Count(c, cstats, cs, sss, flat, scores, pool, all, root);
  }

  lemma Nobody(head: Student?, scores: map<Student, seq<Score>>)
    ensures ScoresListed([], scores) && Chained([], scores) == [] && (head == null ==> Roster(head, [], CNext))
  {
  }

  // ----- buildstats -----------------------------------------------------------------------------------

  /** Lines 62-78: one record per section. Links are constants here, so the list is made from its end. */
  method BuildSections(ap: Assignment, sp: Section?, ghost secs: seq<Section>)
    returns (head: Stats?, ghost ss: seq<Stats>)
    requires SectionList(sp, secs)
    ensures StatsList(head, ss) && |ss| == |secs|
    ensures forall j :: 0 <= j < |ss| ==> ss[j].asgt == ap && ss[j].section == secs[j]
    ensures forall st :: st in ss ==> fresh(st) && Fresh(st)
    decreases |secs|
  {
    head, ss := null, [];
    if sp != null {
      head, ss := BuildSections(ap, sp.next, secs[1..]);
      head := new Stats(ap, sp, null, head);
      ss := [head] + ss;
    }
  }

  /** Lines 47-79: one class record per assignment, heading its section records. */
  method BuildClasses(ap: Assignment?, sp: Section?, ghost asgts: seq<Assignment>, ghost secs: seq<Section>)
    returns (head: Stats?, ghost cs: seq<Stats>, ghost sss: seq<seq<Stats>>)
    requires AssignmentList(ap, asgts) && SectionList(sp, secs)
    ensures StatsList(head, cs) && Built(cs, sss, asgts, secs)
    ensures forall t :: 0 <= t < |cs| ==>
      fresh(cs[t]) && Fresh(cs[t]) && forall st :: st in sss[t] ==> fresh(st) && Fresh(st)
    decreases |asgts|
  {
    hide SectionList;
    head, cs, sss := null, [], [];
    if ap != null {
      head, cs, sss := BuildClasses(ap.next, sp, asgts[1..], secs);
      ghost var ss;
      var sections;
      sections, ss := BuildSections(ap, sp, secs);
      head := new Stats(ap, null, sections, head);
      ghost var cs1, sss1 := cs, sss;
      cs, sss := [head] + cs, [ss] + sss;
      forall t | 0 <= t < |cs| ensures BuiltFor(cs[t], sss[t], asgts[t], secs) {
        if t > 0 { assert BuiltFor(cs1[t - 1], sss1[t - 1], asgts[1..][t - 1], secs); }
      }
    }
  }

  lemma {:induction false} RecordIn(cs: seq<Stats>, sss: seq<seq<Stats>>, st: Stats) returns (t: nat)
    requires |cs| == |sss| && st in Records(cs, sss)
    ensures t < |cs| && (st == cs[t] || st in sss[t])
    decreases |cs|
  {
    t := |cs| - 1;
    if st != cs[t] && st !in sss[t] {
      t := RecordIn(cs[..t], sss[..t], st);
    }
  }

  /** statistics as a whole, for a course as the reader leaves it. */
  method Statistics(c: Course, ghost asgts: seq<Assignment>, ghost secs: seq<Section>, ghost rosters: seq<seq<Student>>,
                    ghost scores: map<Student, seq<Score>>, ghost pool: set<Score>, root: real -> real)
    returns (cstats: Stats?, ghost cs: seq<Stats>, ghost sss: seq<seq<Stats>>)
    requires AssignmentList(c.assignments, asgts) && Distinct(asgts)
    requires SectionList(c.sections, secs) && Distinct(secs) && Sections(secs, rosters)
    requires Distinct(Flat(rosters)) && OwnScores(Flat(rosters), scores) && pool == ScoresOf(Flat(rosters), scores)
    requires Declared(pool, asgts) && IsRoot(root)
    modifies c`roster, (set x | x in Flat(rosters))`cnext, pool
    ensures StatsList(cstats, cs) && Built(cs, sss, asgts, secs) && forall st :: st in Records(cs, sss) ==> fresh(st)
    ensures Roster(c.roster, Enrolled(asgts, rosters), CNext) && ScoresListed(Enrolled(asgts, rosters), scores)
    ensures Computed(cs, sss, Chained(Enrolled(asgts, rosters), scores), TargetsOf(pool))
  {
    hide Built, OwnScores, Flat, ScoresOf, TargetsOf, Chained, ScoresListed, Records, Roster, Computed, StatsList,
      Sections, IsRoot;
    cstats, cs, sss := BuildClasses(c.assignments, c.sections, asgts, secs);
    BuiltLists(cs, sss, asgts, secs);
    ghost var all := Records(cs, sss);
    forall st | st in all ensures fresh(st) && Fresh(st) {
      var t := RecordIn(cs, sss, st);
    }
    Compute(c, cstats, asgts, cs, sss, secs, rosters, scores, pool, all, root);
  }
}
