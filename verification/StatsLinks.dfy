/** do_links (hw2/src/stats.c:93-132): thread the course roster and point every score at its
    statistics. */
module StatsLinks {
  import opened Sequences
  import opened Gradebook

  ghost function Flat(rosters: seq<seq<Student>>): seq<Student> {
    if rosters == [] then [] else Flat(rosters[..|rosters| - 1]) + rosters[|rosters| - 1]
  }

  /** The threading pointer rp when the first k students of the flat roster have been threaded in
      this round. At k == 0 it is NULL in the first round and the last student in later ones: the
      list is a cycle for a moment when the first student is threaded again. */
  ghost predicate Ready(c: Course, rp: Student?, flat: seq<Student>, k: nat)
    reads c, flat
  {
    && k <= |flat|
    && if k == 0 then (if rp == null then c.roster == null else flat != [] && c.roster == flat[0])
       else rp == flat[k - 1] && Roster(c.roster, flat[..k], CNext)
  }

  /** Lines 111-119. */
  method ThreadStudent(c: Course, rp: Student?, stp: Student, ghost flat: seq<Student>,
                       ghost k: nat) returns (rp2: Student)
    requires Ready(c, rp, flat, k) && Distinct(flat) && k < |flat| && stp == flat[k] && (rp != null ==> rp in flat)
    modifies c`roster, (set x | x in flat)`cnext
    ensures Ready(c, rp2, flat, k + 1) && rp2 == stp
  {
    ghost var done := flat[..k];
    assert flat[..k + 1] == done + [stp];
    if rp == null {
      c.roster := stp;
      stp.cnext := null;
    } else {
      rp.cnext := stp;
      stp.cnext := null;
    }
    rp2 := stp;
    forall i | 0 <= i < k ensures Get(flat[i], CNext) == flat[i + 1] {
      assert flat[i] != stp;
      if i < k - 1 {
        assert old(Get(done[i], CNext)) == done[i + 1] && flat[i] != flat[k - 1];
      }
    }
  }

  /** The class and section statistics that each score of the pool points to. */
  type Targets = map<Score, (Stats?, Stats?)>

  ghost function TargetsOf(pool: set<Score>): Targets
    reads pool
  {
    map s | s in pool :: (s.cstats, s.sstats)
  }

  /** From m0 to m1, exactly the scores of part for assignment ap are pointed to csp and ssp. */
  ghost predicate Redirected(m0: Targets, m1: Targets, part: set<Score>, ap: Assignment, csp: Stats, ssp: Stats) {
    && m1.Keys == m0.Keys
    && forall s :: s in m0 ==> m1[s] == if s in part && s.asgt == ap then (csp, ssp) else m0[s]
  }

  lemma RedirectedTwice(m0: Targets, m1: Targets, m2: Targets, a: set<Score>, b: set<Score>, ap: Assignment,
                        csp: Stats, ssp: Stats)
    requires Redirected(m0, m1, a, ap, csp, ssp) && Redirected(m1, m2, b, ap, csp, ssp)
    ensures Redirected(m0, m2, a + b, ap, csp, ssp)
  {
  }

  ghost function Elements(scs: seq<Score>): set<Score> {
    set s | s in scs
  }

  /** Lines 121-128: the scores for assignment ap point to the statistics of ap. */
  method LinkScores(head: Score?, ap: Assignment, csp: Stats, ssp: Stats, ghost scs: seq<Score>, ghost pool: set<Score>)
    requires ScoreList(head, scs) && Elements(scs) <= pool
    modifies pool
    ensures Redirected(old(TargetsOf(pool)), TargetsOf(pool), Elements(scs), ap, csp, ssp)
  {
    var scp := head;
    ghost var k := 0;
    while scp != null
      invariant k <= |scs| && ScoreList(scp, scs[k..])
      invariant Redirected(old(TargetsOf(pool)), TargetsOf(pool), Elements(scs[..k]), ap, csp, ssp)
      decreases |scs| - k
    {
      assert scp == scs[k] && scp in Elements(scs);
      assert Elements(scs[..k + 1]) == Elements(scs[..k]) + {scp} by { assert scs[..k + 1] == scs[..k] + [scp]; }
      if scp.asgt == ap {
        scp.cstats := csp;
        scp.sstats := ssp;
      }
      scp := scp.next;
      k := k + 1;
    }
    assert scs[..k] == scs;
  }

  /** The scores of every student, no two students sharing one. */
  ghost predicate OwnScores(all: seq<Student>, scores: map<Student, seq<Score>>) {
    && (forall x :: x in all ==> x in scores && ScoreList(x.rawscores, scores[x]))
    && (forall x, y, s :: x in all && y in all && x != y && s in scores[x] ==> s !in scores[y])
  }

  ghost function ScoresOf(all: seq<Student>, scores: map<Student, seq<Score>>): set<Score> {
    set x, s | x in all && x in scores && s in scores[x] :: s
  }

  lemma OneMoreStudent(flat: seq<Student>, k: nat, roster: seq<Student>, i: nat, scores: map<Student, seq<Score>>)
    requires OwnScores(flat, scores) && k + |roster| <= |flat| && flat[k..k + |roster|] == roster && i < |roster|
    ensures flat[k + i] == roster[i] && roster[i] in scores && ScoreList(roster[i].rawscores, scores[roster[i]])
    ensures ScoresOf(roster[..i + 1], scores) == ScoresOf(roster[..i], scores) + Elements(scores[roster[i]])
    ensures Elements(scores[roster[i]]) <= ScoresOf(flat, scores)
  {
    SliceAt(flat, k, roster, i);
    assert roster[..i + 1] == roster[..i] + [roster[i]];
  }

  ghost function Nth(roster: seq<Student>, i: nat): Student? {
    if i < |roster| then roster[i] else null
  }

  /** The section roster from head is exactly roster; sorting by next is the only thing that could
      change it. */
  ghost predicate SectionRoster(head: Student?, roster: seq<Student>)
    reads (set x | x in roster)`next
  {
    head == Nth(roster, 0) && forall i :: 0 <= i < |roster| ==> roster[i].next == Nth(roster, i + 1)
  }

  lemma SliceAt(flat: seq<Student>, k: nat, roster: seq<Student>, i: nat)
    requires k + |roster| <= |flat| && flat[k..k + |roster|] == roster && i < |roster|
    ensures flat[k + i] == roster[i] && roster[i] in flat
  {
    assert flat[k..k + |roster|][i] == flat[k + i];
  }

  lemma FirstOf(head: Student?, roster: seq<Student>)
    requires SectionRoster(head, roster)
    ensures head == Nth(roster, 0)
  {
  }

  lemma NextOf(head: Student?, roster: seq<Student>, i: nat)
    requires SectionRoster(head, roster) && i < |roster|
    ensures roster[i].next == Nth(roster, i + 1)
  {
  }

  /** Lines 111-128: one student for one assignment. */
  method LinkStudent(c: Course, rp: Student?, stp: Student, ap: Assignment, csp: Stats, ssp: Stats,
                     ghost flat: seq<Student>, ghost k: nat, ghost scs: seq<Score>, ghost pool: set<Score>)
    returns (rp2: Student)
    requires Ready(c, rp, flat, k) && Distinct(flat) && k < |flat| && stp == flat[k] && (rp != null ==> rp in flat)
    requires ScoreList(stp.rawscores, scs) && Elements(scs) <= pool
    modifies c`roster, (set x | x in flat)`cnext, pool
    ensures Ready(c, rp2, flat, k + 1) && rp2 == stp
    ensures Redirected(old(TargetsOf(pool)), TargetsOf(pool), Elements(scs), ap, csp, ssp)
  {
    rp2 := ThreadStudent(c, rp, stp, flat, k);
    LinkScores(stp.rawscores, ap, csp, ssp, scs, pool);
  }

  /** Lines 110-129: one section for one assignment. */
  method LinkSection(c: Course, rp: Student?, sep: Section, ap: Assignment, csp: Stats, ssp: Stats,
                     ghost flat: seq<Student>,
                     ghost k: nat, ghost roster: seq<Student>, ghost scores: map<Student, seq<Score>>,
                     ghost pool: set<Score>)
    returns (rp2: Student?)
    requires Ready(c, rp, flat, k) && Distinct(flat) && (rp != null ==> rp in flat)
    requires OwnScores(flat, scores) && pool == ScoresOf(flat, scores)
    requires k + |roster| <= |flat| && flat[k..k + |roster|] == roster && SectionRoster(sep.roster, roster)
    modifies c`roster, (set x | x in flat)`cnext, pool
    ensures Ready(c, rp2, flat, k + |roster|) && (rp2 != null ==> rp2 in flat)
    ensures roster == [] ==> rp2 == rp && c.roster == old(c.roster)
    ensures Redirected(old(TargetsOf(pool)), TargetsOf(pool), ScoresOf(roster, scores), ap, csp, ssp)
  {
    hide Ready, OwnScores, ScoresOf, SectionRoster, Distinct, ScoreList, Redirected, Elements, TargetsOf;
    FirstOf(sep.roster, roster);
    rp2 := rp;
    var stp := sep.roster;
    ghost var m0 := TargetsOf(pool);
    ghost var head, i := stp, 0;
    NoneRedirected(m0, scores, ap, csp, ssp);
    assert roster[..0] == [];
    while stp != null
      invariant i <= |roster| && stp == Nth(roster, i) && SectionRoster(head, roster)
      invariant Ready(c, rp2, flat, k + i) && (rp2 != null ==> rp2 in flat)
      invariant i == 0 ==> rp2 == rp && c.roster == old(c.roster)
      invariant Redirected(m0, TargetsOf(pool), ScoresOf(roster[..i], scores), ap, csp, ssp)
      decreases |roster| - i
    {
      OneMoreStudent(flat, k, roster, i, scores);
      ghost var m := TargetsOf(pool);
      rp2 := LinkStudent(c, rp2, stp, ap, csp, ssp, flat, k + i, scores[stp], pool);
      RedirectedTwice(m0, m, TargetsOf(pool), ScoresOf(roster[..i], scores), Elements(scores[stp]), ap, csp, ssp);
      NextOf(head, roster, i);
      i := i + 1;
      stp := stp.next;
    }
    assert roster[..i] == roster;
  }

  lemma NoneRedirected(m: Targets, scores: map<Student, seq<Score>>, ap: Assignment, csp: Stats, ssp: Stats)
    ensures Redirected(m, m, ScoresOf([], scores), ap, csp, ssp)
  {
  }

  /** The section records of one assignment, one per section, and the rosters behind them. */
  ghost predicate Sections(secs: seq<Section>, rosters: seq<seq<Student>>)
    reads secs, (set j, i | 0 <= j < |rosters| && 0 <= i < |rosters[j]| :: rosters[j][i])`next
  {
    |rosters| == |secs| && forall j :: 0 <= j < |secs| ==> SectionRoster(secs[j].roster, rosters[j])
  }

  /** Section j's roster is a piece of the flat roster. */
  lemma {:induction false} FlatPiece(rosters: seq<seq<Student>>, j: nat)
    requires j < |rosters|
    ensures |Flat(rosters[..j])| + |rosters[j]| == |Flat(rosters[..j + 1])| <= |Flat(rosters)|
    ensures Flat(rosters)[|Flat(rosters[..j])|..|Flat(rosters[..j + 1])|] == rosters[j]
    decreases |rosters|
  {
    var n := |rosters| - 1;
    assert rosters[..j + 1][..j] == rosters[..j];
    if j == n {
      assert rosters[..j + 1] == rosters;
    } else {
      FlatPiece(rosters[..n], j);
      assert rosters[..n][..j] == rosters[..j] && rosters[..n][..j + 1] == rosters[..j + 1];
    }
  }

  lemma SectionsApart(rosters: seq<seq<Student>>, i: nat, j: nat)
    requires i < j < |rosters| && Distinct(Flat(rosters))
    ensures forall x :: x in rosters[i] ==> x !in rosters[j]
  {
    hide Flat;
    var flat := Flat(rosters);
    Ordered(rosters, i, j);
    FlatPiece(rosters, i);
    FlatPiece(rosters, j);
    forall p, q | 0 <= p < |rosters[i]| && 0 <= q < |rosters[j]| ensures rosters[i][p] != rosters[j][q] {
      SliceAt(flat, |Flat(rosters[..i])|, rosters[i], p);
      SliceAt(flat, |Flat(rosters[..j])|, rosters[j], q);
    }
  }

  lemma SectionStudents(rosters: seq<seq<Student>>, j: nat)
    requires j < |rosters|
    ensures forall x :: x in rosters[j] ==> x in Flat(rosters)
  {
    FlatPiece(rosters, j);
    forall x | x in rosters[j] ensures x in Flat(rosters) {
      var p :| 0 <= p < |rosters[j]| && rosters[j][p] == x;
      SliceAt(Flat(rosters), |Flat(rosters[..j])|, rosters[j], p);
    }
  }

  lemma {:induction false} Ordered(rosters: seq<seq<Student>>, i: nat, j: nat)
    requires i < j <= |rosters|
    ensures |Flat(rosters[..i + 1])| <= |Flat(rosters[..j])|
    decreases j
  {
    if i + 1 < j {
      Ordered(rosters, i, j - 1);
      FlatPiece(rosters, j - 1);
    }
  }

  lemma FlatNone(rosters: seq<seq<Student>>)
    ensures Flat(rosters[..0]) == []
  {
  }

  /** The scores for ap of the first n sections point to csp and their own section record; scores for
      other assignments are as in m0. */
  ghost predicate RoundDone(m0: Targets, m1: Targets, rosters: seq<seq<Student>>, n: nat, scores: map<Student,
                            seq<Score>>,
                            ap: Assignment, csp: Stats, ss: seq<Stats>)
    requires n <= |rosters| <= |ss|
  {
    && m1.Keys == m0.Keys
    && (forall s :: s in m0 && s.asgt != ap ==> m1[s] == m0[s])
    && (forall j, s :: 0 <= j < n && s in m0 && s in ScoresOf(rosters[j], scores) && s.asgt == ap ==>
          m1[s] == (csp, ss[j]))
  }

  /** Sections share no score, so the next section leaves the earlier ones done. */
  lemma OneMoreSection(m0: Targets, m1: Targets, m2: Targets, rosters: seq<seq<Student>>, n: nat,
                       scores: map<Student, seq<Score>>,
                       ap: Assignment, csp: Stats, ss: seq<Stats>)
    requires n < |rosters| <= |ss| && Distinct(Flat(rosters)) && OwnScores(Flat(rosters), scores)
    requires RoundDone(m0, m1, rosters, n, scores, ap, csp, ss)
    requires Redirected(m1, m2, ScoresOf(rosters[n], scores), ap, csp, ss[n])
    ensures RoundDone(m0, m2, rosters, n + 1, scores, ap, csp, ss)
  {
    hide Flat, Distinct;
    SectionStudents(rosters, n);
    forall j, s | 0 <= j < n && s in ScoresOf(rosters[j], scores) ensures s !in ScoresOf(rosters[n], scores) {
      SectionsApart(rosters, j, n);
      SectionStudents(rosters, j);
      var x :| x in rosters[j] && x in scores && s in scores[x];
      assert forall y :: y in rosters[n] ==> y != x && s !in scores[y];
    }
  }

  /** Lines 108-130: one assignment for all sections. */
  method LinkRound(c: Course, rp: Student?, ap: Assignment, csp: Stats, ghost secs: seq<Section>,
                   ghost rosters: seq<seq<Student>>,
                   ghost scores: map<Student, seq<Score>>, ghost ss: seq<Stats>, ghost pool: set<Score>)
    returns (rp2: Student?)
    requires SectionList(c.sections, secs) && StatsList(csp.sstats, ss) && |ss| == |secs| && Sections(secs, rosters)
    requires Ready(c, rp, Flat(rosters), 0) && Distinct(Flat(rosters)) && (rp != null ==> rp in Flat(rosters))
    requires OwnScores(Flat(rosters), scores) && pool == ScoresOf(Flat(rosters), scores)
    modifies c`roster, (set x | x in Flat(rosters))`cnext, pool
    ensures Ready(c, rp2, Flat(rosters), |Flat(rosters)|) && (rp2 != null ==> rp2 in Flat(rosters))
    ensures Sections(secs, rosters)
    ensures RoundDone(old(TargetsOf(pool)), TargetsOf(pool), rosters, |rosters|, scores, ap, csp, ss)
  {
    hide Ready, OwnScores, ScoresOf, Flat, Distinct, SectionRoster, RoundDone, Redirected, TargetsOf;
    ghost var flat := Flat(rosters);
    rp2 := rp;
    var sep := c.sections;
    var ssp := csp.sstats;
    ghost var m0 := TargetsOf(pool);
    ghost var j := 0;
    FlatNone(rosters);
    NoSectionDone(m0, rosters, scores, ap, csp, ss);
    while sep != null
      invariant j <= |secs| && SectionList(sep, secs[j..]) && StatsList(ssp, ss[j..]) && Sections(secs, rosters)
      invariant Ready(c, rp2, flat, |Flat(rosters[..j])|) && (rp2 != null ==> rp2 in flat)
      invariant RoundDone(m0, TargetsOf(pool), rosters, j, scores, ap, csp, ss)
      decreases |secs| - j
    {
      FlatPiece(rosters, j);
      ghost var m := TargetsOf(pool);
      rp2 := LinkSection(c, rp2, sep, ap, csp, ssp, flat, |Flat(rosters[..j])|, rosters[j], scores, pool);
      OneMoreSection(m0, m, TargetsOf(pool), rosters, j, scores, ap, csp, ss);
      j := j + 1;
      sep := sep.next;
      ssp := ssp.next;
    }
    assert rosters[..j] == rosters;
  }

  lemma NoSectionDone(m: Targets, rosters: seq<seq<Student>>, scores: map<Student, seq<Score>>, ap: Assignment,
                      csp: Stats, ss: seq<Stats>)
    requires |rosters| <= |ss|
    ensures RoundDone(m, m, rosters, 0, scores, ap, csp, ss)
  {
  }

  /** What buildstats leaves (lines 33-80): one class record per assignment, each heading one section
      record per section. */
  ghost predicate Built(cs: seq<Stats>, sss: seq<seq<Stats>>, asgts: seq<Assignment>, secs: seq<Section>) {
    && |cs| == |sss| == |asgts|
    && forall t :: 0 <= t < |cs| ==> BuiltFor(cs[t], sss[t], asgts[t], secs)
  }

  ghost predicate BuiltFor(csp: Stats, ss: seq<Stats>, ap: Assignment, secs: seq<Section>) {
    && csp.asgt == ap && csp.section == null && StatsList(csp.sstats, ss) && |ss| == |secs|
    && forall j :: 0 <= j < |secs| ==> ss[j].asgt == ap && ss[j].section == secs[j]
  }

  /** The first n assignments are linked, each to its own statistics; scores for no such assignment
      are as in m0. */
  ghost predicate LinksDone(m0: Targets, m1: Targets, rosters: seq<seq<Student>>, scores: map<Student, seq<Score>>,
                            asgts: seq<Assignment>,
                            n: nat, cs: seq<Stats>, sss: seq<seq<Stats>>)
    requires n <= |asgts| == |cs| == |sss| && forall t :: 0 <= t < |sss| ==> |sss[t]| == |rosters|
  {
    && m1.Keys == m0.Keys
    && (forall s :: s in m0 && s.asgt !in asgts[..n] ==> m1[s] == m0[s])
    && forall t, j, s :: (0 <= t < n && 0 <= j < |rosters| && s in m0 &&
                          s in ScoresOf(rosters[j], scores) && s.asgt == asgts[t]) ==>
         m1[s] == (cs[t], sss[t][j])
  }

  lemma OneMoreAssignment(m0: Targets, m1: Targets, m2: Targets, rosters: seq<seq<Student>>, scores: map<Student,
                          seq<Score>>,
                          asgts: seq<Assignment>, n: nat, cs: seq<Stats>, sss: seq<seq<Stats>>)
    requires n < |asgts| == |cs| == |sss| && (forall t :: 0 <= t < |sss| ==> |sss[t]| == |rosters|) && Distinct(asgts)
    requires LinksDone(m0, m1, rosters, scores, asgts, n, cs, sss)
    requires RoundDone(m1, m2, rosters, |rosters|, scores, asgts[n], cs[n], sss[n])
    ensures LinksDone(m0, m2, rosters, scores, asgts, n + 1, cs, sss)
  {
    hide ScoresOf;
    assert asgts[..n + 1] == asgts[..n] + [asgts[n]];
  }

  /** A finished round leaves the whole roster, and the next round can start on it. */
  lemma RoundEnds(c: Course, rp: Student?, flat: seq<Student>)
    requires Ready(c, rp, flat, |flat|) && (rp != null ==> rp in flat)
    ensures Roster(c.roster, flat, CNext) || !Distinct(flat)
    ensures Ready(c, rp, flat, 0)
  {
    assert flat[..|flat|] == flat;
  }

  /** Lines 93-132. The course roster is threaded once per assignment and ends as the section rosters
      one after the other; without an assignment it stays empty. */
  method DoLinks(c: Course, cstats: Stats?, ghost asgts: seq<Assignment>, ghost cs: seq<Stats>,
                 ghost sss: seq<seq<Stats>>, ghost secs: seq<Section>,
                 ghost rosters: seq<seq<Student>>, ghost scores: map<Student, seq<Score>>, ghost pool: set<Score>)
    requires AssignmentList(c.assignments, asgts) && Distinct(asgts) && SectionList(c.sections, secs)
    requires StatsList(cstats, cs) && Built(cs, sss, asgts, secs) && Sections(secs, rosters)
    requires Distinct(Flat(rosters)) && OwnScores(Flat(rosters), scores) && pool == ScoresOf(Flat(rosters), scores)
    modifies c`roster, (set x | x in Flat(rosters))`cnext, pool
    ensures if asgts == [] then c.roster == null else Roster(c.roster, Flat(rosters), CNext)
    ensures Sections(secs, rosters)
    ensures LinksDone(old(TargetsOf(pool)), TargetsOf(pool), rosters, scores, asgts, |asgts|, cs, sss)
  {
    hide OwnScores, ScoresOf, RoundDone, LinksDone, Flat, SectionRoster, SectionList, Roster, TargetsOf;
    ghost var flat := Flat(rosters);
    ghost var m0 := TargetsOf(pool);
    var csp := cstats;
    var rp: Student? := null;
    c.roster := null;
    var ap := c.assignments;
    ghost var t := 0;
    NothingLinked(m0, rosters, scores, asgts, cs, sss);
    while ap != null
      invariant t <= |asgts| && AssignmentList(ap, asgts[t..]) && StatsList(csp, cs[t..]) && Sections(secs, rosters)
      invariant Ready(c, rp, flat, 0) && (rp != null ==> rp in flat)
      invariant if t == 0 then c.roster == null else Roster(c.roster, flat, CNext)
      invariant LinksDone(m0, TargetsOf(pool), rosters, scores, asgts, t, cs, sss)
      decreases |asgts| - t
    {
      assert ap == asgts[t] && BuiltFor(csp, sss[t], asgts[t], secs);
      ghost var m := TargetsOf(pool);
      rp := LinkRound(c, rp, ap, csp, secs, rosters, scores, sss[t], pool);
      RoundEnds(c, rp, flat);
      OneMoreAssignment(m0, m, TargetsOf(pool), rosters, scores, asgts, t, cs, sss);
      t := t + 1;
      ap := ap.next;
      csp := csp.next;
    }
  }

  lemma NothingLinked(m: Targets, rosters: seq<seq<Student>>, scores: map<Student, seq<Score>>, asgts: seq<Assignment>,
                      cs: seq<Stats>, sss: seq<seq<Stats>>)
    requires |asgts| == |cs| == |sss| && forall t :: 0 <= t < |sss| ==> |sss[t]| == |rosters|
    ensures LinksDone(m, m, rosters, scores, asgts, 0, cs, sss)
  {
  }

  /** So every score of a course assignment ends at the statistics of its own assignment, for the
      class and for its student's own section. */
  lemma OwnStatistics(m0: Targets, m1: Targets, rosters: seq<seq<Student>>, scores: map<Student, seq<Score>>,
                      asgts: seq<Assignment>,
                      cs: seq<Stats>, sss: seq<seq<Stats>>, secs: seq<Section>, j: nat, x: Student, s: Score)
    requires Built(cs, sss, asgts, secs) && |rosters| == |secs| &&
      LinksDone(m0, m1, rosters, scores, asgts, |asgts|, cs, sss)
    requires j < |secs| && x in rosters[j] && x in scores && s in scores[x] && s in m0 && s.asgt != null &&
      s.asgt in asgts
    ensures s in m1 && m1[s].0 != null && m1[s].0 in cs && m1[s].0.asgt == s.asgt
    ensures m1[s].1 != null && m1[s].1.asgt == s.asgt && m1[s].1.section == secs[j]
  {
    var t :| 0 <= t < |asgts| && asgts[t] == s.asgt;
    assert s in ScoresOf(rosters[j], scores);
    assert m1[s] == (cs[t], sss[t][j]);
    assert BuiltFor(cs[t], sss[t], asgts[t], secs);
  }
}
