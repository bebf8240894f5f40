/** do_sums, stddev and linear (hw2/src/stats.c:251-348, hw2/src/normal.c:171-184) over exact reals. */
module Moments {
  import opened Gradebook
  import opened RealFacts
  import opened StatsLinks
  import opened FrequencyTables

  ghost function Sum(gs: seq<real>): real {
    if gs == [] then 0.0 else Sum(gs[..|gs| - 1]) + gs[|gs| - 1]
  }

  ghost function Square(x: real): (r: real)
    ensures r >= 0.0
  {
    x * x
  }

  ghost function SumSq(gs: seq<real>): real {
    if gs == [] then 0.0 else SumSq(gs[..|gs| - 1]) + Square(gs[|gs| - 1])
  }

  ghost predicate IsLeast(gs: seq<real>, x: real) {
    x in gs && forall g :: g in gs ==> x <= g
  }

  ghost predicate IsGreatest(gs: seq<real>, x: real) {
    x in gs && forall g :: g in gs ==> g <= x
  }

  /** A class record's minimum and maximum are right; a section record keeps its first grade, since
      lines 283-284 compare and store in the class record again. */
  ghost predicate Extremes(classRecord: bool, gs: seq<real>, min: real, max: real) {
    gs != [] ==> if classRecord then IsLeast(gs, min) && IsGreatest(gs, max) else min == max == gs[0]
  }

  /** A record holds the count, the sum, the sum of squares and the extremes of gs. */
  ghost predicate SumsOf(st: Stats, gs: seq<real>)
    reads st`valid, st`sum, st`sumsq, st`min, st`max
  {
    && st.valid == |gs| && st.sum == Sum(gs) && st.sumsq == SumSq(gs)
    && Extremes(st.section == null, gs, st.min, st.max)
  }

  /** Every record holds those of the grades that count for it. */
  ghost predicate Summed(all: set<Stats>, scs: seq<Score>, m: Targets)
    reads all`valid, all`sum, all`sumsq, all`min, all`max
  {
    forall st :: st in all ==> SumsOf(st, GradesFor(scs, m, st))
  }

  lemma LeastLast(gs: seq<real>, x: real, g: real)
    ensures gs != [] && IsLeast(gs, x) ==> IsLeast(gs + [g], if g < x then g else x)
    ensures gs == [] ==> IsLeast(gs + [g], g) && IsGreatest(gs + [g], g)
    ensures gs != [] && IsGreatest(gs, x) ==> IsGreatest(gs + [g], if g > x then g else x)
  {
    assert g in gs + [g] && forall h :: h in gs + [g] <==> h in gs || h == g;
  }

  lemma ExtremesLast(gs: seq<real>, g: real)
    ensures forall min, max :: Extremes(true, gs, min, max) ==>
      Extremes(true, gs + [g], if gs == [] || g < min then g else min, if gs == [] || g > max then g else max)
    ensures forall min, max :: Extremes(false, gs, min, max) ==>
      Extremes(false, gs + [g], if gs == [] then g else min, if gs == [] then g else max)
  {
    hide IsLeast, IsGreatest;
    forall min, max | Extremes(true, gs, min, max)
      ensures Extremes(true, gs + [g], if gs == [] || g < min then g else min, if gs == [] || g > max then g else max)
    {
      LeastLast(gs, min, g);
      LeastLast(gs, max, g);
    }
  }

  /** So a section's recorded minimum and maximum are right exactly when all its grades are equal. */
  lemma SectionExtremes(gs: seq<real>, min: real, max: real)
    requires gs != [] && Extremes(false, gs, min, max)
    ensures IsLeast(gs, min) && IsGreatest(gs, max) <==> forall g :: g in gs ==> g == gs[0]
  {
    assert gs[0] in gs;
  }

  lemma SumLast(gs: seq<real>, g: real)
    ensures Sum(gs + [g]) == Sum(gs) + g && SumSq(gs + [g]) == SumSq(gs) + Square(g)
  {
    assert (gs + [g])[..|gs|] == gs;
  }

  /** Lines 276-285. */
  method Widen(csp: Stats, ssp: Stats, g: real)
    requires csp != ssp
    modifies csp`valid, csp`min, csp`max, ssp`valid, ssp`min, ssp`max
    ensures csp.valid == old(csp.valid) + 1 && ssp.valid == old(ssp.valid) + 1
    ensures csp.min == if old(csp.valid) == 0 || g < old(csp.min) then g else old(csp.min)
    ensures csp.max == if old(csp.valid) == 0 || g > old(csp.max) then g else old(csp.max)
    ensures ssp.min == if old(ssp.valid) == 0 then g else old(ssp.min)
    ensures ssp.max == if old(ssp.valid) == 0 then g else old(ssp.max)
  {
    if csp.valid == 0 {
      csp.min, csp.max := g, g;
    } else {
      if g < csp.min { csp.min := g; }
      if g > csp.max { csp.max := g; }
    }
    csp.valid := csp.valid + 1;
    if ssp.valid == 0 {
      ssp.min, ssp.max := g, g;
    } else {
      if g < csp.min { csp.min := g; }
      if g > csp.max { csp.max := g; }
    }
    ssp.valid := ssp.valid + 1;
  }

  /** Lines 272-291. */
  method SumScore(scp: Score, ghost all: set<Stats>, ghost scs: seq<Score>, ghost m: Targets)
    requires Summed(all, scs, m) && Targeted([scp], m, all) && m[scp] == (scp.cstats, scp.sstats)
    modifies all`valid, all`sum, all`sumsq, all`min, all`max
    ensures Summed(all, scs + [scp], m)
  {
    hide GradesFor, Sum, SumSq, Extremes;
    assert scp in [scp];
    if scp.tallies {
      var csp, ssp := scp.cstats, scp.sstats;
      var g := scp.grade;
      ghost var cs, ss := GradesFor(scs, m, csp), GradesFor(scs, m, ssp);
      assert SumsOf(csp, cs) && SumsOf(ssp, ss);
      ExtremesLast(cs, g);
      ExtremesLast(ss, g);
      Widen(csp, ssp, g);
      csp.sum := csp.sum + g;
      ssp.sum := ssp.sum + g;
      g := g * g;
      csp.sumsq := csp.sumsq + g;
      ssp.sumsq := ssp.sumsq + g;
      SumLast(cs, scp.grade);
      SumLast(ss, scp.grade);
      assert SumsOf(csp, cs + [scp.grade]) && SumsOf(ssp, ss + [scp.grade]);
    }
    forall st | st in all ensures SumsOf(st, GradesFor(scs + [scp], m, st)) {
      GradesForLast(scs, scp, m, st);
      assert GradesFor(scs, m, st) + [] == GradesFor(scs, m, st);
    }
  }

  /** Lines 271-292: one student. */
  method SumStudent(stp: Student, ghost scs: seq<Score>, ghost all: set<Stats>, ghost done: seq<Score>,
                    ghost pool: set<Score>)
    requires Summed(all, done, TargetsOf(pool)) && ScoreList(stp.rawscores, scs) && Targeted(scs, TargetsOf(pool), all)
    modifies all`valid, all`sum, all`sumsq, all`min, all`max
    ensures Summed(all, done + scs, TargetsOf(pool))
  {
    hide Summed;
    var scp := stp.rawscores;
    ghost var k := 0;
    ghost var m := TargetsOf(pool);
    assert done + scs[..0] == done;
    while scp != null
      invariant k <= |scs| && ScoreList(scp, scs[k..]) && TargetsOf(pool) == m
      invariant Summed(all, done + scs[..k], m)
      decreases |scs| - k
    {
      assert scp == scs[k];
      assert done + scs[..k] + [scp] == done + scs[..k + 1];
      SumScore(scp, all, done + scs[..k], m);
      scp := scp.next;
      k := k + 1;
    }
    assert done + scs[..k] == done + scs;
  }

  lemma NothingSummed(all: set<Stats>, m: Targets)
    requires forall st :: st in all ==> st.valid == 0 && st.sum == 0.0 && st.sumsq == 0.0
    ensures Summed(all, [], m)
  {
  }

  /** Lines 261-294, on records as buildstats leaves them. */
  method DoSums(c: Course, ghost xs: seq<Student>, ghost scores: map<Student, seq<Score>>, ghost all: set<Stats>,
                ghost pool: set<Score>)
    requires Roster(c.roster, xs, CNext) && ScoresListed(xs, scores) &&
      Targeted(Chained(xs, scores), TargetsOf(pool), all)
    requires forall st :: st in all ==> st.valid == 0 && st.sum == 0.0 && st.sumsq == 0.0
    modifies all`valid, all`sum, all`sumsq, all`min, all`max
    ensures Summed(all, Chained(xs, scores), TargetsOf(pool))
  {
    hide Roster, Targeted, Summed, SumsOf;
    NothingSummed(all, TargetsOf(pool));
    var stp := c.roster;
    ghost var k := 0;
    ghost var m := TargetsOf(pool);
    RosterStep(c.roster, xs, 0);
    while stp != null
      invariant k <= |xs| && stp == Nth(xs, k) && Roster(c.roster, xs, CNext) && TargetsOf(pool) == m
      invariant Summed(all, Chained(xs[..k], scores), m)
      decreases |xs| - k
    {
      assert xs[..k + 1][..k] == xs[..k];
      TargetedPart(xs, k, scores, m, all);
      SumStudent(stp, scores[stp], all, Chained(xs[..k], scores), pool);
      RosterStep(c.roster, xs, k);
      stp := stp.cnext;
      k := k + 1;
    }
    assert xs[..k] == xs;
  }

  lemma {:induction false} SumDrop(gs: seq<real>, i: nat)
    requires i < |gs|
    ensures Sum(gs) == Sum(gs[..i] + gs[i + 1..]) + gs[i]
    ensures SumSq(gs) == SumSq(gs[..i] + gs[i + 1..]) + Square(gs[i])
    decreases |gs|
  {
    var n := |gs| - 1;
    if i < n {
      SumDrop(gs[..n], i);
      assert gs[..i] + gs[i + 1..] == gs[..n][..i] + gs[..n][i + 1..] + [gs[n]];
      SumLast(gs[..n][..i] + gs[..n][i + 1..], gs[n]);
    } else {
      assert gs[..i] + gs[i + 1..] == gs[..n];
    }
  }

  lemma DropSame(gs: seq<real>, hs: seq<real>) returns (i: nat)
    requires multiset(gs) == multiset(hs) && gs != []
    ensures i < |hs| && hs[i] == gs[|gs| - 1] && multiset(gs[..|gs| - 1]) == multiset(hs[..i] + hs[i + 1..])
  {
    var n := |gs| - 1;
    var rest, g := gs[..n], gs[n];
    assert gs == rest + [g];
    assert multiset(gs) == multiset(rest) + multiset{g};
    assert g in multiset(gs);
    assert g in hs;
    i :| 0 <= i < |hs| && hs[i] == g;
    assert hs == hs[..i] + [g] + hs[i + 1..];
    var others := hs[..i] + hs[i + 1..];
    assert multiset(hs) == multiset(hs[..i]) + multiset{g} + multiset(hs[i + 1..]);
    assert multiset(others) == multiset(hs[..i]) + multiset(hs[i + 1..]);
    assert multiset(rest) == multiset(gs) - multiset{g} == multiset(others);
  }

  /** The order of the grades does not matter. */
  lemma {:induction false} SumOfSame(gs: seq<real>, hs: seq<real>)
    requires multiset(gs) == multiset(hs)
    ensures |gs| == |hs| && Sum(gs) == Sum(hs) && SumSq(gs) == SumSq(hs)
    decreases |gs|
  {
    assert |multiset(gs)| == |gs| && |multiset(hs)| == |hs|;
    if gs != [] {
      var i := DropSame(gs, hs);
      SumDrop(hs, i);
      SumOfSame(gs[..|gs| - 1], hs[..i] + hs[i + 1..]);
    }
  }

  /** The grades of the records one after the other. */
  ghost function Joined(scs: seq<Score>, m: Targets, sts: seq<Stats>): (gs: seq<real>)
    ensures multiset(gs) == GradesForAll(scs, m, sts)
  {
    if sts == [] then [] else Joined(scs, m, sts[..|sts| - 1]) + GradesFor(scs, m, sts[|sts| - 1])
  }

  /** The sums of several records together. */
  ghost function TotalSum(sts: seq<Stats>): real
    reads set st | st in sts
  {
    if sts == [] then 0.0 else TotalSum(sts[..|sts| - 1]) + sts[|sts| - 1].sum
  }

  ghost function TotalSumSq(sts: seq<Stats>): real
    reads set st | st in sts
  {
    if sts == [] then 0.0 else TotalSumSq(sts[..|sts| - 1]) + sts[|sts| - 1].sumsq
  }

  ghost function TotalValid(sts: seq<Stats>): int
    reads set st | st in sts
  {
    if sts == [] then 0 else TotalValid(sts[..|sts| - 1]) + sts[|sts| - 1].valid
  }

  lemma {:induction false} TotalsJoined(all: set<Stats>, scs: seq<Score>, m: Targets, sts: seq<Stats>)
    requires Summed(all, scs, m) && forall st :: st in sts ==> st in all
    ensures var gs := Joined(scs, m, sts);
      TotalSum(sts) == Sum(gs) && TotalSumSq(sts) == SumSq(gs) && TotalValid(sts) == |gs|
    decreases |sts|
  {
    hide GradesFor;
    if sts != [] {
      var n := |sts| - 1;
      TotalsJoined(all, scs, m, sts[..n]);
      SumConcat(Joined(scs, m, sts[..n]), GradesFor(scs, m, sts[n]));
    }
  }

  /** The sums of an assignment's class record are those of its section records together. */
  lemma ClassSums(all: set<Stats>, scs: seq<Score>, m: Targets, csp: Stats, ss: seq<Stats>)
    requires Summed(all, scs, m) && csp in all && forall st :: st in ss ==> st in all
    requires multiset(GradesFor(scs, m, csp)) == GradesForAll(scs, m, ss)
    ensures csp.sum == TotalSum(ss) && csp.sumsq == TotalSumSq(ss) && csp.valid == TotalValid(ss)
  {
    hide GradesFor;
    TotalsJoined(all, scs, m, ss);
    SumOfSame(GradesFor(scs, m, csp), Joined(scs, m, ss));
  }

  lemma {:induction false} SumConcat(gs: seq<real>, hs: seq<real>)
    ensures Sum(gs + hs) == Sum(gs) + Sum(hs) && SumSq(gs + hs) == SumSq(gs) + SumSq(hs)
    decreases |hs|
  {
    if hs == [] {
      assert gs + hs == gs;
    } else {
      var n := |hs| - 1;
      SumConcat(gs, hs[..n]);
      assert (gs + hs)[..|gs| + n] == gs + hs[..n];
    }
  }

  /** The squared distances of the grades from x together. */
  ghost function Spread(gs: seq<real>, x: real): (d: real)
    ensures d >= 0.0
  {
    if gs == [] then 0.0 else Spread(gs[..|gs| - 1], x) + Square(gs[|gs| - 1] - x)
  }

  /** The distances from x by the moments of n grades. */
  ghost predicate ByMoments(d: real, n: int, s: real, q: real, x: real) {
    d == q - 2.0 * x * s + n as real * Square(x)
  }

  lemma {:induction false} SpreadBySums(gs: seq<real>, x: real)
    ensures ByMoments(Spread(gs, x), |gs|, Sum(gs), SumSq(gs), x)
    decreases |gs|
  {
    hide Square, ByMoments;
    if gs == [] {
      NoMoments(x);
    } else {
      var n := |gs| - 1;
      var rest := gs[..n];
      SpreadBySums(rest, x);
      OneMoreMoment(Spread(rest, x), n, Sum(rest), SumSq(rest), x, gs[n]);
    }
  }

  lemma NoMoments(x: real)
    ensures ByMoments(0.0, 0, 0.0, 0.0, x)
  {
  }

  lemma OneMoreMoment(d: real, n: int, s: real, q: real, x: real, g: real)
    requires ByMoments(d, n, s, q, x)
    ensures ByMoments(d + Square(g - x), n + 1, s + g, q + Square(g), x)
  {
    assert Square(g - x) == Square(g) - 2.0 * (x * g) + Square(x);
    assert 2.0 * x * (s + g) == 2.0 * x * s + 2.0 * (x * g);
    assert (n + 1) as real == n as real + 1.0;
    assert (n as real + 1.0) * Square(x) == n as real * Square(x) + Square(x);
  }

  ghost function Mean(gs: seq<real>): real
    requires gs != []
  {
    Sum(gs) / |gs| as real
  }

  /** What stddev takes the square root of (line 346). */
  function Radicand(n: int, sum: real, sumsq: real): real
    requires n >= 2
  {
    (sumsq - sum * sum / n as real) / (n as real - 1.0)
  }

  /** The radicand is the sample variance: never negative, and zero only without spread. */
  lemma RadicandIsVariance(gs: seq<real>)
    requires |gs| >= 2
    ensures Radicand(|gs|, Sum(gs), SumSq(gs)) == Spread(gs, Mean(gs)) / (|gs| as real - 1.0) >= 0.0
    ensures |gs| as real * SumSq(gs) >= Sum(gs) * Sum(gs)
    ensures Radicand(|gs|, Sum(gs), SumSq(gs)) == 0.0 <==> forall g :: g in gs ==> g == Mean(gs)
  {
    hide Spread, Sum, SumSq, Radicand, Square, ByMoments;
    SpreadBySums(gs, Mean(gs));
    SpreadAtMean(|gs|, Sum(gs), SumSq(gs), Mean(gs), Spread(gs, Mean(gs)));
    NoSpread(gs, Mean(gs));
  }

  // ----- do_moments -----------------------------------------------------------------------------------

  /** root stands for sqrt. */
  ghost predicate IsRoot(root: real -> real) {
    forall x: real :: x >= 0.0 ==> root(x) >= 0.0 && Square(root(x)) == x
  }

  /** Lines 341-348. */
  method StdDev(n: int, sum: real, sumsq: real, root: real -> real) returns (r: real)
    ensures r == if n >= 2 then root(Radicand(n, sum, sumsq)) else 0.0
  {
    if n >= 2 {
      return root((sumsq - sum * sum / n as real) / (n as real - 1.0));
    } else {
      return 0.0;
    }
  }

  /** The mean of the grades and the root of their sample variance; both are 0 where there is none. */
  ghost predicate MeanAndDeviation(gs: seq<real>, mean: real, dev: real) {
    && mean == (if gs == [] then 0.0 else Mean(gs))
    && (if |gs| < 2 then dev == 0.0 else dev >= 0.0 && Square(dev) == Spread(gs, Mean(gs)) / (|gs| as real - 1.0))
  }

  ghost predicate MomentsOf(st: Stats, gs: seq<real>)
    reads st`mean, st`stddev
  {
    MeanAndDeviation(gs, st.mean, st.stddev)
  }

  /** Lines 309-321 and 322-336, for one record. */
  method Moment(st: Stats, root: real -> real, ghost gs: seq<real>)
    requires SumsOf(st, gs) && IsRoot(root)
    modifies st`mean, st`stddev
    ensures MomentsOf(st, gs)
  {
    hide Sum, SumSq, Spread, Square, Radicand, Extremes;
    if st.valid != 0 {
      st.mean := st.sum / st.valid as real;
      if st.valid == 1 {
        st.stddev := 0.0;
      } else {
        RadicandIsVariance(gs);
        st.stddev := StdDev(st.valid, st.sum, st.sumsq, root);
      }
    } else {
      st.mean := 0.0;
      st.stddev := 0.0;
    }
  }

  /** All records of done have their moments. */
  ghost predicate Momented(done: set<Stats>, scs: seq<Score>, m: Targets)
    reads done`mean, done`stddev
  {
    forall st :: st in done ==> MomentsOf(st, GradesFor(scs, m, st))
  }

  method MomentRecord(st: Stats, root: real -> real, ghost all: set<Stats>, ghost done: set<Stats>,
                      ghost scs: seq<Score>, ghost m: Targets)
    requires Summed(all, scs, m) && IsRoot(root) && st in all && done <= all && Momented(done, scs, m)
    modifies all`mean, all`stddev
    ensures Momented(done + {st}, scs, m)
  {
    hide SumsOf, MeanAndDeviation, GradesFor, IsRoot;
    Moment(st, root, GradesFor(scs, m, st));
  }

  /** Lines 322-337. */
  method MomentSections(head: Stats?, root: real -> real, ghost ss: seq<Stats>, ghost all: set<Stats>,
                        ghost done: set<Stats>, ghost scs: seq<Score>, ghost m: Targets)
    requires StatsList(head, ss) && Members(ss) <= all && IsRoot(root)
    requires Summed(all, scs, m) && done <= all && Momented(done, scs, m)
    modifies all`mean, all`stddev
    ensures Momented(done + Members(ss), scs, m)
  {
    hide Summed, Momented, IsRoot;
    var ssp := head;
    ghost var j := 0;
    assert done + Members(ss[..0]) == done;
    while ssp != null
      invariant j <= |ss| && StatsList(ssp, ss[j..])
      invariant Momented(done + Members(ss[..j]), scs, m)
      decreases |ss| - j
    {
      assert ssp == ss[j] && ssp in Members(ss);
      assert ss[..j + 1] == ss[..j] + [ssp];
      assert done + Members(ss[..j + 1]) == done + Members(ss[..j]) + {ssp};
      MomentRecord(ssp, root, all, done + Members(ss[..j]), scs, m);
      ssp := ssp.next;
      j := j + 1;
    }
    assert ss[..j] == ss;
  }

  /** Lines 299-338. */
  method DoMoments(cstats: Stats?, root: real -> real, ghost cs: seq<Stats>, ghost sss: seq<seq<Stats>>,
                   ghost all: set<Stats>, ghost scs: seq<Score>, ghost m: Targets)
    requires StatsList(cstats, cs) && |cs| == |sss| && forall t :: 0 <= t < |cs| ==> StatsList(cs[t].sstats, sss[t])
    requires all == Records(cs, sss) && Summed(all, scs, m) && IsRoot(root)
    modifies all`mean, all`stddev
    ensures Momented(all, scs, m)
  {
    hide Summed, Momented, IsRoot;
    var csp := cstats;
    ghost var t := 0;
    NoMoment(scs, m);
    assert Records(cs[..0], sss[..0]) == {};
    while csp != null
      invariant t <= |cs| && StatsList(csp, cs[t..])
      invariant Momented(Records(cs[..t], sss[..t]), scs, m)
      decreases |cs| - t
    {
      assert cs[..t + 1][..t] == cs[..t] && sss[..t + 1][..t] == sss[..t];
      RecordsGrow(cs, sss, t);
      MomentRecord(csp, root, all, Records(cs[..t], sss[..t]), scs, m);
      MomentSections(csp.sstats, root, sss[t], all, Records(cs[..t], sss[..t]) + {csp}, scs, m);
      csp := csp.next;
      t := t + 1;
    }
    assert cs[..t] == cs && sss[..t] == sss;
  }

  lemma NoMoment(scs: seq<Score>, m: Targets)
    ensures Momented({}, scs, m)
  {
  }

  // ----- the variance ---------------------------------------------------------------------------------

  lemma SpreadAtMean(c: int, s: real, q: real, m: real, d: real)
    requires c > 1 && m == s / c as real && ByMoments(d, c, s, q, m) && d >= 0.0
    ensures Radicand(c, s, q) == d / (c as real - 1.0) >= 0.0
    ensures c as real * q >= s * s
    ensures Radicand(c, s, q) == 0.0 <==> d == 0.0
  {
    var n := c as real;
    TimesQuotient(s, n);
    MeanSquares(n, m, s);
    var nmm := n * (m * m);
    assert d == q - nmm;
    Quotient(d, n - 1.0);
    assert n * d == n * q - n * nmm;
  }

  lemma MeanSquares(n: real, m: real, s: real)
    requires n > 0.0 && s == n * m
    ensures 2.0 * m * s == 2.0 * (n * (m * m)) && s * s == n * (n * (m * m)) && s * s / n == n * (m * m)
  {
    assert m * s == n * (m * m);
    assert s * s == n * m * s == n * (m * s);
    TimesQuotient(n * (m * m), n);
  }

  lemma {:induction false} NoSpread(gs: seq<real>, x: real)
    ensures Spread(gs, x) == 0.0 <==> forall g :: g in gs ==> g == x
    decreases |gs|
  {
    hide Square;
    if gs != [] {
      var rest, g := gs[..|gs| - 1], gs[|gs| - 1];
      NoSpread(rest, x);
      assert gs == rest + [g];
      assert g in gs && forall h :: h in gs <==> h in rest || h == g;
      NotZero(g - x);
    }
  }

  lemma NotZero(x: real)
    ensures Square(x) == 0.0 <==> x == 0.0
  {
    ZeroSquare();
    if Square(x) == 0.0 {
      NoZeroDivisors(x, x);
    }
  }

  lemma ZeroSquare()
    ensures Square(0.0) == 0.0
  {
  }

  /** Lines 180-184 of normal.c. */
  function Linear(s: real, rm: real, rd: real, nm: real, nd: real): real
    requires rd != 0.0
  {
    nd * (s - rm) / rd + nm
  }

  ghost function LinearAll(gs: seq<real>, rm: real, rd: real, nm: real, nd: real): (hs: seq<real>)
    requires rd != 0.0
    ensures |hs| == |gs|
  {
    if gs == [] then [] else LinearAll(gs[..|gs| - 1], rm, rd, nm, nd) + [Linear(gs[|gs| - 1], rm, rd, nm, nd)]
  }

  lemma LinearOne(g: real, rm: real, rd: real, nm: real, nd: real)
    requires rd != 0.0
    ensures Linear(g, rm, rd, nm, nd) - nm == nd / rd * (g - rm)
    ensures Square(Linear(g, rm, rd, nm, nd) - nm) == Square(nd / rd) * Square(g - rm)
  {
    var k, x := nd / rd, g - rm;
    assert nd * x / rd == k * x;
    assert k * x * (k * x) == k * k * (x * x);
  }

  /** The sum h of n grades with sum s after the map. */
  ghost predicate MappedSum(h: real, n: int, s: real, rm: real, k: real, nm: real) {
    h == n as real * nm + k * (s - n as real * rm)
  }

  lemma {:induction false} LinearSums(gs: seq<real>, rm: real, rd: real, nm: real, nd: real)
    requires rd != 0.0
    ensures MappedSum(Sum(LinearAll(gs, rm, rd, nm, nd)), |gs|, Sum(gs), rm, nd / rd, nm)
    ensures Spread(LinearAll(gs, rm, rd, nm, nd), nm) == Square(nd / rd) * Spread(gs, rm)
    decreases |gs|
  {
    hide Square, Linear, LinearAll, MappedSum;
    var hs, k := LinearAll(gs, rm, rd, nm, nd), nd / rd;
    if gs == [] {
      NothingToMap(rm, rd, nm, nd);
      NoneMapped(rm, k, nm);
    } else {
      var n := |gs| - 1;
      var rest := gs[..n];
      LinearSums(rest, rm, rd, nm, nd);
      LinearLast(gs, rm, rd, nm, nd);
      LinearOne(gs[n], rm, rd, nm, nd);
      OneMoreMapped(Sum(hs[..n]), n, Sum(rest), rm, k, nm, gs[n], hs[n]);
      Distribute(Square(k), Spread(rest, rm), Square(gs[n] - rm));
    }
  }

  lemma LinearLast(gs: seq<real>, rm: real, rd: real, nm: real, nd: real)
    requires rd != 0.0 && gs != []
    ensures var hs, n := LinearAll(gs, rm, rd, nm, nd), |gs| - 1;
      hs[..n] == LinearAll(gs[..n], rm, rd, nm, nd) && hs[n] == Linear(gs[n], rm, rd, nm, nd)
  {
    hide Linear;
  }

  lemma NothingToMap(rm: real, rd: real, nm: real, nd: real)
    requires rd != 0.0
    ensures LinearAll([], rm, rd, nm, nd) == []
  {
  }

  lemma NoneMapped(rm: real, k: real, nm: real)
    ensures MappedSum(0.0, 0, 0.0, rm, k, nm)
  {
  }

  lemma OneMoreMapped(h: real, n: int, s: real, rm: real, k: real, nm: real, g: real, e: real)
    requires MappedSum(h, n, s, rm, k, nm) && e - nm == k * (g - rm)
    ensures MappedSum(h + e, n + 1, s + g, rm, k, nm)
  {
    var c := n as real;
    assert (n + 1) as real == c + 1.0;
    assert (c + 1.0) * rm == c * rm + rm && (c + 1.0) * nm == c * nm + nm;
    Distribute(k, s - c * rm, g - rm);
  }

  /** Normalizing a group by its own mean and deviation gives it mean nm and deviation nd. */
  lemma LinearNormalizes(gs: seq<real>, rd: real, nm: real, nd: real)
    requires |gs| >= 2 && rd > 0.0 && rd * rd == Radicand(|gs|, Sum(gs), SumSq(gs))
    ensures var hs := LinearAll(gs, Mean(gs), rd, nm, nd);
      |hs| >= 2 && Mean(hs) == nm && Radicand(|hs|, Sum(hs), SumSq(hs)) == nd * nd
  {
    hide Sum, SumSq, Spread, Square, Linear, LinearAll, Radicand, MappedSum;
    var n, rm := |gs| as real, Mean(gs);
    var hs := LinearAll(gs, rm, rd, nm, nd);
    LinearSums(gs, rm, rd, nm, nd);
    MeanOfNormalized(|gs|, Sum(gs), rm, nd / rd, nm, Sum(hs));
    RadicandIsVariance(gs);
    RadicandIsVariance(hs);
    Rescaled(Spread(gs, rm), n - 1.0, rd, nd, Spread(hs, nm));
  }

  lemma MeanOfNormalized(c: int, s: real, rm: real, k: real, nm: real, h: real)
    requires c > 0 && rm == s / c as real && MappedSum(h, c, s, rm, k, nm)
    ensures h / c as real == nm
  {
    TimesQuotient(s, c as real);
    assert s - c as real * rm == 0.0;
    TimesQuotient(nm, c as real);
  }

  lemma Rescaled(v: real, d: real, rd: real, nd: real, w: real)
    requires d > 0.0 && rd > 0.0 && v / d == rd * rd && w == Square(nd / rd) * v
    ensures w / d == nd * nd
  {
    var k := nd / rd;
    TimesQuotient(nd, rd);
    TimesQuotient(v, d);
    assert w == k * k * (d * (rd * rd));
    assert k * k * (d * (rd * rd)) == d * (rd * k * (rd * k));
    TimesQuotient(nd * nd, d);
  }
}
