/** Uses of a ranked table: percentile ranks (hw2/src/normal.c:128-168) and interpolated quantiles
    (hw2/src/report.c:123-154), in exact arithmetic. */
module Quantiles {
  import opened Gradebook
  import opened RealFacts
  import opened Frequencies
  import opened FrequencyTables

  ghost predicate SomeAtLeast(gs: seq<real>, s: real) {
    exists g :: g in gs && s <= g
  }

  /** The percentage of the grades that are below s. */
  ghost function Rank(gs: seq<real>, s: real): real
    requires gs != []
  {
    NumBelow(gs, s) as real * 100.0 / |gs| as real
  }

  lemma {:induction false} SameBelow(gs: seq<real>, s: real, t: real)
    requires forall g :: g in gs ==> (g < s <==> g < t)
    ensures NumBelow(gs, s) == NumBelow(gs, t)
    decreases |gs|
  {
    if gs != [] {
      var rest := gs[..|gs| - 1];
      assert gs[|gs| - 1] in gs;
      assert forall g :: g in rest ==> g in gs;
      SameBelow(rest, s, t);
    }
  }

  /** The first bucket at least s has the rank of s. */
  lemma FirstAtLeast(b: seq<Bucket>, gs: seq<real>, k: nat, s: real)
    requires Histogram(b, gs) && k <= |b| && (forall i :: 0 <= i < k ==> b[i].score < s) &&
      (k < |b| ==> s <= b[k].score)
    ensures SomeAtLeast(gs, s) <==> k < |b|
    ensures k < |b| ==> NumBelow(gs, b[k].score) == NumBelow(gs, s)
  {
    hide NumEq, NumBelow;
    GapsAreEmpty(b, gs, k);
    if k < |b| {
      CountMeansIn(gs, b[k].score);
      SameBelow(gs, s, b[k].score);
    }
  }

  /** Lines 128-168 of normal.c for one group. A score above every tallied one has no rank: it comes
      back unchanged, where the comment at lines 154-155 promises a percentile. */
  method Percentile(s: real, st: Stats) returns (r: real)
    requires Tabled(st) && RankedRecord(st)
    ensures r == if SomeAtLeast(st.scores, s) then Rank(st.scores, s) else s
  {
    hide Linked, Histogram, NumBelow, NumAtMost, Buckets, SomeAtLeast;
    var fp := st.freqs;
    var n := st.tallied;
    if n == 0 {
      n := 1;
    }
    ghost var k := 0;
    ghost var b := Buckets(st.nodes);
    FirstBucket(st.freqs, st.nodes);
    while fp != null
      invariant k <= |b| && fp == (if k < |b| then st.nodes[k] else null)
      invariant forall i :: 0 <= i < k ==> b[i].score < s
      decreases |b| - k
    {
      if s <= fp.score {
        FirstAtLeast(b, st.scores, k, s);
        SomeGrade(st.scores, s);
        return fp.numless as real * 100.0 / n as real;
      }
      NextBucket(st.freqs, st.nodes, k);
      fp := fp.next;
      k := k + 1;
    }
    FirstAtLeast(b, st.scores, k, s);
    return s;
  }

  lemma SomeGrade(gs: seq<real>, s: real)
    requires SomeAtLeast(gs, s)
    ensures gs != []
  {
  }

  lemma {:induction false} BelowGrows(gs: seq<real>, s: real, t: real)
    requires s <= t
    ensures NumBelow(gs, s) <= NumBelow(gs, t)
    decreases |gs|
  {
    if gs != [] {
      BelowGrows(gs[..|gs| - 1], s, t);
    }
  }

  /** What normal returns under QUANTILE. */
  ghost function Normal(gs: seq<real>, s: real): real {
    if SomeAtLeast(gs, s) then SomeGrade(gs, s); Rank(gs, s) else s
  }

  /** Up to the maximum, percentiles keep the order of scores; so do the scores above it. */
  lemma RanksKeepOrder(gs: seq<real>, s: real, t: real)
    requires s <= t
    ensures SomeAtLeast(gs, t) ==> SomeAtLeast(gs, s) && 0.0 <= Normal(gs, s) <= Normal(gs, t) <= 100.0
    ensures !SomeAtLeast(gs, s) ==> Normal(gs, s) <= Normal(gs, t)
  {
    if SomeAtLeast(gs, t) {
      BelowGrows(gs, s, t);
      Percent(NumBelow(gs, s), NumBelow(gs, t), |gs|);
    }
  }

  ghost function Greatest(gs: seq<real>): (m: real)
    requires gs != []
    ensures m in gs && forall s :: SomeAtLeast(gs, s) <==> s <= m
  {
    var g := gs[|gs| - 1];
    if |gs| == 1 then AtLeastLast(gs, g); g
    else
      var m := Greatest(gs[..|gs| - 1]);
      AtLeastMore(gs, gs[..|gs| - 1], m);
      if m <= g then g else m
  }

  lemma AtLeastLast(gs: seq<real>, g: real)
    requires gs == [g]
    ensures forall s :: SomeAtLeast(gs, s) <==> s <= g
  {
    assert g in gs;
  }

  lemma AtLeastMore(gs: seq<real>, fs: seq<real>, m: real)
    requires gs != [] && fs == gs[..|gs| - 1] && forall s :: SomeAtLeast(fs, s) <==> s <= m
    ensures forall s :: SomeAtLeast(gs, s) <==> s <= m || s <= gs[|gs| - 1]
  {
    var g := gs[|gs| - 1];
    assert gs == fs + [g];
    forall s ensures SomeAtLeast(gs, s) <==> SomeAtLeast(fs, s) || s <= g {
      if SomeAtLeast(fs, s) {
        var f :| f in fs && s <= f;
        assert f in gs;
      }
      assert g in gs;
    }
  }

  ghost predicate KeepsOrder(gs: seq<real>) {
    forall s, t :: s <= t ==> Normal(gs, s) <= Normal(gs, t)
  }

  /** Normalization keeps the order of all scores exactly when the percentile of the greatest tallied
      grade does not exceed that grade. */
  lemma NormalKeepsOrder(gs: seq<real>)
    ensures KeepsOrder(gs) <==> gs == [] || Rank(gs, Greatest(gs)) <= Greatest(gs)
  {
    hide Rank;
    if gs != [] {
      var m := Greatest(gs);
      assert SomeAtLeast(gs, m);
      if Rank(gs, m) > m {
        var t := (m + Rank(gs, m)) / 2.0;
        assert Normal(gs, m) > Normal(gs, t);
      } else {
        forall s, t | s <= t ensures Normal(gs, s) <= Normal(gs, t) {
          RanksKeepOrder(gs, s, t);
          if s <= m < t { RanksKeepOrder(gs, s, m); }
        }
      }
    }
  }

  lemma Percent(a: nat, b: nat, n: nat)
    requires a <= b <= n && n > 0
    ensures 0.0 <= a as real * 100.0 / n as real <= b as real * 100.0 / n as real <= 100.0
  {
    assert a as real * 100.0 <= b as real * 100.0 <= 100.0 * n as real;
  }

  /** So it does not keep the order of all scores. */
  lemma NormalBreaksOrder()
    ensures Normal([1.0, 2.0], 2.0) == 50.0 && Normal([1.0, 2.0], 3.0) == 3.0
  {
    var gs := [1.0, 2.0];
    assert gs[..1] == [1.0] && gs[..1][..0] == [];
    assert 2.0 in gs && SomeAtLeast(gs, 2.0);
    assert NumBelow([1.0], 2.0) == 1;
  }

  /** A bucket as report.c sees it: the percentage below its score, and its score. */
  datatype Point = Point(rank: real, score: real)

  ghost function Points(b: seq<Bucket>, gs: seq<real>): (p: seq<Point>)
    requires gs != []
    ensures |p| == |b|
  {
    seq(|b|, i requires 0 <= i < |b| => Point(Rank(gs, b[i].score), b[i].score))
  }

  /** Ranks start at 0 and rise with the scores. */
  ghost predicate Rising(p: seq<Point>) {
    && p != [] && p[0].rank == 0.0
    && forall i :: 0 < i < |p| ==> p[i - 1].rank < p[i].rank && p[i - 1].score < p[i].score
  }

  lemma PointsRise(b: seq<Bucket>, gs: seq<real>)
    requires Histogram(b, gs) && gs != []
    ensures Rising(Points(b, gs))
  {
    hide NumEq, NumBelow;
    GapsAreEmpty(b, gs, 0);
    CountsAreRanks(b, gs, 0);
    forall i | 0 < i < |b| ensures Rank(gs, b[i - 1].score) < Rank(gs, b[i].score) {
      CountsAreRanks(b, gs, i - 1);
      CountsAreRanks(b, gs, i);
      assert (NumBelow(gs, b[i - 1].score) as real * 100.0) < NumBelow(gs, b[i].score) as real * 100.0;
      Divided(NumBelow(gs, b[i - 1].score) as real * 100.0, NumBelow(gs, b[i].score) as real * 100.0, |gs| as real);
    }
  }

  lemma Divided(x: real, y: real, n: real)
    requires x < y && n > 0.0
    ensures x / n < y / n
  {
  }

  /** The point before place i; the loop starts with rank 0 and the first score (lines 132-133). */
  ghost function Before(p: seq<Point>, i: nat): Point
    requires p != [] && i <= |p|
  {
    if i == 0 then Point(0.0, p[0].score) else p[i - 1]
  }

  ghost function Line(a: Point, b: Point, q: real): real
    requires a.rank < b.rank
  {
    a.score + (b.score - a.score) / (b.rank - a.rank) * (q - a.rank)
  }

  /** The quantile q, looked for from place i on. */
  ghost function Interpolated(p: seq<Point>, i: nat, q: real): real
    requires i < |p|
    decreases |p| - i
  {
    if i + 1 == |p| then p[i].score
    else if Before(p, i).rank <= q < p[i].rank then Line(Before(p, i), p[i], q)
    else Interpolated(p, i + 1, q)
  }

  ghost function Quantile(b: seq<Bucket>, gs: seq<real>, q: real): real {
    if gs == [] || b == [] then 0.0 else Interpolated(Points(b, gs), 0, q)
  }

  /** Lines 123-154 of report.c. The division is reached only with distinct ranks. */
  method InterpolateQuantile(head: Freqs?, n: int, q: real, ghost nodes: seq<Freqs>,
                             ghost gs: seq<real>) returns (r: real)
    requires Linked(head, nodes) && Histogram(Buckets(nodes), gs) && Ranked(nodes, gs) && n == |gs|
    ensures r == Quantile(Buckets(nodes), gs, q)
  {
    hide Linked, Histogram, NumBelow, NumAtMost, Buckets, Rank, Interpolated, Before, Line;
    FirstBucket(head, nodes);
    NoBuckets(Buckets(nodes), gs);
    if head == null {
      return 0.0;
    }
    ghost var p := Points(Buckets(nodes), gs);
    var fp: Freqs := head;
    var pq, nq, ps, ns := 0.0, 0.0, head.score, head.score;
    ghost var k := 0;
    StartOfTable(p);
    NextBucket(head, nodes, 0);
    while fp.next != null
      invariant k < |nodes| && fp == nodes[k] && Point(pq, ps) == Before(p, k)
      invariant Interpolated(p, 0, q) == Interpolated(p, k, q) && (fp.next == null <==> k + 1 == |nodes|)
      decreases |nodes| - k
    {
      NextBucket(head, nodes, k);
      RankOf(gs, nodes[k].score, nodes[k].numless);
      nq := fp.numless as real * 100.0 / n as real;
      ns := fp.score;
      OneTurn(p, k, q);
      if pq <= q < nq {
        break;
      }
      pq, ps := nq, ns;
      fp := fp.next;
      k := k + 1;
      NextBucket(head, nodes, k);
    }
    if fp.next == null {
      EndOfTable(p, q);
      return fp.score;
    }
    var qdiff, sdiff := nq - pq, ns - ps;
    if qdiff == 0.0 {
      r := ps;
    } else {
      r := ps + sdiff / qdiff * (q - pq);
    }
    LineIs(Point(pq, ps), Point(nq, ns), q);
  }

  lemma LineIs(a: Point, b: Point, q: real)
    requires a.rank < b.rank
    ensures Line(a, b, q) == a.score + (b.score - a.score) / (b.rank - a.rank) * (q - a.rank)
  {
  }

  lemma StartOfTable(p: seq<Point>)
    requires p != []
    ensures Before(p, 0) == Point(0.0, p[0].score)
  {
  }

  /** One turn of the loop at lines 134-142. */
  lemma OneTurn(p: seq<Point>, k: nat, q: real)
    requires k + 1 < |p|
    ensures Before(p, k + 1) == p[k]
    ensures Interpolated(p, k, q) ==
      if Before(p, k).rank <= q < p[k].rank then Line(Before(p, k), p[k], q) else Interpolated(p, k + 1, q)
  {
  }

  lemma EndOfTable(p: seq<Point>, q: real)
    requires p != []
    ensures Interpolated(p, |p| - 1, q) == p[|p| - 1].score
  {
  }

  lemma RankOf(gs: seq<real>, s: real, numless: int)
    requires gs != [] && numless == NumBelow(gs, s)
    ensures numless as real * 100.0 / |gs| as real == Rank(gs, s)
  {
  }

  lemma NoBuckets(b: seq<Bucket>, gs: seq<real>)
    requires Histogram(b, gs)
    ensures b == [] <==> gs == []
  {
    GapsAreEmpty(b, gs, 0);
    if b != [] {
      CountMeansIn(gs, b[0].score);
    }
  }

  lemma OnLine(a: Point, b: Point, q: real)
    requires a.rank <= q < b.rank && a.score <= b.score
    ensures a.score <= Line(a, b, q) <= b.score
  {
    var w, x, d := b.score - a.score, q - a.rank, b.rank - a.rank;
    Fraction(x, d);
    Swap(w, x, d);
    assert 0.0 <= w * (x / d) <= w * 1.0;
  }

  lemma Swap(w: real, x: real, d: real)
    requires d > 0.0
    ensures w / d * x == w * (x / d)
  {
    assert w / d * x * d == w * x;
    assert w * (x / d) * d == w * x;
  }

  lemma AlongLine(a: Point, b: Point, q: real, r: real)
    requires a.rank <= q <= r < b.rank && a.score <= b.score
    ensures Line(a, b, q) <= Line(a, b, r)
  {
    var slope := (b.score - a.score) / (b.rank - a.rank);
    assert slope >= 0.0;
    assert slope * (q - a.rank) <= slope * (r - a.rank);
  }

  /** A quantile lies between the score before the place it is looked for from and the last score. */
  lemma {:induction false} QuantileWithin(p: seq<Point>, i: nat, q: real)
    requires Rising(p) && i < |p|
    ensures Before(p, i).score <= Interpolated(p, i, q) <= p[|p| - 1].score
    decreases |p| - i
  {
    if i + 1 < |p| {
      QuantileWithin(p, i + 1, q);
      LastIsGreatest(p, i);
      if Before(p, i).rank <= q < p[i].rank {
        OnLine(Before(p, i), p[i], q);
      }
    }
  }

  lemma {:induction false} LastIsGreatest(p: seq<Point>, i: nat)
    requires Rising(p) && i < |p|
    ensures p[i].score <= p[|p| - 1].score
    decreases |p| - i
  {
    if i + 1 < |p| {
      LastIsGreatest(p, i + 1);
    }
  }

  /** Quantiles do not decrease. */
  lemma {:induction false} QuantilesRise(p: seq<Point>, i: nat, q: real, r: real)
    requires Rising(p) && i < |p| && Before(p, i).rank <= q <= r
    ensures Interpolated(p, i, q) <= Interpolated(p, i, r)
    decreases |p| - i
  {
    if i + 1 < |p| {
      if q < p[i].rank {
        OnLine(Before(p, i), p[i], q);
        if r < p[i].rank {
          AlongLine(Before(p, i), p[i], q, r);
        } else {
          QuantileWithin(p, i + 1, r);
        }
      } else {
        QuantilesRise(p, i + 1, q, r);
      }
    }
  }

  /** Between the ranks of two neighbours, other than the last two, the quantile divides the scores as q
      divides the ranks. */
  lemma {:induction false} QuantileBetween(p: seq<Point>, i: nat, k: nat, q: real)
    requires Rising(p) && i <= k + 1 && k + 2 < |p| && p[k].rank <= q < p[k + 1].rank
    ensures (Interpolated(p, i, q) - p[k].score) * (p[k + 1].rank - p[k].rank) ==
      (p[k + 1].score - p[k].score) * (q - p[k].rank)
    decreases |p| - i
  {
    if i < k + 1 {
      RanksRise(p, i, k);
      hide Line;
      QuantileBetween(p, i + 1, k, q);
    } else {
      var w, x, d := p[k + 1].score - p[k].score, q - p[k].rank, p[k + 1].rank - p[k].rank;
      Swap(w, x, d);
      Proportion(w, x, d);
    }
  }

  lemma Proportion(w: real, x: real, d: real)
    requires d > 0.0
    ensures w * (x / d) * d == w * x
  {
    assert x / d * d == x;
    assert w * (x / d) * d == w * (x / d * d);
  }

  /** From the last rank but one on it is the last score. */
  lemma {:induction false} QuantileBeyond(p: seq<Point>, i: nat, q: real)
    requires Rising(p) && i < |p| && (|p| > 1 ==> q >= p[|p| - 2].rank)
    ensures Interpolated(p, i, q) == p[|p| - 1].score
    decreases |p| - i
  {
    hide Line;
    if i + 1 < |p| {
      RanksRise(p, i, |p| - 2);
      QuantileBeyond(p, i + 1, q);
    }
  }

  /** The quantile at a bucket's own rank is its score, except that the last two buckets both give the
      last score. */
  lemma {:induction false} QuantileAtRank(p: seq<Point>, i: nat, k: nat)
    requires Rising(p) && i <= k < |p|
    ensures Interpolated(p, i, p[k].rank) == if k + 2 < |p| then p[k].score else p[|p| - 1].score
    decreases |p| - i
  {
    if i + 1 < |p| {
      if i <= k {
        RanksRise(p, i, k);
      }
      if i == k {
        if k + 2 < |p| {
          assert Interpolated(p, i, p[k].rank) == Interpolated(p, i + 1, p[k].rank) == Line(p[k], p[k + 1], p[k].rank);
        } else {
          assert Interpolated(p, i, p[k].rank) == Interpolated(p, i + 1, p[k].rank);
        }
      } else {
        QuantileAtRank(p, i + 1, k);
      }
    }
  }

  lemma {:induction false} RanksRise(p: seq<Point>, i: nat, k: nat)
    requires Rising(p) && i <= k < |p|
    ensures p[i].rank <= p[k].rank
    decreases k
  {
    if i < k {
      RanksRise(p, i, k - 1);
    }
  }

  /** A negative quantile is never found on the way and gives the last score, not the first. */
  lemma {:induction false} NegativeQuantile(p: seq<Point>, i: nat, q: real)
    requires Rising(p) && i < |p| && q < 0.0
    ensures Interpolated(p, i, q) == p[|p| - 1].score
    decreases |p| - i
  {
    if i + 1 < |p| {
      RanksRise(p, 0, if i == 0 then 0 else i - 1);
      NegativeQuantile(p, i + 1, q);
    }
  }
}
