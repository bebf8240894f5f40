/** Frequency tables (hw2/src/stats.c:144-249): linked buckets sorted by score, built by counting one
    grade at a time, with the ranks filled in afterwards. */
module Frequencies {
  import opened Sequences
  import opened Gradebook
  import opened StatsLinks

  datatype Bucket = Bucket(score: real, count: int)

  /** The buckets from head, in order. */
  ghost predicate Linked(head: Freqs?, nodes: seq<Freqs>)
    reads (set f | f in nodes)`next
  {
    && Distinct(nodes)
    && head == (if nodes == [] then null else nodes[0])
    && forall i :: 0 <= i < |nodes| ==> nodes[i].next == if i + 1 < |nodes| then nodes[i + 1] else null
  }

  ghost function Buckets(nodes: seq<Freqs>): (b: seq<Bucket>)
    reads (set f | f in nodes)`score, (set f | f in nodes)`count
    ensures |b| == |nodes|
    ensures forall i :: 0 <= i < |nodes| ==> b[i] == Bucket(nodes[i].score, nodes[i].count)
  {
    if nodes == [] then [] else
      Buckets(nodes[..|nodes| - 1]) + [Bucket(nodes[|nodes| - 1].score, nodes[|nodes| - 1].count)]
  }

  ghost predicate Ascending(b: seq<Bucket>) {
    forall i, j :: 0 <= i < j < |b| ==> b[i].score < b[j].score
  }

  /** How many of the grades gs are x. */
  ghost function NumEq(gs: seq<real>, x: real): nat {
    multiset(gs)[x]
  }

  ghost predicate HasScore(b: seq<Bucket>, x: real) {
    exists i :: 0 <= i < |b| && b[i].score == x
  }

  /** The table b is the histogram of the grades gs. */
  ghost predicate Histogram(b: seq<Bucket>, gs: seq<real>) {
    && Ascending(b)
    && (forall i :: 0 <= i < |b| ==> b[i].count == NumEq(gs, b[i].score) >= 1)
    && forall x :: x in gs ==> HasScore(b, x)
  }

  lemma CountMeansIn(gs: seq<real>, x: real)
    ensures NumEq(gs, x) >= 1 <==> x in gs
  {
  }

  /** Grades gs have only one histogram. */
  lemma {:induction false} OneHistogram(b1: seq<Bucket>, b2: seq<Bucket>, gs: seq<real>)
    requires Histogram(b1, gs) && Histogram(b2, gs)
    ensures b1 == b2
  {
    SamePlaces(b1, b2, gs, |b1|);
    SamePlaces(b2, b1, gs, |b2|);
  }

  /** Where the score at place k of one histogram is in the other. */
  lemma PlaceIn(b1: seq<Bucket>, b2: seq<Bucket>, gs: seq<real>, k: nat) returns (j: nat)
    requires Histogram(b1, gs) && Histogram(b2, gs) && k < |b1|
    ensures j < |b2| && b2[j] == b1[k]
  {
    hide NumEq;
    CountMeansIn(gs, b1[k].score);
    assert HasScore(b2, b1[k].score);
    j :| 0 <= j < |b2| && b2[j].score == b1[k].score;
  }

  lemma {:induction false} SamePlaces(b1: seq<Bucket>, b2: seq<Bucket>, gs: seq<real>, k: nat)
    requires Histogram(b1, gs) && Histogram(b2, gs) && k <= |b1|
    ensures k <= |b2| && forall i :: 0 <= i < k ==> b1[i] == b2[i]
    decreases k
  {
    hide NumEq, HasScore;
    if k > 0 {
      SamePlaces(b1, b2, gs, k - 1);
      var j := PlaceIn(b1, b2, gs, k - 1);
      assert j >= k - 1;
      var i := PlaceIn(b2, b1, gs, k - 1);
    }
  }

  /** The grade g is counted at place k: in the bucket there, or in a new one before it. */
  ghost function CountedAt(b: seq<Bucket>, k: nat, g: real): seq<Bucket>
    requires k <= |b|
  {
    if k < |b| && b[k].score == g then b[k := Bucket(g, b[k].count + 1)] else b[..k] + [Bucket(g, 1)] + b[k..]
  }

  lemma CountedKeepsHistogram(b: seq<Bucket>, k: nat, g: real, gs: seq<real>)
    requires Histogram(b, gs) && k <= |b|
    requires (forall i :: 0 <= i < k ==> b[i].score < g) && (k < |b| ==> g <= b[k].score)
    ensures Histogram(CountedAt(b, k, g), gs + [g])
  {
    hide HasScore;
    var c := CountedAt(b, k, g);
    assert c[k].score == g;
    assert forall x :: NumEq(gs + [g], x) == NumEq(gs, x) + if x == g then 1 else 0;
    CountMeansIn(gs, g);
    if g in gs {
      KnownScore(b, k, g, gs);
    }
    forall x | x in gs + [g] ensures HasScore(c, x) {
      StillThere(b, k, g, gs, x);
    }
  }

  lemma KnownScore(b: seq<Bucket>, k: nat, g: real, gs: seq<real>)
    requires Histogram(b, gs) && k <= |b| && g in gs
    requires (forall i :: 0 <= i < k ==> b[i].score < g) && (k < |b| ==> g <= b[k].score)
    ensures k < |b| && b[k].score == g
  {
    assert HasScore(b, g);
  }

  lemma StillThere(b: seq<Bucket>, k: nat, g: real, gs: seq<real>, x: real)
    requires Histogram(b, gs) && k <= |b| && x in gs + [g]
    ensures HasScore(CountedAt(b, k, g), x)
  {
    var c := CountedAt(b, k, g);
    if x == g {
      assert c[k].score == g;
    } else {
      assert HasScore(b, x);
      var i :| 0 <= i < |b| && b[i].score == x;
      assert c[if i < k || |c| == |b| then i else i + 1].score == x;
    }
  }

  /** The new bucket goes between sfp and fp (lines 186-199 and 202-217), at the head without sfp. */
  method InsertBucket(g: real, afp: Freqs?, sfp: Freqs?, fp: Freqs?, ghost nodes: seq<Freqs>, ghost k: nat)
    returns (head: Freqs, ghost nodes2: seq<Freqs>, ghost nfp: Freqs)
    requires Linked(afp, nodes) && k <= |nodes|
    requires fp == (if k < |nodes| then nodes[k] else null) && sfp == if k == 0 then null else nodes[k - 1]
    modifies (set f | f in nodes)`next
    ensures Linked(head, nodes2) && nodes2 == nodes[..k] + [nfp] + nodes[k..]
    ensures fresh(nfp) && nfp.score == g && nfp.count == 1
  {
    var f := new Freqs(g, fp);
    nfp := f;
    nodes2 := nodes[..k] + [f] + nodes[k..];
    if sfp == null {
      head := f;
    } else {
      sfp.next := f;
      head := afp;
    }
    forall i | 0 <= i < |nodes2|
      ensures nodes2[i].next == if i + 1 < |nodes2| then nodes2[i + 1] else null
    {
      if i < k - 1 {
        assert nodes2[i] == nodes[i] && nodes[i] != sfp && nodes2[i + 1] == nodes[i + 1];
        assert old(nodes[i].next) == nodes[i + 1];
      } else if i == k - 1 {
        assert nodes2[i] == sfp && nodes2[i + 1] == f;
      } else if i > k {
        assert nodes2[i] == nodes[i - 1] && nodes[i - 1] != sfp;
        assert old(nodes[i - 1].next) == if i < |nodes| then nodes[i] else null;
        assert i + 1 < |nodes2| ==> nodes2[i + 1] == nodes[i];
      }
    }
  }

  lemma InsertedBuckets(nodes: seq<Freqs>, nodes2: seq<Freqs>, k: nat, nfp: Freqs)
    requires k <= |nodes| && nodes2 == nodes[..k] + [nfp] + nodes[k..]
    ensures Buckets(nodes2) == Buckets(nodes)[..k] + [Bucket(nfp.score, nfp.count)] + Buckets(nodes)[k..]
  {
    hide Buckets;
    var b := Buckets(nodes);
    forall i | 0 <= i < |nodes2| ensures Buckets(nodes2)[i] == (b[..k] + [Bucket(nfp.score, nfp.count)] + b[k..])[i] {
      assert i < |nodes| ==> b[i] == Bucket(nodes[i].score, nodes[i].count);
      assert i > k ==> b[i - 1] == Bucket(nodes[i - 1].score, nodes[i - 1].count);
    }
  }

  /** Lines 172-218. */
  method CountScore(g: real, afp: Freqs?, ghost nodes: seq<Freqs>, ghost gs: seq<real>) returns (head: Freqs,
                    ghost nodes2: seq<Freqs>)
    requires Linked(afp, nodes) && Histogram(Buckets(nodes), gs)
    modifies nodes
    ensures Linked(head, nodes2) && Histogram(Buckets(nodes2), gs + [g])
    ensures forall f :: f in nodes2 && f !in nodes ==> fresh(f)
  {
    hide Histogram, Distinct, Linked, Buckets;
    FirstBucket(afp, nodes);
    var fp := afp;
    var sfp: Freqs? := null;
    ghost var k := 0;
    ghost var b := Buckets(nodes);
    while fp != null
      invariant k <= |nodes| && fp == (if k < |nodes| then nodes[k] else null)
      invariant sfp == if k == 0 then null else nodes[k - 1]
      invariant Linked(afp, nodes) && Buckets(nodes) == b && forall i :: 0 <= i < k ==> b[i].score < g
      decreases |nodes| - k
    {
      if fp.score == g {
        CountedKeepsHistogram(b, k, g, gs);
        fp.count := fp.count + 1;
        DistinctPlace(nodes, k);
        assert Buckets(nodes) == CountedAt(b, k, g);
        return afp, nodes;
      } else if fp.score > g {
        CountedKeepsHistogram(b, k, g, gs);
        ghost var nfp;
        head, nodes2, nfp := InsertBucket(g, afp, sfp, fp, nodes, k);
        assert Buckets(nodes) == b;
        InsertedBuckets(nodes, nodes2, k, nfp);
        return;
      }
      NextBucket(afp, nodes, k);
      sfp := fp;
      fp := fp.next;
      k := k + 1;
    }
    CountedKeepsHistogram(b, k, g, gs);
    ghost var nfp;
    head, nodes2, nfp := InsertBucket(g, afp, sfp, null, nodes, k);
    assert Buckets(nodes) == b;
    InsertedBuckets(nodes, nodes2, k, nfp);
  }

  lemma FirstBucket(head: Freqs?, nodes: seq<Freqs>)
    requires Linked(head, nodes)
    ensures head == (if nodes == [] then null else nodes[0]) && Distinct(nodes)
  {
  }

  lemma NextBucket(head: Freqs?, nodes: seq<Freqs>, k: nat)
    requires Linked(head, nodes) && k < |nodes|
    ensures nodes[k].next == if k + 1 < |nodes| then nodes[k + 1] else null
  {
  }

  lemma DistinctPlace(nodes: seq<Freqs>, k: nat)
    requires Distinct(nodes) && k < |nodes|
    ensures forall i :: 0 <= i < |nodes| && i != k ==> nodes[i] != nodes[k]
  {
  }

  /** How many of the grades are below x. */
  ghost function NumBelow(gs: seq<real>, x: real): (n: nat)
    ensures n <= |gs|
  {
    if gs == [] then 0 else NumBelow(gs[..|gs| - 1], x) + if gs[|gs| - 1] < x then 1 else 0
  }

  /** How many are at most x. */
  ghost function NumAtMost(gs: seq<real>, x: real): (n: nat)
    ensures n <= |gs|
  {
    if gs == [] then 0 else NumAtMost(gs[..|gs| - 1], x) + if gs[|gs| - 1] <= x then 1 else 0
  }

  lemma {:induction false} AtMostSplits(gs: seq<real>, x: real)
    ensures NumAtMost(gs, x) == NumBelow(gs, x) + NumEq(gs, x)
    decreases |gs|
  {
    if gs != [] {
      var rest := gs[..|gs| - 1];
      AtMostSplits(rest, x);
      assert gs == rest + [gs[|gs| - 1]];
    }
  }

  /** With no grade strictly between, the grades below y are those at most x. */
  lemma {:induction false} NextScore(gs: seq<real>, x: real, y: real)
    requires x < y && forall g :: g in gs ==> g <= x || y <= g
    ensures NumBelow(gs, y) == NumAtMost(gs, x)
    decreases |gs|
  {
    if gs != [] {
      var rest := gs[..|gs| - 1];
      assert gs[|gs| - 1] in gs;
      assert forall g :: g in rest ==> g in gs;
      NextScore(rest, x, y);
    }
  }

  lemma {:induction false} AllAtLeast(gs: seq<real>, x: real)
    requires forall g :: g in gs ==> x <= g
    ensures NumBelow(gs, x) == 0
    decreases |gs|
  {
    if gs != [] {
      var rest := gs[..|gs| - 1];
      assert gs[|gs| - 1] in gs;
      assert forall g :: g in rest ==> g in gs;
      AllAtLeast(rest, x);
    }
  }

  lemma {:induction false} AllAtMost(gs: seq<real>, x: real)
    requires forall g :: g in gs ==> g <= x
    ensures NumAtMost(gs, x) == |gs|
    decreases |gs|
  {
    if gs != [] {
      var rest := gs[..|gs| - 1];
      assert gs[|gs| - 1] in gs;
      assert forall g :: g in rest ==> g in gs;
      AllAtMost(rest, x);
    }
  }

  /** The counts of the first k buckets together. */
  ghost function CountsBefore(b: seq<Bucket>, k: nat): int
    requires k <= |b|
  {
    if k == 0 then 0 else CountsBefore(b, k - 1) + b[k - 1].count
  }

  /** In a histogram the counts before a bucket are the grades below its score, and all counts
      together are all grades. */
  lemma {:induction false} CountsAreRanks(b: seq<Bucket>, gs: seq<real>, k: nat)
    requires Histogram(b, gs) && k <= |b|
    ensures CountsBefore(b, k) == if k < |b| then NumBelow(gs, b[k].score) else |gs|
    decreases k
  {
    hide NumEq, NumBelow, NumAtMost;
    GapsAreEmpty(b, gs, k);
    if k > 0 {
      CountsAreRanks(b, gs, k - 1);
      AtMostSplits(gs, b[k - 1].score);
      if k < |b| {
        NextScore(gs, b[k - 1].score, b[k].score);
      } else {
        AllAtMost(gs, b[k - 1].score);
      }
    } else if |b| > 0 {
      AllAtLeast(gs, b[0].score);
    }
  }

  lemma GapsAreEmpty(b: seq<Bucket>, gs: seq<real>, k: nat)
    requires Histogram(b, gs) && k <= |b|
    ensures gs != [] ==> |b| > 0
    ensures forall g :: g in gs ==> (k < |b| && b[k].score <= g) || (k > 0 && g <= b[k - 1].score)
  {
    hide NumEq;
    assert gs != [] ==> gs[0] in gs;
    forall g | g in gs ensures |b| > 0 && ((k < |b| && b[k].score <= g) || (k > 0 && g <= b[k - 1].score)) {
      assert HasScore(b, g);
      var i :| 0 <= i < |b| && b[i].score == g;
    }
  }

  /** numless and numlesseq are the true ranks among the grades. */
  ghost predicate Ranked(nodes: seq<Freqs>, gs: seq<real>)
    reads nodes
  {
    forall i :: 0 <= i < |nodes| ==>
      nodes[i].numless == NumBelow(gs, nodes[i].score) && nodes[i].numlesseq == NumAtMost(gs, nodes[i].score)
  }

  /** Lines 234-239, and 241-246 for a section. */
  method RankTable(freqs: Freqs?, ghost nodes: seq<Freqs>, ghost gs: seq<real>)
    requires Linked(freqs, nodes) && Histogram(Buckets(nodes), gs)
    modifies (set f | f in nodes)`numless, (set f | f in nodes)`numlesseq
    ensures Linked(freqs, nodes) && Buckets(nodes) == old(Buckets(nodes)) && Ranked(nodes, gs)
  {
    hide Histogram, Linked, NumEq, NumBelow, NumAtMost;
    FirstBucket(freqs, nodes);
    var sum := 0;
    var fp := freqs;
    ghost var k := 0;
    ghost var b := Buckets(nodes);
    while fp != null
      invariant k <= |nodes| && fp == (if k < |nodes| then nodes[k] else null)
      invariant sum == CountsBefore(b, k)
      invariant Linked(freqs, nodes) && Buckets(nodes) == b
      invariant forall i :: 0 <= i < k ==>
        nodes[i].numless == NumBelow(gs, nodes[i].score) && nodes[i].numlesseq == NumAtMost(gs, nodes[i].score)
      decreases |nodes| - k
    {
      RankAt(b, gs, k);
      fp.numless := sum;
      sum := sum + fp.count;
      fp.numlesseq := sum;
      NextBucket(freqs, nodes, k);
      fp := fp.next;
      k := k + 1;
    }
  }

  lemma RankAt(b: seq<Bucket>, gs: seq<real>, k: nat)
    requires Histogram(b, gs) && k < |b|
    ensures CountsBefore(b, k) == NumBelow(gs, b[k].score) && CountsBefore(b, k + 1) == NumAtMost(gs, b[k].score)
  {
    CountsAreRanks(b, gs, k);
    AtMostSplits(gs, b[k].score);
  }
}
