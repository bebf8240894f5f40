/** The free lists of the allocator: one circular doubly linked list per block size, threaded
    through the free blocks themselves and closed by a header node (hw3/include/sfmm.h:163-191). */
module FreeLists {
  import opened HeapLayout

  /** head.links of a list node. */
  datatype Ends = Ends(next: Ref, prev: Ref)

  /** All memory the allocator writes: the heap's rows and the header nodes of the size classes. */
  datatype Memory = Memory(rows: seq<Row>, heads: map<nat, Ends>) {

    predicate Has(x: Ref) {
      match x
      case Head(c) => c in heads
      case Blk(a) => a + 2 < |rows|
    }

    /** x->links.next */
    function Next(x: Ref): Ref
      requires Has(x)
    {
      match x
      case Head(c) => heads[c].next
      case Blk(a) => if rows[a + 1].Link? then rows[a + 1].to else x
    }

    /** x->links.prev */
    function Prev(x: Ref): Ref
      requires Has(x)
    {
      match x
      case Head(c) => heads[c].prev
      case Blk(a) => if rows[a + 2].Link? then rows[a + 2].to else x
    }

    /** x->links.next = y */
    function SetNext(x: Ref, y: Ref): Memory
      requires Has(x)
    {
      match x
      case Head(c) => this.(heads := heads[c := heads[c].(next := y)])
      case Blk(a) => this.(rows := rows[a + 1 := Link(y)])
    }

    /** x->links.prev = y */
    function SetPrev(x: Ref, y: Ref): Memory
      requires Has(x)
    {
      match x
      case Head(c) => this.(heads := heads[c := heads[c].(prev := y)])
      case Blk(a) => this.(rows := rows[a + 2 := Link(y)])
    }
  }

  ghost predicate NextIs(m: Memory, x: Ref, y: Ref) {
    match x
    case Head(c) => c in m.heads && m.heads[c].next == y
    case Blk(a) => a + 2 < |m.rows| && m.rows[a + 1] == Link(y)
  }

  ghost predicate PrevIs(m: Memory, x: Ref, y: Ref) {
    match x
    case Head(c) => c in m.heads && m.heads[c].prev == y
    case Blk(a) => a + 2 < |m.rows| && m.rows[a + 2] == Link(y)
  }

  /** What can stand on a list: a header node or a free block of B. */
  ghost predicate Node(B: Blocks, x: Ref) {
    x.Head? || (x.at in B && !B[x.at].alloc)
  }

  /** The size class a node belongs to. */
  ghost function ClassOf(B: Blocks, x: Ref): nat
    requires Node(B, x)
  {
    if x.Head? then x.size else B[x.at].size
  }

  /** Rows of live payloads, which no allocator operation may touch. */
  ghost predicate SameLive(r1: seq<Row>, r2: seq<Row>, B: Blocks) {
    |r1| <= |r2| &&
    forall a, x :: a in B && B[a].alloc && a < x < a + B[a].size && x < |r1| ==> r2[x] == r1[x]
  }

  /** The links of free block a are no tag rows and no payload rows. */
  lemma LinkRow(rows: seq<Row>, B: Blocks, a: nat, k: nat, r: Row)
    requires Physical(rows, B) && a in B && !B[a].alloc && 1 <= k <= 2
    ensures a + k < |rows| && Physical(rows[a + k := r], B) && SameLive(rows, rows[a + k := r], B)
  {
    var rows2 := rows[a + k := r];
    assert Next(B, a) == |rows| - 1 || Next(B, a) in B;
    forall b | b in B ensures TagsOf(rows2, b, B[b]) {
      assert TagsOf(rows, b, B[b]);
      assert a < b ==> a + B[a].size <= b;
      assert b < a ==> b + B[b].size <= a;
    }
  }

  lemma SetNextEffect(m: Memory, B: Blocks, x: Ref, y: Ref)
    requires Physical(m.rows, B) && Node(B, x) && m.Has(x)
    ensures var m2 := m.SetNext(x, y);
      && Physical(m2.rows, B) && |m2.rows| == |m.rows| && m2.heads.Keys == m.heads.Keys && SameLive(m.rows, m2.rows, B)
      && NextIs(m2, x, y)
      && (forall u, v :: Node(B, u) && u != x && NextIs(m, u, v) ==> NextIs(m2, u, v))
      && (forall u, v :: Node(B, u) && PrevIs(m, u, v) ==> PrevIs(m2, u, v))
  {
    if x.Blk? { LinkRow(m.rows, B, x.at, 1, Link(y)); }
  }

  lemma SetPrevEffect(m: Memory, B: Blocks, x: Ref, y: Ref)
    requires Physical(m.rows, B) && Node(B, x) && m.Has(x)
    ensures var m2 := m.SetPrev(x, y);
      && Physical(m2.rows, B) && |m2.rows| == |m.rows| && m2.heads.Keys == m.heads.Keys && SameLive(m.rows, m2.rows, B)
      && PrevIs(m2, x, y)
      && (forall u, v :: Node(B, u) && u != x && PrevIs(m, u, v) ==> PrevIs(m2, u, v))
      && (forall u, v :: Node(B, u) && NextIs(m, u, v) ==> NextIs(m2, u, v))
  {
    if x.Blk? { LinkRow(m.rows, B, x.at, 2, Link(y)); }
  }

  // ----- rings --------------------------------------------------------------------------------

  /** A list as a ring: the header, its blocks in order, the header again. */
  type Ring = seq<Ref>

  /** ring[i] and ring[i + 1] point at each other. */
  ghost predicate Step(m: Memory, ring: Ring, i: nat)
    requires i + 1 < |ring|
  {
    NextIs(m, ring[i], ring[i + 1]) && PrevIs(m, ring[i + 1], ring[i])
  }

  ghost predicate Linked(m: Memory, ring: Ring) {
    forall i: nat {:trigger Step(m, ring, i)} :: i + 1 < |ring| ==> Step(m, ring, i)
  }

  /** ring is shaped as a list of class c over the free blocks of B: header at both ends only,
      distinct blocks of size c between. */
  ghost predicate RingOf(B: Blocks, c: nat, ring: Ring) {
    && |ring| >= 2 && ring[0] == Head(c) && ring[|ring| - 1] == Head(c)
    && (forall i :: 0 < i < |ring| - 1 ==> ring[i].Blk?)
    && (forall i :: 0 <= i < |ring| ==> Node(B, ring[i]) && ClassOf(B, ring[i]) == c)
    && (forall i, j :: 0 <= i < j < |ring| - 1 ==> ring[i] != ring[j])
  }

  type Rings = map<nat, Ring>

  /** Every class list is a well-linked ring. */
  ghost predicate AllRings(m: Memory, B: Blocks, rings: Rings) {
    && m.heads.Keys == rings.Keys
    && forall c :: c in rings ==> RingOf(B, c, rings[c]) && Linked(m, rings[c])
  }

  /** The rings hold exactly the free blocks of B, those of X excepted. */
  ghost predicate Filed(B: Blocks, rings: Rings, X: set<nat>) {
    && (forall c, i :: c in rings && 0 < i < |rings[c]| - 1 ==> rings[c][i].Blk? && rings[c][i].at !in X)
    && (forall a :: a in B && !B[a].alloc && a !in X ==> B[a].size in rings && Blk(a) in rings[B[a].size])
  }

  ghost function RingWithout(ring: Ring, i: nat): Ring
    requires i < |ring|
  {
    ring[..i] + ring[i + 1..]
  }

  /** Bypassing ring[i] by its two neighbours' links closes the ring without it. */
  lemma UnlinkedRing(m: Memory, m2: Memory, B: Blocks, c: nat, ring: Ring, i: nat)
    requires RingOf(B, c, ring) && Linked(m, ring) && 0 < i < |ring| - 1
    requires NextIs(m2, ring[i - 1], ring[i + 1]) && PrevIs(m2, ring[i + 1], ring[i - 1])
    requires SameLinksBut(m, m2, B, {ring[i - 1]}, {ring[i + 1]})
    ensures RingOf(B, c, RingWithout(ring, i)) && Linked(m2, RingWithout(ring, i))
  {
    var r2 := RingWithout(ring, i);
    forall j: nat | j + 1 < |r2| ensures Step(m2, r2, j) {
      if j + 1 < i {
        assert Step(m, ring, j);
      } else if j >= i {
        assert Step(m, ring, j + 1);
      }
    }
  }

  /** The splice of hw3/src/sfmm.c:447-452: x goes between the header and the first block. */
  lemma SplicedRing(m: Memory, m2: Memory, B: Blocks, c: nat, ring: Ring, x: Ref)
    requires RingOf(B, c, ring) && Linked(m, ring)
    requires x.Blk? && Node(B, x) && ClassOf(B, x) == c && x !in ring
    requires NextIs(m2, Head(c), x) && NextIs(m2, x, ring[1])
    requires PrevIs(m2, x, Head(c)) && PrevIs(m2, ring[1], x)
    requires SameLinksBut(m, m2, B, {x, Head(c)}, {x, ring[1]})
    ensures RingOf(B, c, [Head(c), x] + ring[1..]) && Linked(m2, [Head(c), x] + ring[1..])
  {
    var r2 := [Head(c), x] + ring[1..];
    forall j: nat | j + 1 < |r2| ensures Step(m2, r2, j) {
      if j >= 2 {
        assert Step(m, ring, j - 1);
      }
    }
  }

  /** Unlinking: (x->next)->prev = x->prev; (x->prev)->next = x->next. */
  function Unlinked(m: Memory, x: Ref): (m2: Memory)
    requires m.Has(x) && m.Has(m.Next(x)) && m.Has(m.Prev(x))
  {
    m.SetPrev(m.Next(x), m.Prev(x)).SetNext(m.Prev(x), m.Next(x))
  }

  /** m2 has m's links except the next link of y and the prev link of z. */
  ghost predicate SameLinksBut(m: Memory, m2: Memory, B: Blocks, y: set<Ref>, z: set<Ref>) {
    && (forall u, v :: Node(B, u) && u !in y && NextIs(m, u, v) ==> NextIs(m2, u, v))
    && (forall u, v :: Node(B, u) && u !in z && PrevIs(m, u, v) ==> PrevIs(m2, u, v))
  }

  /** An operation that kept the heap's tags, the live payloads and the set of classes. */
  ghost predicate SameHeap(m: Memory, m2: Memory, B: Blocks) {
    Physical(m2.rows, B) && SameLive(m.rows, m2.rows, B) && m2.heads.Keys == m.heads.Keys && |m2.rows| == |m.rows|
  }

  /** What the two writes of an unlink do. */
  lemma UnlinkWrites(m: Memory, B: Blocks, y: Ref, z: Ref)
    requires Physical(m.rows, B) && Node(B, y) && Node(B, z) && m.Has(y) && m.Has(z)
    ensures var m2 := m.SetPrev(z, y).SetNext(y, z);
      SameHeap(m, m2, B) && NextIs(m2, y, z) && PrevIs(m2, z, y) && SameLinksBut(m, m2, B, {y}, {z})
  {
    SetPrevEffect(m, B, z, y);
    SetNextEffect(m.SetPrev(z, y), B, y, z);
  }

  /** Rings read back through the accessors. */
  lemma RingNeighbours(m: Memory, B: Blocks, c: nat, ring: Ring, i: nat)
    requires RingOf(B, c, ring) && Linked(m, ring) && i + 1 < |ring|
    ensures m.Has(ring[i]) && m.Has(ring[i + 1])
    ensures m.Next(ring[i]) == ring[i + 1] && m.Prev(ring[i + 1]) == ring[i]
  {
    assert Step(m, ring, i);
  }

  /** Unlinking takes the block off its list and leaves every other list as it was. */
  lemma UnlinkKeepsRings(m: Memory, B: Blocks, rings: Rings, c: nat, i: nat)
    requires Physical(m.rows, B) && AllRings(m, B, rings) && c in rings && 0 < i < |rings[c]| - 1
    ensures m.Has(rings[c][i]) && m.Has(m.Next(rings[c][i])) && m.Has(m.Prev(rings[c][i]))
    ensures var m2 := Unlinked(m, rings[c][i]);
      SameHeap(m, m2, B) && AllRings(m2, B, rings[c := RingWithout(rings[c], i)])
  {
    hide Physical, NextIs, PrevIs, SameLive;
    var ring := rings[c];
    var y, z := ring[i - 1], ring[i + 1];
    RingNeighbours(m, B, c, ring, i);
    RingNeighbours(m, B, c, ring, i - 1);
    var m2 := Unlinked(m, ring[i]);
    UnlinkWrites(m, B, y, z);
    UnlinkedRing(m, m2, B, c, ring, i);
    OtherRings(m, m2, B, rings, c, {y}, {z});
  }

  /** Every list of another class keeps its links. */
  lemma OtherRings(m: Memory, m2: Memory, B: Blocks, rings: Rings, c: nat, y: set<Ref>, z: set<Ref>)
    requires forall d :: d in rings ==> RingOf(B, d, rings[d]) && Linked(m, rings[d])
    requires SameLinksBut(m, m2, B, y, z)
    requires forall u :: u in y || u in z ==> Node(B, u) && ClassOf(B, u) == c
    ensures forall d :: d in rings && d != c ==> Linked(m2, rings[d])
  {
    forall d | d in rings && d != c ensures Linked(m2, rings[d]) {
      var r := rings[d];
      forall i: nat | i + 1 < |r| ensures Step(m2, r, i) {
        assert Step(m, r, i);
      }
    }
  }

  /** The four writes of the splice at hw3/src/sfmm.c:449-452, in their order. */
  function Spliced(m: Memory, c: nat, x: Ref): Memory
    requires m.Has(Head(c)) && m.Has(x) && m.Has(m.Next(Head(c)))
  {
    var h := Head(c);
    var f := m.Next(h);
    m.SetPrev(f, x).SetPrev(x, h).SetNext(x, f).SetNext(h, x)
  }

  /** What the four writes of a splice between h and f do. */
  lemma SpliceWrites(m: Memory, B: Blocks, h: Ref, x: Ref, f: Ref)
    requires Physical(m.rows, B) && Node(B, h) && Node(B, x) && Node(B, f) && m.Has(h) && m.Has(x) && m.Has(f)
    requires x != h && x != f
    ensures var m2 := m.SetPrev(f, x).SetPrev(x, h).SetNext(x, f).SetNext(h, x);
      && SameHeap(m, m2, B) && SameLinksBut(m, m2, B, {x, h}, {x, f})
      && NextIs(m2, h, x) && NextIs(m2, x, f) && PrevIs(m2, x, h) && PrevIs(m2, f, x)
  {
    hide Physical, NextIs, PrevIs, Node;
    var m1 := m.SetPrev(f, x);
    SetPrevEffect(m, B, f, x);
    var m2 := m1.SetPrev(x, h);
    SetPrevEffect(m1, B, x, h);
    var m3 := m2.SetNext(x, f);
    SetNextEffect(m2, B, x, f);
    SetNextEffect(m3, B, h, x);
  }

  lemma FreeBlockHasLinks(m: Memory, B: Blocks, a: nat)
    requires Physical(m.rows, B) && a in B
    ensures m.Has(Blk(a))
  {
    assert TagsOf(m.rows, a, B[a]);
  }

  /** Splicing puts a free block of size c in front of the list of class c. */
  lemma SpliceKeepsRings(m: Memory, B: Blocks, rings: Rings, c: nat, a: nat)
    requires Physical(m.rows, B) && AllRings(m, B, rings) && c in rings
    requires a in B && !B[a].alloc && B[a].size == c && Blk(a) !in rings[c]
    ensures m.Has(Head(c)) && m.Has(Blk(a)) && m.Has(m.Next(Head(c)))
    ensures var m2 := Spliced(m, c, Blk(a));
      SameHeap(m, m2, B) && AllRings(m2, B, rings[c := [Head(c), Blk(a)] + rings[c][1..]])
  {
    hide Physical, NextIs, PrevIs, SameLive;
    FreeBlockHasLinks(m, B, a);
    var ring := rings[c];
    var x, f := Blk(a), ring[1];
    RingNeighbours(m, B, c, ring, 0);
    var m2 := Spliced(m, c, x);
    SpliceWrites(m, B, Head(c), x, f);
    SplicedRing(m, m2, B, c, ring, x);
    OtherRings(m, m2, B, rings, c, {x, Head(c)}, {x, f});
  }
}
