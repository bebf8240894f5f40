/** The whole state of the allocator and the invariant every call keeps: boundary tags and free
    lists agree block for block. */
module HeapState {
  import opened HeapLayout
  import opened FreeLists

  ghost predicate Increasing(sizes: seq<nat>) {
    forall i, j :: 0 <= i < j < |sizes| ==> sizes[i] < sizes[j]
  }

  /** sizes is the list of free lists in its order; X holds the free blocks that are on no list
      because a call is just about to merge or to file them. */
  ghost predicate Good(m: Memory, sizes: seq<nat>, B: Blocks, rings: Rings, X: set<nat>) {
    && Physical(m.rows, B)
    && AllRings(m, B, rings) && Filed(B, rings, X)
    && Increasing(sizes) && (forall c :: c in sizes <==> c in rings)
    && (forall a :: a in X ==> a in B && !B[a].alloc)
  }

  /** The live allocations: the block row of each and the bytes asked for. */
  ghost function Live(B: Blocks): map<nat, nat> {
    map a | a in B && B[a].alloc :: B[a].req
  }

  ghost function FreeOf(N: Blocks): set<nat> {
    set a | a in N && !N[a].alloc
  }

  /** Blocks on a list keep their links when rows outside them are rewritten. */
  lemma RingsFrame(m: Memory, m2: Memory, B: Blocks, C: Blocks, rings: Rings)
    requires AllRings(m, B, rings) && m2.heads == m.heads && |m.rows| <= |m2.rows|
    requires forall c, i :: c in rings && 0 <= i < |rings[c]| && rings[c][i].Blk? ==>
      var a := rings[c][i].at;
      a in C && C[a] == B[a] && a + 2 < |m.rows| && m2.rows[a + 1] == m.rows[a + 1] && m2.rows[a + 2] == m.rows[a + 2]
    ensures AllRings(m2, C, rings)
  {
    forall c | c in rings ensures RingOf(C, c, rings[c]) && Linked(m2, rings[c]) {
      var r := rings[c];
      assert forall i :: 0 <= i < |r| ==> Node(B, r[i]) && ClassOf(B, r[i]) == c;
      forall i: nat | i + 1 < |r| ensures Step(m2, r, i) {
        assert Step(m, r, i);
      }
    }
  }

  /** A block on some list is a free block outside X. */
  lemma Listed(m: Memory, B: Blocks, rings: Rings, X: set<nat>, c: nat, i: nat)
    requires AllRings(m, B, rings) && Filed(B, rings, X) && c in rings && i < |rings[c]| && rings[c][i].Blk?
    ensures var a := rings[c][i].at; a in B && !B[a].alloc && a !in X && B[a].size == c
  {
    assert RingOf(B, c, rings[c]);
    assert Node(B, rings[c][i]) && ClassOf(B, rings[c][i]) == c;
    assert 0 < i < |rings[c]| - 1;
  }

  /** Retagging a region whose free blocks are all off the lists: the lists are not affected and
      the region's new free blocks are the ones still to be filed. */
  lemma CarvedGood(m: Memory, sizes: seq<nat>, B: Blocks, rings: Rings, X: set<nat>,
                   rows2: seq<Row>, lo: nat, hi: nat, N: Blocks)
    requires Good(m, sizes, B, rings, X) && Retags(m.rows, B, rows2, lo, hi, N)
    requires forall a :: a in X ==> lo <= a < hi
    requires forall a :: a in B && !B[a].alloc && lo <= a < hi ==> a in X
    ensures Good(Memory(rows2, m.heads), sizes, Carved(B, lo, hi, N), rings, FreeOf(N))
  {
    CarvedPhysical(m.rows, B, rows2, lo, hi, N);
    hide Physical;
    ListedOutside(m, B, rings, X, rows2, lo, hi, N);
    RingsFrame(m, Memory(rows2, m.heads), B, Carved(B, lo, hi, N), rings);
    CarvedFiled(m, B, rings, X, lo, hi, N);
  }

  lemma ListedOutside(m: Memory, B: Blocks, rings: Rings, X: set<nat>, rows2: seq<Row>, lo: nat, hi: nat, N: Blocks)
    requires Physical(m.rows, B) && AllRings(m, B, rings) && Filed(B, rings, X)
    requires Tiles(N, lo, hi) && SameOutside(m.rows, rows2, lo, hi) && (lo in B || lo == |m.rows| - 1)
    requires forall a :: a in B && !B[a].alloc && lo <= a < hi ==> a in X
    ensures forall c, i :: c in rings && 0 <= i < |rings[c]| && rings[c][i].Blk? ==>
      var a := rings[c][i].at; var C := Carved(B, lo, hi, N);
      && a in C && C[a] == B[a] && a + 2 < |m.rows|
      && rows2[a + 1] == m.rows[a + 1] && rows2[a + 2] == m.rows[a + 2]
  {
    forall c, i | c in rings && 0 <= i < |rings[c]| && rings[c][i].Blk?
      ensures var a := rings[c][i].at; var C := Carved(B, lo, hi, N);
        && a in C && C[a] == B[a] && a + 2 < |m.rows|
        && rows2[a + 1] == m.rows[a + 1] && rows2[a + 2] == m.rows[a + 2]
    {
      hide Physical, AllRings, Filed;
      Listed(m, B, rings, X, c, i);
      OutsideLinks(m.rows, B, rows2, lo, hi, N, rings[c][i].at);
    }
  }

  lemma CarvedFiled(m: Memory, B: Blocks, rings: Rings, X: set<nat>, lo: nat, hi: nat, N: Blocks)
    requires AllRings(m, B, rings) && Filed(B, rings, X) && Tiles(N, lo, hi)
    requires forall a :: a in X ==> lo <= a < hi
    requires forall a :: a in B && !B[a].alloc && lo <= a < hi ==> a in X
    ensures Filed(Carved(B, lo, hi, N), rings, FreeOf(N))
  {
    forall c, i | c in rings && 0 < i < |rings[c]| - 1
      ensures rings[c][i].Blk? && rings[c][i].at !in FreeOf(N)
    {
      assert RingOf(B, c, rings[c]);
      Listed(m, B, rings, X, c, i);
    }
  }

  lemma OutsideLinks(rows: seq<Row>, B: Blocks, rows2: seq<Row>, lo: nat, hi: nat, N: Blocks, a: nat)
    requires Physical(rows, B) && SameOutside(rows, rows2, lo, hi) && Tiles(N, lo, hi)
    requires lo in B || lo == |rows| - 1
    requires a in B && !(lo <= a < hi)
    ensures a !in N && a + 2 < |rows| && rows2[a + 1] == rows[a + 1] && rows2[a + 2] == rows[a + 2]
  {
    assert a < lo ==> a + B[a].size <= lo;
  }

  // ----- the three ways a call rewrites tags ---------------------------------------------------

  /** One free block over [lo, hi): free, coalesce, and growth of the heap. */
  lemma FreeRegion(rows: seq<Row>, B: Blocks, rows2: seq<Row>, lo: nat, hi: nat)
    requires Physical(rows, B) && SameOutside(rows, rows2, lo, hi)
    requires START <= lo < |rows| && lo + MIN_ROWS <= hi < |rows2| && (hi - lo) % 2 == 0
    requires lo in B || lo == |rows| - 1
    requires if |rows2| == |rows| then (hi in B && B[hi].alloc) || hi == |rows| - 1 else hi == |rows2| - 1
    requires if hi < |rows| then SameButPrev(rows[hi], rows2[hi]) else rows2[hi].Info? && rows2[hi].alloc
    requires rows[lo].Info? && rows[lo].prev && rows2[lo].Info? && rows2[lo].prev
    requires !rows2[lo].alloc && rows2[lo].size == hi - lo && FooterOf(rows2[hi - 1], rows2[lo])
    requires rows2[hi].Info? && !rows2[hi].prev && lo % 2 == 1
    ensures Retags(rows, B, rows2, lo, hi, map[lo := Block(hi - lo, false, 0)])
  {
    OneBlock(rows2, lo, Block(hi - lo, false, 0));
  }

  /** Block a becomes, or stays, allocated in full. */
  lemma AllocRegion(rows: seq<Row>, B: Blocks, rows2: seq<Row>, a: nat, req: nat)
    requires Physical(rows, B) && a in B && SameOutside(rows, rows2, a, a + B[a].size) && |rows2| == |rows|
    requires req + 8 <= 8 * B[a].size && a < |rows| && rows[a].Info?
    requires rows2[a] == rows[a].(alloc := true, req := req)
    requires forall x :: a < x < a + B[a].size && x < |rows| ==> rows2[x] == rows[x]
    requires var n := a + B[a].size; n < |rows| && SameButPrev(rows[n], rows2[n]) && rows2[n].prev
    ensures Retags(rows, B, rows2, a, a + B[a].size, map[a := Block(B[a].size, true, req)])
  {
    assert TagsOf(rows, a, B[a]);
    assert Next(B, a) == |rows| - 1 || Next(B, a) in B;
    OneBlock(rows2, a, Block(B[a].size, true, req));
  }

  /** An allocated block over [a, mid) and a free one over [mid, hi): split and shrink. */
  lemma SplitRegion(rows: seq<Row>, B: Blocks, rows2: seq<Row>, a: nat, mid: nat, hi: nat, req: nat)
    requires Physical(rows, B) && a in B && SameOutside(rows, rows2, a, hi) && |rows2| == |rows|
    requires (hi in B && B[hi].alloc) || hi == |rows| - 1
    requires a + MIN_ROWS <= mid && mid + MIN_ROWS <= hi < |rows| && (mid - a) % 2 == 0 && (hi - mid) % 2 == 0
    requires req + 8 <= 8 * (mid - a)
    requires rows[a].Info? && rows2[a] == rows[a].(alloc := true, size := mid - a, req := req)
    requires rows2[mid].Info? && rows2[mid].prev && !rows2[mid].alloc && rows2[mid].size == hi - mid
    requires FooterOf(rows2[hi - 1], rows2[mid])
    requires SameButPrev(rows[hi], rows2[hi]) && !rows2[hi].prev
    ensures Retags(rows, B, rows2, a, hi, map[a := Block(mid - a, true, req), mid := Block(hi - mid, false, 0)])
  {
    assert a % 2 == 1;
    hide Tagged, Coalesced, Aligned;
    TwoBlocks(rows2, a, Block(mid - a, true, req), Block(hi - mid, false, 0));
  }

  /** A region of one block, correctly tagged. */
  lemma OneBlock(rows: seq<Row>, lo: nat, b: Block)
    requires TagsOf(rows, lo, b) && lo % 2 == 1 && b.size % 2 == 0
    ensures var N := map[lo := b];
      Tiles(N, lo, lo + b.size) && Tagged(rows, N) && Coalesced(N) && Aligned(N)
  {
  }

  lemma TwoTiles(lo: nat, b: Block, f: Block)
    requires MIN_ROWS <= b.size && MIN_ROWS <= f.size && b.alloc && !f.alloc
    ensures var N := map[lo := b, lo + b.size := f];
      Tiles(N, lo, lo + b.size + f.size) && Coalesced(N)
  {
    var N := map[lo := b, lo + b.size := f];
    assert forall a :: a in N ==> a == lo || a == lo + b.size;
    assert N[lo] == b && N[lo + b.size] == f;
    assert Next(N, lo) == lo + b.size && Next(N, lo + b.size) == lo + b.size + f.size;
  }

  lemma TwoAligned(lo: nat, b: Block, f: Block)
    requires lo % 2 == 1 && b.size % 2 == 0 && f.size % 2 == 0
    ensures Aligned(map[lo := b, lo + b.size := f])
  {
  }

  /** A region of an allocated block followed by a free one, correctly tagged. */
  lemma TwoBlocks(rows: seq<Row>, lo: nat, b: Block, f: Block)
    requires TagsOf(rows, lo, b) && TagsOf(rows, lo + b.size, f) && b.alloc && !f.alloc
    requires lo % 2 == 1 && b.size % 2 == 0 && f.size % 2 == 0
    ensures var N := map[lo := b, lo + b.size := f];
      Tiles(N, lo, lo + b.size + f.size) && Tagged(rows, N) && Coalesced(N) && Aligned(N)
  {
    var N := map[lo := b, lo + b.size := f];
    assert MIN_ROWS <= b.size && MIN_ROWS <= f.size;
    assert Tagged(rows, N) by { hide TagsOf; }
    hide TagsOf, Tiles, Coalesced, Aligned;
    TwoTiles(lo, b, f);
    TwoAligned(lo, b, f);
  }

  // ----- what clients see -----------------------------------------------------------------------

  /** Every live block outside S stays where it is, with its size and its payload rows. */
  ghost predicate KeepsPayloads(r1: seq<Row>, B1: Blocks, r2: seq<Row>, B2: Blocks, S: set<nat>) {
    && |r1| <= |r2|
    && (forall a :: a in B1 && B1[a].alloc && a !in S ==> a in B2 && B2[a] == B1[a])
    && (forall a, x :: a in B1 && B1[a].alloc && a !in S && a < x < a + B1[a].size && x < |r1| ==> r2[x] == r1[x])
  }

  lemma KeepsPayloadsTransitive(r1: seq<Row>, B1: Blocks, r2: seq<Row>, B2: Blocks, r3: seq<Row>, B3: Blocks,
                                S: set<nat>, T: set<nat>, U: set<nat>)
    requires KeepsPayloads(r1, B1, r2, B2, S) && KeepsPayloads(r2, B2, r3, B3, T)
    requires forall a :: a in B1 && B1[a].alloc && (a in S || a in T) ==> a in U
    ensures KeepsPayloads(r1, B1, r3, B3, U)
  {
  }

  lemma LiveSame(B: Blocks, h: nat)
    requires h in B && B[h].alloc
    ensures Live(B) == Live(B)[h := B[h].req]
  {
  }

  lemma LiveIs(B: Blocks, h: nat)
    ensures h in Live(B) <==> h in B && B[h].alloc
    ensures h in Live(B) ==> Live(B)[h] == B[h].req
  {
  }

  lemma KeepsPayloadsAny(rows: seq<Row>, B: Blocks, S: set<nat>)
    ensures KeepsPayloads(rows, B, rows, B, S)
  {
  }

  lemma KeepsPayloadsSame(rows: seq<Row>, B: Blocks)
    ensures KeepsPayloads(rows, B, rows, B, {})
  {
  }

  lemma SameLiveKeeps(r1: seq<Row>, r2: seq<Row>, B: Blocks)
    requires SameLive(r1, r2, B)
    ensures KeepsPayloads(r1, B, r2, B, {})
  {
  }

  /** Retagging a region only concerns the allocations inside it. */
  lemma CarvedKeeps(rows: seq<Row>, B: Blocks, rows2: seq<Row>, lo: nat, hi: nat, N: Blocks, S: set<nat>)
    requires Physical(rows, B) && Retags(rows, B, rows2, lo, hi, N)
    requires forall a :: a in B && B[a].alloc && lo <= a < hi ==> a in S
    ensures KeepsPayloads(rows, B, rows2, Carved(B, lo, hi, N), S)
  {
    var C := Carved(B, lo, hi, N);
    forall a | a in B && B[a].alloc && a !in S
      ensures a in C && C[a] == B[a] && forall x :: a < x < a + B[a].size && x < |rows| ==> rows2[x] == rows[x]
    {
      assert a < lo ==> a + B[a].size <= lo;
    }
  }

  /** The only block that starts inside block q is q. */
  lemma OnlyBlock(rows: seq<Row>, B: Blocks, q: nat)
    requires Physical(rows, B) && q in B
    ensures forall a :: a in B && q <= a < q + B[q].size ==> a == q
    ensures q + B[q].size < |rows| && (q + B[q].size in B || q + B[q].size == |rows| - 1)
  {
    assert Next(B, q) == |rows| - 1 || Next(B, q) in B;
  }

  /** Retagging replaces the allocations S of the region by those of N. */
  lemma LiveCarved(B: Blocks, lo: nat, hi: nat, N: Blocks, S: set<nat>)
    requires forall a :: a in N ==> lo <= a < hi
    requires forall a :: a in S <==> a in B && B[a].alloc && lo <= a < hi
    ensures Live(Carved(B, lo, hi, N)) == (Live(B) - S) + Live(N)
  {
  }

  lemma RegionStarts(rows: seq<Row>, B: Blocks, rows2: seq<Row>, lo: nat, hi: nat, N: Blocks)
    requires Retags(rows, B, rows2, lo, hi, N)
    ensures forall a :: a in N ==> lo <= a < hi
  {
  }

  /** Everything one retagging does to the state: S are the allocations of the region, X its free
      blocks, all off their lists. */
  lemma RetagEffect(m: Memory, sizes: seq<nat>, B: Blocks, rings: Rings, X: set<nat>,
                    rows2: seq<Row>, lo: nat, hi: nat, N: Blocks, S: set<nat>)
    requires Good(m, sizes, B, rings, X) && Retags(m.rows, B, rows2, lo, hi, N)
    requires forall a :: a in X ==> lo <= a < hi
    requires forall a :: a in B && lo <= a < hi ==> if B[a].alloc then a in S else a in X
    requires forall a :: a in S ==> a in B && B[a].alloc && lo <= a < hi
    ensures Good(Memory(rows2, m.heads), sizes, Carved(B, lo, hi, N), rings, FreeOf(N))
    ensures KeepsPayloads(m.rows, B, rows2, Carved(B, lo, hi, N), S)
    ensures Live(Carved(B, lo, hi, N)) == (Live(B) - S) + Live(N)
  {
    hide Physical, AllRings, Filed, KeepsPayloads, Retags, Increasing;
    RegionStarts(m.rows, B, rows2, lo, hi, N);
    CarvedGood(m, sizes, B, rings, X, rows2, lo, hi, N);
    CarvedKeeps(m.rows, B, rows2, lo, hi, N, S);
    LiveCarved(B, lo, hi, N, S);
  }

  lemma LivePut(live: map<nat, nat>, h: nat, size: nat)
    ensures (live - {}) + map[h := size] == live[h := size]
    ensures h in live ==> (live - {h}) + map[h := size] == live[h := size]
    ensures (live - {h}) + map[] == live - {h} && (live - {}) + map[] == live
  {
  }

  lemma LiveOfOne(a: nat, b: Block)
    ensures Live(map[a := b]) == if b.alloc then map[a := b.req] else map[]
    ensures FreeOf(map[a := b]) == if b.alloc then {} else {a}
  {
  }

  lemma LiveOfTwo(a: nat, b: Block, r: nat, f: Block)
    requires a != r && b.alloc && !f.alloc
    ensures Live(map[a := b, r := f]) == map[a := b.req]
    ensures FreeOf(map[a := b, r := f]) == {r}
  {
  }

  // ----- classes ---------------------------------------------------------------------------------

  /** Opening the list of a new size, empty, in its place among the sizes. */
  lemma NewClass(m: Memory, sizes: seq<nat>, B: Blocks, rings: Rings, X: set<nat>, c: nat, i: nat)
    requires Good(m, sizes, B, rings, X) && c !in sizes && i <= |sizes|
    requires (forall j :: 0 <= j < i ==> sizes[j] < c) && (forall j :: i <= j < |sizes| ==> c < sizes[j])
    ensures Good(m.(heads := m.heads[c := Ends(Head(c), Head(c))]), sizes[..i] + [c] + sizes[i..], B,
                 rings[c := [Head(c), Head(c)]], X)
  {
    hide Physical, RingOf, Linked;
    NewClassRings(m, B, rings, c);
    InsertedSize(sizes, c, i);
  }

  lemma InsertedSize(sizes: seq<nat>, c: nat, i: nat)
    requires Increasing(sizes) && i <= |sizes|
    requires (forall j :: 0 <= j < i ==> sizes[j] < c) && (forall j :: i <= j < |sizes| ==> c < sizes[j])
    ensures var s2 := sizes[..i] + [c] + sizes[i..];
      Increasing(s2) && (forall d :: d in s2 <==> d == c || d in sizes)
  {
    assert sizes == sizes[..i] + sizes[i..];
  }

  lemma NewClassRings(m: Memory, B: Blocks, rings: Rings, c: nat)
    requires AllRings(m, B, rings) && c !in rings
    ensures AllRings(m.(heads := m.heads[c := Ends(Head(c), Head(c))]), B, rings[c := [Head(c), Head(c)]])
  {
    var m2 := m.(heads := m.heads[c := Ends(Head(c), Head(c))]);
    forall d | d in rings ensures Linked(m2, rings[d]) {
      var r := rings[d];
      assert RingOf(B, d, r);
      forall k: nat | k + 1 < |r| ensures Step(m2, r, k) {
        assert Step(m, r, k);
        assert ClassOf(B, r[k]) == d && ClassOf(B, r[k + 1]) == d;
      }
    }
  }

  /** A free block on the lists stands in the ring of its size. */
  lemma RingIndex(m: Memory, sizes: seq<nat>, B: Blocks, rings: Rings, X: set<nat>, a: nat) returns (i: nat)
    requires Good(m, sizes, B, rings, X) && a in B && !B[a].alloc && a !in X
    ensures B[a].size in rings && 0 < i < |rings[B[a].size]| - 1 && rings[B[a].size][i] == Blk(a)
  {
    var r := rings[B[a].size];
    assert RingOf(B, B[a].size, r);
    i :| 0 <= i < |r| && r[i] == Blk(a);
  }

  /** Taking listed block a off its list. */
  lemma UnlinkedGood(m: Memory, sizes: seq<nat>, B: Blocks, rings: Rings, X: set<nat>, a: nat, i: nat)
    requires Good(m, sizes, B, rings, X) && a in B && !B[a].alloc && a !in X
    requires B[a].size in rings && 0 < i < |rings[B[a].size]| - 1 && rings[B[a].size][i] == Blk(a)
    ensures m.Has(Blk(a)) && m.Has(m.Next(Blk(a))) && m.Has(m.Prev(Blk(a)))
    ensures var m2 := Unlinked(m, Blk(a));
      && SameHeap(m, m2, B)
      && Good(m2, sizes, B, rings[B[a].size := RingWithout(rings[B[a].size], i)], X + {a})
  {
    hide Physical, SameLive, Linked, RingOf, Filed, Increasing;
    UnlinkKeepsRings(m, B, rings, B[a].size, i);
    UnlinkedFiled(B, rings, X, a, i);
  }

  lemma UnlinkedFiled(B: Blocks, rings: Rings, X: set<nat>, a: nat, i: nat)
    requires (forall c :: c in rings ==> RingOf(B, c, rings[c])) && Filed(B, rings, X)
    requires a in B && !B[a].alloc && B[a].size in rings
    requires 0 < i < |rings[B[a].size]| - 1 && rings[B[a].size][i] == Blk(a)
    ensures Filed(B, rings[B[a].size := RingWithout(rings[B[a].size], i)], X + {a})
  {
    var c := B[a].size;
    var r := rings[c];
    var r2 := RingWithout(r, i);
    assert RingOf(B, c, r);
    forall k | 0 < k < |r2| - 1 ensures r2[k].Blk? && r2[k].at !in X + {a} {
      assert r2[k] == r[if k < i then k else k + 1];
    }
    forall d, k | d in rings && d != c && 0 < k < |rings[d]| - 1 ensures rings[d][k] != Blk(a) {
      assert ClassOf(B, rings[d][k]) == d;
    }
    forall b | b in B && !B[b].alloc && b !in X + {a} && B[b].size == c ensures Blk(b) in r2 {
      var k :| 0 <= k < |r| && r[k] == Blk(b);
      assert r2[if k < i then k else k - 1] == Blk(b);
    }
  }

  /** Putting unlisted block a in front of the list of its size. */
  lemma SplicedGood(m: Memory, sizes: seq<nat>, B: Blocks, rings: Rings, X: set<nat>, a: nat)
    requires Good(m, sizes, B, rings, X) && a in X && B[a].size in rings
    ensures var c := B[a].size;
      && m.Has(Head(c)) && m.Has(Blk(a)) && m.Has(m.Next(Head(c)))
      && var m2 := Spliced(m, c, Blk(a));
      && SameHeap(m, m2, B) && |rings[c]| > 0
      && Good(m2, sizes, B, rings[c := [Head(c), Blk(a)] + rings[c][1..]], X - {a})
  {
    hide Physical, SameLive, Linked, RingOf, Filed, Increasing;
    Unlisted(m, B, rings, X, a);
    SpliceKeepsRings(m, B, rings, B[a].size, a);
    SplicedFiled(B, rings, X, a);
  }

  /** A block of X is on no list. */
  lemma Unlisted(m: Memory, B: Blocks, rings: Rings, X: set<nat>, a: nat)
    requires AllRings(m, B, rings) && Filed(B, rings, X) && a in X && a in B && B[a].size in rings
    ensures forall c, k :: c in rings && 0 <= k < |rings[c]| ==> rings[c][k] != Blk(a)
    ensures var r := rings[B[a].size]; |r| >= 2 && r[0] == Head(B[a].size) && Blk(a) !in r
  {
    forall c, k | c in rings && 0 <= k < |rings[c]| ensures rings[c][k] != Blk(a) {
      if rings[c][k].Blk? { Listed(m, B, rings, X, c, k); }
    }
    assert RingOf(B, B[a].size, rings[B[a].size]);
  }

  lemma SplicedFiled(B: Blocks, rings: Rings, X: set<nat>, a: nat)
    requires a in B && B[a].size in rings && |rings[B[a].size]| >= 2 && rings[B[a].size][0] == Head(B[a].size)
    requires Filed(B, rings, X) && (forall c, k :: c in rings && 0 < k < |rings[c]| - 1 ==> rings[c][k] != Blk(a))
    ensures Filed(B, rings[B[a].size := [Head(B[a].size), Blk(a)] + rings[B[a].size][1..]], X - {a})
  {
    var c := B[a].size;
    var r := rings[c];
    var r2 := [Head(c), Blk(a)] + r[1..];
    forall k | 0 < k < |r2| - 1 ensures r2[k].Blk? && r2[k].at !in X - {a} {
      if k >= 2 { assert r2[k] == r[k - 1]; }
    }
    assert r2[1] == Blk(a);
    forall b | b in B && !B[b].alloc && b !in X && B[b].size == c ensures Blk(b) in r2 {
      var k :| 0 <= k < |r| && r[k] == Blk(b);
      assert r2[k + 1] == Blk(b);
    }
  }

  /** Rewriting the payload of a live block leaves the lists alone. */
  lemma PayloadGood(m: Memory, sizes: seq<nat>, B: Blocks, rings: Rings, rows2: seq<Row>, h: nat)
    requires Good(m, sizes, B, rings, {}) && Physical(rows2, B) && h in B && B[h].alloc && |rows2| == |m.rows|
    requires forall x :: 0 <= x < |m.rows| && !(h < x < h + B[h].size) ==> rows2[x] == m.rows[x]
    ensures Good(Memory(rows2, m.heads), sizes, B, rings, {})
    ensures KeepsPayloads(m.rows, B, rows2, B, {h})
  {
    forall c, i | c in rings && 0 <= i < |rings[c]| && rings[c][i].Blk?
      ensures var a := rings[c][i].at;
        a in B && a + 2 < |m.rows| && rows2[a + 1] == m.rows[a + 1] && rows2[a + 2] == m.rows[a + 2]
    {
      hide AllRings, Filed;
      Listed(m, B, rings, {}, c, i);
      Apart(m.rows, B, rings[c][i].at, h);
    }
    RingsFrame(m, Memory(rows2, m.heads), B, B, rings);
    forall a, x | a in B && B[a].alloc && a != h && a < x < a + B[a].size && x < |m.rows|
      ensures rows2[x] == m.rows[x]
    {
      Apart(m.rows, B, a, h);
    }
  }

  lemma Apart(rows: seq<Row>, B: Blocks, a: nat, h: nat)
    requires Physical(rows, B) && a in B && h in B && a != h
    ensures MIN_ROWS <= B[a].size && a + B[a].size < |rows|
    ensures a + B[a].size <= h || h + B[h].size <= a
  {
    assert TagsOf(rows, a, B[a]);
  }
}
