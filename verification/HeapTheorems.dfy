/** What the invariant of the allocator means for a reader of hw3/include/sfmm.h. */
module HeapTheorems {
  import opened HeapLayout
  import opened FreeLists
  import opened HeapState
  import opened TagWrites
  import opened Allocator

  /** Each free block stands on exactly one list, once: the list of its own size. Each block on a
      list is free. */
  lemma FreeListsAgree(m: Memory, sizes: seq<nat>, B: Blocks, rings: Rings)
    requires Good(m, sizes, B, rings, {})
    ensures forall a :: a in B && !B[a].alloc ==> exists i: nat :: OnList(rings, B[a].size, i, a)
    ensures forall a, c, d, i: nat, j: nat :: OnList(rings, c, i, a) && OnList(rings, d, j, a) ==>
      a in B && !B[a].alloc && c == d == B[a].size && i == j
  {
    forall a | a in B && !B[a].alloc ensures exists i: nat :: OnList(rings, B[a].size, i, a) {
      var i := RingIndex(m, sizes, B, rings, {}, a);
      assert OnList(rings, B[a].size, i, a);
    }
    forall a, c, d, i: nat, j: nat | OnList(rings, c, i, a) && OnList(rings, d, j, a)
      ensures a in B && !B[a].alloc && c == d == B[a].size && i == j
    {
      hide Physical;
      Listed(m, B, rings, {}, c, i);
      Listed(m, B, rings, {}, d, j);
      assert RingOf(B, c, rings[c]);
    }
  }

  /** Block a is the i-th node of the list of class c, the header being node 0. */
  ghost predicate OnList(rings: Rings, c: nat, i: nat, a: nat) {
    c in rings && 0 < i < |rings[c]| - 1 && rings[c][i] == Blk(a)
  }

  /** Following next from the header of a class k times arrives at node k, and following prev from
      node k arrives back at the header: the memory links are the list, both ways. */
  lemma {:induction false} FollowNext(m: Memory, B: Blocks, rings: Rings, c: nat, k: nat)
    requires AllRings(m, B, rings) && c in rings && k < |rings[c]|
    ensures Reaches(m, Head(c), k, rings[c][k])
    ensures ReachesBack(m, rings[c][k], k, Head(c))
    decreases k
  {
    var r := rings[c];
    assert RingOf(B, c, r);
    if k > 0 {
      FollowNext(m, B, rings, c, k - 1);
      assert Step(m, r, k - 1);
      NextReaches(m, Head(c), k - 1, r[k - 1], r[k]);
    }
  }

  /** k steps along next lead from x to y. */
  ghost predicate Reaches(m: Memory, x: Ref, k: nat, y: Ref)
    decreases k
  {
    if k == 0 then x == y else m.Has(x) && Reaches(m, m.Next(x), k - 1, y)
  }

  /** k steps along prev lead from x to y. */
  ghost predicate ReachesBack(m: Memory, x: Ref, k: nat, y: Ref)
    decreases k
  {
    if k == 0 then x == y else m.Has(x) && ReachesBack(m, m.Prev(x), k - 1, y)
  }

  lemma {:induction false} NextReaches(m: Memory, x: Ref, k: nat, y: Ref, z: Ref)
    requires Reaches(m, x, k, y) && m.Has(y) && m.Next(y) == z
    ensures Reaches(m, x, k + 1, z)
    decreases k
  {
    if k > 0 { NextReaches(m, m.Next(x), k - 1, y, z); }
  }

  /** Live payloads: on 16-byte boundaries, inside the heap, as long as requested and disjoint. */
  lemma LivePayloads(rows: seq<Row>, B: Blocks, a: nat, b: nat)
    requires Physical(rows, B) && a in Live(B) && b in Live(B)
    ensures (a + 1) % 2 == 0 && START < a + 1 && a + B[a].size <= |rows| - 1
    ensures Live(B)[a] <= 8 * (B[a].size - 1)
    ensures a != b ==> a + B[a].size <= b || b + B[b].size <= a
  {
    hide Physical, Live;
    LiveIs(B, a);
    LiveIs(B, b);
    BlockFacts(rows, B, a);
    BlockFacts(rows, B, b);
  }

  /** Every row between prologue and epilogue belongs to exactly one block. */
  lemma RowsAreBlocks(rows: seq<Row>, B: Blocks, x: nat)
    requires Physical(rows, B) && START <= x < |rows| - 1
    ensures exists q :: q in B && q <= x < q + B[q].size && forall r :: r in B && r <= x < r + B[r].size ==> r == q
  {
    var q := EveryRowCovered(B, START, |rows| - 1, START, x);
  }

  /** With nothing allocated the heap is one free block of pages * 4096 - 48 bytes. */
  lemma AllFreeIsOneBlock(rows: seq<Row>, B: Blocks)
    requires Physical(rows, B) && Live(B) == map[]
    ensures B.Keys == {START} && 8 * B[START].size == 8 * |rows| - 48
  {
    assert forall a :: a in B ==> !B[a].alloc by {
      forall a | a in B ensures !B[a].alloc { LiveIs(B, a); }
    }
    assert Next(B, START) == |rows| - 1;
  }

  /** On a heap below 4 GiB every header value fits its bit field. */
  lemma FieldsFit(rows: seq<Row>, B: Blocks, a: nat)
    requires Physical(rows, B) && a in B && 8 * |rows| < 0x1_0000_0000
    ensures 0 < B[a].size / 2 < 0x1000_0000 && 2 * (B[a].size / 2) == B[a].size
    ensures B[a].alloc ==> B[a].req < 0x1_0000_0000
  {
    BlockFacts(rows, B, a);
  }

  /** Freeing everything, in any order, leaves that one block. */
  method FreeAll(heap: Heap, order: seq<nat>)
    requires heap.At({}) && (forall i, j :: 0 <= i < j < |order| ==> order[i] != order[j])
    requires forall a :: a in order <==> a in Live(heap.blocks)
    modifies heap
    ensures heap.At({}) && |heap.mem.rows| == old(|heap.mem.rows|)
    ensures heap.blocks.Keys == {START} && 8 * heap.blocks[START].size == 8 * |heap.mem.rows| - 48
  {
    hide Physical, AllRings, Filed, Increasing, KeepsPayloads, Live;
    var i := 0;
    while i < |order|
      invariant i <= |order| && heap.At({}) && |heap.mem.rows| == old(|heap.mem.rows|)
      invariant forall a :: a in order[i..] <==> a in Live(heap.blocks)
    {
      assert order[i] in order[i..];
      LiveIs(heap.blocks, order[i]);
      heap.Free(order[i] + 1);
      assert order[i..] == [order[i]] + order[i + 1..];
      i := i + 1;
    }
    AllFreeIsOneBlock(heap.mem.rows, heap.blocks);
  }
}
