/** The free-list code of hw3/src/sfmm.c exactly as written at the places the allocator model
    repairs, and when, precisely, it keeps what hw3/include/sfmm.h:162-191 promises. */
module FreeListFaults {
  import opened HeapLayout
  import opened FreeLists
  import opened HeapState
  import opened HeapTheorems
  import opened TagWrites
  import opened Allocator

  // ----- pop, lines 98 and 176 -------------------------------------------------------------------

  /** head.links.next = head.links.next->links.next, and nothing else. */
  function PopAsWritten(m: Memory, c: nat): Memory
    requires m.Has(Head(c)) && m.Has(m.Next(Head(c)))
  {
    m.SetNext(Head(c), m.Next(m.Next(Head(c))))
  }

  /** The pop never leaves a well-linked list: the new first node, be it a block or the header,
      still points back at the block that was taken. */
  lemma PopBreaksList(m: Memory, B: Blocks, rings: Rings, c: nat)
    requires AllRings(m, B, rings) && c in rings && |rings[c]| > 2
    ensures m.Has(Head(c)) && m.Has(m.Next(Head(c)))
    ensures PrevIs(PopAsWritten(m, c), rings[c][2], rings[c][1])
    ensures !Linked(PopAsWritten(m, c), RingWithout(rings[c], 1))
  {
    var r := rings[c];
    RingNeighbours(m, B, c, r, 0);
    RingNeighbours(m, B, c, r, 1);
    assert Step(m, r, 1);
    var m2 := PopAsWritten(m, c);
    var r2 := RingWithout(r, 1);
    assert r2[0] == Head(c) && r2[1] == r[2] && r[1] != Head(c);
    assert !Step(m2, r2, 0);
  }

  /** After the pop, taking the remaining block number k off the list (k counts from 1) makes the
      header skip it only if it is not the first one. In the first one's place the write goes to
      the link row of the block just allocated, which is a payload row by then. */
  lemma UnlinkAfterPop(m: Memory, B: Blocks, rings: Rings, c: nat, k: nat)
    requires AllRings(m, B, rings) && c in rings && 1 <= k < |rings[c]| - 2
    ensures m.Has(Head(c)) && m.Has(m.Next(Head(c)))
    ensures var r := rings[c]; var m2 := PopAsWritten(m, c);
      && m2.Has(r[k + 1]) && m2.Has(m2.Next(r[k + 1])) && m2.Has(m2.Prev(r[k + 1]))
      && var m3 := Unlinked(m2, r[k + 1]); var before := if k == 1 then Head(c) else r[k];
      && (NextIs(m3, before, r[k + 2]) <==> k != 1)
      && (k == 1 ==> NextIs(m3, r[1], r[3]) && NextIs(m3, Head(c), r[2]))
  {
    var r := rings[c];
    assert RingOf(B, c, r);
    RingNeighbours(m, B, c, r, 0);
    RingNeighbours(m, B, c, r, 1);
    RingNeighbours(m, B, c, r, k);
    RingNeighbours(m, B, c, r, k + 1);
    hide RingOf, Linked;
  }

  // ----- insertion, lines 104-107, 213-216 and 271-274 ----------------------------------------------

  /** x is linked behind the first node, but that node's next link is not set. */
  function InsertAsWritten(m: Memory, c: nat, x: Ref): Memory
    requires m.Has(Head(c)) && m.Has(x) && m.Has(m.Next(Head(c))) && m.Has(m.Next(m.Next(Head(c))))
  {
    var first := m.Next(Head(c));
    m.SetNext(x, m.Next(first)).SetPrev(x, first).SetPrev(m.Next(first), x)
  }

  /** The inserted block is lost: no number of steps along next ever arrives at it. */
  lemma InsertLosesBlock(m: Memory, B: Blocks, rings: Rings, c: nat, a: nat, k: nat)
    requires Physical(m.rows, B) && AllRings(m, B, rings) && c in rings
    requires a in B && !B[a].alloc && Blk(a) !in rings[c]
    ensures m.Has(Head(c)) && m.Has(Blk(a)) && m.Has(m.Next(Head(c))) && m.Has(m.Next(m.Next(Head(c))))
    ensures !Reaches(InsertAsWritten(m, c, Blk(a)), Head(c), k, Blk(a))
  {
    var r := rings[c];
    var x := Blk(a);
    FreeBlockHasLinks(m, B, a);
    RingNeighbours(m, B, c, r, 0);
    var j := if |r| > 2 then 1 else 0;
    RingNeighbours(m, B, c, r, j);
    assert RingOf(B, c, r);
    assert m.Next(r[1]) == r[j + 1] && r[1] == r[j + if |r| > 2 then 0 else 1];
    var m1 := m.SetNext(x, r[j + 1]);
    SetNextEffect(m, B, x, r[j + 1]);
    var m2 := m1.SetPrev(x, r[1]);
    SetPrevEffect(m1, B, x, r[1]);
    var m3 := m2.SetPrev(r[j + 1], x);
    SetPrevEffect(m2, B, r[j + 1], x);
    forall i: nat | i + 1 < |r| ensures NextIs(m3, r[i], r[i + 1]) {
      assert Step(m, r, i) && r[i] != x;
    }
    StaysOnRing(m3, r, c, 0, k, x);
  }

  lemma {:induction false} StaysOnRing(m: Memory, r: Ring, c: nat, i: nat, k: nat, x: Ref)
    requires |r| >= 2 && r[0] == Head(c) && r[|r| - 1] == Head(c) && x !in r && i < |r| - 1
    requires forall j: nat :: j + 1 < |r| ==> NextIs(m, r[j], r[j + 1])
    ensures !Reaches(m, r[i], k, x)
    decreases k
  {
    assert NextIs(m, r[i], r[i + 1]);
    if k > 0 {
      StaysOnRing(m, r, c, if i + 1 == |r| - 1 then 0 else i + 1, k - 1, x);
    }
  }

  // ----- class search, lines 101-118, 211-224 and 269-282 --------------------------------------------

  /** The loop `while (n->next != &head)` from the sentinel, whose size is 0: it tests the sentinel
      and every class but the last. */
  function FoundAsWritten(sizes: seq<nat>, s: nat, j: nat): bool
    requires j <= |sizes|
    decreases |sizes| - j
  {
    if j == |sizes| then false
    else
      var size := if j == 0 then 0 else sizes[j - 1];
      if size == s then true else if size > s then false else FoundAsWritten(sizes, s, j + 1)
  }

  /** The search finds the class of s exactly when there is one and it is not the last. */
  lemma {:induction false} SearchSkipsLast(sizes: seq<nat>, s: nat, j: nat)
    requires Increasing(sizes) && s > 0 && j <= |sizes| && forall i :: 0 <= i < j - 1 ==> sizes[i] < s
    ensures FoundAsWritten(sizes, s, j) <==> exists i :: 0 <= i < |sizes| - 1 && sizes[i] == s
    decreases |sizes| - j
  {
    if j < |sizes| {
      if j == 0 || sizes[j - 1] < s { SearchSkipsLast(sizes, s, j + 1); }
    }
  }

  /** In the split of sf_malloc the search is right all the same: a remainder is smaller than the
      block it comes from, so its class is never the last. */
  lemma SplitSearchIsRight(sizes: seq<nat>, s: nat, t: nat)
    requires Increasing(sizes) && 0 < s < t && t in sizes
    ensures FoundAsWritten(sizes, s, 0) <==> s in sizes
  {
    SearchSkipsLast(sizes, s, 0);
  }

  // ----- class placement --------------------------------------------------------------------------

  /** Where lines 227-250 and 285-308 put a new class: after the first node that is smaller and
      whose successor is larger, or after the last node. j is the node looked at. */
  function PlaceAfterGrowth(sizes: seq<nat>, s: nat, j: nat): (r: seq<nat>)
    requires j < |sizes|
    decreases |sizes| - j
  {
    if (j + 1 < |sizes| && sizes[j] < s < sizes[j + 1]) || j + 1 == |sizes|
    then sizes[..j + 1] + [s] + sizes[j + 1..]
    else PlaceAfterGrowth(sizes, s, j + 1)
  }

  /** Where a class that is new lands: the order of the list of lists survives exactly when the new
      class is larger than the smallest one. */
  lemma {:induction false} PlaceInOrder(sizes: seq<nat>, s: nat, j: nat)
    requires Increasing(sizes) && s !in sizes && j < |sizes| && (j > 0 ==> sizes[j] < s || s < sizes[0])
    ensures Increasing(PlaceAfterGrowth(sizes, s, j)) <==> sizes[0] < s
    decreases |sizes| - j
  {
    if (j + 1 < |sizes| && sizes[j] < s < sizes[j + 1]) || j + 1 == |sizes| {
      var r := sizes[..j + 1] + [s] + sizes[j + 1..];
      assert r[0] == sizes[0] && r[j + 1] == s;
      if sizes[0] < s {
        assert sizes[j] < s;
        forall a, b | 0 <= a < b < |r| ensures r[a] < r[b] {}
      }
    } else {
      assert sizes[j + 1] != s;
      PlaceInOrder(sizes, s, j + 1);
    }
  }

  /** Growth never meets the bad case: it files a block of at least a page, and the class of the first
      page is smaller. */
  lemma GrowthPlacement(sizes: seq<nat>, B: Blocks, s: nat)
    requires FirstIn(sizes, B) && Increasing(sizes) && s >= PAGE_ROWS && s !in sizes
    ensures Increasing(PlaceAfterGrowth(sizes, s, 0))
  {
    var i :| 0 <= i < |sizes| && sizes[i] == PAGE_ROWS - 6;
    assert sizes[0] <= sizes[i];
    PlaceInOrder(sizes, s, 0);
  }

  /** Where lines 459-504 and 639-672 put a new class: as above, but a list of several classes also
      gets a smaller one in front. */
  function PlaceAfterFree(sizes: seq<nat>, s: nat): (r: seq<nat>)
    requires |sizes| > 0
  {
    if |sizes| > 1 && s < sizes[0] then [s] + sizes else PlaceAfterGrowth(sizes, s, 0)
  }

  lemma PlaceAfterFreeInOrder(sizes: seq<nat>, s: nat)
    requires Increasing(sizes) && s !in sizes && |sizes| > 0
    ensures Increasing(PlaceAfterFree(sizes, s)) <==> |sizes| > 1 || sizes[0] < s
  {
    if !(|sizes| > 1 && s < sizes[0]) {
      assert sizes[0] != s;
      PlaceInOrder(sizes, s, 0);
    }
  }

  /** sf_free never meets the bad case either: with the first class alone, what it frees is the whole
      first page, whose class is open. */
  lemma FreePlacement(rows: seq<Row>, sizes: seq<nat>, B: Blocks, h: nat, lo: nat, hi: nat)
    requires FirstIn(sizes, B) && Increasing(sizes) && Physical(rows, B)
    requires h in B && B[h].alloc && h < |rows| && MergesFrom(rows, B, h, lo) && MergesTo(B, h, hi)
    requires lo < hi && hi - lo !in sizes
    ensures Increasing(PlaceAfterFree(sizes, hi - lo))
  {
    assert |sizes| == 1 ==> h == START && hi - lo == PAGE_ROWS - 6;
    PlaceAfterFreeInOrder(sizes, hi - lo);
  }

  /** The shrink of sf_realloc keeps the order exactly when a class was opened before: cutting the
      block of a whole first page files its tail behind the larger class. */
  lemma ShrinkPlacement(rows: seq<Row>, sizes: seq<nat>, B: Blocks, h: nat, rsize: nat, hi: nat)
    requires FirstIn(sizes, B) && Increasing(sizes) && Physical(rows, B)
    requires h in B && B[h].alloc && BlockRows(rsize) + MIN_ROWS <= B[h].size && MergesTo(B, h, hi)
    ensures var s := hi - h - BlockRows(rsize);
      s > 0 && (s !in sizes ==> (Increasing(PlaceAfterFree(sizes, s)) <==> |sizes| > 1))
  {
    var s := hi - h - BlockRows(rsize);
    if |sizes| == 1 {
      assert sizes[0] == PAGE_ROWS - 6;
    }
    if s !in sizes { PlaceAfterFreeInOrder(sizes, s); }
  }

  /** A heap that gets there: sf_malloc(4040) as the first call takes the whole first page. */
  method TakeFirstPage(heap: Heap) returns (p: nat)
    requires heap.Valid() && |heap.mem.rows| == 0 && heap.maxPages >= 1
    modifies heap
    ensures heap.At({}) && heap.FirstClass() && heap.sizes == [PAGE_ROWS - 6]
    ensures p == START + 1 && Live(heap.blocks) == map[START := 4040]
  {
    hide Good, KeepsPayloads, Live, Physical;
    heap.Init();
    InitIsFirst(heap.sizes, heap.blocks);
    GoodParts(heap.mem, heap.sizes, heap.blocks, heap.rings);
    NothingFits(4040);
    ghost var r0, z0, b0 := heap.mem.rows, heap.sizes, heap.blocks;
    var i := heap.Search(4040);
    assert heap.sizes[i] in heap.sizes;
    p := heap.Take(heap.sizes[i], 4040);
    FirstKept(r0, z0, b0, heap.mem, heap.sizes, heap.blocks, heap.rings);
  }

  /** sf_realloc(p, 4008) then files 4 rows, and the list of lists is out of order. */
  lemma ShrinkPlacementFails()
    ensures BlockRows(4008) + 4 == PAGE_ROWS - 6
    ensures PlaceAfterFree([PAGE_ROWS - 6], 4) == [PAGE_ROWS - 6, 4] && !Increasing([PAGE_ROWS - 6, 4])
  {
    var r := [PAGE_ROWS - 6, 4];
    assert r[0] > r[1];
  }

  /** Where lines 122-144 put the class of a remainder; the scan starts at the sentinel. */
  function PlaceAfterSplit(sizes: seq<nat>, s: nat, j: nat): (r: seq<nat>)
    requires j <= |sizes|
    decreases |sizes| - j
  {
    if j == |sizes| then sizes
    else if (if j == 0 then 0 else sizes[j - 1]) < s < sizes[j] then sizes[..j] + [s] + sizes[j..]
    else PlaceAfterSplit(sizes, s, j + 1)
  }

  /** A remainder's class always finds its place: the block it was cut from is larger. */
  lemma {:induction false} SplitPlacement(sizes: seq<nat>, s: nat, t: nat, j: nat)
    requires Increasing(sizes) && s !in sizes && 0 < s < t && t in sizes
    requires j <= |sizes| && forall i :: 0 <= i < j ==> sizes[i] < s
    ensures Increasing(PlaceAfterSplit(sizes, s, j))
    ensures forall x :: x in PlaceAfterSplit(sizes, s, j) <==> x == s || x in sizes
    decreases |sizes| - j
  {
    var k :| 0 <= k < |sizes| && sizes[k] == t;
    assert j < |sizes|;
    if s < sizes[j] {
      InsertedSize(sizes, s, j);
    } else {
      assert sizes[j] != s;
      SplitPlacement(sizes, s, t, j + 1);
    }
  }

  /** A class the search missed, because it is the last, is opened a second time. */
  lemma {:induction false} LastClassTwice(sizes: seq<nat>, s: nat, j: nat)
    requires Increasing(sizes) && j < |sizes| && s == sizes[|sizes| - 1]
    ensures PlaceAfterGrowth(sizes, s, j) == sizes + [s] && !Increasing(sizes + [s])
    decreases |sizes| - j
  {
    var r := sizes + [s];
    assert r[|sizes| - 1] == r[|sizes|];
    if j + 1 < |sizes| {
      assert sizes[j + 1] <= s;
      LastClassTwice(sizes, s, j + 1);
    } else {
      assert sizes[..j + 1] + [s] + sizes[j + 1..] == sizes + [s];
    }
  }
}
