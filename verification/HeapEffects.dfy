/** What the calls of hw3/src/sfmm.c do to the blocks of the heap, block by block. */
module HeapEffects {
  import opened HeapLayout
  import opened FreeLists
  import opened HeapState
  import opened TagWrites

  /** No allocated block could be cut: what it has too much makes no block. */
  ghost predicate Tight(B: Blocks) {
    forall a :: a in B && B[a].alloc ==> B[a].size < BlockRows(B[a].req) + MIN_ROWS
  }

  // ----- serving a request ------------------------------------------------------------------------

  /** Block h serves the request: it is cut if the rest makes a block, and nothing else changes. */
  ghost function ServedFrom(B: Blocks, h: nat, size: nat): Blocks
    requires h in B
  {
    var bs := BlockRows(size);
    if B[h].size < bs + MIN_ROWS then B[h := Block(B[h].size, true, size)]
    else B[h := Block(bs, true, size)][h + bs := Block(B[h].size - bs, false, 0)]
  }

  lemma ServedByCut(B: Blocks, h: nat, size: nat, C: Blocks)
    requires h in B && BlockRows(size) + MIN_ROWS <= B[h].size
    requires forall a :: a in B && h <= a < h + B[h].size ==> a == h
    requires C == Carved(B, h, h + B[h].size, SplitBlocks(h, BlockRows(size), size, B[h].size))
    ensures C == ServedFrom(B, h, size)
  {
  }

  lemma ServedWhole(B: Blocks, h: nat, size: nat, C: Blocks)
    requires h in B && B[h].size < BlockRows(size) + MIN_ROWS
    requires forall a :: a in B && h <= a < h + B[h].size ==> a == h
    requires B[h].size > 0 && C == Carved(B, h, h + B[h].size, map[h := Block(B[h].size, true, size)])
    ensures C == ServedFrom(B, h, size)
  {
  }

  lemma ServedTight(B: Blocks, h: nat, size: nat)
    requires Tight(B) && h in B
    ensures Tight(ServedFrom(B, h, size))
  {
  }

  // ----- growth -----------------------------------------------------------------------------------

  /** The heap of rows has grown to n rows: its end is one free block, all others are as before. */
  ghost function GrownTo(B: Blocks, rows: seq<Row>, n: nat): Blocks {
    if n <= |rows| || TopStart(rows) < 0 || TopGrown(rows, n) < 0 then B
    else B[TopStart(rows) := Block(TopGrown(rows, n), false, 0)]
  }

  lemma GrownByPage(rows: seq<Row>, B: Blocks, lo: nat, hi: nat, C: Blocks)
    requires Physical(rows, B) && TopBlock(rows, B, lo) && hi == |rows| - 1 + PAGE_ROWS
    requires lo < hi && C == Carved(B, lo, hi, map[lo := Block(hi - lo, false, 0)])
    ensures C == GrownTo(B, rows, |rows| + PAGE_ROWS)
  {
    hide Physical;
    TopFacts(rows, B, lo);
  }

  lemma GrownAlike(r0: seq<Row>, r1: seq<Row>, B: Blocks, n: nat)
    requires |r0| == |r1| >= 2 && TopRows(r0) == TopRows(r1)
    ensures GrownTo(B, r0, n) == GrownTo(B, r1, n)
  {
  }

  /** Page by page, or all pages at once. */
  lemma GrownTwice(B: Blocks, r0: seq<Row>, r1: seq<Row>, n: nat)
    requires OnePage(r0, r1) && n >= |r1|
    ensures GrownTo(GrownTo(B, r0, |r1|), r1, n) == GrownTo(B, r0, n)
  {
  }

  lemma GrownTight(B: Blocks, rows: seq<Row>, n: nat)
    requires Tight(B)
    ensures Tight(GrownTo(B, rows, n))
  {
  }

  /** sf_malloc lets the heap grow to n rows and serves the request from block p - 1, or has no block
      for it. */
  ghost predicate GrewAndServed(B: Blocks, rows: seq<Row>, C: Blocks, n: nat, size: nat, p: nat) {
    var G := GrownTo(B, rows, n);
    |rows| <= n && if p == 0 then C == G else p - 1 in G && C == ServedFrom(G, p - 1, size)
  }

  lemma GrewNot(B: Blocks, rows: seq<Row>, C: Blocks, size: nat, p: nat)
    requires if p == 0 then C == B else p - 1 in B && C == ServedFrom(B, p - 1, size)
    ensures GrewAndServed(B, rows, C, |rows|, size, p)
  {
  }

  lemma GrewOnce(B: Blocks, r0: seq<Row>, r1: seq<Row>, C: Blocks, n: nat, size: nat, p: nat)
    requires OnePage(r0, r1) && GrewAndServed(GrownTo(B, r0, |r1|), r1, C, n, size, p)
    ensures GrewAndServed(B, r0, C, n, size, p)
  {
    hide GrownTo;
    GrownTwice(B, r0, r1, n);
  }

  /** From the empty heap on, the first page counts as growth. */
  lemma GrewFromNothing(r1: seq<Row>, B: Blocks, C: Blocks, n: nat, size: nat, p: nat)
    requires |r1| == PAGE_ROWS && TopRows(r1) == PAGE_ROWS - 6 && B == map[START := Block(PAGE_ROWS - 6, false, 0)]
    requires GrewAndServed(B, r1, C, n, size, p)
    ensures GrewAndServed(map[], [], C, n, size, p)
  {
    hide ServedFrom;
    assert GrownTo(B, r1, n) == GrownTo(map[], [], n);
  }

  lemma GrewTight(B: Blocks, rows: seq<Row>, C: Blocks, n: nat, size: nat, p: nat)
    requires Tight(B) && GrewAndServed(B, rows, C, n, size, p)
    ensures Tight(C)
  {
    hide GrownTo, ServedFrom, Tight;
    GrownTight(B, rows, n);
    if p != 0 { ServedTight(GrownTo(B, rows, n), p - 1, size); }
  }

  // ----- freeing ------------------------------------------------------------------------------------

  /** The rows from lo to hi are one free block, and all blocks outside are as before. */
  ghost predicate FreedBetween(B: Blocks, h: nat, lo: nat, hi: nat, C: Blocks) {
    && h in B && lo <= h < hi && MergesTo(B, h, hi)
    && (lo == h || (lo in B && !B[lo].alloc && lo + B[lo].size == h))
    && C == Carved(B, lo, hi, map[lo := Block(hi - lo, false, 0)])
  }

  /** Block h, with a free block before it and a free block behind it, has become one free block. */
  ghost predicate Freed(B: Blocks, h: nat, C: Blocks) {
    exists lo, hi :: FreedBetween(B, h, lo, hi, C)
  }

  lemma FreedBy(rows: seq<Row>, B: Blocks, h: nat, lo: nat, hi: nat, C: Blocks)
    requires h in B && h < |rows| && lo <= h < hi && MergesFrom(rows, B, h, lo) && MergesTo(B, h, hi)
    requires C == Carved(B, lo, hi, map[lo := Block(hi - lo, false, 0)])
    ensures Freed(B, h, C)
  {
    assert FreedBetween(B, h, lo, hi, C);
  }

  /** sf_realloc to a larger size: the request is served as by sf_malloc, and then block h is freed. */
  ghost predicate MovedTo(B: Blocks, rows: seq<Row>, C: Blocks, n: nat, h: nat, size: nat, q: nat) {
    if q == 0 then GrewAndServed(B, rows, C, n, size, 0)
    else exists M :: GrewAndServed(B, rows, M, n, size, q) && Freed(M, h, C)
  }

  lemma MovedTight(B: Blocks, rows: seq<Row>, C: Blocks, n: nat, h: nat, size: nat, q: nat)
    requires Tight(B) && MovedTo(B, rows, C, n, h, size, q)
    ensures Tight(C)
  {
    hide GrewAndServed, Freed, Tight;
    if q == 0 {
      GrewTight(B, rows, C, n, size, 0);
    } else {
      var M :| GrewAndServed(B, rows, M, n, size, q) && Freed(M, h, C);
      GrewTight(B, rows, M, n, size, q);
      FreedTight(M, h, C);
    }
  }

  lemma FreedTight(B: Blocks, h: nat, C: Blocks)
    requires Tight(B) && Freed(B, h, C)
    ensures Tight(C)
  {
  }

  // ----- shrinking ----------------------------------------------------------------------------------

  /** Where a free block behind block h ends, or where block h itself ends. */
  ghost function Behind(B: Blocks, h: nat): nat
    requires h in B
  {
    var n := h + B[h].size;
    if n in B && !B[n].alloc then n + B[n].size else n
  }

  /** Block h keeps size bytes: a tail that makes a block becomes free, together with a free block
      behind it, and nothing else changes. */
  ghost function GaveBack(B: Blocks, h: nat, size: nat): Blocks
    requires h in B
  {
    var bs := BlockRows(size);
    if B[h].size < bs + MIN_ROWS then B[h := Block(B[h].size, true, size)]
    else
      var rest := map a | a in B && !(h < a < Behind(B, h)) :: B[a];
      rest[h := Block(bs, true, size)][h + bs := Block(Behind(B, h) - h - bs, false, 0)]
  }

  lemma GaveBackTail(B: Blocks, h: nat, size: nat, hi: nat, C: Blocks)
    requires h in B && BlockRows(size) + MIN_ROWS <= B[h].size && MergesTo(B, h, hi)
    requires C == Carved(B, h, hi, SplitBlocks(h, BlockRows(size), size, hi - h))
    ensures C == GaveBack(B, h, size)
  {
  }

  lemma GaveBackNothing(B: Blocks, h: nat, size: nat, C: Blocks)
    requires h in B && B[h].size < BlockRows(size) + MIN_ROWS && B[h].size > 0
    requires forall a :: a in B && h <= a < h + B[h].size ==> a == h
    requires C == Carved(B, h, h + B[h].size, map[h := Block(B[h].size, true, size)])
    ensures C == GaveBack(B, h, size)
  {
  }

  lemma GaveBackTight(B: Blocks, h: nat, size: nat)
    requires Tight(B) && h in B
    ensures Tight(GaveBack(B, h, size))
  {
  }
}
