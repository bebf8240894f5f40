/** The tag rows each call writes, in the source's order, and why the heap stays well formed. */
module TagWrites {
  import opened HeapLayout
  import opened FreeLists
  import opened HeapState

  /** The rounding of hw3/src/sfmm.c:65-71, in bytes. */
  function BlockBytes(size: nat): (bs: nat)
    ensures bs >= 32 && bs % 16 == 0 && bs >= size + 8
  {
    if size + 8 < 32 then 32
    else if (size + 8) % 16 != 0 then size + 8 + (16 - (size + 8) % 16)
    else size + 8
  }

  /** No smaller block size of 16-byte units can serve the request; so a class that fits is never
      too small for the rounded size. */
  lemma RoundingIsLeast(size: nat, b: nat)
    requires b >= 32 && b % 16 == 0 && b >= size + 8
    ensures BlockBytes(size) <= b
  {
  }

  /** The block size of a request in rows. */
  function BlockRows(size: nat): (n: nat)
    ensures n % 2 == 0 && n >= MIN_ROWS && 8 * n == BlockBytes(size) && 8 * n >= size + 8
  {
    2 * (BlockBytes(size) / 16)
  }

  /** Writing the allocated, prev_allocated and block_size fields of a row; requested_size keeps
      what an info word had there. */
  function Tag(r: Row, alloc: bool, prev: bool, size: nat): Row {
    Info(alloc, prev, size, if r.Info? then r.req else 0)
  }

  /** What the invariant says about block h and the row after it. */
  lemma BlockFacts(rows: seq<Row>, B: Blocks, h: nat)
    requires Physical(rows, B) && h in B
    ensures START <= h && h % 2 == 1 && B[h].size % 2 == 0 && TagsOf(rows, h, B[h])
    ensures forall a :: a in B && h <= a < h + B[h].size ==> a == h
    ensures var n := h + B[h].size;
      && (n in B || n == |rows| - 1)
      && (n in B && !B[h].alloc ==> B[n].alloc)
      && n < |rows| && rows[n].Info? && (n in B ==> rows[n].alloc == B[n].alloc) && (n == |rows| - 1 ==> rows[n].alloc)
  {
    OnlyBlock(rows, B, h);
    assert Next(B, h) == h + B[h].size;
    if Next(B, h) in B { assert TagsOf(rows, Next(B, h), B[Next(B, h)]); }
  }

  /** Lines 73-97: header of the allocated front, header and footer of the free rest. */
  function SplitWrites(rows: seq<Row>, h: nat, bs: nat, size: nat): (r: seq<Row>)
    requires h < |rows| && rows[h].Info? && bs > 0 && h + bs < h + rows[h].size <= |rows|
    ensures |r| == |rows|
  {
    var c := rows[h].size;
    var r1 := rows[h := rows[h].(size := bs, req := size, alloc := true)];
    var r2 := r1[h + bs := Tag(r1[h + bs], false, true, c - bs)];
    r2[h + c - 1 := Tag(r2[h + c - 1], false, true, c - bs)]
  }

  /** The two blocks a split makes of block h of c rows. */
  ghost function SplitBlocks(h: nat, bs: nat, size: nat, c: nat): Blocks
    requires bs <= c
  {
    map[h := Block(bs, true, size), h + bs := Block(c - bs, false, 0)]
  }

  lemma SplitRetags(rows: seq<Row>, B: Blocks, h: nat, bs: nat, size: nat)
    requires Physical(rows, B) && h in B && !B[h].alloc && bs == BlockRows(size) && bs + MIN_ROWS <= B[h].size
    ensures h < |rows| && rows[h].Info? && rows[h].size == B[h].size && h + B[h].size < |rows|
    ensures var c := B[h].size;
      var N := SplitBlocks(h, bs, size, c);
      && Retags(rows, B, SplitWrites(rows, h, bs, size), h, h + c, N)
      && Live(N) == map[h := size] && FreeOf(N) == {h + bs}
    ensures forall a :: a in B && h <= a < h + B[h].size ==> a == h
  {
    hide Physical, Retags, Live, FreeOf, BlockRows, BlockBytes;
    BlockFacts(rows, B, h);
    SplitRegion(rows, B, SplitWrites(rows, h, bs, size), h, h + bs, h + B[h].size, size);
    LiveOfTwo(h, Block(bs, true, size), h + bs, Block(B[h].size - bs, false, 0));
  }

  /** Lines 152-176: header of the block, prev bit of the row after it. */
  function WholeWrites(rows: seq<Row>, h: nat, size: nat): (r: seq<Row>)
    requires h < |rows| && rows[h].Info? && 0 < rows[h].size
    requires h + rows[h].size < |rows| && rows[h + rows[h].size].Info?
    ensures |r| == |rows|
  {
    var n := h + rows[h].size;
    var r1 := rows[h := rows[h].(req := size, alloc := true)];
    r1[n := r1[n].(prev := true)]
  }

  lemma WholeRetags(rows: seq<Row>, B: Blocks, h: nat, size: nat)
    requires Physical(rows, B) && h in B && !B[h].alloc && size + 8 <= 8 * B[h].size
    ensures h < |rows| && rows[h].Info? && rows[h].size == B[h].size && 0 < B[h].size
    ensures h + B[h].size < |rows| && rows[h + B[h].size].Info?
    ensures var N := map[h := Block(B[h].size, true, size)];
      && Retags(rows, B, WholeWrites(rows, h, size), h, h + B[h].size, N)
      && Live(N) == map[h := size] && FreeOf(N) == {}
    ensures forall a :: a in B && h <= a < h + B[h].size ==> a == h
  {
    hide Physical, Retags, Live, FreeOf;
    BlockFacts(rows, B, h);
    AllocRegion(rows, B, WholeWrites(rows, h, size), h, size);
    LiveOfOne(h, Block(B[h].size, true, size));
  }

  // ----- free -----------------------------------------------------------------------------------

  /** The block before h is free and starts at lo, or lo is h and the block before is allocated. */
  ghost predicate MergesFrom(rows: seq<Row>, B: Blocks, h: nat, lo: nat)
    requires h < |rows|
  {
    if rows[h].Info? && rows[h].prev then lo == h else lo in B && !B[lo].alloc && lo + B[lo].size == h
  }

  /** The block after h is free and ends at hi, or hi is the row after h and no free block is there. */
  ghost predicate MergesTo(B: Blocks, h: nat, hi: nat)
    requires h in B
  {
    var n := h + B[h].size;
    if n in B && !B[n].alloc then hi == n + B[n].size else hi == n
  }

  /** A clear prev bit means that the footer before the header belongs to a free block. */
  lemma PrevFooter(rows: seq<Row>, B: Blocks, h: nat)
    requires Physical(rows, B) && h < |rows| && (h in B || h == |rows| - 1) && rows[h].Info? && !rows[h].prev
    ensures START < h && rows[h - 1].Info? && rows[h - 1].size < h
    ensures var q := h - rows[h - 1].size; q in B && !B[q].alloc && q + B[q].size == h
    ensures var q := h - rows[h - 1].size; !rows[h - 1].alloc && TagsOf(rows, q, B[q]) && rows[q].prev
  {
    assert rows[START].prev && START in B;
    var q := BlockBefore(B, START, |rows| - 1, START, h);
    assert TagsOf(rows, q, B[q]);
    FreeAfterAllocated(rows, B, q);
  }

  /** The block before a free block is allocated, so its prev bit is set. */
  lemma FreeAfterAllocated(rows: seq<Row>, B: Blocks, q: nat)
    requires Physical(rows, B) && q in B && !B[q].alloc
    ensures q < |rows| && rows[q].Info? && rows[q].prev
  {
    assert TagsOf(rows, q, B[q]);
    if q != START {
      var r := BlockBefore(B, START, |rows| - 1, START, q);
      assert TagsOf(rows, r, B[r]) && Next(B, r) == q;
    }
  }

  /** The writes of hw3/src/sfmm.c:367-440. The four branches there differ in whose header
      survives (lo) and where the merged block ends (hi); the prev bit at hi is already clear
      when the merged block ends with one that was free. */
  function FreeWrites(rows: seq<Row>, h: nat, lo: nat, hi: nat): (r: seq<Row>)
    requires lo <= h < hi < |rows| && rows[h].Info? && rows[lo].Info? && rows[hi].Info?
    ensures |r| == |rows|
  {
    var r1 := rows[h := rows[h].(alloc := false, req := if lo == h then 0 else rows[h].req)];
    var r2 := r1[lo := r1[lo].(size := hi - lo)];
    var r3 := r2[hi - 1 := r2[lo]];
    r3[hi := r3[hi].(prev := false)]
  }

  lemma FreeBounds(rows: seq<Row>, B: Blocks, h: nat, lo: nat, hi: nat)
    requires Physical(rows, B) && h in B && h < |rows| && MergesFrom(rows, B, h, lo) && MergesTo(B, h, hi)
    ensures START <= lo <= h && h + MIN_ROWS <= hi < |rows| && lo % 2 == 1 && (hi - lo) % 2 == 0
    ensures lo in B && ((hi in B && B[hi].alloc) || hi == |rows| - 1)
    ensures rows[lo].Info? && rows[lo].prev && rows[h].Info? && rows[hi].Info?
    ensures lo < h ==> !rows[lo].alloc
    ensures forall a :: a in B && lo <= a < hi ==> a == lo || a == h || a == h + B[h].size
    ensures forall a :: a in B && lo <= a < hi && B[a].alloc ==> a == lo || a == h
    ensures lo < h ==> !B[lo].alloc
    ensures forall a :: a in B && a == h + B[h].size && !B[a].alloc ==> h < a < hi
  {
    hide Physical;
    var n := h + B[h].size;
    BlockFacts(rows, B, h);
    if n in B { BlockFacts(rows, B, n); }
    if lo != h {
      BlockFacts(rows, B, lo);
      FreeAfterAllocated(rows, B, lo);
    }
  }

  lemma FreeRetags(rows: seq<Row>, B: Blocks, h: nat, lo: nat, hi: nat)
    requires Physical(rows, B) && h in B && B[h].alloc && h < |rows| && MergesFrom(rows, B, h, lo) && MergesTo(B, h, hi)
    ensures lo <= h < hi < |rows| && rows[h].Info? && rows[lo].Info? && rows[hi].Info?
    ensures var N := map[lo := Block(hi - lo, false, 0)];
      Retags(rows, B, FreeWrites(rows, h, lo, hi), lo, hi, N) && Live(N) == map[] && FreeOf(N) == {lo}
    ensures forall a :: a in B && lo <= a < hi ==> a == lo || a == h || a == h + B[h].size
    ensures forall a :: a in B && lo <= a < hi && B[a].alloc ==> a == h
    ensures lo in B && forall a :: a in B && a == h + B[h].size && !B[a].alloc ==> h < a < hi
    ensures forall a :: a in B && a == lo && lo < h ==> !B[a].alloc
  {
    hide Physical, Retags, Live, FreeOf;
    FreeBounds(rows, B, h, lo, hi);
    FreeRegion(rows, B, FreeWrites(rows, h, lo, hi), lo, hi);
    LiveOfOne(lo, Block(hi - lo, false, 0));
  }

  // ----- growth ---------------------------------------------------------------------------------

  /** The writes of hw3/src/sfmm.c:190-206 and 255-263 on a heap grown by one zeroed page: e is the
      old epilogue, lo the block that takes the page in, e itself when no free block ends there. */
  function GrowWrites(rows: seq<Row>, e: nat, lo: nat): (r: seq<Row>)
    requires lo <= e && e + 1 == |rows| && rows[lo].Info?
    ensures |r| == |rows| + PAGE_ROWS
  {
    var r0 := rows + seq(PAGE_ROWS, _ => ZERO_ROW);
    var end := |r0| - 1;
    var r1 := r0[end := ZERO_ROW.(alloc := true)];
    var r2 := if lo == e then r1[lo := Tag(r1[lo], false, true, PAGE_ROWS)]
              else r1[lo := r1[lo].(size := r1[lo].size + PAGE_ROWS)];
    r2[end - 1 := Tag(r2[end - 1], r2[lo].alloc, r2[lo].prev, r2[lo].size)]
  }

  /** The block that ends at the epilogue, if it is free. */
  ghost predicate TopBlock(rows: seq<Row>, B: Blocks, lo: nat) {
    |rows| > 1 && MergesFrom(rows, B, |rows| - 1, lo)
  }

  lemma GrowRetags(rows: seq<Row>, B: Blocks, lo: nat)
    requires Physical(rows, B) && TopBlock(rows, B, lo)
    ensures |rows| > START && lo <= |rows| - 1 && rows[lo].Info?
    ensures var hi := |rows| - 1 + PAGE_ROWS; var N := map[lo := Block(hi - lo, false, 0)];
      && Retags(rows, B, GrowWrites(rows, |rows| - 1, lo), lo, hi, N)
      && Live(N) == map[] && FreeOf(N) == {lo}
      && TopRows(GrowWrites(rows, |rows| - 1, lo)) == hi - lo == TopRows(rows) + PAGE_ROWS
    ensures forall a :: a in B && lo <= a ==> a == lo && !B[a].alloc && lo < |rows| - 1
  {
    hide Physical, Retags, Live, FreeOf;
    var e := |rows| - 1;
    TopFacts(rows, B, lo);
    var hi := e + PAGE_ROWS;
    FreeRegion(rows, B, GrowWrites(rows, e, lo), lo, hi);
    LiveOfOne(lo, Block(hi - lo, false, 0));
  }

  /** Rows of the free block at the end of the heap, 0 when the last block is allocated. */
  ghost function TopRows(rows: seq<Row>): nat
    requires |rows| >= 2
  {
    var e := rows[|rows| - 1];
    if e.Info? && !e.prev && rows[|rows| - 2].Info? then rows[|rows| - 2].size else 0
  }

  /** The blocks alone determine the size of the top free block. */
  lemma SameTop(rows: seq<Row>, rows2: seq<Row>, B: Blocks)
    requires Physical(rows, B) && Physical(rows2, B) && |rows| == |rows2|
    ensures |rows| >= 2 && TopRows(rows) == TopRows(rows2)
  {
    var q := BlockBefore(B, START, |rows| - 1, START, |rows| - 1);
    assert TagsOf(rows, q, B[q]) && TagsOf(rows2, q, B[q]);
  }

  /** Some free block can take a request of size bytes. */
  ghost predicate Fits(B: Blocks, size: nat) {
    exists a :: a in B && !B[a].alloc && size + 8 <= 8 * B[a].size
  }

  /** a is a free block that takes the request, and no smaller one does. */
  ghost predicate BestFit(B: Blocks, size: nat, a: nat) {
    && a in B && !B[a].alloc && size + 8 <= 8 * B[a].size
    && forall b :: b in B && !B[b].alloc && size + 8 <= 8 * B[b].size ==> B[a].size <= B[b].size
  }

  /** Where the free block at the end of the heap starts, or would start if pages were added. */
  ghost function TopStart(rows: seq<Row>): int {
    if |rows| < 2 then START else |rows| - 1 - TopRows(rows)
  }

  /** The rows of that block once the heap has n rows. */
  ghost function TopGrown(rows: seq<Row>, n: int): int {
    if |rows| < 2 then n - 6 else TopRows(rows) + n - |rows|
  }

  /** The largest free block the end of the heap can still become with pages pages in all. */
  ghost function Ceiling(rows: seq<Row>, pages: nat): int {
    TopGrown(rows, PAGE_ROWS * pages)
  }

  /** A heap of n rows is the smallest one whose end can take the request. */
  ghost predicate LeastGrowth(rows: seq<Row>, n: int, size: nat) {
    n > |rows| && size + 8 <= 8 * TopGrown(rows, n) && size + 8 > 8 * TopGrown(rows, n - PAGE_ROWS)
  }

  /** Growth only enlarges the top free block. */
  lemma GrowFits(rows: seq<Row>, B: Blocks, lo: nat, hi: nat, size: nat)
    requires Physical(rows, B) && TopBlock(rows, B, lo) && |rows| > START && hi == |rows| - 1 + PAGE_ROWS && lo < hi
    ensures Fits(Carved(B, lo, hi, map[lo := Block(hi - lo, false, 0)]), size) <==>
      Fits(B, size) || size + 8 <= 8 * (hi - lo)
  {
    hide Physical, Carved;
    var N := map[lo := Block(hi - lo, false, 0)];
    var C := Carved(B, lo, hi, N);
    TopFacts(rows, B, lo);
    if Fits(B, size) {
      var a :| a in B && !B[a].alloc && size + 8 <= 8 * B[a].size;
      if a < lo { assert a in C && C[a] == B[a]; } else { assert lo in C; }
    }
    if size + 8 <= 8 * (hi - lo) { assert lo in C; }
    if Fits(C, size) {
      var a :| a in C && !C[a].alloc && size + 8 <= 8 * C[a].size;
      if a != lo { assert a in B && B[a] == C[a]; }
    }
  }

  lemma BestFitFits(B: Blocks, size: nat, a: nat)
    requires BestFit(B, size, a)
    ensures Fits(B, size)
  {
  }

  /** A request the top free block can take is one that fits. */
  lemma TopFits(rows: seq<Row>, B: Blocks, size: nat)
    requires Physical(rows, B)
    ensures |rows| >= 2 && (size + 8 <= 8 * TopRows(rows) ==> Fits(B, size))
  {
    var q := BlockBefore(B, START, |rows| - 1, START, |rows| - 1);
    assert TagsOf(rows, q, B[q]);
  }

  lemma NothingFits(size: nat)
    ensures !Fits(map[], size)
    ensures size + 8 <= 8 * (PAGE_ROWS - 6) <==> Fits(map[START := Block(PAGE_ROWS - 6, false, 0)], size)
  {
    var B: Blocks := map[START := Block(PAGE_ROWS - 6, false, 0)];
    if size + 8 <= 8 * (PAGE_ROWS - 6) { assert START in B; }
  }

  lemma EndNoBlock(rows: seq<Row>, B: Blocks)
    requires Physical(rows, B)
    ensures |rows| > 0 && |rows| - 1 !in B
  {
  }

  lemma GrowFitsAll(rows: seq<Row>, B: Blocks, lo: nat, hi: nat, C: Blocks)
    requires Physical(rows, B) && TopBlock(rows, B, lo) && |rows| > START && hi == |rows| - 1 + PAGE_ROWS && lo < hi
    requires C == Carved(B, lo, hi, map[lo := Block(hi - lo, false, 0)])
    ensures forall size: nat :: Fits(C, size) <==> Fits(B, size) || size + 8 <= 8 * (hi - lo)
  {
    forall size: nat ensures Fits(C, size) <==> Fits(B, size) || size + 8 <= 8 * (hi - lo) {
      GrowFits(rows, B, lo, hi, size);
    }
  }

  /** All other free blocks were there before. */
  lemma GrownBlocks(rows: seq<Row>, B: Blocks, lo: nat, hi: nat, C: Blocks)
    requires Physical(rows, B) && TopBlock(rows, B, lo)
    requires lo < hi && C == Carved(B, lo, hi, map[lo := Block(hi - lo, false, 0)])
    ensures lo == TopStart(rows) && lo in C && !C[lo].alloc && C[lo].size == hi - lo
    ensures forall a :: a in C && a != lo ==> a in B && B[a] == C[a]
  {
    TopFacts(rows, B, lo);
  }

  /** From r0 to r1 the heap has grown by one page. */
  ghost predicate OnePage(r0: seq<Row>, r1: seq<Row>) {
    |r0| >= 2 && |r1| == |r0| + PAGE_ROWS && TopRows(r1) == TopRows(r0) + PAGE_ROWS
  }

  /** If only the page made the request fit, the block at the end serves it. */
  lemma ServedAtEnd(r0: seq<Row>, B0: Blocks, r1: seq<Row>, B1: Blocks, size: nat, a: nat)
    requires OnePage(r0, r1) && BestFit(B1, size, a) && !Fits(B0, size)
    requires (size + 8 <= 8 * TopRows(r0) ==> Fits(B0, size)) &&
      (Fits(B1, size) <==> Fits(B0, size) || size + 8 <= 8 * TopRows(r1))
    requires forall b :: b in B1 && !B1[b].alloc && b != TopStart(r0) ==> b in B0 && B0[b] == B1[b]
    ensures a == TopStart(r0) && LeastGrowth(r0, |r1|, size)
  {
    BestFitFits(B1, size, a);
  }

  /** The first page counts as growth of the empty heap. */
  lemma FirstPage(r1: seq<Row>, n: int, pages: nat, size: nat)
    requires |r1| == PAGE_ROWS && TopRows(r1) == PAGE_ROWS - 6
    ensures TopStart(r1) == START == TopStart([]) && Ceiling(r1, pages) == Ceiling([], pages)
    ensures pages >= 1 ==> Ceiling(r1, pages) >= PAGE_ROWS - 6
    ensures LeastGrowth(r1, n, size) ==> LeastGrowth([], n, size)
    ensures size + 8 <= 8 * (PAGE_ROWS - 6) ==> LeastGrowth([], PAGE_ROWS, size)
  {
  }

  lemma GrownFurther(r0: seq<Row>, r1: seq<Row>, n: int, size: nat)
    requires OnePage(r0, r1)
    ensures TopStart(r1) == TopStart(r0) && (LeastGrowth(r1, n, size) ==> LeastGrowth(r0, n, size))
  {
  }

  lemma EpilogueFacts(rows: seq<Row>, B: Blocks)
    requires Physical(rows, B)
    ensures |rows| > START + MIN_ROWS && rows[|rows| - 1].Info? && rows[|rows| - 1].alloc
  {
  }

  lemma TopFacts(rows: seq<Row>, B: Blocks, lo: nat)
    requires Physical(rows, B) && TopBlock(rows, B, lo)
    ensures START <= lo < |rows| && |rows| > START + MIN_ROWS && lo % 2 == 1 && (|rows| - 1 - lo) % 2 == 0
    ensures (lo in B || lo == |rows| - 1) && rows[lo].Info?
    ensures rows[|rows| - 1].Info? && rows[|rows| - 1].alloc
    ensures if lo == |rows| - 1 then rows[lo].prev
            else rows[lo].prev && !rows[lo].alloc && rows[lo].size == B[lo].size && lo + B[lo].size == |rows| - 1
    ensures TopRows(rows) == |rows| - 1 - lo
    ensures forall a :: a in B && lo <= a ==> a == lo && !B[a].alloc && lo < |rows| - 1
  {
    var e := |rows| - 1;
    var q := BlockBefore(B, START, e, START, e);
    BlockFacts(rows, B, q);
    if lo != e {
      BlockFacts(rows, B, lo);
      FreeAfterAllocated(rows, B, lo);
    }
  }

  // ----- shrink ---------------------------------------------------------------------------------

  /** The writes of hw3/src/sfmm.c:570-613 when the tail of block h is given back: hi is where the
      new free block ends, behind the next block when that one was free. */
  function ShrinkWrites(rows: seq<Row>, h: nat, split: nat, hi: nat, rsize: nat): (r: seq<Row>)
    requires h < h + split < hi < |rows| && rows[h].Info? && rows[hi].Info?
    ensures |r| == |rows|
  {
    var t := h + split;
    var r1 := rows[h := rows[h].(req := rsize)];
    var r2 := r1[hi := r1[hi].(prev := false)];
    var r3 := r2[t := Info(false, true, hi - t, 0)];
    var r4 := r3[hi - 1 := Info(false, true, hi - t, 0)];
    r4[h := r4[h].(size := split)]
  }

  /** The rows a shrink leaves. */
  lemma ShrunkRows(rows: seq<Row>, h: nat, split: nat, hi: nat, rsize: nat)
    requires h + MIN_ROWS <= h + split && h + split + MIN_ROWS <= hi < |rows| && rows[h].Info? && rows[hi].Info?
    ensures var r := ShrinkWrites(rows, h, split, hi, rsize); var t := h + split;
      && SameOutside(rows, r, h, hi) && |r| == |rows|
      && r[h] == rows[h].(req := rsize, size := split) && r[hi] == rows[hi].(prev := false)
      && r[t] == Info(false, true, hi - t, 0) && r[hi - 1] == r[t]
  {
  }

  lemma ShrinkRetags(rows: seq<Row>, B: Blocks, h: nat, split: nat, hi: nat, rsize: nat)
    requires Physical(rows, B) && h in B && B[h].alloc && split == BlockRows(rsize) && split + MIN_ROWS <= B[h].size
    requires MergesTo(B, h, hi)
    ensures h < h + split < hi < |rows| && rows[h].Info? && rows[hi].Info?
    ensures var N := SplitBlocks(h, split, rsize, hi - h);
      && Retags(rows, B, ShrinkWrites(rows, h, split, hi, rsize), h, hi, N)
      && Live(N) == map[h := rsize] && FreeOf(N) == {h + split}
    ensures forall a :: a in B && h <= a < hi ==> a == h || (a == h + B[h].size && !B[a].alloc)
    ensures forall a :: a in B && a == h + B[h].size && !B[a].alloc ==> h < a < hi
  {
    hide Physical, Retags, Live, FreeOf;
    BlockFacts(rows, B, h);
    var n := h + B[h].size;
    if n in B { BlockFacts(rows, B, n); }
    var more := if n in B && !B[n].alloc then B[n].size else 0;
    EvenGap(h, split, B[h].size, more);
    assert (hi in B && B[hi].alloc) || hi == |rows| - 1;
    ShrinkRegion(rows, B, h, split, hi, rsize);
    LiveOfTwo(h, Block(split, true, rsize), h + split, Block(hi - h - split, false, 0));
  }

  lemma EvenGap(h: nat, split: nat, c: nat, more: nat)
    requires split % 2 == 0 && c % 2 == 0 && more % 2 == 0
    ensures (h + c + more - (h + split)) % 2 == 0
  {
  }

  lemma ShrinkRegion(rows: seq<Row>, B: Blocks, h: nat, split: nat, hi: nat, rsize: nat)
    requires Physical(rows, B) && h in B && MIN_ROWS <= split && h + split + MIN_ROWS <= hi < |rows|
    requires split % 2 == 0 && (hi - (h + split)) % 2 == 0 && rsize + 8 <= 8 * split
    requires (hi in B && B[hi].alloc) || hi == |rows| - 1
    requires rows[h].Info? && rows[h].alloc && rows[hi].Info?
    ensures Retags(rows, B, ShrinkWrites(rows, h, split, hi, rsize), h, hi, SplitBlocks(h, split, rsize, hi - h))
  {
    hide Physical, Retags;
    ShrunkRows(rows, h, split, hi, rsize);
    hide ShrinkWrites;
    SplitRegion(rows, B, ShrinkWrites(rows, h, split, hi, rsize), h, h + split, hi, rsize);
  }

  /** Line 568: only the requested size of block h changes. */
  lemma ResizeRetags(rows: seq<Row>, B: Blocks, h: nat, rsize: nat)
    requires Physical(rows, B) && h in B && B[h].alloc && rsize + 8 <= 8 * B[h].size
    ensures h < |rows| && rows[h].Info?
    ensures var N := map[h := Block(B[h].size, true, rsize)];
      && Retags(rows, B, rows[h := rows[h].(req := rsize)], h, h + B[h].size, N)
      && Live(N) == map[h := rsize] && FreeOf(N) == {}
    ensures forall a :: a in B && h <= a < h + B[h].size ==> a == h
  {
    hide Physical, Retags, Live, FreeOf;
    BlockFacts(rows, B, h);
    AllocRegion(rows, B, rows[h := rows[h].(req := rsize)], h, rsize);
    LiveOfOne(h, Block(B[h].size, true, rsize));
  }

  // ----- the first page ---------------------------------------------------------------------------

  /** The writes of hw3/src/sfmm.c:20-33 on the first zeroed page. */
  function InitWrites(): (r: seq<Row>)
    ensures |r| == PAGE_ROWS
  {
    var r0 := seq(PAGE_ROWS, _ => ZERO_ROW);
    var r1 := r0[1 := ZERO_ROW.(alloc := true)][4 := ZERO_ROW.(alloc := true)];
    var r2 := r1[PAGE_ROWS - 1 := ZERO_ROW.(alloc := true)];
    r2[START := Info(false, true, PAGE_ROWS - 6, 0)][PAGE_ROWS - 2 := Info(false, true, PAGE_ROWS - 6, 0)]
  }

  lemma InitPhysical()
    ensures Physical(InitWrites(), map[START := Block(PAGE_ROWS - 6, false, 0)])
    ensures TopRows(InitWrites()) == PAGE_ROWS - 6
  {
    OneBlock(InitWrites(), START, Block(PAGE_ROWS - 6, false, 0));
  }

  // ----- payload ----------------------------------------------------------------------------------

  /** Rows of one live payload may hold anything. */
  lemma PayloadPhysical(rows: seq<Row>, rows2: seq<Row>, B: Blocks, h: nat)
    requires Physical(rows, B) && h in B && B[h].alloc && |rows2| == |rows|
    requires forall x :: 0 <= x < |rows| && !(h < x < h + B[h].size) ==> rows2[x] == rows[x]
    ensures Physical(rows2, B)
  {
    forall b | b in B ensures TagsOf(rows2, b, B[b]) {
      assert TagsOf(rows, b, B[b]);
      assert b < h ==> b + B[b].size <= h;
      assert h < b ==> h + B[h].size <= b;
    }
  }

  /** Byte k of the payload that starts at row p. */
  ghost function ByteAt(rows: seq<Row>, p: nat, k: nat): Byte
    requires p + k / 8 < |rows|
  {
    Bytes(rows[p + k / 8])[k % 8]
  }

  /** The payload of live block h holds req bytes inside its rows, on a 16-byte boundary. */
  lemma PayloadInside(rows: seq<Row>, B: Blocks, h: nat)
    requires Physical(rows, B) && h in B && B[h].alloc
    ensures (h + 1) % 2 == 0 && h + B[h].size < |rows|
    ensures B[h].req + 8 <= 8 * B[h].size
    ensures forall k: nat :: k < B[h].req ==> h + 1 + k / 8 < h + B[h].size
  {
    BlockFacts(rows, B, h);
  }

  /** The first n bytes at p in r1 are those at q in r2. */
  ghost predicate SameBytes(r1: seq<Row>, p: nat, r2: seq<Row>, q: nat, n: nat) {
    forall k: nat :: k < n ==> p + k / 8 < |r1| && q + k / 8 < |r2| && ByteAt(r2, q, k) == ByteAt(r1, p, k)
  }

  lemma SameBytesTransitive(r1: seq<Row>, p: nat, r2: seq<Row>, q: nat, r3: seq<Row>, s: nat, n: nat)
    requires SameBytes(r1, p, r2, q, n) && SameBytes(r2, q, r3, s, n)
    ensures SameBytes(r1, p, r3, s, n)
  {
  }

  /** A block whose payload rows were kept still holds the bytes the client asked room for. */
  lemma KeptBytes(r1: seq<Row>, B: Blocks, r2: seq<Row>, h: nat, n: nat)
    requires Physical(r1, B) && h in B && B[h].alloc && n <= B[h].req && |r1| <= |r2|
    requires forall x :: h < x < h + 1 + (n + 7) / 8 && x < |r1| ==> r2[x] == r1[x]
    ensures SameBytes(r1, h + 1, r2, h + 1, n)
  {
    PayloadInside(r1, B, h);
  }

  lemma KeepsBytes(r1: seq<Row>, B: Blocks, r2: seq<Row>, B2: Blocks, S: set<nat>, h: nat, n: nat)
    requires Physical(r1, B) && h in B && B[h].alloc && n <= B[h].req && h !in S && KeepsPayloads(r1, B, r2, B2, S)
    ensures SameBytes(r1, h + 1, r2, h + 1, n) && h in B2 && B2[h] == B[h]
  {
    PayloadInside(r1, B, h);
    KeptBytes(r1, B, r2, h, n);
  }

  lemma SameLiveIsKept(r1: seq<Row>, B: Blocks, r2: seq<Row>, B2: Blocks)
    requires KeepsPayloads(r1, B, r2, B2, {})
    ensures SameLive(r1, r2, B)
  {
  }

  function Min(a: nat, b: nat): nat { if a < b then a else b }

  /** memcpy of n bytes from row src to row dst: whole rows, then the bytes of a last part row. */
  method CopyBytes(rows: seq<Row>, dst: nat, src: nat, n: nat) returns (r: seq<Row>)
    requires dst + (n + 7) / 8 <= |rows| && src + (n + 7) / 8 <= |rows|
    requires dst + (n + 7) / 8 <= src || src + (n + 7) / 8 <= dst
    ensures |r| == |rows| && forall x :: 0 <= x < |rows| && !(dst <= x < dst + (n + 7) / 8) ==> r[x] == rows[x]
    ensures forall k: nat :: k < n ==> ByteAt(r, dst, k) == ByteAt(rows, src, k)
  {
    r := rows;
    var i := 0;
    while i < n / 8
      invariant 0 <= i <= n / 8 && |r| == |rows|
      invariant forall x :: 0 <= x < |rows| && !(dst <= x < dst + i) ==> r[x] == rows[x]
      invariant forall x :: dst <= x < dst + i ==> r[x] == rows[x - dst + src]
    {
      r := r[dst + i := rows[src + i]];
      i := i + 1;
    }
    hide Bytes, ByteAt;
    if n % 8 != 0 {
      r := r[dst + i := Data(Bytes(rows[src + i])[..n % 8] + Bytes(rows[dst + i])[n % 8..])];
    }
    CopiedBytes(rows, r, dst, src, n);
  }

  lemma CopiedBytes(rows: seq<Row>, r: seq<Row>, dst: nat, src: nat, n: nat)
    requires |r| == |rows| && dst + (n + 7) / 8 <= |rows| && src + (n + 7) / 8 <= |rows|
    requires forall x :: dst <= x < dst + n / 8 ==> r[x] == rows[x - dst + src]
    requires n % 8 != 0 ==> var i := n / 8;
      r[dst + i] == Data(Bytes(rows[src + i])[..n % 8] + Bytes(rows[dst + i])[n % 8..])
    ensures forall k: nat :: k < n ==> ByteAt(r, dst, k) == ByteAt(rows, src, k)
  {
    forall k: nat | k < n ensures ByteAt(r, dst, k) == ByteAt(rows, src, k) {
      assert k / 8 < n / 8 || (k / 8 == n / 8 && k % 8 < n % 8);
      assert k / 8 < n / 8 ==> r[dst + k / 8] == rows[src + k / 8];
    }
  }

  /** The three steps of a shrink keep the other payloads and the bytes the client keeps. */
  lemma ShrinkKeeps(r0: seq<Row>, B: Blocks, r1: seq<Row>, r3: seq<Row>, B2: Blocks, h: nat, split: nat, hi: nat,
                    rsize: nat)
    requires Physical(r0, B) && Physical(r1, B) && h in B && B[h].alloc && rsize <= B[h].req
    requires KeepsPayloads(r0, B, r1, B, {}) && h < h + split < hi < |r1| && r1[h].Info? && r1[hi].Info?
    requires rsize + 8 <= 8 * split
    requires var r2 := ShrinkWrites(r1, h, split, hi, rsize);
      KeepsPayloads(r1, B, r2, B2, {h}) && Physical(r2, B2) && KeepsPayloads(r2, B2, r3, B2, {})
    requires h in B2 && B2[h].alloc && B2[h].req == rsize
    ensures KeepsPayloads(r0, B, r3, B2, {h}) && SameBytes(r0, h + 1, r3, h + 1, rsize)
  {
    hide Physical, KeepsPayloads, SameBytes;
    var r2 := ShrinkWrites(r1, h, split, hi, rsize);
    KeepsPayloadsTransitive(r0, B, r1, B, r2, B2, {}, {h}, {h});
    KeepsPayloadsTransitive(r0, B, r2, B2, r3, B2, {h}, {}, {h});
    KeepsBytes(r0, B, r1, B, {}, h, rsize);
    KeptBytes(r1, B, r2, h, rsize);
    SameBytesTransitive(r0, h + 1, r1, h + 1, r2, h + 1, rsize);
    KeepsBytes(r2, B2, r3, B2, {}, h, rsize);
    SameBytesTransitive(r0, h + 1, r2, h + 1, r3, h + 1, rsize);
  }
}
