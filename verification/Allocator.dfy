/** sf_malloc, sf_free and sf_realloc (hw3/src/sfmm.c) over raw rows and linked free lists. */
module Allocator {
  import opened HeapLayout
  import opened FreeLists
  import opened HeapState
  import opened TagWrites
  import opened HeapEffects

  /** The class of the first page (line 37) is open; as long as it is the only one, no block has been cut
      and no page added. */
  ghost predicate FirstIn(sizes: seq<nat>, B: Blocks) {
    PAGE_ROWS - 6 in sizes && (|sizes| == 1 ==> B.Keys == {START} && B[START].size == PAGE_ROWS - 6)
  }

  /** A class for blocks of at least a page. */
  ghost predicate HasBig(sizes: seq<nat>) {
    exists c :: c in sizes && c >= PAGE_ROWS
  }

  lemma BigClass(sizes: seq<nat>, c: nat)
    requires c in sizes && c >= PAGE_ROWS
    ensures HasBig(sizes)
  {
  }

  lemma BigClassKept(was: seq<nat>, sizes: seq<nat>)
    requires forall c :: c in was ==> c in sizes
    ensures HasBig(was) ==> HasBig(sizes)
  {
  }

  lemma OneSize(sizes: seq<nat>, c: nat)
    requires Increasing(sizes) && forall d :: d in sizes <==> d == c
    ensures sizes == [c]
  {
    assert c in sizes;
    assert sizes[0] in sizes && sizes[|sizes| - 1] in sizes;
    assert sizes[0] == sizes[|sizes| - 1];
  }

  /** With the first class alone, every free block is a whole first page. */
  lemma OnlyClass(m: Memory, sizes: seq<nat>, B: Blocks, rings: Rings, a: nat)
    requires Good(m, sizes, B, rings, {}) && |sizes| == 1 && PAGE_ROWS - 6 in sizes && a in B && !B[a].alloc
    ensures B[a].size == PAGE_ROWS - 6
  {
    hide Physical, AllRings, Filed;
    var i := RingIndex(m, sizes, B, rings, {}, a);
    assert B[a].size in sizes;
  }

  /** A heap of one page in which at most the first block is live, with the first class alone. */
  lemma OnlyFirst(m: Memory, sizes: seq<nat>, B: Blocks, rings: Rings)
    requires Good(m, sizes, B, rings, {}) && |sizes| == 1 && PAGE_ROWS - 6 in sizes
    requires |m.rows| == PAGE_ROWS && Live(B).Keys <= {START}
    ensures B.Keys == {START} && B[START].size == PAGE_ROWS - 6
  {
    var n := FirstEnds(m.rows, B);
    if n in B {
      assert n !in Live(B);
      OnlyClass(m, sizes, B, rings, n);
    }
  }

  /** Where the first block ends; if nothing follows it is the only one. */
  lemma FirstEnds(rows: seq<Row>, B: Blocks) returns (n: nat)
    requires Physical(rows, B)
    ensures START in B && n == START + B[START].size && START < n <= |rows| - 1
    ensures n in B ==> n + B[n].size <= |rows| - 1
    ensures n !in B ==> n == |rows| - 1 && B.Keys == {START}
  {
    n := Next(B, START);
  }

  lemma FirstIsPage(rows: seq<Row>, B: Blocks)
    requires Physical(rows, B) && B.Keys == {START} && B[START].size == PAGE_ROWS - 6
    ensures |rows| == PAGE_ROWS && Live(B).Keys <= {START}
  {
    BlockFacts(rows, B, START);
  }

  /** Calls that cut no block of a heap of one block, and add no page, open no class. */
  lemma FirstKept(r0: seq<Row>, sizes0: seq<nat>, B0: Blocks, m: Memory, sizes: seq<nat>, B: Blocks, rings: Rings)
    requires FirstIn(sizes0, B0) && Physical(r0, B0) && Increasing(sizes0) && Good(m, sizes, B, rings, {})
    requires forall c :: c in sizes0 ==> c in sizes
    requires |sizes| == 1 && B0.Keys == {START} ==> |m.rows| == |r0| && Live(B).Keys <= {START}
    ensures FirstIn(sizes, B)
  {
    hide Good, Physical, Live;
    if |sizes| == 1 {
      assert forall c :: c in sizes0 ==> c == sizes[0];
      OneSize(sizes0, PAGE_ROWS - 6);
      FirstIsPage(r0, B0);
      OnlyFirst(m, sizes, B, rings);
    }
  }

  lemma GoodParts(m: Memory, sizes: seq<nat>, B: Blocks, rings: Rings)
    requires Good(m, sizes, B, rings, {})
    ensures Physical(m.rows, B) && Increasing(sizes)
  {
  }

  lemma InitIsFirst(sizes: seq<nat>, B: Blocks)
    requires sizes == [PAGE_ROWS - 6] && B == map[START := Block(PAGE_ROWS - 6, false, 0)]
    ensures FirstIn(sizes, B)
  {
  }

  lemma LiveNone()
    ensures Live(map[]) == map[]
  {
  }

  lemma FromFirst(B: Blocks, size: nat, a: int)
    requires B == map[START := Block(PAGE_ROWS - 6, false, 0)]
    ensures a >= 0 && BestFit(B, size, a) ==> a == START
  {
  }

  lemma KeepsPayloadsNone(rows: seq<Row>, B: Blocks)
    ensures KeepsPayloads([], map[], rows, B, {})
  {
  }

  /** A call on a heap that does not grow and allocates nothing new. */
  lemma SameFirst(r0: seq<Row>, sizes0: seq<nat>, B0: Blocks, m: Memory, sizes: seq<nat>, B: Blocks, rings: Rings)
    requires FirstIn(sizes0, B0) && Physical(r0, B0) && Increasing(sizes0) && Good(m, sizes, B, rings, {})
    requires forall c :: c in sizes0 ==> c in sizes
    requires |sizes| == 1 && B0.Keys == {START} ==> |m.rows| == |r0| && Live(B).Keys <= Live(B0).Keys
    ensures FirstIn(sizes, B)
  {
    hide Good, Physical, Live;
    if |sizes| == 1 && B0.Keys == {START} {
      assert |sizes0| == 1 by {
        assert forall c :: c in sizes0 ==> c == PAGE_ROWS - 6;
        OneSize(sizes0, PAGE_ROWS - 6);
      }
      FirstIsPage(r0, B0);
    }
    FirstKept(r0, sizes0, B0, m, sizes, B, rings);
  }

  /** sf_malloc cuts the one block of a heap, which opens a class, or leaves it whole. */
  lemma ServedFirst(r0: seq<Row>, sizes0: seq<nat>, B0: Blocks, m: Memory, sizes: seq<nat>, B: Blocks, rings: Rings,
    p: nat, size: nat)
    requires FirstIn(sizes0, B0) && Physical(r0, B0) && Increasing(sizes0) && Good(m, sizes, B, rings, {})
    requires forall c :: c in sizes0 ==> c in sizes
    requires |r0| <= |m.rows| && (|m.rows| > |r0| ==> HasBig(sizes))
    requires if p == 0 then Live(B) == Live(B0) else Live(B) == Live(B0)[p - 1 := size]
    requires p != 0 ==> BestFit(B0, size, p - 1) || |m.rows| > |r0|
    ensures FirstIn(sizes, B)
  {
    hide Good, Physical, Live;
    if |sizes| == 1 && B0.Keys == {START} {
      assert |m.rows| == |r0| by {
        assert PAGE_ROWS - 6 in sizes;
        assert forall c :: c in sizes ==> c == PAGE_ROWS - 6;
      }
      assert |sizes0| == 1 by {
        assert forall c :: c in sizes0 ==> c == PAGE_ROWS - 6;
        OneSize(sizes0, PAGE_ROWS - 6);
      }
      FirstIsPage(r0, B0);
    }
    FirstKept(r0, sizes0, B0, m, sizes, B, rings);
  }

  class Heap {
    const maxPages: nat              // how many pages sf_mem_grow() can deliver
    var mem: Memory
    var sizes: seq<nat>              // the list of free lists, by block size
    ghost var blocks: Blocks
    ghost var rings: Rings

    /** Invariant in the middle of a call: the free blocks of X are on no list. */
    ghost predicate At(X: set<nat>)
      reads this
    {
      && Good(mem, sizes, blocks, rings, X)
      && |mem.rows| % PAGE_ROWS == 0 && |mem.rows| <= PAGE_ROWS * maxPages
    }

    /** Before the first page sf_mem_start() equals sf_mem_end(). */
    ghost predicate Valid()
      reads this
    {
      if |mem.rows| == 0 then mem.heads == map[] && sizes == [] && blocks == map[] && rings == map[] else At({})
    }

    /** Size classes are never closed. */
    ghost predicate ClassesKept(was: seq<nat>)
      reads this
    {
      forall c :: c in was ==> c in sizes
    }

    ghost predicate FirstClass()
      reads this
    {
      FirstIn(sizes, blocks)
    }

    /** Every heap that calls can reach. */
    ghost predicate Opened()
      reads this
    {
      (|mem.rows| == 0 || FirstClass()) && Tight(blocks)
    }

    constructor (maxPages: nat)
      ensures Valid() && Opened() && blocks == map[] && this.maxPages == maxPages && |mem.rows| == 0
    {
      this.maxPages := maxPages;
      mem := Memory([], map[]);
      sizes, blocks, rings := [], map[], map[];
    }

    /** Take a free block off its list, as at hw3/src/sfmm.c:395-396. */
    method Unfile(a: nat, ghost X: set<nat>)
      requires At(X) && a in blocks && !blocks[a].alloc && a !in X
      modifies this
      ensures sizes == old(sizes)
      ensures At(X + {a}) && blocks == old(blocks) && |mem.rows| == old(|mem.rows|)
      ensures KeepsPayloads(old(mem.rows), blocks, mem.rows, blocks, {})
    {
      hide Physical, AllRings, Filed, KeepsPayloads, SameLive;
      ghost var i := RingIndex(mem, sizes, blocks, rings, X, a);
      UnlinkedGood(mem, sizes, blocks, rings, X, a, i);
      SameLiveKeeps(mem.rows, Unlinked(mem, Blk(a)).rows, blocks);
      var next, prev := mem.Next(Blk(a)), mem.Prev(Blk(a));
      mem := mem.SetPrev(next, prev);
      mem := mem.SetNext(prev, next);
      rings := rings[blocks[a].size := RingWithout(rings[blocks[a].size], i)];
    }

    /** Put a free block on the list of its size, opening that list if there is none
        (hw3/src/sfmm.c:442-504). */
    method File(a: nat, ghost X: set<nat>)
      requires At(X) && a in X
      modifies this
      ensures At(X - {a}) && blocks == old(blocks) && |mem.rows| == old(|mem.rows|)
      ensures KeepsPayloads(old(mem.rows), blocks, mem.rows, blocks, {})
      ensures a in blocks && forall c :: c in sizes <==> c in old(sizes) || c == blocks[a].size
      ensures blocks[a].size in old(sizes) ==> sizes == old(sizes)
    {
      assert TagsOf(mem.rows, a, blocks[a]);
      hide Physical, AllRings, Filed, KeepsPayloads, SameLive;
      var c := mem.rows[a].size;
      var i := 0;
      while i < |sizes| && sizes[i] < c
        invariant i <= |sizes| && forall j :: 0 <= j < i ==> sizes[j] < c
      {
        i := i + 1;
      }
      if i == |sizes| || sizes[i] != c {
        NewClass(mem, sizes, blocks, rings, X, c, i);
        mem := mem.(heads := mem.heads[c := Ends(Head(c), Head(c))]);
        sizes := sizes[..i] + [c] + sizes[i..];
        rings := rings[c := [Head(c), Head(c)]];
      }
      SplicedGood(mem, sizes, blocks, rings, X, a);
      SameLiveKeeps(mem.rows, Spliced(mem, c, Blk(a)).rows, blocks);
      mem := Spliced(mem, c, Blk(a));
      rings := rings[c := [Head(c), Blk(a)] + rings[c][1..]];
    }

    /** Store the rewritten rows; S holds the allocations of the region [lo, hi). */
    method SetRows(rows: seq<Row>, ghost X: set<nat>, ghost lo: nat, ghost hi: nat, ghost N: Blocks, ghost S: set<nat>)
      requires At(X) && Retags(mem.rows, blocks, rows, lo, hi, N)
      requires |rows| % PAGE_ROWS == 0 && |rows| <= PAGE_ROWS * maxPages
      requires forall a :: a in X ==> lo <= a < hi
      requires forall a :: a in blocks && lo <= a < hi ==> if blocks[a].alloc then a in S else a in X
      requires forall a :: a in S ==> a in blocks && blocks[a].alloc && lo <= a < hi
      modifies this
      ensures sizes == old(sizes)
      ensures At(FreeOf(N)) && mem.rows == rows && blocks == Carved(old(blocks), lo, hi, N)
      ensures KeepsPayloads(old(mem.rows), old(blocks), mem.rows, blocks, S)
      ensures Live(blocks) == (Live(old(blocks)) - S) + Live(N)
    {
      hide Good, KeepsPayloads, Retags;
      RetagEffect(mem, sizes, blocks, rings, X, rows, lo, hi, N, S);
      mem := mem.(rows := rows);
      blocks := Carved(blocks, lo, hi, N);
    }

    /** Serve a request from the first block of class c (hw3/src/sfmm.c:62-186). */
    method Take(c: nat, size: nat) returns (p: nat)
      requires At({}) && c in sizes && mem.heads[c].next != Head(c) && size + 8 <= 8 * c
      modifies this
      ensures ClassesKept(old(sizes)) && (c - BlockRows(size) < MIN_ROWS ==> sizes == old(sizes))
      ensures At({}) && |mem.rows| == old(|mem.rows|)
      ensures p > 0 && p - 1 in old(blocks) && !old(blocks)[p - 1].alloc && old(blocks)[p - 1].size == c
      ensures Live(blocks) == Live(old(blocks))[p - 1 := size]
      ensures blocks == ServedFrom(old(blocks), p - 1, size)
      ensures KeepsPayloads(old(mem.rows), old(blocks), mem.rows, blocks, {})
    {
      hide Physical, AllRings, Filed, Increasing, KeepsPayloads, Retags, Live, ServedFrom;
      var h: nat := FirstOf(c);
      ghost var r0, b0 := mem.rows, blocks;
      assert {} + {h} == {h};
      Unfile(h, {});
      var bs := BlockRows(size);
      BlockFacts(mem.rows, blocks, h);
      RoundingIsLeast(size, 8 * c);
      assert bs <= c;
      ghost var r1 := mem.rows;
      if c - bs >= MIN_ROWS {
        TakeSplit(h, bs, size);
        ghost var r2 := mem.rows;
        assert {h + bs} - {h + bs} == {};
        File(h + bs, {h + bs});
        KeepsPayloadsTransitive(r1, b0, r2, blocks, mem.rows, blocks, {}, {}, {});
      } else {
        TakeWhole(h, size);
      }
      KeepsPayloadsTransitive(r0, b0, r1, b0, mem.rows, blocks, {}, {}, {});
      p := h + 1;
    }

    /** Lines 73-97: the front of block h is allocated, the rest becomes a free block. */
    method TakeSplit(h: nat, bs: nat, size: nat)
      requires At({h}) && h in blocks && !blocks[h].alloc && bs == BlockRows(size) && bs + MIN_ROWS <= blocks[h].size
      modifies this
      ensures sizes == old(sizes)
      ensures At({h + bs}) && |mem.rows| == old(|mem.rows|)
      ensures Live(blocks) == Live(old(blocks))[h := size]
      ensures blocks == ServedFrom(old(blocks), h, size)
      ensures KeepsPayloads(old(mem.rows), old(blocks), mem.rows, blocks, {})
    {
      hide Physical, AllRings, Filed, Increasing, KeepsPayloads, Retags, Live, FreeOf, Carved;
      SplitRetags(mem.rows, blocks, h, bs, size);
      ghost var c := blocks[h].size;
      ghost var N := SplitBlocks(h, bs, size, c);
      LivePut(Live(blocks), h, size);
      ghost var b0 := blocks;
      SetRows(SplitWrites(mem.rows, h, bs, size), {h}, h, h + c, N, {});
      ServedByCut(b0, h, size, blocks);
    }

    /** Lines 151-176: all of block h is allocated. */
    method TakeWhole(h: nat, size: nat)
      requires At({h}) && h in blocks && !blocks[h].alloc && size + 8 <= 8 * blocks[h].size
      requires blocks[h].size < BlockRows(size) + MIN_ROWS
      modifies this
      ensures sizes == old(sizes)
      ensures At({}) && |mem.rows| == old(|mem.rows|)
      ensures Live(blocks) == Live(old(blocks))[h := size]
      ensures blocks == ServedFrom(old(blocks), h, size)
      ensures KeepsPayloads(old(mem.rows), old(blocks), mem.rows, blocks, {})
    {
      hide Physical, AllRings, Filed, Increasing, KeepsPayloads, Retags, Live, FreeOf, Carved;
      WholeRetags(mem.rows, blocks, h, size);
      ghost var c := blocks[h].size;
      LivePut(Live(blocks), h, size);
      ghost var b0 := blocks;
      SetRows(WholeWrites(mem.rows, h, size), {h}, h, h + c, map[h := Block(c, true, size)], {});
      ServedWhole(b0, h, size, blocks);
    }

    /** (t->head).links.next: the first block of a non-empty list. */
    method FirstOf(c: nat) returns (h: nat)
      requires At({}) && c in sizes && mem.heads[c].next != Head(c)
      ensures h in blocks && !blocks[h].alloc && blocks[h].size == c && mem.heads[c].next == Blk(h)
    {
      ghost var r := rings[c];
      assert RingOf(blocks, c, r);
      RingNeighbours(mem, blocks, c, r, 0);
      Listed(mem, blocks, rings, {}, c, 1);
      h := mem.heads[c].next.at;
    }

    /** sf_free (hw3/src/sfmm.c:319-507) on a live pointer. */
    method Free(p: nat)
      requires At({}) && p > 0 && p - 1 in blocks && blocks[p - 1].alloc
      modifies this
      ensures ClassesKept(old(sizes))
      ensures At({}) && |mem.rows| == old(|mem.rows|)
      ensures Live(blocks) == Live(old(blocks)) - {p - 1}
      ensures KeepsPayloads(old(mem.rows), old(blocks), mem.rows, blocks, {p - 1})
      ensures Freed(old(blocks), p - 1, blocks)
      ensures old(FirstClass()) ==> FirstClass()
    {
      hide Physical, AllRings, Filed, Increasing, KeepsPayloads, Retags, Live, FreeOf, Carved, FirstIn, Freed;
      ghost var r0, z0, b0 := mem.rows, sizes, blocks;
      GoodParts(mem, sizes, blocks, rings);
      var h: nat := p - 1;
      var hi: nat, lo: nat;
      ghost var X1: set<nat>, X2: set<nat>;
      hi, X1 := AbsorbNext(h);
      ghost var r1 := mem.rows;
      lo, X2 := AbsorbPrev(h, X1);
      ghost var r2 := mem.rows;
      FreeRetags(mem.rows, blocks, h, lo, hi);
      LivePut(Live(blocks), h, 0);
      SetRows(FreeWrites(mem.rows, h, lo, hi), X2, lo, hi, map[lo := Block(hi - lo, false, 0)], {h});
      FreedBy(r2, b0, h, lo, hi, blocks);
      ghost var r3, b3 := mem.rows, blocks;
      assert {lo} - {lo} == {};
      File(lo, {lo});
      KeepsPayloadsTransitive(r0, b0, r1, b0, r2, b0, {}, {}, {});
      KeepsPayloadsTransitive(r0, b0, r2, b0, r3, b3, {}, {h}, {h});
      KeepsPayloadsTransitive(r0, b0, r3, b3, mem.rows, b3, {h}, {}, {h});
      if FirstIn(z0, b0) {
        SameFirst(r0, z0, b0, mem, sizes, blocks, rings);
      }
    }

    /** If the block after h is free, take it off its list; hi is where the merged block ends. */
    method AbsorbNext(h: nat) returns (hi: nat, ghost X: set<nat>)
      requires At({}) && h in blocks && blocks[h].alloc
      modifies this
      ensures sizes == old(sizes)
      ensures At(X) && blocks == old(blocks) && |mem.rows| == old(|mem.rows|)
      ensures MergesTo(blocks, h, hi)
      ensures X == set a | a in blocks && a == h + blocks[h].size && !blocks[a].alloc
      ensures KeepsPayloads(old(mem.rows), blocks, mem.rows, blocks, {})
    {
      hide Physical, AllRings, Filed, Increasing;
      BlockFacts(mem.rows, blocks, h);
      var next: nat := h + mem.rows[h].size;
      X := {};
      hi := next;
      if !mem.rows[next].alloc {
        BlockFacts(mem.rows, blocks, next);
        hi := next + mem.rows[next].size;
        X := {next};
        assert {} + {next} == {next};
        Unfile(next, {});
      }
    }

    /** If the block before h is free, take it off its list; lo is where the merged block starts. */
    method AbsorbPrev(h: nat, ghost X: set<nat>) returns (lo: nat, ghost Y: set<nat>)
      requires At(X) && h in blocks && blocks[h].alloc && forall a :: a in X ==> h < a
      modifies this
      ensures sizes == old(sizes)
      ensures At(Y) && blocks == old(blocks) && |mem.rows| == old(|mem.rows|)
      ensures h < |mem.rows| && MergesFrom(mem.rows, blocks, h, lo)
      ensures Y == if lo < h then X + {lo} else X
      ensures KeepsPayloads(old(mem.rows), blocks, mem.rows, blocks, {})
    {
      hide Physical, AllRings, Filed, Increasing;
      BlockFacts(mem.rows, blocks, h);
      Y := X;
      lo := h;
      if !mem.rows[h].prev {
        PrevFooter(mem.rows, blocks, h);
        lo := h - mem.rows[h - 1].size;
        Y := X + {lo};
        Unfile(lo, X);
        BlockFacts(mem.rows, blocks, lo);
      }
    }

    /** First page (hw3/src/sfmm.c:18-54). The source ignores a failing sf_mem_grow() here. */
    method Init()
      requires Valid() && |mem.rows| == 0 && maxPages >= 1
      modifies this
      ensures At({}) && |mem.rows| == PAGE_ROWS && TopRows(mem.rows) == PAGE_ROWS - 6 && sizes == [PAGE_ROWS - 6]
      ensures blocks == map[START := Block(PAGE_ROWS - 6, false, 0)] && Live(blocks) == map[]
    {
      InitPhysical();
      ghost var r0 := InitWrites();
      mem := Memory(InitWrites(), map[]);
      blocks := map[START := Block(PAGE_ROWS - 6, false, 0)];
      assert {START} - {START} == {};
      hide Physical;
      File(START, {START});
      SameTop(r0, mem.rows, blocks);
      OneSize(sizes, PAGE_ROWS - 6);
    }

    /** If the heap ends with a free block, take it off its list; lo is where it starts. */
    method AbsorbTop() returns (lo: nat, ghost X: set<nat>)
      requires At({})
      modifies this
      ensures sizes == old(sizes)
      ensures At(X) && blocks == old(blocks) && |mem.rows| == old(|mem.rows|) && TopBlock(mem.rows, blocks, lo)
      ensures X == if lo in blocks then {lo} else {}
      ensures KeepsPayloads(old(mem.rows), blocks, mem.rows, blocks, {})
    {
      hide Physical, AllRings, Filed, Increasing;
      EpilogueFacts(mem.rows, blocks);
      var e: nat := |mem.rows| - 1;
      lo := e;
      X := {};
      if !mem.rows[e].prev {
        PrevFooter(mem.rows, blocks, e);
        lo := e - mem.rows[e - 1].size;
        X := {lo};
        assert {} + {lo} == {lo};
        Unfile(lo, {});
        BlockFacts(mem.rows, blocks, lo);
      } else {
        EndNoBlock(mem.rows, blocks);
      }
    }

    /** One more page (hw3/src/sfmm.c:189-311). */
    method Extend()
      requires At({}) && |mem.rows| + PAGE_ROWS <= PAGE_ROWS * maxPages
      modifies this
      ensures ClassesKept(old(sizes))
      ensures At({}) && |mem.rows| == old(|mem.rows|) + PAGE_ROWS
      ensures Live(blocks) == Live(old(blocks))
      ensures KeepsPayloads(old(mem.rows), old(blocks), mem.rows, blocks, {})
      ensures TopRows(mem.rows) == TopRows(old(mem.rows)) + PAGE_ROWS
      ensures forall size: nat :: Fits(blocks, size) <==> Fits(old(blocks), size) || size + 8 <= 8 * TopRows(mem.rows)
      ensures TopRows(mem.rows) in sizes
      ensures blocks == GrownTo(old(blocks), old(mem.rows), |mem.rows|)
      ensures forall a :: a in blocks && !blocks[a].alloc && a != TopStart(old(mem.rows)) ==>
        a in old(blocks) && old(blocks)[a] == blocks[a]
    {
      hide Physical, AllRings, Filed, Increasing, KeepsPayloads, Retags, Live, FreeOf, Carved, Fits, TopRows, GrownTo;
      ghost var r0, b0 := mem.rows, blocks;
      EpilogueFacts(mem.rows, blocks);
      var e: nat := |mem.rows| - 1;
      var lo: nat;
      ghost var X;
      lo, X := AbsorbTop();
      SameTop(r0, mem.rows, b0);
      ghost var r1 := mem.rows;
      ghost var hi: nat := e + PAGE_ROWS;
      GrowRetags(mem.rows, blocks, lo);
      LivePut(Live(blocks), lo, 0);
      SetRows(GrowWrites(mem.rows, e, lo), X, lo, hi, map[lo := Block(hi - lo, false, 0)], {});
      ghost var r2, b2 := mem.rows, blocks;
      GrowFitsAll(r1, b0, lo, hi, b2);
      GrownBlocks(r1, b0, lo, hi, b2);
      GrownByPage(r1, b0, lo, hi, b2);
      GrownAlike(r0, r1, b0, |r1| + PAGE_ROWS);
      assert {lo} - {lo} == {};
      File(lo, {lo});
      SameTop(r2, mem.rows, blocks);
      KeepsPayloadsTransitive(r0, b0, r1, b0, r2, b2, {}, {}, {});
      KeepsPayloadsTransitive(r0, b0, r2, b2, mem.rows, b2, {}, {}, {});
    }

    /** sf_malloc (hw3/src/sfmm.c:13-317); 0 stands for NULL. */
    method Malloc(size: nat) returns (p: nat)
      requires Valid() && maxPages >= 1
      modifies this
      ensures ClassesKept(old(sizes))
      ensures Valid() && (size > 0 ==> At({}))
      ensures p == 0 <==> size == 0 || (!Fits(old(blocks), size) && size + 8 > 8 * Ceiling(old(mem.rows), maxPages))
      ensures p == 0 ==> Live(blocks) == Live(old(blocks))
      ensures size == 0 ==> mem == old(mem) && blocks == old(blocks) && sizes == old(sizes)
      ensures p != 0 ==> p - 1 !in Live(old(blocks)) && Live(blocks) == Live(old(blocks))[p - 1 := size]
      ensures Fits(old(blocks), size) && size > 0 ==> BestFit(old(blocks), size, p - 1) && |mem.rows| == old(|mem.rows|)
      ensures KeepsPayloads(old(mem.rows), old(blocks), mem.rows, blocks, {})
      ensures !Fits(old(blocks), size) && p != 0 ==>
        p - 1 == TopStart(old(mem.rows)) && LeastGrowth(old(mem.rows), |mem.rows|, size)
      ensures size > 0 ==> GrewAndServed(old(blocks), old(mem.rows), blocks, |mem.rows|, size, p)
      ensures size > 0 && p == 0 ==> |mem.rows| == PAGE_ROWS * maxPages
      ensures size > 0 && (|old(mem.rows)| == 0 || old(FirstClass())) ==> FirstClass()
      ensures 0 < |old(mem.rows)| < |mem.rows| ==> HasBig(sizes)
    {
      hide Good, KeepsPayloads, Live, Fits, BestFit, TopRows, TopGrown, TopStart, Ceiling, HasBig, FirstIn, Physical,
        ServedFrom, GrownTo, GrewAndServed;
      if size == 0 {
        KeepsPayloadsSame(mem.rows, blocks);
        return 0;
      }
      ghost var r0, b0 := mem.rows, blocks;
      if |mem.rows| == 0 {
        Init();
        NothingFits(size);
        InitIsFirst(sizes, blocks);
        LiveNone();
      }
      ghost var r1, z1, b1 := mem.rows, sizes, blocks;
      GoodParts(mem, sizes, blocks, rings);
      p := Serve(size);
      if |r0| == 0 {
        assert r0 == [];
        FirstPage(r1, |mem.rows|, maxPages, size);
        FromFirst(b1, size, p - 1);
        KeepsPayloadsNone(mem.rows, blocks);
        GrewFromNothing(r1, b1, blocks, |mem.rows|, size, p);
      }
      if FirstIn(z1, b1) {
        ServedFirst(r1, z1, b1, mem, sizes, blocks, rings, p, size);
      }
    }

    /** sf_malloc from line 57 on. Its recursive call passes the tests above line 57 unchanged. */
    method Serve(size: nat) returns (p: nat)
      requires At({}) && size > 0
      modifies this
      ensures ClassesKept(old(sizes))
      ensures At({})
      ensures p == 0 <==> !Fits(old(blocks), size) && size + 8 > 8 * Ceiling(old(mem.rows), maxPages)
      ensures p == 0 ==> Live(blocks) == Live(old(blocks))
      ensures p != 0 ==> p - 1 !in Live(old(blocks)) && Live(blocks) == Live(old(blocks))[p - 1 := size]
      ensures Fits(old(blocks), size) ==> BestFit(old(blocks), size, p - 1) && |mem.rows| == old(|mem.rows|)
      ensures KeepsPayloads(old(mem.rows), old(blocks), mem.rows, blocks, {})
      ensures !Fits(old(blocks), size) && p != 0 ==>
        p - 1 == TopStart(old(mem.rows)) && LeastGrowth(old(mem.rows), |mem.rows|, size)
      ensures GrewAndServed(old(blocks), old(mem.rows), blocks, |mem.rows|, size, p)
      ensures p == 0 ==> |mem.rows| == PAGE_ROWS * maxPages
      ensures |mem.rows| > |old(mem.rows)| ==> HasBig(sizes)
      ensures |old(mem.rows)| <= |mem.rows|
      decreases PAGE_ROWS * maxPages - |mem.rows|
    {
      hide Physical, AllRings, Filed, Increasing, KeepsPayloads, Fits, BestFit, TopRows, LeastGrowth, TopStart, HasBig,
        ServedFrom, GrownTo, GrewAndServed;
      ghost var r0, b0 := mem.rows, blocks;
      var i := Search(size);
      TopFits(mem.rows, blocks, size);
      EpilogueFacts(mem.rows, blocks);
      if i < |sizes| {
        p := Take(sizes[i], size);
        BestFitFits(b0, size, p - 1);
        GrewNot(b0, r0, blocks, size, p);
      } else if |mem.rows| + PAGE_ROWS <= PAGE_ROWS * maxPages {
        Extend();
        ghost var r1, b1 := mem.rows, blocks;
        BigClass(sizes, TopRows(r1));
        ghost var z1 := sizes;
        p := Serve(size);
        BigClassKept(z1, sizes);
        if !Fits(b0, size) && Fits(b1, size) {
          ServedAtEnd(r0, b0, r1, b1, size, p - 1);
        }
        GrownFurther(r0, r1, |mem.rows|, size);
        GrewOnce(b0, r0, r1, blocks, |mem.rows|, size, p);
        KeepsPayloadsTransitive(r0, b0, r1, b1, mem.rows, blocks, {}, {}, {});
      } else {
        p := 0;
        KeepsPayloadsSame(mem.rows, blocks);
        GrewNot(b0, r0, blocks, size, p);
      }
    }

    /** The scan of lines 57-62. */
    method Search(size: nat) returns (i: nat)
      requires At({})
      ensures i <= |sizes| && (i == |sizes| ==> !Fits(blocks, size))
      ensures i < |sizes| ==>
        size + 8 <= 8 * sizes[i] && sizes[i] in mem.heads && mem.heads[sizes[i]].next != Head(sizes[i])
      ensures i < |sizes| ==>
        forall a :: a in blocks && !blocks[a].alloc && blocks[a].size == sizes[i] ==> BestFit(blocks, size, a)
    {
      assert forall c :: c in sizes ==> c in mem.heads;
      hide Good, Fits, BestFit;
      i := 0;
      while i < |sizes| && (size + 8 > 8 * sizes[i] || mem.heads[sizes[i]].next == Head(sizes[i]))
        invariant i <= |sizes|
        invariant forall j :: 0 <= j < i ==> size + 8 > 8 * sizes[j] || mem.heads[sizes[j]].next == Head(sizes[j])
      {
        i := i + 1;
      }
      SearchResult(size, i);
    }

    /** The scan of lines 59-62 stops at the smallest non-empty class that fits, or there is no
        free block that fits. */
    lemma SearchResult(size: nat, i: nat)
      requires At({}) && i <= |sizes|
      requires forall j :: 0 <= j < i ==> size + 8 > 8 * sizes[j] || mem.heads[sizes[j]].next == Head(sizes[j])
      requires i < |sizes| ==> size + 8 <= 8 * sizes[i] && mem.heads[sizes[i]].next != Head(sizes[i])
      ensures i == |sizes| ==> !Fits(blocks, size)
      ensures i < |sizes| ==>
        forall a :: a in blocks && !blocks[a].alloc && blocks[a].size == sizes[i] ==> BestFit(blocks, size, a)
    {
      hide Physical, Filed, Linked;
      forall b | b in blocks && !blocks[b].alloc && size + 8 <= 8 * blocks[b].size
        ensures i < |sizes| && sizes[i] <= blocks[b].size
      {
        var k := RingIndex(mem, sizes, blocks, rings, {}, b);
        var c := blocks[b].size;
        var j :| 0 <= j < |sizes| && sizes[j] == c;
        RingNeighbours(mem, blocks, c, rings[c], 0);
        assert RingOf(blocks, c, rings[c]) && rings[c][1].Blk?;
      }
    }

    /** The abort() checks of sf_free and sf_realloc (hw3/src/sfmm.c:320-354), as one test. */
    method Accepts(p: nat) returns (ok: bool)
      requires At({})
      ensures p > 0 && p - 1 in blocks ==> (ok <==> blocks[p - 1].alloc)
    {
      hide Physical, AllRings, Filed, Increasing;
      EpilogueFacts(mem.rows, blocks);
      if p > 0 && p - 1 in blocks {
        BlockFacts(mem.rows, blocks, p - 1);
        if !mem.rows[p - 1].prev { PrevFooter(mem.rows, blocks, p - 1); }
      }
      if p < START || p > |mem.rows| - 1 {
        return false;
      }
      var h := p - 1;
      if !mem.rows[h].Info? || !mem.rows[h].alloc {
        return false;
      }
      if mem.rows[h].size % 2 != 0 || mem.rows[h].size < MIN_ROWS {
        return false;
      }
      if mem.rows[h].req + 8 > 8 * mem.rows[h].size {
        return false;
      }
      if !mem.rows[h].prev {
        var f := mem.rows[h - 1];
        if !f.Info? || f.alloc || f.size > h {
          return false;
        }
        var q := mem.rows[h - f.size];
        if !q.Info? || q.alloc {
          return false;
        }
      }
      return true;
    }

    /** sf_realloc (hw3/src/sfmm.c:509-687) on a live pointer. */
    method Realloc(p: nat, rsize: nat) returns (q: nat)
      requires At({}) && p > 0 && p - 1 in blocks && blocks[p - 1].alloc && maxPages >= 1
      modifies this
      ensures ClassesKept(old(sizes))
      ensures At({}) && |old(mem.rows)| <= |mem.rows|
      ensures KeepsPayloads(old(mem.rows), old(blocks), mem.rows, blocks, {p - 1})
      ensures rsize == 0 ==> q == 0 && Live(blocks) == Live(old(blocks)) - {p - 1}
      ensures 0 < rsize <= old(blocks)[p - 1].req ==> q == p && Live(blocks) == Live(old(blocks))[p - 1 := rsize]
      ensures rsize > old(blocks)[p - 1].req ==>
        (q == 0 <==> !Fits(old(blocks), rsize) && rsize + 8 > 8 * Ceiling(old(mem.rows), maxPages))
      ensures rsize > old(blocks)[p - 1].req && q == 0 ==>
        Live(blocks) == Live(old(blocks)) && SameLive(old(mem.rows), mem.rows, old(blocks))
      ensures rsize > old(blocks)[p - 1].req && q != 0 ==>
        q - 1 !in Live(old(blocks)) && Live(blocks) == Live(old(blocks))[q - 1 := rsize] - {p - 1}
      ensures q != 0 ==> SameBytes(old(mem.rows), p, mem.rows, q, Min(old(blocks)[p - 1].req, rsize))
      ensures rsize == 0 ==> Freed(old(blocks), p - 1, blocks)
      ensures 0 < rsize < old(blocks)[p - 1].req ==> blocks == GaveBack(old(blocks), p - 1, rsize)
      ensures rsize == old(blocks)[p - 1].req > 0 ==> mem == old(mem) && blocks == old(blocks)
      ensures rsize > old(blocks)[p - 1].req ==>
        MovedTo(old(blocks), old(mem.rows), blocks, |mem.rows|, p - 1, rsize, q)
      ensures old(FirstClass()) ==> FirstClass()
    {
      ghost var r0, z0, b0 := mem.rows, sizes, blocks;
      hide Physical, AllRings, Filed, Increasing, KeepsPayloads, Retags, Live, FreeOf, Carved, Fits, SameBytes,
        SameLive, TopRows, FirstIn, Freed, GaveBack, MovedTo;
      GoodParts(mem, sizes, blocks, rings);
      LiveIs(blocks, p - 1);
      var h: nat := p - 1;
      BlockFacts(mem.rows, blocks, h);
      if rsize == 0 {
        Free(p);
        return 0;
      }
      if mem.rows[h].req < rsize {
        q := Grow(p, rsize);
      } else if mem.rows[h].req > rsize {
        Shrink(h, rsize);
        q := p;
      } else {
        LiveSame(blocks, h);
        KeepsPayloadsAny(mem.rows, blocks, {h});
        KeptBytes(mem.rows, blocks, mem.rows, h, rsize);
        q := p;
      }
      if FirstIn(z0, b0) {
        SameFirst(r0, z0, b0, mem, sizes, blocks, rings);
      }
    }

    /** Lines 559-562: the grow path moves the payload. */
    method Grow(p: nat, rsize: nat) returns (q: nat)
      requires At({}) && p > 0 && p - 1 in blocks && blocks[p - 1].alloc && maxPages >= 1 && rsize > blocks[p - 1].req
      modifies this
      ensures ClassesKept(old(sizes))
      ensures At({}) && |old(mem.rows)| <= |mem.rows|
      ensures KeepsPayloads(old(mem.rows), old(blocks), mem.rows, blocks, {p - 1})
      ensures q == 0 <==> !Fits(old(blocks), rsize) && rsize + 8 > 8 * Ceiling(old(mem.rows), maxPages)
      ensures q == 0 ==> Live(blocks) == Live(old(blocks)) && SameLive(old(mem.rows), mem.rows, old(blocks))
      ensures q != 0 ==> q - 1 !in Live(old(blocks)) && Live(blocks) == Live(old(blocks))[q - 1 := rsize] - {p - 1}
      ensures q != 0 ==> SameBytes(old(mem.rows), p, mem.rows, q, old(blocks)[p - 1].req)
      ensures MovedTo(old(blocks), old(mem.rows), blocks, |mem.rows|, p - 1, rsize, q)
      ensures old(FirstClass()) && |sizes| == 1 && old(blocks).Keys == {START} ==>
        |mem.rows| == |old(mem.rows)| && Live(blocks).Keys <= Live(old(blocks)).Keys
    {
      hide Physical, AllRings, Filed, Increasing, KeepsPayloads, Retags, Live, FreeOf, Carved, Fits, SameBytes,
        SameLive, TopRows, Freed, GrewAndServed;
      ghost var r0, b0 := mem.rows, blocks;
      var h: nat := p - 1;
      BlockFacts(mem.rows, blocks, h);
      LiveIs(blocks, h);
      q := Malloc(rsize);
      ghost var r1, b1 := mem.rows, blocks;
      if q == 0 {
        SameLiveIsKept(r0, b0, r1, b1);
        KeepsPayloadsTransitive(r0, b0, r1, b1, r1, b1, {}, {}, {h});
        return 0;
      }
      LiveIs(blocks, q - 1);
      LiveIs(b0, q - 1);
      KeepsBytes(r0, b0, r1, b1, {}, h, b0[h].req);
      CopyPayload(h, q - 1);
      ghost var r2 := mem.rows;
      Free(p);
      SameBytesTransitive(r0, p, r1, p, r2, q, b0[h].req);
      KeepsBytes(r2, b1, mem.rows, blocks, {h}, q - 1, b0[h].req);
      SameBytesTransitive(r0, p, r2, q, mem.rows, q, b0[h].req);
      KeepsPayloadsTransitive(r0, b0, r1, b1, r2, b1, {}, {q - 1}, {});
      KeepsPayloadsTransitive(r0, b0, r2, b1, mem.rows, blocks, {}, {h}, {h});
    }

    /** Line 560: memcpy(p, pp, header->info.requested_size). */
    method CopyPayload(h: nat, g: nat)
      requires At({}) && h in blocks && blocks[h].alloc && g in blocks && blocks[g].alloc && h != g
      requires blocks[h].req <= blocks[g].req
      modifies this
      ensures sizes == old(sizes)
      ensures At({}) && blocks == old(blocks) && |mem.rows| == old(|mem.rows|)
      ensures KeepsPayloads(old(mem.rows), blocks, mem.rows, blocks, {g})
      ensures SameBytes(old(mem.rows), h + 1, mem.rows, g + 1, blocks[h].req)
    {
      hide Physical, AllRings, Filed, Increasing, KeepsPayloads;
      BlockFacts(mem.rows, blocks, h);
      BlockFacts(mem.rows, blocks, g);
      Apart(mem.rows, blocks, h, g);
      var n := mem.rows[h].req;
      var rows := CopyBytes(mem.rows, g + 1, h + 1, n);
      PayloadPhysical(mem.rows, rows, blocks, g);
      PayloadGood(mem, sizes, blocks, rings, rows, g);
      mem := mem.(rows := rows);
    }

    /** Lines 563-672: give back the tail if it makes a block. */
    method Shrink(h: nat, rsize: nat)
      requires At({}) && h in blocks && blocks[h].alloc && 0 < rsize < blocks[h].req
      modifies this
      ensures ClassesKept(old(sizes))
      ensures At({}) && |old(mem.rows)| == |mem.rows|
      ensures KeepsPayloads(old(mem.rows), old(blocks), mem.rows, blocks, {h})
      ensures Live(blocks) == Live(old(blocks))[h := rsize]
      ensures blocks == GaveBack(old(blocks), h, rsize)
      ensures SameBytes(old(mem.rows), h + 1, mem.rows, h + 1, rsize)
    {
      hide Physical, AllRings, Filed, Increasing, Retags, Live, FreeOf, Carved, SameBytes, GaveBack;
      ghost var r0, b0 := mem.rows, blocks;
      ghost var c: nat := blocks[h].size;
      BlockFacts(mem.rows, blocks, h);
      var split: nat := BlockRows(rsize);
      LiveIs(blocks, h);
      LivePut(Live(blocks), h, rsize);
      if mem.rows[h].size - split < MIN_ROWS {
        ResizeRetags(mem.rows, blocks, h, rsize);
        SetRows(mem.rows[h := mem.rows[h].(req := rsize)], {}, h, h + c, map[h := Block(c, true, rsize)], {h});
        KeptBytes(r0, b0, mem.rows, h, rsize);
        GaveBackNothing(b0, h, rsize, blocks);
      } else {
        Split(h, split, rsize);
      }
    }

    /** Lines 569-672. */
    method Split(h: nat, split: nat, rsize: nat)
      requires At({}) && h in blocks && blocks[h].alloc && 0 < rsize < blocks[h].req
      requires split == BlockRows(rsize) && split + MIN_ROWS <= blocks[h].size
      modifies this
      ensures ClassesKept(old(sizes))
      ensures At({}) && |old(mem.rows)| == |mem.rows|
      ensures KeepsPayloads(old(mem.rows), old(blocks), mem.rows, blocks, {h})
      ensures Live(blocks) == Live(old(blocks))[h := rsize]
      ensures blocks == GaveBack(old(blocks), h, rsize)
      ensures SameBytes(old(mem.rows), h + 1, mem.rows, h + 1, rsize)
    {
      hide Physical, AllRings, Filed, Increasing, KeepsPayloads, Retags, Live, FreeOf, Carved, SameBytes, ShrinkWrites;
      hide SplitBlocks, GaveBack;
      ghost var r0, b0 := mem.rows, blocks;
      LiveIs(blocks, h);
      LivePut(Live(blocks), h, rsize);
      var hi: nat;
      ghost var X;
      hi, X := AbsorbNext(h);
      ghost var r1 := mem.rows;
      ShrinkRetags(mem.rows, blocks, h, split, hi, rsize);
      SetRows(ShrinkWrites(mem.rows, h, split, hi, rsize), X, h, hi, SplitBlocks(h, split, rsize, hi - h), {h});
      ghost var r2, b2 := mem.rows, blocks;
      GaveBackTail(b0, h, rsize, hi, blocks);
      assert {h + split} - {h + split} == {};
      File(h + split, {h + split});
      LiveIs(b2, h);
      ShrinkKeeps(r0, b0, r1, mem.rows, b2, h, split, hi, rsize);
    }

    /** A client's store into byte k of its live payload at p. */
    method Store(p: nat, k: nat, b: int)
      requires At({}) && p > 0 && p - 1 in blocks && blocks[p - 1].alloc && k < blocks[p - 1].req
      modifies this
      ensures sizes == old(sizes)
      ensures At({}) && blocks == old(blocks) && |mem.rows| == old(|mem.rows|) && p + k / 8 < |mem.rows|
      ensures KeepsPayloads(old(mem.rows), blocks, mem.rows, blocks, {p - 1})
      ensures ByteAt(mem.rows, p, k) == Stored(b)
      ensures forall j: nat :: j < blocks[p - 1].req && j != k && p + j / 8 < |mem.rows| ==>
        ByteAt(mem.rows, p, j) == ByteAt(old(mem.rows), p, j)
    {
      hide Physical, AllRings, Filed, Increasing, KeepsPayloads;
      PayloadInside(mem.rows, blocks, p - 1);
      var x: nat := p + k / 8;
      var rows := mem.rows[x := Data(Bytes(mem.rows[x])[k % 8 := Stored(b)])];
      PayloadPhysical(mem.rows, rows, blocks, p - 1);
      PayloadGood(mem, sizes, blocks, rings, rows, p - 1);
      mem := mem.(rows := rows);
    }
  }
}
