/** The physical heap of the allocator (hw3/src/sfmm.c): 64-bit rows, boundary tags and the
    blocks they describe. Row indices count from sf_mem_start(); block sizes are in rows, so a
    size of n rows is the source's `block_size << 4` divided by 8. */
module HeapLayout {

  const PAGE_ROWS := 512   // PAGE_SZ / 8
  const START := 5         // row of the first block: sf_mem_start() + 40
  const MIN_ROWS := 4      // the minimum block of 32 bytes

  /** What a link of a free list points to: a free block, or the header node of a size class. */
  datatype Ref = Blk(at: nat) | Head(size: nat)

  /** One byte of a row: a byte the client stored, or byte k of a row last written as a whole. */
  datatype Byte = Stored(b: int) | Part(row: Row, k: nat)

  /** A 64-bit row: an info word (header or footer), a link of a free block, or client bytes. */
  datatype Row =
    | Info(alloc: bool, prev: bool, size: nat, req: nat)
    | Link(to: Ref)
    | Data(bytes: seq<Byte>)

  /** A row of a page as sf_mem_grow() delivers it: all zero. */
  const ZERO_ROW := Info(false, false, 0, 0)

  /** The eight bytes of a row. */
  function Bytes(r: Row): (s: seq<Byte>)
    ensures |s| == 8
  {
    if r.Data? && |r.bytes| == 8 then r.bytes else seq(8, k requires 0 <= k => Part(r, k))
  }

  /** What a block is, apart from its address: size in rows, allocated bit, bytes requested. */
  datatype Block = Block(size: nat, alloc: bool, req: nat)

  type Blocks = map<nat, Block>

  /** The row after block a: the next header, or the end of the blocks. */
  ghost function Next(B: Blocks, a: nat): nat
    requires a in B
  {
    a + B[a].size
  }

  /** The blocks of B cover [lo, hi) without gap or overlap. */
  ghost predicate Tiles(B: Blocks, lo: nat, hi: nat) {
    && lo in B
    && (forall a :: a in B ==> lo <= a && MIN_ROWS <= B[a].size && a + B[a].size <= hi)
    && (forall a {:trigger Next(B, a)} :: a in B ==> Next(B, a) == hi || Next(B, a) in B)
    && (forall a, b :: a in B && b in B && a < b ==> a + B[a].size <= b)
  }

  /** Payloads start on 16-byte boundaries and sizes are multiples of 16 bytes. */
  ghost predicate Aligned(B: Blocks) {
    forall a :: a in B ==> a % 2 == 1 && B[a].size % 2 == 0
  }

  /** Header of block b at row h. */
  ghost predicate HeaderOf(h: Row, b: Block) {
    && h.Info? && h.alloc == b.alloc && h.size == b.size
    && (b.alloc ==> h.req == b.req && b.req + 8 <= 8 * b.size)
  }

  /** A free block's footer repeats its header's allocation bits and size. */
  ghost predicate FooterOf(f: Row, h: Row) {
    f.Info? && h.Info? && f.alloc == h.alloc && f.prev == h.prev && f.size == h.size
  }

  /** Block b at row a carries its boundary tags in mem. The row after it is the next header or
      the epilogue, whose prev bit is the block's allocated bit. */
  ghost predicate TagsOf(mem: seq<Row>, a: nat, b: Block) {
    var n := a + b.size;
    && MIN_ROWS <= b.size && n < |mem|
    && HeaderOf(mem[a], b)
    && mem[n].Info? && mem[n].prev == b.alloc
    && (!b.alloc ==> FooterOf(mem[n - 1], mem[a]))
  }

  /** Every block of B is tagged in mem. */
  ghost predicate Tagged(mem: seq<Row>, B: Blocks) {
    forall a :: a in B ==> TagsOf(mem, a, B[a])
  }

  /** No two free blocks touch. */
  ghost predicate Coalesced(B: Blocks) {
    forall a {:trigger Next(B, a)} :: a in B && !B[a].alloc && Next(B, a) in B ==> B[Next(B, a)].alloc
  }

  /** Prologue and epilogue: allocated sentinels at rows 1 and 4 and at the last row. */
  ghost predicate Sentinels(mem: seq<Row>) {
    && |mem| > START + MIN_ROWS
    && mem[1].Info? && mem[1].alloc && mem[4].Info? && mem[4].alloc
    && mem[START].Info? && mem[START].prev
    && mem[|mem| - 1].Info? && mem[|mem| - 1].alloc
  }

  /** The heap bytes are exactly the blocks of B. */
  ghost predicate Physical(mem: seq<Row>, B: Blocks) {
    Sentinels(mem) && Tiles(B, START, |mem| - 1) && Tagged(mem, B) && Coalesced(B) && Aligned(B)
  }

  // ----- tiling -------------------------------------------------------------------------------

  /** Walking the headers from p reaches every later boundary: the block before x exists. */
  lemma {:induction false} BlockBefore(B: Blocks, lo: nat, hi: nat, p: nat, x: nat) returns (q: nat)
    requires Tiles(B, lo, hi) && p in B && p < x && (x in B || x == hi)
    ensures q in B && q + B[q].size == x
    decreases x - p
  {
    q := Next(B, p);
    if q == x {
      q := p;
    } else {
      q := BlockBefore(B, lo, hi, q, x);
    }
  }

  /** Every row of [lo, hi) lies in exactly one block. */
  lemma {:induction false} EveryRowCovered(B: Blocks, lo: nat, hi: nat, p: nat, x: nat) returns (q: nat)
    requires Tiles(B, lo, hi) && p in B && p <= x < hi
    ensures q in B && q <= x < q + B[q].size
    ensures forall r :: r in B && r <= x < r + B[r].size ==> r == q
    decreases x - p
  {
    if x < p + B[p].size {
      q := p;
    } else {
      q := EveryRowCovered(B, lo, hi, Next(B, p), x);
    }
  }

  /** B with the blocks of [lo, hi) replaced by those of N. */
  ghost function Carved(B: Blocks, lo: nat, hi: nat, N: Blocks): (C: Blocks)
    ensures forall a :: a in C <==> a in N || (a in B && !(lo <= a < hi))
    ensures forall a :: a in C ==> C[a] == if a in N then N[a] else B[a]
  {
    (map a | a in B && !(lo <= a < hi) :: B[a]) + N
  }

  /** Replacing a run of blocks, or the end of the heap plus fresh rows, by another tiling of the
      same rows gives a tiling again. */
  lemma CarvedTiles(B: Blocks, start: nat, end: nat, lo: nat, hi: nat, newEnd: nat, N: Blocks)
    requires Tiles(B, start, end) && Tiles(N, lo, hi)
    requires lo in B || lo == end
    requires if newEnd == end then hi in B || hi == end else end < newEnd && hi == newEnd
    ensures Tiles(Carved(B, lo, hi, N), start, newEnd)
  {
    var C := Carved(B, lo, hi, N);
    forall a, b | a in C && b in C && a < b ensures a + C[a].size <= b {
      CarvedApart(B, start, end, lo, hi, N, a, b);
    }
    forall a | a in C
      ensures start <= a && MIN_ROWS <= C[a].size && a + C[a].size <= newEnd
    {
      if a !in N && a < lo { assert a + B[a].size <= lo; }
    }
    forall a | a in C ensures Next(C, a) == newEnd || Next(C, a) in C {
      CarvedNext(B, start, end, lo, hi, newEnd, N, a);
    }
  }

  /** The row after a block of a carved heap is a block again, or the end. */
  lemma CarvedNext(B: Blocks, start: nat, end: nat, lo: nat, hi: nat, newEnd: nat, N: Blocks, a: nat)
    requires Tiles(B, start, end) && Tiles(N, lo, hi)
    requires lo in B || lo == end
    requires if newEnd == end then hi in B || hi == end else end < newEnd && hi == newEnd
    requires a in Carved(B, lo, hi, N)
    ensures Next(Carved(B, lo, hi, N), a) == newEnd || Next(Carved(B, lo, hi, N), a) in Carved(B, lo, hi, N)
  {
    hide Carved;
    if a in N {
      var n := Next(N, a);
      assert n == hi || n in N;
      assert hi !in N;
    } else {
      var n := Next(B, a);
      assert n == end || n in B;
      if a < lo { assert n <= lo; } else { assert hi <= a; }
    }
  }

  /** Two blocks of a carved heap do not overlap. */
  lemma CarvedApart(B: Blocks, start: nat, end: nat, lo: nat, hi: nat, N: Blocks, a: nat, b: nat)
    requires Tiles(B, start, end) && Tiles(N, lo, hi) && (lo in B || lo == end)
    requires a in Carved(B, lo, hi, N) && b in Carved(B, lo, hi, N) && a < b
    ensures a + Carved(B, lo, hi, N)[a].size <= b
  {
    if a in N && b !in N {
      assert a + N[a].size <= hi <= b;
    } else if a !in N && b in N && a < lo {
      assert a + B[a].size <= lo <= b;
    }
  }

  // ----- boundary tags ------------------------------------------------------------------------

  /** mem2 is mem1 outside the rows [lo, hi], except that the heap may have grown by rows
      [|mem1|, |mem2|). */
  ghost predicate SameOutside(mem1: seq<Row>, mem2: seq<Row>, lo: nat, hi: nat) {
    |mem1| <= |mem2| && forall x :: 0 <= x < |mem1| && !(lo <= x <= hi) ==> mem2[x] == mem1[x]
  }

  /** The header or epilogue h2 keeps everything of h1 but its prev bit. */
  ghost predicate SameButPrev(h1: Row, h2: Row) {
    h1.Info? && h2.Info? && h2 == h1.(prev := h2.prev)
  }

  /** mem2 is mem with the tags of [lo, hi) rewritten for the blocks N, and the prev bit at hi:
      lo and hi are block boundaries, or hi is the last row of a heap that has grown. */
  ghost predicate Retags(mem: seq<Row>, B: Blocks, mem2: seq<Row>, lo: nat, hi: nat, N: Blocks) {
    && Tiles(N, lo, hi) && Tagged(mem2, N) && Coalesced(N) && Aligned(N)
    && SameOutside(mem, mem2, lo, hi) && START <= lo < |mem| && lo < hi < |mem2|
    && (lo in B || lo == |mem| - 1)
    && (if |mem2| == |mem| then hi in B || hi == |mem| - 1 else hi == |mem2| - 1)
    && (if hi < |mem| then SameButPrev(mem[hi], mem2[hi]) else mem2[hi].Info? && mem2[hi].alloc)
    && mem2[lo].Info? && mem[lo].Info? && mem2[lo].prev == mem[lo].prev
    && (!mem[lo].prev ==> N[lo].alloc)
    && (hi in B ==> forall a :: a in N && a + N[a].size == hi && !N[a].alloc ==> B[hi].alloc)
  }

  /** The one lemma behind split, coalesce, growth and shrink: rewriting the tags of [lo, hi) for
      the blocks N, and the prev bit of the row at hi, keeps the whole heap well formed. */
  lemma CarvedPhysical(mem: seq<Row>, B: Blocks, mem2: seq<Row>, lo: nat, hi: nat, N: Blocks)
    requires Physical(mem, B) && Retags(mem, B, mem2, lo, hi, N)
    ensures Physical(mem2, Carved(B, lo, hi, N))
  {
    CarvedTiles(B, START, |mem| - 1, lo, hi, |mem2| - 1, N);
    OutsideTagged(mem, B, mem2, lo, hi, N);
    CarvedCoalesced(mem, B, lo, hi, N);
    CarvedEnds(mem, B, mem2, lo, hi, N);
  }

  /** Sentinels and alignment survive carving. */
  lemma CarvedEnds(mem: seq<Row>, B: Blocks, mem2: seq<Row>, lo: nat, hi: nat, N: Blocks)
    requires Sentinels(mem) && SameOutside(mem, mem2, lo, hi) && START <= lo < hi < |mem2|
    requires if |mem2| == |mem| then true else hi == |mem2| - 1
    requires if hi < |mem| then SameButPrev(mem[hi], mem2[hi]) else mem2[hi].Info? && mem2[hi].alloc
    requires lo < |mem| && mem2[lo].Info? && mem[lo].Info? && mem2[lo].prev == mem[lo].prev
    requires Aligned(B) && Aligned(N)
    ensures Sentinels(mem2) && Aligned(Carved(B, lo, hi, N))
  {
  }

  /** No two free blocks of a carved heap touch. */
  lemma CarvedCoalesced(mem: seq<Row>, B: Blocks, lo: nat, hi: nat, N: Blocks)
    requires |mem| > START && Tiles(B, START, |mem| - 1) && Tagged(mem, B) && Coalesced(B)
    requires Tiles(N, lo, hi) && Coalesced(N) && (lo in B || lo == |mem| - 1)
    requires mem[lo].Info? && (!mem[lo].prev ==> N[lo].alloc)
    requires hi in B ==> forall q :: q in N && q + N[q].size == hi && !N[q].alloc ==> B[hi].alloc
    ensures Coalesced(Carved(B, lo, hi, N))
  {
    var C := Carved(B, lo, hi, N);
    forall a | a in C && !C[a].alloc && Next(C, a) in C ensures C[Next(C, a)].alloc {
      CarvedNeighbour(mem, B, lo, hi, N, a);
    }
  }

  /** The block after a free block of a carved heap is allocated. */
  lemma CarvedNeighbour(mem: seq<Row>, B: Blocks, lo: nat, hi: nat, N: Blocks, a: nat)
    requires |mem| > START && Tiles(B, START, |mem| - 1) && Tagged(mem, B) && Coalesced(B)
    requires Tiles(N, lo, hi) && Coalesced(N) && (lo in B || lo == |mem| - 1)
    requires mem[lo].Info? && (!mem[lo].prev ==> N[lo].alloc)
    requires hi in B ==> forall q :: q in N && q + N[q].size == hi && !N[q].alloc ==> B[hi].alloc
    requires a in Carved(B, lo, hi, N) && !Carved(B, lo, hi, N)[a].alloc
    requires Next(Carved(B, lo, hi, N), a) in Carved(B, lo, hi, N)
    ensures Carved(B, lo, hi, N)[Next(Carved(B, lo, hi, N), a)].alloc
  {
    hide HeaderOf, FooterOf, Carved;
    if a in N {
      assert Next(N, a) == hi || Next(N, a) in N;
    } else {
      var n := Next(B, a);
      assert n == Next(Carved(B, lo, hi, N), a);
      if a < lo {
        assert n <= lo;
        assert TagsOf(mem, a, B[a]);
      } else {
        assert hi <= a && n !in N;
      }
    }
  }

  /** A free block at hi keeps its prev bit, so its footer still agrees with its header. */
  lemma FreeKeepsPrevBit(mem: seq<Row>, B: Blocks, mem2: seq<Row>, lo: nat, hi: nat, N: Blocks)
    requires |mem| > START && hi < |mem2|
    requires Tiles(B, START, |mem| - 1) && Tagged(mem, B) && Tiles(N, lo, hi) && Tagged(mem2, N)
    requires Coalesced(B) && START <= lo && hi in B && !B[hi].alloc
    requires forall a :: a in N && a + N[a].size == hi && !N[a].alloc ==> B[hi].alloc
    ensures hi < |mem| && mem2[hi].Info? && mem[hi].Info? && mem2[hi].prev == mem[hi].prev
  {
    var p := BlockBefore(B, START, |mem| - 1, START, hi);
    var q := BlockBefore(N, lo, hi, lo, hi);
    assert Next(B, p) == hi;
    assert B[p].alloc && N[q].alloc;
  }

  /** The part of CarvedPhysical about the tags of the blocks that were not touched. */
  lemma OutsideTagged(mem: seq<Row>, B: Blocks, mem2: seq<Row>, lo: nat, hi: nat, N: Blocks)
    requires |mem| > START && hi < |mem2|
    requires Tiles(B, START, |mem| - 1) && Tagged(mem, B) && Tiles(N, lo, hi) && Tagged(mem2, N)
    requires SameOutside(mem, mem2, lo, hi)
    requires lo in B || lo == |mem| - 1
    requires if |mem2| == |mem| then hi in B || hi == |mem| - 1 else hi == |mem2| - 1
    requires hi < |mem| ==> SameButPrev(mem[hi], mem2[hi])
    requires Coalesced(B)
    requires hi in B ==> forall a :: a in N && a + N[a].size == hi && !N[a].alloc ==> B[hi].alloc
    requires mem2[lo].Info? && mem[lo].Info? && mem2[lo].prev == mem[lo].prev
    ensures Tagged(mem2, Carved(B, lo, hi, N))
  {
    var C := Carved(B, lo, hi, N);
    forall a | a in C ensures TagsOf(mem2, a, C[a]) {
      if a !in N {
        assert a < lo ==> a + B[a].size <= lo;
        assert a == hi && !B[a].alloc ==> mem2[hi].prev == mem[hi].prev by {
          if a == hi && !B[a].alloc { FreeKeepsPrevBit(mem, B, mem2, lo, hi, N); }
        }
        TagsOutside(mem, mem2, lo, hi, a, B[a]);
      }
    }
  }

  /** Tags of a block outside the rewritten rows stay. */
  lemma TagsOutside(mem: seq<Row>, mem2: seq<Row>, lo: nat, hi: nat, a: nat, b: Block)
    requires TagsOf(mem, a, b) && SameOutside(mem, mem2, lo, hi) && (a + b.size <= lo || hi <= a)
    requires lo < |mem| && lo < hi < |mem2| && mem2[lo].Info? && mem[lo].Info? && mem2[lo].prev == mem[lo].prev
    requires hi < |mem| ==> SameButPrev(mem[hi], mem2[hi])
    requires a == hi && !b.alloc ==> mem2[hi].prev == mem[hi].prev
    ensures TagsOf(mem2, a, b)
  {
  }
}
