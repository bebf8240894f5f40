/** Whole runs of the allocator: what any sequence of calls guarantees its clients. */
module AllocatorRuns {
  import opened HeapLayout
  import opened FreeLists
  import opened HeapState
  import opened TagWrites
  import opened HeapEffects
  import opened Allocator

  /** One call of a client, or a store into memory it was given. An allocation is named by the row
      of its header, one row before the pointer the client holds. */
  datatype Call = DoMalloc(size: nat) | DoFree(a: nat) | DoRealloc(a: nat, size: nat) | DoStore(a: nat, k: nat, b: int)

  /** What the client believes it owns: the size it asked for and the bytes it stored. */
  datatype Chunk = Chunk(size: nat, bytes: map<nat, int>)

  type Chunks = map<nat, Chunk>

  /** Calls that do not make sf_free or sf_realloc abort, and stores inside the bytes asked for. */
  predicate Allowed(cs: Chunks, c: Call) {
    match c
    case DoMalloc(_) => true
    case DoFree(a) => a in cs
    case DoRealloc(a, _) => a in cs
    case DoStore(a, k, _) => a in cs && k < cs[a].size
  }

  /** A chunk after its block was resized: bytes beyond the smaller size are gone. */
  function Resized(ch: Chunk, size: nat): Chunk {
    Chunk(size, map k | k in ch.bytes && k < Min(ch.size, size) :: ch.bytes[k])
  }

  /** The client's view after a call that returned pointer q. */
  function After(cs: Chunks, c: Call, q: nat): Chunks
    requires Allowed(cs, c)
  {
    match c
    case DoMalloc(size) => if q == 0 then cs else cs[q - 1 := Chunk(size, map[])]
    case DoFree(a) => cs - {a}
    case DoRealloc(a, size) =>
      if size == 0 then cs - {a}
      else if q == 0 then cs
      else (cs - {a})[q - 1 := Resized(cs[a], size)]
    case DoStore(a, k, b) => cs[a := Chunk(cs[a].size, cs[a].bytes[k := b])]
  }

  /** A returned pointer is NULL, fresh, or the pointer that was passed in. */
  predicate Answers(cs: Chunks, c: Call, q: nat)
    requires Allowed(cs, c)
  {
    match c
    case DoMalloc(size) => if size == 0 then q == 0 else q == 0 || q - 1 !in cs
    case DoFree(_) => true
    case DoRealloc(a, size) =>
      if size == 0 then q == 0 else if size <= cs[a].size then q == a + 1 else q == 0 || q - 1 !in cs
    case DoStore(_, _, _) => true
  }

  /** The bytes the client stored in its chunk at p can be read back. */
  ghost predicate Stored(rows: seq<Row>, p: nat, ch: Chunk) {
    forall k :: k in ch.bytes ==>
      k < ch.size && p + k / 8 < |rows| && ByteAt(rows, p, k) == Byte.Stored(ch.bytes[k])
  }

  /** The client owns exactly the live blocks, with the sizes it asked for. */
  ghost predicate Owns(live: map<nat, nat>, cs: Chunks) {
    live.Keys == cs.Keys && forall a :: a in cs ==> live[a] == cs[a].size
  }

  /** The heap holds exactly the client's chunks, byte for byte. */
  ghost predicate Holds(rows: seq<Row>, B: Blocks, cs: Chunks) {
    Owns(Live(B), cs) && forall a :: a in cs ==> Stored(rows, a + 1, cs[a])
  }

  /** The bytes of a chunk survive a call that keeps its payload. */
  lemma ChunkKept(r1: seq<Row>, B1: Blocks, r2: seq<Row>, B2: Blocks, S: set<nat>, cs: Chunks, a: nat)
    requires Physical(r1, B1) && Holds(r1, B1, cs) && KeepsPayloads(r1, B1, r2, B2, S) && a in cs && a !in S
    ensures Stored(r2, a + 1, cs[a])
  {
    hide Physical, KeepsPayloads;
    LiveIs(B1, a);
    KeepsBytes(r1, B1, r2, B2, S, a, cs[a].size);
  }

  /** All chunks outside S survive. */
  lemma ChunksKept(r1: seq<Row>, B1: Blocks, r2: seq<Row>, B2: Blocks, S: set<nat>, cs: Chunks)
    requires Physical(r1, B1) && Holds(r1, B1, cs) && KeepsPayloads(r1, B1, r2, B2, S)
    ensures forall a :: a in cs && a !in S ==> Stored(r2, a + 1, cs[a])
  {
    hide Physical, KeepsPayloads, Stored, Live;
    forall a | a in cs && a !in S ensures Stored(r2, a + 1, cs[a]) {
      ChunkKept(r1, B1, r2, B2, S, cs, a);
    }
  }

  lemma MallocHolds(r1: seq<Row>, B1: Blocks, r2: seq<Row>, B2: Blocks, cs: Chunks, size: nat, q: nat)
    requires (Physical(r1, B1) || B1 == map[]) && Holds(r1, B1, cs) && KeepsPayloads(r1, B1, r2, B2, {})
    requires if q == 0 then Live(B2) == Live(B1) else q - 1 !in Live(B1) && Live(B2) == Live(B1)[q - 1 := size]
    ensures Holds(r2, B2, After(cs, DoMalloc(size), q)) && (q == 0 || q - 1 !in cs)
  {
    hide Physical, KeepsPayloads, Live, Stored;
    if Physical(r1, B1) {
      ChunksKept(r1, B1, r2, B2, {}, cs);
    } else {
      NothingLive(cs, r1);
    }
    NewChunkStored(r2, q, size);
  }

  lemma NewChunkStored(rows: seq<Row>, q: nat, size: nat)
    ensures Stored(rows, q, Chunk(size, map[]))
  {
  }

  lemma NothingLive(cs: Chunks, r: seq<Row>)
    requires Holds(r, map[], cs)
    ensures cs == map[]
  {
  }

  lemma FreeHolds(r1: seq<Row>, B1: Blocks, r2: seq<Row>, B2: Blocks, cs: Chunks, a: nat)
    requires Physical(r1, B1) && Holds(r1, B1, cs) && a in cs && KeepsPayloads(r1, B1, r2, B2, {a})
    requires Live(B2) == Live(B1) - {a}
    ensures Holds(r2, B2, cs - {a})
  {
    hide Physical, KeepsPayloads, Live, Stored;
    ChunksKept(r1, B1, r2, B2, {a}, cs);
  }

  /** A block that moved, or stayed, with its first bytes. */
  lemma ReallocHolds(r1: seq<Row>, B1: Blocks, r2: seq<Row>, B2: Blocks, cs: Chunks, a: nat, size: nat, q: nat)
    requires Physical(r1, B1) && Holds(r1, B1, cs) && a in cs && KeepsPayloads(r1, B1, r2, B2, {a})
    requires size > 0 && q != 0 && SameBytes(r1, a + 1, r2, q, Min(cs[a].size, size))
    requires if q == a + 1 then Live(B2) == Live(B1)[a := size]
             else q - 1 !in Live(B1) && Live(B2) == Live(B1)[q - 1 := size] - {a}
    ensures Holds(r2, B2, After(cs, DoRealloc(a, size), q)) && (q == a + 1 || q - 1 !in cs)
  {
    hide Physical, KeepsPayloads, Live, Stored, SameBytes, Resized;
    ChunksKept(r1, B1, r2, B2, {a}, cs);
    ResizedStored(r1, a + 1, r2, q, cs[a], size);
  }

  lemma ResizedStored(r1: seq<Row>, p: nat, r2: seq<Row>, q: nat, ch: Chunk, size: nat)
    requires Stored(r1, p, ch) && SameBytes(r1, p, r2, q, Min(ch.size, size))
    ensures Stored(r2, q, Resized(ch, size)) && Resized(ch, size).size == size
  {
  }

  lemma ReallocFails(r1: seq<Row>, B1: Blocks, r2: seq<Row>, B2: Blocks, cs: Chunks)
    requires Physical(r1, B1) && Holds(r1, B1, cs) && SameLive(r1, r2, B1) && Live(B2) == Live(B1)
    ensures Holds(r2, B2, cs)
  {
    hide Physical;
    forall a | a in cs ensures Stored(r2, a + 1, cs[a]) {
      LiveIs(B1, a);
      PayloadInside(r1, B1, a);
      KeptBytes(r1, B1, r2, a, cs[a].size);
    }
  }

  lemma StoreHolds(r1: seq<Row>, B: Blocks, r2: seq<Row>, cs: Chunks, a: nat, k: nat, b: int)
    requires Physical(r1, B) && Holds(r1, B, cs) && a in cs && k < cs[a].size && KeepsPayloads(r1, B, r2, B, {a})
    requires a + 1 + k / 8 < |r2| && |r1| == |r2| && ByteAt(r2, a + 1, k) == Byte.Stored(b)
    requires forall j: nat :: j < cs[a].size && j != k && a + 1 + j / 8 < |r2| ==>
      ByteAt(r2, a + 1, j) == ByteAt(r1, a + 1, j)
    ensures Holds(r2, B, After(cs, DoStore(a, k, b), 0))
  {
    hide Physical, KeepsPayloads, Live, Stored, ByteAt;
    ByteStored(r1, r2, a + 1, cs[a], k, b);
    ChunksKept(r1, B, r2, B, {a}, cs);
  }

  lemma ByteStored(r1: seq<Row>, r2: seq<Row>, p: nat, ch: Chunk, k: nat, b: int)
    requires Stored(r1, p, ch) && k < ch.size && |r1| == |r2| && p + k / 8 < |r2| && ByteAt(r2, p, k) == Byte.Stored(b)
    requires forall j: nat :: j < ch.size && j != k && p + j / 8 < |r2| ==> ByteAt(r2, p, j) == ByteAt(r1, p, j)
    ensures Stored(r2, p, Chunk(ch.size, ch.bytes[k := b]))
  {
    hide ByteAt;
  }

  /** Perform one call. */
  method Do(heap: Heap, c: Call, ghost cs: Chunks) returns (q: nat)
    requires heap.Valid() && heap.Opened() && heap.maxPages >= 1 && Holds(heap.mem.rows, heap.blocks, cs) &&
      Allowed(cs, c)
    modifies heap
    ensures heap.Valid() && heap.Opened() && Answers(cs, c, q) && Holds(heap.mem.rows, heap.blocks, After(cs, c, q))
  {
    hide Physical, AllRings, Filed, Increasing, KeepsPayloads, Live, Fits, BestFit, TopRows, TopGrown, LeastGrowth,
      SameBytes, SameLive;
    hide ByteAt, Owns, Stored, FirstIn, HasBig, Tight, GrewAndServed, Freed, GaveBack, MovedTo;
    ghost var r1, B1 := heap.mem.rows, heap.blocks;
    q := 0;
    OwnedLive(heap, cs);
    assert heap.At({}) ==> Physical(r1, B1);
    match c {
      case DoMalloc(size) =>
        q := heap.Malloc(size);
        if size > 0 { GrewTight(B1, r1, heap.blocks, |heap.mem.rows|, size, q); }
        MallocHolds(r1, B1, heap.mem.rows, heap.blocks, cs, size, q);
      case DoFree(a) =>
        heap.Free(a + 1);
        FreedTight(B1, a, heap.blocks);
        FreeHolds(r1, B1, heap.mem.rows, heap.blocks, cs, a);
      case DoRealloc(a, size) =>
        LiveIs(B1, a);
        q := heap.Realloc(a + 1, size);
        StillTight(r1, B1, heap, a, size, q);
        if size == 0 {
          FreeHolds(r1, B1, heap.mem.rows, heap.blocks, cs, a);
        } else if q == 0 {
          ReallocFails(r1, B1, heap.mem.rows, heap.blocks, cs);
        } else {
          ReallocHolds(r1, B1, heap.mem.rows, heap.blocks, cs, a, size, q);
        }
      case DoStore(a, k, b) =>
        heap.Store(a + 1, k, b);
        StoreHolds(r1, B1, heap.mem.rows, cs, a, k, b);
    }
  }

  /** What sf_realloc leaves could not be cut either. */
  lemma StillTight(r1: seq<Row>, B1: Blocks, heap: Heap, a: nat, size: nat, q: nat)
    requires Tight(B1) && a in B1
    requires size == 0 ==> Freed(B1, a, heap.blocks)
    requires 0 < size < B1[a].req ==> heap.blocks == GaveBack(B1, a, size)
    requires size == B1[a].req > 0 ==> heap.blocks == B1
    requires size > B1[a].req ==> MovedTo(B1, r1, heap.blocks, |heap.mem.rows|, a, size, q)
    ensures Tight(heap.blocks)
  {
    hide Tight, Freed, GaveBack, MovedTo;
    if size == 0 {
      FreedTight(B1, a, heap.blocks);
    } else if size < B1[a].req {
      GaveBackTight(B1, a, size);
    } else if size > B1[a].req {
      MovedTight(B1, r1, heap.blocks, |heap.mem.rows|, a, size, q);
    }
  }

  /** A client that owns something owns live blocks of a heap in use. */
  lemma OwnedLive(heap: Heap, cs: Chunks)
    requires heap.Valid() && Holds(heap.mem.rows, heap.blocks, cs)
    ensures forall a :: a in cs ==>
      heap.At({}) && a in heap.blocks && heap.blocks[a].alloc && heap.blocks[a].req == cs[a].size
  {
    forall a | a in cs
      ensures heap.At({}) && a in heap.blocks && heap.blocks[a].alloc && heap.blocks[a].req == cs[a].size
    {
      LiveIs(heap.blocks, a);
    }
  }

  /** The client's view after the allowed calls of a script, given what they returned. */
  function Replay(calls: seq<Call>, answers: seq<nat>): Chunks
    requires |calls| == |answers|
  {
    if calls == [] then map[]
    else
      var cs := Replay(calls[..|calls| - 1], answers[..|calls| - 1]);
      var c := calls[|calls| - 1];
      if Allowed(cs, c) then After(cs, c, answers[|calls| - 1]) else cs
  }

  /** Every answer was fresh, or the pointer passed in, when it was given. */
  predicate Sound(calls: seq<Call>, answers: seq<nat>)
    requires |calls| == |answers|
  {
    calls == [] ||
    (var n := |calls| - 1;
     && Sound(calls[..n], answers[..n])
     && var cs := Replay(calls[..n], answers[..n]);
     (Allowed(cs, calls[n]) ==> Answers(cs, calls[n], answers[n])))
  }

  lemma OneMore(calls: seq<Call>, answers: seq<nat>, i: nat, q: nat)
    requires i < |calls| && |answers| == i && Sound(calls[..i], answers)
    requires Allowed(Replay(calls[..i], answers), calls[i]) ==> Answers(Replay(calls[..i], answers), calls[i], q)
    ensures Sound(calls[..i + 1], answers + [q])
    ensures var cs := Replay(calls[..i], answers);
      Replay(calls[..i + 1], answers + [q]) == if Allowed(cs, calls[i]) then After(cs, calls[i], q) else cs
  {
    assert calls[..i + 1][..i] == calls[..i] && (answers + [q])[..i] == answers;
  }

  /** Every script of calls: the heap stays well formed, no allocated block has room to be cut, and it
      ends holding exactly the chunks and the bytes the client's own bookkeeping says. Calls that would
      abort are left out of the run. */
  method Run(heap: Heap, calls: seq<Call>) returns (answers: seq<nat>)
    requires heap.Valid() && heap.Opened() && heap.maxPages >= 1 && heap.blocks == map[]
    modifies heap
    ensures |answers| == |calls| && heap.Valid() && heap.Opened() && Sound(calls, answers)
    ensures Holds(heap.mem.rows, heap.blocks, Replay(calls, answers)) && Tight(heap.blocks)
  {
    hide Replay, Sound, After, Answers, Stored, Tight;
    answers := [];
    var cs: Chunks := map[];
    var i := 0;
    NoCalls();
    while i < |calls|
      invariant i <= |calls| && |answers| == i && heap.Valid() && heap.Opened()
      invariant Sound(calls[..i], answers) && cs == Replay(calls[..i], answers)
      invariant Holds(heap.mem.rows, heap.blocks, cs)
    {
      var q := 0;
      ghost var before := cs;
      if Allowed(cs, calls[i]) {
        q := Do(heap, calls[i], cs);
        cs := After(cs, calls[i], q);
      }
      OneMore(calls, answers, i, q);
      answers := answers + [q];
      i := i + 1;
    }
    assert calls[..|calls|] == calls;
  }

  lemma NoCalls()
    ensures Sound([], []) && Replay([], []) == map[]
  {
  }
}
