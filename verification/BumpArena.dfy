/** The bump arena: a chain of malloc'd chunks in one linear memory. */
module BumpArena {
  import opened Machine
  import opened Counting

  // ---- blocks of the address space ----

  datatype Block = Block(base: nat, len: nat)

  predicate Apart(a: Block, b: Block) {
    a.base + a.len <= b.base || b.base + b.len <= a.base
  }

  predicate Within(inner: Block, outer: Block) {
    outer.base <= inner.base && inner.base + inner.len <= outer.base + outer.len
  }

  ghost predicate PairwiseApart(s: seq<Block>) {
    forall i, j :: 0 <= i < j < |s| ==> Apart(s[i], s[j])
  }

  function TotalLength(s: seq<Block>): nat {
    if |s| == 0 then 0 else TotalLength(s[..|s| - 1]) + s[|s| - 1].len
  }

  ghost function Span(b: Block): (r: set<int>)
    ensures |r| == b.len && forall x :: x in r <==> b.base <= x < b.base + b.len
    decreases b.len
  {
    if b.len == 0 then {} else Span(Block(b.base, b.len - 1)) + {b.base + b.len - 1}
  }

  /** Blocks that hold bytes lie apart exactly when they share none, and one within another exactly when all its
      bytes are the other's. */
  lemma BlocksAreTheirBytes(a: Block, b: Block)
    requires a.len > 0 && b.len > 0
    ensures Apart(a, b) <==> Span(a) !! Span(b)
    ensures Within(a, b) <==> Span(a) <= Span(b)
  {
    assert a.base in Span(a) && a.base + a.len - 1 in Span(a) && b.base in Span(b);
    if Span(a) !! Span(b) {
      assert a.base !in Span(b) && b.base !in Span(a);
    }
  }

  ghost function Covered(s: seq<Block>): (r: set<int>)
    ensures forall x :: x in r <==> exists i :: 0 <= i < |s| && x in Span(s[i])
  {
    if |s| == 0 then {} else
      assert s == s[..|s| - 1] + [s[|s| - 1]];
      Covered(s[..|s| - 1]) + Span(s[|s| - 1])
  }

  lemma {:induction false} CoveredSize(s: seq<Block>)
    requires PairwiseApart(s)
    ensures |Covered(s)| == TotalLength(s)
  {
    if |s| > 0 {
      CoveredSize(s[..|s| - 1]);
      assert Covered(s[..|s| - 1]) !! Span(s[|s| - 1]);
    }
  }

  lemma {:induction false} CoveredWithin(s: seq<Block>, size: nat)
    requires forall i :: 0 <= i < |s| ==> s[i].base >= 1 && s[i].base + s[i].len <= size
    ensures Covered(s) <= Range(size) - {0}
  {
    if |s| > 0 {
      CoveredWithin(s[..|s| - 1], size);
      var last := s[|s| - 1];
      assert last.base >= 1;
      assert Covered(s) == Covered(s[..|s| - 1]) + Span(last);
    }
  }

  /** Disjoint blocks in a memory have no more bytes than it has. */
  lemma DisjointBlocksFit(s: seq<Block>, size: nat)
    requires PairwiseApart(s) && forall i :: 0 <= i < |s| ==> s[i].base >= 1 && s[i].base + s[i].len <= size
    ensures TotalLength(s) < size || size == 0 == TotalLength(s)
  {
    CoveredSize(s);
    CoveredWithin(s, size);
    SubsetSize(Covered(s), Range(size) - {0});
  }

  // ---- the allocator underneath ----

  /** malloc(0) may return an address too: then it owns a byte. */
  function MallocBlock(p: nat, n: nat): Block {
    Block(p, if n == 0 then 1 else n)
  }

  /** malloc and free, left open: malloc returns null or any 8-aligned block apart from the live ones. */
  class Heap {
    const size: nat
    var blocks: set<Block>
    /** How often malloc has answered null. */
    ghost var refused: nat

    ghost predicate Valid()
      reads this
    {
      && size <= TWO_32
      && (forall b :: b in blocks ==> 8 <= b.base && b.base % 8 == 0 && 1 <= b.len && b.base + b.len <= size)
      && (forall a, b :: a in blocks && b in blocks && a != b ==> Apart(a, b))
    }

    constructor (size: nat)
      requires size <= TWO_32
      ensures Valid() && this.size == size && blocks == {}
    {
      this.size := size;
      blocks, refused := {}, 0;
    }

    method Malloc(n: nat) returns (p: UInt32)
      requires Valid()
      modifies this
      ensures Valid()
      ensures p == 0 ==> blocks == old(blocks) && refused == old(refused) + 1
      ensures p != 0 ==> blocks == old(blocks) + {MallocBlock(p, n)} && p % 8 == 0 && refused == old(refused)
      ensures p != 0 ==> forall b :: b in old(blocks) ==> Apart(b, MallocBlock(p, n))
    {
      var q: nat := *;
      var b := MallocBlock(q, n);
      if 8 <= q && q % 8 == 0 && q + b.len <= size && forall a :: a in blocks ==> Apart(a, b) {
        blocks := blocks + {b};
        p := q;
      } else {
        p := 0;
        refused := refused + 1;
      }
    }

    method Free(b: Block)
      requires Valid() && b in blocks
      modifies this
      ensures Valid() && blocks == old(blocks) - {b} && refused == old(refused)
    {
      blocks := blocks - {b};
    }
  }

  // ---- chunks ----

  const CHUNK_STRUCT_BYTES: nat := 16
  const MIN_GROW_BYTES: nat := 4096
  const MAX_GROW_BYTES: nat := 0x10_0000
  const OOM_BLOCK_BYTES: nat := 128

  class Chunk {
    const self: UInt32
    const base: UInt32
    const capacity: UInt32
    var cursor: UInt32
    var next: Chunk?

    constructor (self: UInt32, base: UInt32, capacity: UInt32)
      ensures this.self == self && this.base == base && this.capacity == capacity && cursor == 0 && next == null
    {
      this.self, this.base, this.capacity := self, base, capacity;
      cursor, next := 0, null;
    }

    /** The buffer's bytes as the heap sees them, and the struct's own. */
    function Buffer(): Block {
      MallocBlock(base, capacity)
    }

    function Struct(): Block {
      Block(self, CHUNK_STRUCT_BYTES)
    }
  }

  function Max(a: nat, b: nat): nat {
    if a < b then b else a
  }

  /** Twice the previous capacity between the two bounds, and never below the request. The doubling
      wraps: behind a chunk of 2 GiB comes the smallest one. */
  function PickGrowSize(prevCapacity: UInt32, atLeast: UInt32): (want: UInt32)
    ensures want >= atLeast && want >= MIN_GROW_BYTES
    ensures want <= MAX_GROW_BYTES || want == atLeast
    ensures 2 * prevCapacity < MIN_GROW_BYTES ==> want == Max(MIN_GROW_BYTES, atLeast)
    ensures MIN_GROW_BYTES <= 2 * prevCapacity <= MAX_GROW_BYTES ==> want == Max(2 * prevCapacity, atLeast)
    ensures MAX_GROW_BYTES < 2 * prevCapacity < TWO_32 ==> want == Max(MAX_GROW_BYTES, atLeast)
    ensures TWO_32 <= 2 * prevCapacity <= TWO_32 + MIN_GROW_BYTES ==> want == Max(MIN_GROW_BYTES, atLeast)
    ensures TWO_32 + MAX_GROW_BYTES <= 2 * prevCapacity ==> want == Max(MAX_GROW_BYTES, atLeast)
  {
    var doubled := prevCapacity * 2 % TWO_32;
    var want :=
      if doubled < MIN_GROW_BYTES then MIN_GROW_BYTES
      else if doubled > MAX_GROW_BYTES then MAX_GROW_BYTES
      else doubled;
    if atLeast > want then atLeast else want
  }

  /** What a request occupies. */
  function NeedOf(n: UInt32): (need: UInt32)
    ensures need % 8 == 0
    ensures 0 < n <= UINT32_MAX - 7 ==> n <= need < n + 8
    ensures n == 0 || n > UINT32_MAX - 7 ==> need == 8
  {
    if AlignUp8(n) == 0 then 8 else AlignUp8(n)
  }

  // ---- chains of chunks and what is allocated in them ----

  /** A live allocation: bytes [offset, offset + len) of a chunk. */
  datatype Allocation = Allocation(chunk: nat, offset: nat, len: nat)

  function LiveBytes(live: seq<Allocation>): nat {
    if |live| == 0 then 0 else LiveBytes(live[..|live| - 1]) + live[|live| - 1].len
  }

  /** Cursors stay aligned and within capacity; allocations of a chunk lie below its cursor, each above
      the earlier ones. */
  ghost predicate Bumped(chain: seq<Chunk>, cursors: seq<nat>, live: seq<Allocation>) {
    && |cursors| == |chain|
    && (forall i :: 0 <= i < |chain| ==> cursors[i] <= chain[i].capacity && cursors[i] % 8 == 0)
    && (forall k :: 0 <= k < |live| ==>
      && live[k].chunk < |chain| && live[k].len >= 8 && live[k].offset % 8 == 0
      && live[k].offset + live[k].len <= cursors[live[k].chunk])
    && (forall k, l :: 0 <= k < l < |live| && live[k].chunk == live[l].chunk ==>
      live[k].offset + live[k].len <= live[l].offset)
  }

  function Sum(s: seq<nat>): nat {
    if |s| == 0 then 0 else Sum(s[..|s| - 1]) + s[|s| - 1]
  }

  ghost predicate Holds(c: Chunk, blocks: set<Block>, oom: UInt32) {
    && c.Buffer() in blocks && c.Struct() in blocks && c.Buffer() != c.Struct()
    && (oom != 0 ==> c.Buffer() != Block(oom, OOM_BLOCK_BYTES) && c.Struct() != Block(oom, OOM_BLOCK_BYTES))
  }

  ghost predicate Separate(c: Chunk, d: Chunk) {
    {c.Buffer(), c.Struct()} !! {d.Buffer(), d.Struct()}
  }

  /** Every chunk owns its struct and buffer in the heap; the emergency block lies outside the chain. */
  ghost predicate OwnedBy(chain: seq<Chunk>, blocks: set<Block>, oom: UInt32) {
    && (forall i :: 0 <= i < |chain| ==> Holds(chain[i], blocks, oom))
    && (forall i, j :: 0 <= i < j < |chain| ==> Separate(chain[i], chain[j]))
    && (oom != 0 ==> Block(oom, OOM_BLOCK_BYTES) in blocks)
  }

  ghost function SumCapacities(c: seq<Chunk>): nat {
    if |c| == 0 then 0 else SumCapacities(c[..|c| - 1]) + c[|c| - 1].capacity
  }

  /** Ownership, bump order and exact totals, over the values the objects hold. */
  ghost predicate Sound(blocks: set<Block>, chain: seq<Chunk>, cursors: seq<nat>, live: seq<Allocation>,
                        totalUsed: nat, totalCap: nat, oom: UInt32) {
    && OwnedBy(chain, blocks, oom)
    && Bumped(chain, cursors, live)
    && totalUsed == Sum(cursors) == LiveBytes(live) && totalCap == SumCapacities(chain)
  }

  // ---- who holds a byte ----

  predicate InBlock(x: int, b: Block) {
    b.base <= x < b.base + b.len
  }

  ghost function BlockOf(chain: seq<Chunk>, a: Allocation): Block
    requires a.chunk < |chain|
  {
    Block(chain[a.chunk].base + a.offset, a.len)
  }

  /** The heap blocks of some chunks: structs and buffers. */
  ghost function ChunkBlocks(c: seq<Chunk>): set<Block> {
    if |c| == 0 then {} else ChunkBlocks(c[..|c| - 1]) + {c[|c| - 1].Struct(), c[|c| - 1].Buffer()}
  }

  /** An address someone holds: in a live allocation, or in a heap block that is not the arena's. */
  ghost predicate ReservedIn(blocks: set<Block>, chain: seq<Chunk>, live: seq<Allocation>, x: int) {
    || (exists k :: 0 <= k < |live| && live[k].chunk < |chain| && InBlock(x, BlockOf(chain, live[k])))
    || (exists b :: b in blocks && b !in ChunkBlocks(chain) && InBlock(x, b))
  }

  lemma {:induction false} ChunkBlocksMember(chain: seq<Chunk>, i: nat)
    requires i < |chain|
    ensures chain[i].Buffer() in ChunkBlocks(chain) && chain[i].Struct() in ChunkBlocks(chain)
  {
    if i < |chain| - 1 {
      ChunkBlocksMember(chain[..|chain| - 1], i);
    }
  }

  lemma BumpedAt(chain: seq<Chunk>, cursors: seq<nat>, live: seq<Allocation>, k: nat)
    requires Bumped(chain, cursors, live) && k < |live|
    ensures var a := live[k]; a.chunk < |chain| && a.offset % 8 == 0 && a.len >= 8 && a.offset + a.len <= chain[a.chunk].capacity
  {
  }

  lemma HeldAt(chain: seq<Chunk>, blocks: set<Block>, oom: UInt32, i: nat)
    requires OwnedBy(chain, blocks, oom) && i < |chain|
    ensures chain[i].Buffer() in blocks
  {
    assert Holds(chain[i], blocks, oom);
  }

  lemma InsideBuffer(heap: Heap, chain: seq<Chunk>, cursors: seq<nat>, live: seq<Allocation>, oom: UInt32, k: nat)
    requires heap.Valid() && OwnedBy(chain, heap.blocks, oom) && Bumped(chain, cursors, live) && k < |live|
    ensures live[k].chunk < |chain|
    ensures Within(BlockOf(chain, live[k]), chain[live[k].chunk].Buffer()) && BlockOf(chain, live[k]).base % 8 == 0
    ensures chain[live[k].chunk].Buffer() in heap.blocks && chain[live[k].chunk].Buffer() in ChunkBlocks(chain)
  {
    hide OwnedBy, Bumped, ChunkBlocks;
    BumpedAt(chain, cursors, live, k);
    HeldAt(chain, heap.blocks, oom, live[k].chunk);
    ChunkBlocksMember(chain, live[k].chunk);
  }

  lemma SeparateFacts(c: Chunk, d: Chunk)
    ensures Separate(c, d) <==> c.Buffer() != d.Buffer() && c.Buffer() != d.Struct() && c.Struct() != d.Buffer() && c.Struct() != d.Struct()
    ensures Separate(c, d) <==> Separate(d, c)
  {
    if c.Buffer() != d.Buffer() && c.Buffer() != d.Struct() && c.Struct() != d.Buffer() && c.Struct() != d.Struct() {
      assert {c.Buffer(), c.Struct()} !! {d.Buffer(), d.Struct()};
    } else {
      assert c.Buffer() in {c.Buffer(), c.Struct()} && c.Struct() in {c.Buffer(), c.Struct()};
      assert d.Buffer() in {d.Buffer(), d.Struct()} && d.Struct() in {d.Buffer(), d.Struct()};
    }
  }

  /** Two live allocations are disjoint. */
  lemma AllocationsApart(heap: Heap, chain: seq<Chunk>, cursors: seq<nat>, live: seq<Allocation>, oom: UInt32, k: nat, l: nat)
    requires heap.Valid() && OwnedBy(chain, heap.blocks, oom) && Bumped(chain, cursors, live) && k < l < |live|
    ensures live[k].chunk < |chain| && live[l].chunk < |chain|
    ensures Apart(BlockOf(chain, live[k]), BlockOf(chain, live[l]))
  {
    InsideBuffer(heap, chain, cursors, live, oom, k);
    InsideBuffer(heap, chain, cursors, live, oom, l);
    hide Holds;
    var i, j := live[k].chunk, live[l].chunk;
    SeparateFacts(chain[i], chain[j]);
    if i < j {
      assert Separate(chain[i], chain[j]);
    } else if j < i {
      assert Separate(chain[j], chain[i]);
    }
  }

  /** And disjoint from every heap block that is not the arena's. */
  lemma AllocationApartFromBlock(heap: Heap, chain: seq<Chunk>, cursors: seq<nat>, live: seq<Allocation>, oom: UInt32, k: nat, b: Block)
    requires heap.Valid() && OwnedBy(chain, heap.blocks, oom) && Bumped(chain, cursors, live) && k < |live|
    requires b in heap.blocks && b !in ChunkBlocks(chain)
    ensures live[k].chunk < |chain| && Apart(BlockOf(chain, live[k]), b)
  {
    hide OwnedBy, Bumped, ChunkBlocks;
    InsideBuffer(heap, chain, cursors, live, oom, k);
  }

  lemma ReservedGrow(blocks: set<Block>, blocks': set<Block>, chain: seq<Chunk>, live: seq<Allocation>, c: Chunk, x: int)
    requires blocks' == blocks + {c.Struct(), c.Buffer()} && c.Struct() !in blocks && c.Buffer() !in blocks
    requires ReservedIn(blocks, chain, live, x)
    ensures ReservedIn(blocks', chain + [c], live, x)
  {
    if k :| 0 <= k < |live| && live[k].chunk < |chain| && InBlock(x, BlockOf(chain, live[k])) {
      assert InBlock(x, BlockOf(chain + [c], live[k]));
    } else {
      var b :| b in blocks && b !in ChunkBlocks(chain) && InBlock(x, b);
      assert (chain + [c])[..|chain|] == chain;
      assert b in blocks' && b !in ChunkBlocks(chain + [c]);
    }
  }

  lemma ReservedBump(heap: Heap, chain: seq<Chunk>, cursors: seq<nat>, live: seq<Allocation>, oom: UInt32, a: Allocation, x: int)
    requires heap.Valid() && OwnedBy(chain, heap.blocks, oom) && Bumped(chain, cursors, live + [a])
    ensures ReservedIn(heap.blocks, chain, live, x) ==> ReservedIn(heap.blocks, chain, live + [a], x)
    ensures a.chunk < |chain| && InBlock(x, BlockOf(chain, a)) ==>
      ReservedIn(heap.blocks, chain, live + [a], x) && !ReservedIn(heap.blocks, chain, live, x)
  {
    hide OwnedBy, Bumped, ChunkBlocks, BlockOf, Heap.Valid;
    var all := live + [a];
    assert all[|live|] == a;
    forall k | 0 <= k < |live|
      ensures all[k] == live[k] && live[k].chunk < |chain| && a.chunk < |chain| && Apart(BlockOf(chain, live[k]), BlockOf(chain, a))
    {
      AllocationsApart(heap, chain, cursors, all, oom, k, |live|);
    }
    forall b | b in heap.blocks && b !in ChunkBlocks(chain) ensures a.chunk < |chain| && Apart(BlockOf(chain, a), b) {
      AllocationApartFromBlock(heap, chain, cursors, all, oom, |live|, b);
    }
    if k :| 0 <= k < |live| && live[k].chunk < |chain| && InBlock(x, BlockOf(chain, live[k])) {
      assert InBlock(x, BlockOf(chain, all[k]));
    }
  }

  lemma BumpedAppend(chain: seq<Chunk>, cursors: seq<nat>, live: seq<Allocation>, c: Chunk)
    requires Bumped(chain, cursors, live)
    ensures Bumped(chain + [c], cursors + [0], live)
  {
  }

  lemma OwnedAppend(chain: seq<Chunk>, c: Chunk, blocks: set<Block>, blocks': set<Block>, oom: UInt32)
    requires OwnedBy(chain, blocks, oom)
    requires blocks' == blocks + {c.Struct(), c.Buffer()}
    requires c.Struct() !in blocks && c.Buffer() !in blocks && c.Struct() != c.Buffer()
    ensures OwnedBy(chain + [c], blocks', oom)
  {
    forall i | 0 <= i < |chain| ensures Holds(chain[i], blocks', oom) && Separate(chain[i], c) {
      assert Holds(chain[i], blocks, oom);
    }
  }

  lemma {:induction false} SumIsTotal(c: seq<Chunk>, buffers: seq<Block>)
    requires |buffers| == |c| && forall i :: 0 <= i < |c| ==> buffers[i] == c[i].Buffer()
    ensures SumCapacities(c) <= TotalLength(buffers)
  {
    if |c| > 0 {
      SumIsTotal(c[..|c| - 1], buffers[..|c| - 1]);
    }
  }

  /** Chunks in disjoint buffers cannot total 4 GiB, so the running totals never wrap. */
  lemma TotalsFit(heap: Heap, chain: seq<Chunk>, oom: UInt32)
    requires heap.Valid() && OwnedBy(chain, heap.blocks, oom) && |chain| > 0
    ensures SumCapacities(chain) < TWO_32
  {
    var buffers := seq(|chain|, i requires 0 <= i < |chain| => chain[i].Buffer());
    forall i | 0 <= i < |chain| ensures buffers[i] in heap.blocks {
      assert Holds(chain[i], heap.blocks, oom);
    }
    forall i, j | 0 <= i < j < |chain| ensures Apart(buffers[i], buffers[j]) {
      assert Separate(chain[i], chain[j]);
    }
    SumIsTotal(chain, buffers);
    DisjointBlocksFit(buffers, heap.size);
  }

  lemma SumsAppend(chain: seq<Chunk>, cursors: seq<nat>, c: Chunk, cursor: nat)
    ensures Sum(cursors + [cursor]) == Sum(cursors) + cursor
    ensures SumCapacities(chain + [c]) == SumCapacities(chain) + c.capacity
  {
    assert (chain + [c])[..|chain|] == chain;
    assert (cursors + [cursor])[..|cursors|] == cursors;
  }

  lemma SoundAppend(heap: Heap, before: set<Block>, chain: seq<Chunk>, cursors: seq<nat>, live: seq<Allocation>,
                    totalUsed: nat, totalCap: nat, oom: UInt32, c: Chunk)
    requires heap.Valid() && Sound(before, chain, cursors, live, totalUsed, totalCap, oom)
    requires heap.blocks == before + {c.Struct(), c.Buffer()}
    requires c.Struct() !in before && c.Buffer() !in before && c.Struct() != c.Buffer()
    ensures totalCap + c.capacity < TWO_32
    ensures Sound(heap.blocks, chain + [c], cursors + [0], live, totalUsed, totalCap + c.capacity, oom)
  {
    SumsAppend(chain, cursors, c, 0);
    OwnedAppend(chain, c, before, heap.blocks, oom);
    BumpedAppend(chain, cursors, live, c);
    TotalsFit(heap, chain + [c], oom);
  }

  lemma {:induction false} OutsideChunks(b: Block, c: seq<Chunk>)
    requires forall i :: 0 <= i < |c| ==> b != c[i].Struct() && b != c[i].Buffer()
    ensures b !in ChunkBlocks(c)
  {
    if |c| > 0 {
      OutsideChunks(b, c[..|c| - 1]);
    }
  }

  lemma HoldsOutside(c: Chunk, others: seq<Chunk>, blocks: set<Block>, oom: UInt32)
    requires Holds(c, blocks, oom) && forall j :: 0 <= j < |others| ==> Separate(others[j], c) || Separate(c, others[j])
    ensures Holds(c, blocks - ChunkBlocks(others), oom)
  {
    forall j | 0 <= j < |others|
      ensures c.Buffer() != others[j].Struct() && c.Buffer() != others[j].Buffer()
      ensures c.Struct() != others[j].Struct() && c.Struct() != others[j].Buffer()
    {
      SeparateFacts(others[j], c);
    }
    OutsideChunks(c.Buffer(), others);
    OutsideChunks(c.Struct(), others);
  }

  lemma StillOwned(chain: seq<Chunk>, blocks: set<Block>, oom: UInt32, i: nat)
    requires OwnedBy(chain, blocks, oom) && 1 <= i < |chain|
    ensures chain[i].Buffer() in blocks - ChunkBlocks(chain[1..i])
    ensures chain[i].Struct() in blocks - ChunkBlocks(chain[1..i]) && chain[i].Struct() != chain[i].Buffer()
    ensures ChunkBlocks(chain[1..i + 1]) == ChunkBlocks(chain[1..i]) + {chain[i].Struct(), chain[i].Buffer()}
  {
    hide Separate;
    HoldsOutside(chain[i], chain[1..i], blocks, oom);
    assert chain[1..i + 1][..i - 1] == chain[1..i];
  }

  lemma SoundReset(chain: seq<Chunk>, blocks: set<Block>, cursors: seq<nat>, live: seq<Allocation>,
                   totalUsed: nat, totalCap: nat, oom: UInt32)
    requires Sound(blocks, chain, cursors, live, totalUsed, totalCap, oom) && |chain| > 0
    ensures OwnedBy(chain, blocks, oom)
    ensures Sound(blocks - ChunkBlocks(chain[1..]), [chain[0]], [0], [], 0, chain[0].capacity, oom)
  {
    hide Separate;
    HoldsOutside(chain[0], chain[1..], blocks, oom);
    if oom != 0 {
      forall i | 1 <= i < |chain| ensures Holds(chain[i], blocks, oom) {
      }
      OutsideChunks(Block(oom, OOM_BLOCK_BYTES), chain[1..]);
    }
    var one := [chain[0]];
    assert one[..0] == [] && SumCapacities(one) == chain[0].capacity;
    assert [0][..0] == [] && Sum([0]) == 0;
    assert Bumped(one, [0], []);
    assert OwnedBy(one, blocks - ChunkBlocks(chain[1..]), oom);
  }

  /** The tail's buffer lies in the memory at an aligned, non-null offset. */
  lemma TailInMemory(heap: Heap, chain: seq<Chunk>, cursors: seq<nat>, live: seq<Allocation>,
                     totalUsed: nat, totalCap: nat, oom: UInt32)
    requires heap.Valid() && |chain| > 0 && Sound(heap.blocks, chain, cursors, live, totalUsed, totalCap, oom)
    ensures var c := chain[|chain| - 1]; 8 <= c.base && c.base % 8 == 0 && c.base + c.capacity <= heap.size <= TWO_32
    ensures |cursors| == |chain| && cursors[|chain| - 1] <= chain[|chain| - 1].capacity && cursors[|chain| - 1] % 8 == 0
  {
    assert Holds(chain[|chain| - 1], heap.blocks, oom);
  }

  lemma SumsBump(cursors: seq<nat>, live: seq<Allocation>, need: nat)
    requires |cursors| > 0
    ensures var last := |cursors| - 1; Sum(cursors[last := cursors[last] + need]) == Sum(cursors) + need
    ensures var last := |cursors| - 1; LiveBytes(live + [Allocation(last, cursors[last], need)]) == LiveBytes(live) + need
  {
    var last := |cursors| - 1;
    assert cursors[last := cursors[last] + need][..last] == cursors[..last];
    assert (live + [Allocation(last, cursors[last], need)])[..|live|] == live;
  }

  lemma BumpedBump(chain: seq<Chunk>, cursors: seq<nat>, live: seq<Allocation>, need: nat)
    requires |chain| == |cursors| > 0 && Bumped(chain, cursors, live)
    requires var last := |chain| - 1; need >= 8 && need % 8 == 0 && cursors[last] + need <= chain[last].capacity
    ensures var last := |chain| - 1;
      Bumped(chain, cursors[last := cursors[last] + need], live + [Allocation(last, cursors[last], need)])
  {
  }

  lemma {:induction false} CursorsBelowCapacities(c: seq<Chunk>, cursors: seq<nat>)
    requires |c| == |cursors| && forall i :: 0 <= i < |c| ==> cursors[i] <= c[i].capacity
    ensures Sum(cursors) <= SumCapacities(c)
  {
    if |c| > 0 {
      CursorsBelowCapacities(c[..|c| - 1], cursors[..|c| - 1]);
    }
  }

  lemma SoundBump(heap: Heap, chain: seq<Chunk>, cursors: seq<nat>, live: seq<Allocation>,
                  totalUsed: nat, totalCap: nat, oom: UInt32, need: nat)
    requires heap.Valid() && |chain| == |cursors| > 0 && Sound(heap.blocks, chain, cursors, live, totalUsed, totalCap, oom)
    requires var last := |chain| - 1; need >= 8 && need % 8 == 0 && cursors[last] + need <= chain[last].capacity
    ensures totalUsed + need < TWO_32
    ensures var last := |chain| - 1;
      Sound(heap.blocks, chain, cursors[last := cursors[last] + need],
            live + [Allocation(last, cursors[last], need)], totalUsed + need, totalCap, oom)
  {
    hide OwnedBy, Sum, LiveBytes, SumCapacities;
    SumsBump(cursors, live, need);
    BumpedBump(chain, cursors, live, need);
    CursorsBelowCapacities(chain, cursors[|chain| - 1 := cursors[|chain| - 1] + need]);
    TotalsFit(heap, chain, oom);
  }

  ghost predicate Linked(chain: seq<Chunk>)
    reads chain`next
  {
    && (forall i :: 0 <= i < |chain| ==> chain[i].next == if i + 1 < |chain| then chain[i + 1] else null)
    && (forall i, j :: 0 <= i < j < |chain| ==> chain[i] != chain[j])
  }

  lemma OomOutside(chain: seq<Chunk>, blocks: set<Block>, oom: UInt32)
    requires OwnedBy(chain, blocks, oom)
    ensures oom != 0 ==> Block(oom, OOM_BLOCK_BYTES) in blocks && Block(oom, OOM_BLOCK_BYTES) !in ChunkBlocks(chain)
  {
    if oom == 0 {
      return;
    }
    forall i | 0 <= i < |chain| ensures Holds(chain[i], blocks, oom) {
    }
    OutsideChunks(Block(oom, OOM_BLOCK_BYTES), chain);
  }

  lemma SoundParts(blocks: set<Block>, chain: seq<Chunk>, cursors: seq<nat>, live: seq<Allocation>,
                   totalUsed: nat, totalCap: nat, oom: UInt32)
    requires Sound(blocks, chain, cursors, live, totalUsed, totalCap, oom)
    ensures OwnedBy(chain, blocks, oom) && Bumped(chain, cursors, live)
  {
  }

  lemma LinkedDistinct(chain: seq<Chunk>)
    requires Linked(chain)
    ensures forall i, j :: 0 <= i < j < |chain| ==> chain[i] != chain[j]
  {
  }

  lemma LinkAt(chain: seq<Chunk>, i: nat)
    requires Linked(chain) && i < |chain|
    ensures chain[i].next == if i + 1 < |chain| then chain[i + 1] else null
  {
  }

  ghost predicate CursorsAre(chain: seq<Chunk>, cursors: seq<nat>)
    reads chain`cursor
  {
    |cursors| == |chain| && forall i :: 0 <= i < |chain| ==> chain[i].cursor == cursors[i]
  }

  lemma OwnedGrows(chain: seq<Chunk>, blocks: set<Block>, blocks': set<Block>, oom: UInt32)
    requires OwnedBy(chain, blocks, oom) && blocks <= blocks'
    ensures OwnedBy(chain, blocks', oom)
  {
  }

  lemma SoundGrows(blocks: set<Block>, blocks': set<Block>, chain: seq<Chunk>, cursors: seq<nat>, live: seq<Allocation>,
                   totalUsed: nat, totalCap: nat, oom: UInt32)
    requires Sound(blocks, chain, cursors, live, totalUsed, totalCap, oom) && blocks <= blocks'
    ensures Sound(blocks', chain, cursors, live, totalUsed, totalCap, oom)
  {
    hide OwnedBy, Bumped;
    OwnedGrows(chain, blocks, blocks', oom);
  }

  lemma ReservedGrows(blocks: set<Block>, blocks': set<Block>, chain: seq<Chunk>, live: seq<Allocation>, x: int)
    requires ReservedIn(blocks, chain, live, x) && blocks <= blocks'
    ensures ReservedIn(blocks', chain, live, x)
  {
  }

  // ---- the arena ----

  class Arena {
    const mem: array<Byte>
    const heap: Heap
    var head: Chunk?
    var tail: Chunk?
    var totalUsed: UInt32
    var totalCap: UInt32
    var initialized: bool
    var oomBlock: UInt32
    ghost var chain: seq<Chunk>
    ghost var cursors: seq<nat>
    ghost var live: seq<Allocation>

    ghost predicate Valid()
      reads this, chain, heap
    {
      && heap.Valid() && mem.Length == heap.size
      && Ends()
      && Linked(chain)
      && CursorsAre(chain, cursors)
      && Sound(heap.blocks, chain, cursors, live, totalUsed, totalCap, oomBlock)
    }

    ghost predicate Reserved(x: int)
      reads this, heap
    {
      ReservedIn(heap.blocks, chain, live, x)
    }

    ghost predicate Ends()
      reads this
    {
      if initialized then |chain| > 0 && head == chain[0] && tail == chain[|chain| - 1]
      else chain == [] && live == [] && head == null && tail == null
    }

    /** A live allocation's bytes in the linear memory. */
    ghost function BytesOf(a: Allocation): Block
      reads this
      requires a.chunk < |chain|
    {
      BlockOf(chain, a)
    }

    constructor (mem: array<Byte>, heap: Heap)
      requires heap.Valid() && mem.Length == heap.size
      ensures Valid() && !initialized && this.mem == mem && this.heap == heap
    {
      this.mem, this.heap := mem, heap;
      head, tail, totalUsed, totalCap, initialized, oomBlock := null, null, 0, 0, false, 0;
      chain, cursors, live := [], [], [];
    }

    method AllocChunk(want: UInt32) returns (c: Chunk?)
      requires heap.Valid()
      modifies heap
      ensures heap.Valid()
      ensures c == null ==> heap.blocks == old(heap.blocks) && heap.refused == old(heap.refused) + 1
      ensures c != null ==> heap.refused == old(heap.refused)
      ensures c != null ==> fresh(c) && c.capacity == want && c.cursor == 0 && c.next == null
      ensures c != null ==> heap.blocks == old(heap.blocks) + {c.Struct(), c.Buffer()}
      ensures c != null ==> c.Struct() !in old(heap.blocks) && c.Buffer() !in old(heap.blocks) && c.Struct() != c.Buffer()
    {
      var self := heap.Malloc(CHUNK_STRUCT_BYTES);
      if self == 0 {
        return null;
      }
      var p := heap.Malloc(want);
      if p == 0 {
        heap.Free(MallocBlock(self, CHUNK_STRUCT_BYTES));
        return null;
      }
      c := new Chunk(self, p, want);
    }

    method Zero(from: nat, len: nat)
      requires from + len <= mem.Length
      modifies mem
      ensures forall x :: 0 <= x < mem.Length ==> mem[x] == if from <= x < from + len then 0 else old(mem[x])
    {
      for i := 0 to len
        invariant forall x :: 0 <= x < mem.Length ==> mem[x] == if from <= x < from + i then 0 else old(mem[x])
      {
        mem[from + i] := 0;
      }
    }

    method ReserveOomBlock() returns (oom: UInt32)
      requires heap.Valid() && mem.Length == heap.size
      modifies heap, mem
      ensures heap.Valid()
      ensures oom == 0 ==> heap.blocks == old(heap.blocks)
      ensures oom != 0 ==> heap.blocks == old(heap.blocks) + {Block(oom, OOM_BLOCK_BYTES)}
      ensures oom != 0 ==> Block(oom, OOM_BLOCK_BYTES) !in old(heap.blocks)
    {
      oom := heap.Malloc(OOM_BLOCK_BYTES);
      if oom != 0 {
        Zero(oom, OOM_BLOCK_BYTES);
      }
    }

    /** Once per instance: a second call with another capacity traps. */
    method Init(capBytes: UInt32) returns (trapped: bool)
      requires Valid()
      modifies this, heap, mem
      ensures Valid()
      ensures old(initialized) ==> unchanged(this) && heap.blocks == old(heap.blocks) && (trapped <==> head.capacity != capBytes)
      ensures !old(initialized) ==> !trapped
      ensures !old(initialized) && initialized ==>
        |chain| == 1 && chain[0].capacity == capBytes && totalUsed == 0 && totalCap == capBytes && live == []
      ensures !old(initialized) && !initialized ==>
        unchanged(this) && heap.blocks == old(heap.blocks) && heap.refused > old(heap.refused)
    {
      trapped := false;
      if initialized {
        return head.capacity != capBytes;
      }
      var c := AllocChunk(capBytes);
      if c == null {
        return;
      }
      var oom := ReserveOomBlock();
      Install(c, oom);
    }

    method Install(c: Chunk, oom: UInt32)
      requires heap.Valid() && mem.Length == heap.size
      requires c.cursor == 0 && c.next == null
      requires c.Buffer() in heap.blocks && c.Struct() in heap.blocks && c.Buffer() != c.Struct()
      requires var b := Block(oom, OOM_BLOCK_BYTES);
        oom != 0 ==> b in heap.blocks && b != c.Buffer() && b != c.Struct()
      modifies this
      ensures Valid() && initialized
      ensures chain == [c] && totalUsed == 0 && totalCap == c.capacity && live == []
    {
      head, tail, totalCap, totalUsed, oomBlock := c, c, c.capacity, 0, oom;
      initialized := true;
      chain, cursors, live := [c], [0], [];
      assert [c][..0] == [] && [0][..0] == [];
    }

    /** Append a chunk at least `need` bytes large. */
    method Grow(need: UInt32) returns (ok: bool)
      requires Valid() && initialized
      modifies this, heap, chain
      ensures Valid() && initialized
      ensures totalUsed == old(totalUsed) && live == old(live) && oomBlock == old(oomBlock)
      ensures !ok ==> chain == old(chain) && cursors == old(cursors) && totalCap == old(totalCap) && heap.blocks == old(heap.blocks)
      ensures ok ==> tail != null && fresh(tail) && chain == old(chain) + [tail] && cursors == old(cursors) + [0]
      ensures ok ==> tail.capacity == PickGrowSize(old(tail.capacity), need) && tail.cursor == 0
      ensures ok ==> old(heap.blocks) < heap.blocks
      ensures heap.refused == old(heap.refused) + if ok then 0 else 1
      ensures forall x :: old(Reserved(x)) ==> Reserved(x)
    {
      hide Heap.Valid, Sound, Linked, CursorsAre, ReservedIn;
      var growBytes := PickGrowSize(tail.capacity, need);
      var nc := AllocChunk(growBytes);
      if nc == null {
        return false;
      }
      SoundAppend(heap, old(heap.blocks), chain, cursors, live, totalUsed, totalCap, oomBlock, nc);
      forall x | old(Reserved(x)) ensures ReservedIn(heap.blocks, chain + [nc], live, x) {
        ReservedGrow(old(heap.blocks), heap.blocks, chain, live, nc, x);
      }
      Link(nc);
      totalCap := (totalCap + growBytes) % TWO_32;
      ok := true;
    }

    /** Hang a new chunk on the tail. */
    method Link(nc: Chunk)
      requires initialized && Ends() && Linked(chain) && CursorsAre(chain, cursors)
      requires nc !in chain && nc.next == null && nc.cursor == 0
      modifies this`tail, this`chain, this`cursors, chain`next
      ensures Ends() && Linked(chain) && CursorsAre(chain, cursors)
      ensures tail == nc && chain == old(chain) + [nc] && cursors == old(cursors) + [0]
    {
      tail.next := nc;
      tail := nc;
      chain, cursors := chain + [nc], cursors + [0];
    }

    /** What every run of allocations and resets keeps. */
    lemma Layout()
      requires Valid()
      ensures forall k :: 0 <= k < |live| ==> live[k].chunk < |chain| && live[k].offset % 8 == 0
      ensures forall k :: 0 <= k < |live| ==> Within(BytesOf(live[k]), chain[live[k].chunk].Buffer())
      ensures forall k, l :: 0 <= k < l < |live| ==> Apart(BytesOf(live[k]), BytesOf(live[l]))
      ensures totalUsed == LiveBytes(live) <= totalCap
      ensures oomBlock != 0 ==> forall k :: 0 <= k < |live| ==> Apart(BytesOf(live[k]), Block(oomBlock, OOM_BLOCK_BYTES))
    {
      SoundParts(heap.blocks, chain, cursors, live, totalUsed, totalCap, oomBlock);
      CursorsBelowCapacities(chain, cursors);
      OomOutside(chain, heap.blocks, oomBlock);
      hide OwnedBy, Heap.Valid, Linked, CursorsAre, BlockOf;
      forall k | 0 <= k < |live|
        ensures live[k].chunk < |chain| && live[k].offset % 8 == 0
        ensures Within(BlockOf(chain, live[k]), chain[live[k].chunk].Buffer())
        ensures oomBlock != 0 ==> Apart(BlockOf(chain, live[k]), Block(oomBlock, OOM_BLOCK_BYTES))
      {
        InsideBuffer(heap, chain, cursors, live, oomBlock, k);
        if oomBlock != 0 {
          AllocationApartFromBlock(heap, chain, cursors, live, oomBlock, k, Block(oomBlock, OOM_BLOCK_BYTES));
        }
      }
      forall k, l | 0 <= k < l < |live| ensures Apart(BlockOf(chain, live[k]), BlockOf(chain, live[l])) {
        AllocationsApart(heap, chain, cursors, live, oomBlock, k, l);
      }
    }

    lemma MemorySize()
      requires Valid()
      ensures mem.Length <= TWO_32
    {
    }

    /** Offset 0 and its seven neighbours belong to nobody. */
    lemma ReservedAboveZero(x: int)
      requires Valid() && Reserved(x)
      ensures 8 <= x < mem.Length
    {
      SoundParts(heap.blocks, chain, cursors, live, totalUsed, totalCap, oomBlock);
      hide OwnedBy, Bumped, BlockOf, Linked, CursorsAre;
      if k :| 0 <= k < |live| && live[k].chunk < |chain| && InBlock(x, BlockOf(chain, live[k])) {
        InsideBuffer(heap, chain, cursors, live, oomBlock, k);
      }
    }

    /** Blocks that others obtain from the same heap leave the arena as it is. */
    twostate lemma HeapGrew()
      requires old(Valid()) && heap.Valid() && old(heap.blocks) <= heap.blocks
      requires unchanged(this) && forall c :: c in chain ==> unchanged(c)
      ensures Valid()
      ensures forall x :: old(Reserved(x)) ==> Reserved(x)
    {
      hide Heap.Valid, Sound, ReservedIn;
      SoundGrows(old(heap.blocks), heap.blocks, chain, cursors, live, totalUsed, totalCap, oomBlock);
      forall i | 0 <= i < |chain| ensures chain[i].next == old(chain[i].next) && chain[i].cursor == old(chain[i].cursor) {
        assert chain[i] in chain;
      }
      forall x | old(Reserved(x)) ensures Reserved(x) {
        ReservedGrows(old(heap.blocks), heap.blocks, chain, live, x);
      }
    }

    /** Zeroed storage at an 8-aligned offset, or 0 when no chunk can be had. */
    method Alloc(n: UInt32) returns (off: UInt32)
      requires Valid() && initialized
      modifies this, heap, mem, chain
      ensures Valid() && initialized
      ensures n > UINT32_MAX - 7 ==> off == 0
      ensures old(chain) <= chain && old(heap.blocks) <= heap.blocks && oomBlock == old(oomBlock)
      ensures forall i :: 0 <= i < |chain| ==> chain[i] in old(chain) || fresh(chain[i])
      ensures off == 0 ==> live == old(live) && cursors == old(cursors) && chain == old(chain) && heap.blocks == old(heap.blocks)
      ensures off == 0 ==> mem[..] == old(mem[..])
      ensures off == 0 && n <= UINT32_MAX - 7 ==> NeedOf(n) > old(tail.capacity - tail.cursor) && heap.refused > old(heap.refused)
      ensures heap.refused >= old(heap.refused)
      ensures off != 0 ==> (chain == old(chain) <==> NeedOf(n) <= old(tail.capacity - tail.cursor))
      ensures off != 0 ==> |live| == |old(live)| + 1 && live[..|old(live)|] == old(live)
      ensures off != 0 ==> var a := live[|old(live)|];
        a.chunk == |chain| - 1 && a.len == NeedOf(n) >= n && BytesOf(a).base == off && off % 8 == 0 && off + a.len <= mem.Length
      ensures off != 0 ==> forall x :: 0 <= x < mem.Length ==>
        mem[x] == if off <= x < off + NeedOf(n) then 0 else old(mem[x])
      ensures forall x :: old(Reserved(x)) ==> Reserved(x)
      ensures off != 0 ==> forall x :: off <= x < off + NeedOf(n) ==> Reserved(x) && !old(Reserved(x))
    {
      hide Heap.Valid, Linked, CursorsAre, Sound, ReservedIn;
      if n > UINT32_MAX - 7 {
        return 0;
      }
      var need := NeedOf(n);
      if need > tail.capacity - tail.cursor {
        var ok := Grow(need);
        if !ok {
          return 0;
        }
      }
      off := Bump(need);
      Zero(off, need);
    }

    method Bump(need: UInt32) returns (off: UInt32)
      requires Valid() && initialized && need >= 8 && need % 8 == 0
      requires need <= tail.capacity - tail.cursor
      modifies this, chain
      ensures Valid() && initialized && chain == old(chain) && oomBlock == old(oomBlock)
      ensures live == old(live) + [Allocation(|chain| - 1, old(cursors)[|chain| - 1], need)]
      ensures off == BytesOf(live[|old(live)|]).base > 0 && off % 8 == 0 && off + need <= mem.Length
      ensures heap.blocks == old(heap.blocks) && heap.refused == old(heap.refused)
      ensures forall x :: old(Reserved(x)) ==> Reserved(x)
      ensures forall x :: off <= x < off + need ==> Reserved(x) && !old(Reserved(x))
    {
      hide Heap.Valid, Linked, Sound, ReservedIn;
      ghost var last := |chain| - 1;
      LinkedDistinct(chain);
      TailInMemory(heap, chain, cursors, live, totalUsed, totalCap, oomBlock);
      SoundBump(heap, chain, cursors, live, totalUsed, totalCap, oomBlock, need);
      ghost var a := Allocation(last, cursors[last], need);
      forall x
        ensures Reserved(x) ==> ReservedIn(heap.blocks, chain, live + [a], x)
        ensures InBlock(x, BlockOf(chain, a)) ==> ReservedIn(heap.blocks, chain, live + [a], x) && !Reserved(x)
      {
        SoundParts(heap.blocks, chain, cursors[last := cursors[last] + need], live + [a], totalUsed + need, totalCap, oomBlock);
        ReservedBump(heap, chain, cursors[last := cursors[last] + need], live, oomBlock, a, x);
      }
      off := tail.base + tail.cursor;
      tail.cursor := tail.cursor + need;
      totalUsed := (totalUsed + need) % TWO_32;
      live := live + [a];
      cursors := cursors[last := cursors[last] + need];
    }

    /** Drop every chunk but the first and rewind it. */
    method Reset()
      requires Valid()
      modifies this, heap, chain
      ensures Valid()
      ensures initialized == old(initialized) && oomBlock == old(oomBlock) && live == []
      ensures initialized ==> chain == [old(chain)[0]] && cursors == [0] && head == tail == chain[0]
      ensures initialized ==> totalUsed == 0 && totalCap == chain[0].capacity
      ensures heap.blocks == old(heap.blocks) - (if initialized then ChunkBlocks(old(chain)[1..]) else {})
    {
      if head == null {
        return;
      }
      hide Heap.Valid, Sound, CursorsAre, OwnedBy, Linked;
      SoundReset(chain, heap.blocks, cursors, live, totalUsed, totalCap, oomBlock);
      FreeGrownChunks();
      Rewind();
    }

    method FreeGrownChunks()
      requires heap.Valid() && initialized && Ends() && Linked(chain) && OwnedBy(chain, heap.blocks, oomBlock)
      modifies heap
      ensures heap.Valid() && heap.blocks == old(heap.blocks) - ChunkBlocks(chain[1..])
    {
      hide Heap.Valid, OwnedBy, Linked;
      ghost var i := 1;
      var c := head.next;
      assert chain[1..1] == [];
      LinkAt(chain, 0);
      while c != null
        invariant 1 <= i <= |chain| && c == if i < |chain| then chain[i] else null
        invariant heap.Valid() && heap.blocks == old(heap.blocks) - ChunkBlocks(chain[1..i])
        decreases |chain| - i
      {
        LinkAt(chain, i);
        var nx := c.next;
        StillOwned(chain, old(heap.blocks), oomBlock, i);
        heap.Free(c.Buffer());
        heap.Free(c.Struct());
        c := nx;
        i := i + 1;
      }
      assert chain[1..i] == chain[1..];
    }

    method Rewind()
      requires head != null
      modifies this, head
      ensures initialized == old(initialized) && oomBlock == old(oomBlock) && live == []
      ensures head == old(head) == tail && head.next == null && chain == [head] && cursors == [0]
      ensures Linked(chain) && CursorsAre(chain, cursors)
      ensures totalUsed == 0 && totalCap == head.capacity
    {
      head.cursor := 0;
      head.next := null;
      tail := head;
      totalUsed := 0;
      totalCap := head.capacity;
      chain, cursors, live := [head], [0], [];
    }
  }
}
