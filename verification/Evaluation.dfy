/** The start of an evaluation: the activation is marshalled, then the program's first step resets the
    arena. The marshalled unknown descriptors survive that reset and are what the kernels take. */
module Evaluation {
  import opened Machine
  import opened Values
  import opened Activations
  import opened BumpArena
  import opened UnknownSets
  import opened Marshal
  import ThreeValued

  /** The activation buffer is no chunk of the arena. */
  ghost predicate BufferApart(inst: Instance, arena: Arena)
    reads inst, arena
  {
    inst.bufCapacity > 0 ==> inst.Buffer() !in ChunkBlocks(arena.chain)
  }

  /** Slots that stand for the marshalled cells: unknowns for the blanked variables and nowhere else. */
  ghost predicate Represents(slots: seq<Value>, cells: seq<Cell>, vars: seq<Variable>, blanked: Blanked) {
    && |slots| == |cells| == |vars|
    && forall i :: 0 <= i < |vars| ==>
      if vars[i].name in blanked then cells[i].UnknownCell? && slots[i] == Unknown(cells[i].unk) else !slots[i].Unknown?
  }

  lemma DescriptorIsHeld(m: seq<Byte>, at: UInt32, id: UInt32, held: iset<int>)
    requires at > 0 && DescriptorAt(m, at, id)
    requires forall x :: at <= x < at + 12 ==> x in held
    ensures HeldIn(Unknown(at), m, held) && Meaning(Unknown(at), m) == ThreeValued.Unk({id})
  {
    hide LoadU32;
    var ids := ReadIds(m, at + 8, 1);
    assert ids == [id];
    assert SetOf(ids) == {id};
  }

  /** A blanked variable's descriptor lies in the buffer, which the arena's chunks never touch. */
  lemma BlankedIsHeld(cells: seq<Cell>, vars: seq<Variable>, blanked: Blanked, known: map<Name, Bound>, m: seq<Byte>,
                      buffer: Block, i: nat, held: iset<int>)
    requires i < |vars| == |cells| && vars[i].name in blanked
    requires buffer.base > 0 || Total(Costs(vars, blanked, known)) == 0
    requires AllHold(cells, vars, blanked, known, m, buffer.base, Costs(vars, blanked, known))
    requires Total(Costs(vars, blanked, known)) <= buffer.len
    requires Total(Costs(vars, blanked, known)) > 0 ==> forall x :: InBlock(x, buffer) ==> x in held
    ensures cells[i].UnknownCell? && HeldIn(Unknown(cells[i].unk), m, held)
    ensures Meaning(Unknown(cells[i].unk), m) == ThreeValued.Unk({blanked[vars[i].name]})
  {
    hide LoadU32, Total, Costs;
    var costs := Costs(vars, blanked, known);
    CostAt(vars, blanked, known, i);
    ExtentsApart(costs, i, |costs|);
    assert CellHolds(cells[i], vars[i], blanked, known, m, buffer.base + Marshal.Start(costs, i));
    DescriptorIsHeld(m, cells[i].unk, blanked[vars[i].name], held);
  }

  /** Whatever slots stand for the marshalled cells, the kernels' invariant holds of them, and each blanked
      variable denotes the set of its one id. */
  ghost predicate ReadyForKernels(slots: seq<Value>, vars: seq<Variable>, blanked: Blanked, m: seq<Byte>, held: iset<int>) {
    && AllHeld(slots, m, held)
    && |slots| == |vars|
    && forall i :: 0 <= i < |vars| && vars[i].name in blanked ==>
      Meaning(slots[i], m) == ThreeValued.Unk({blanked[vars[i].name]})
  }

  lemma MarshalledIsReady(slots: seq<Value>, cells: seq<Cell>, vars: seq<Variable>, blanked: Blanked,
                          known: map<Name, Bound>, m: seq<Byte>, buffer: Block, held: iset<int>)
    requires Represents(slots, cells, vars, blanked)
    requires buffer.base > 0 || Total(Costs(vars, blanked, known)) == 0
    requires AllHold(cells, vars, blanked, known, m, buffer.base, Costs(vars, blanked, known))
    requires Total(Costs(vars, blanked, known)) <= buffer.len
    requires Total(Costs(vars, blanked, known)) > 0 ==> forall x :: InBlock(x, buffer) ==> x in held
    ensures ReadyForKernels(slots, vars, blanked, m, held)
  {
    hide AllHold, Total, Costs, Meaning, InBlock;
    forall i | 0 <= i < |vars|
      ensures HeldIn(slots[i], m, held)
      ensures vars[i].name in blanked ==> Meaning(slots[i], m) == ThreeValued.Unk({blanked[vars[i].name]})
    {
      if vars[i].name in blanked {
        hide HeldIn;
        BlankedIsHeld(cells, vars, blanked, known, m, buffer, i, held);
      }
    }
  }

  lemma {:induction false} SomeChunkBlocks(c: seq<Chunk>, i: nat, j: nat)
    requires i <= j <= |c|
    ensures ChunkBlocks(c[i..j]) <= ChunkBlocks(c)
    decreases j - i
  {
    if i < j {
      SomeChunkBlocks(c, i, j - 1);
      ChunkBlocksMember(c, j - 1);
      assert c[i..j][..j - i - 1] == c[i..j - 1];
    }
  }

  /** A block outside the chunks outlives a reset, and is still outside the chunk that remains. */
  lemma SurvivesReset(b: Block, blocks: set<Block>, chain: seq<Chunk>)
    requires b in blocks && b !in ChunkBlocks(chain)
    ensures |chain| > 0 ==> b in blocks - ChunkBlocks(chain[1..]) && b !in ChunkBlocks([chain[0]])
  {
    hide ChunkBlocks;
    if |chain| > 0 {
      SomeChunkBlocks(chain, 1, |chain|);
      SomeChunkBlocks(chain, 0, 1);
      assert chain[1..|chain|] == chain[1..] && chain[0..1] == [chain[0]];
    }
  }

  lemma {:induction false} AllChunkBlocks(c: seq<Chunk>, blocks: set<Block>, oom: UInt32)
    requires OwnedBy(c, blocks, oom)
    ensures ChunkBlocks(c) <= blocks
  {
    if |c| > 0 {
      AllChunkBlocks(c[..|c| - 1], blocks, oom);
    }
  }

  lemma ArenaFacts(arena: Arena)
    requires arena.Valid()
    ensures arena.heap.Valid() && ChunkBlocks(arena.chain) <= arena.heap.blocks
    ensures if arena.initialized then |arena.chain| > 0 else arena.chain == []
  {
    hide Heap.Valid, Linked, CursorsAre, OwnedBy, Bumped, ChunkBlocks;
    AllChunkBlocks(arena.chain, arena.heap.blocks, arena.oomBlock);
  }

  lemma OtherBlocksReserved(arena: Arena, b: Block, x: int)
    requires b in arena.heap.blocks && b !in ChunkBlocks(arena.chain) && InBlock(x, b)
    ensures arena.Reserved(x)
  {
  }

  /** Marshal, then reset the arena: whatever the outcome both stay valid side by side, and on success the
      memory is ready for the kernels. */
  method StartEvaluation(inst: Instance, arena: Arena, vars: seq<Variable>, act: Activation, blanked: Blanked)
    returns (st: Status, cells: seq<Cell>)
    requires inst.Valid() && arena.Valid() && act.Valid() && BufferApart(inst, arena)
    requires inst.heap == arena.heap && inst.memory == arena.mem
    modifies inst, inst.heap, inst.memory, act`cache, act`invoked, arena, arena.chain
    ensures inst.Valid() && arena.Valid() && act.Valid() && BufferApart(inst, arena)
    ensures st == Done ==> forall slots :: Represents(slots, cells, vars, blanked) ==>
      ReadyForKernels(slots, vars, blanked, arena.mem[..], iset x: int | arena.Reserved(x))
  {
    hide Arena.Valid, Heap.Valid, AllHold, Costs, Total, Orderly, Blamed, ReadyForKernels, Represents, ReservedIn, ChunkBlocks;
    ArenaFacts(arena);
    var need, cursor;
    st, cells, need, cursor := inst.MarshalActivation(vars, act, blanked);
    assert BufferApart(inst, arena);
    arena.HeapGrew();
    assert arena.Valid();
    if st != Done {
      return;
    }
    ghost var chain, blocks := arena.chain, arena.heap.blocks;
    arena.Reset();
    ArenaFacts(arena);
    if inst.bufCapacity > 0 {
      SurvivesReset(inst.Buffer(), blocks, chain);
    }
    ghost var held := iset x: int | arena.Reserved(x);
    forall x | inst.bufCapacity > 0 && InBlock(x, inst.Buffer()) ensures x in held {
      OtherBlocksReserved(arena, inst.Buffer(), x);
    }
    forall slots | Represents(slots, cells, vars, blanked) ensures ReadyForKernels(slots, vars, blanked, arena.mem[..], held) {
      MarshalledIsReady(slots, cells, vars, blanked, act.Known(), arena.mem[..], inst.Buffer(), held);
    }
  }

  /** So the kernels can start on such slots, and read each blanked variable as its one id. */
  lemma KernelsCanStart(k: Kernels, vars: seq<Variable>, blanked: Blanked)
    requires k.arena.Valid() && k.arena.initialized
    requires ReadyForKernels(k.slots[..], vars, blanked, k.arena.mem[..], iset x: int | k.arena.Reserved(x))
    ensures k.Valid()
    ensures forall i :: 0 <= i < |vars| && vars[i].name in blanked ==>
      k.Read(i) == ThreeValued.Unk({blanked[vars[i].name]})
  {
    hide Arena.Valid, Meaning, HeldIn, ReservedIn;
    assert (iset x: int | k.arena.Reserved(x)) == k.Held();
    forall i | 0 <= i < |vars| ensures k.slots[..][i] == k.slots[i] {
    }
  }
}
