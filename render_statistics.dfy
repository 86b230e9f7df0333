/** `ncine::RenderStatistics` (src/graphics/RenderStatistics.cpp): per-frame
    counters of the render queue. The class-static fields become the fields
    of one `RenderStatistics` object; every counter is an `unsigned int`
    whose `+=` and `++` wrap modulo 2^32. */
module RenderStats {
  import opened Ints

  /** `RenderStatistics::Commands`: what the drawn commands amount to. */
  datatype Commands = Commands(vertices: u32, commands: u32, transparents: u32, instances: u32)

  /** `RenderStatistics::Buffers`: what the managed buffers of one type hold. */
  datatype Buffers = Buffers(count: u32, size: u32, usedSpace: u32)

  /** The parts of a `RenderCommand` that are gathered: its type index, its
      geometry's vertex count, its instance count and whether its material is
      transparent. */
  datatype CommandInfo = CommandInfo(typeIndex: nat, numVertices: u32, numInstances: u32, transparent: bool)

  /** The parts of a `RenderBuffersManager::ManagedBuffer` that are gathered. */
  datatype BufferInfo = BufferInfo(typeIndex: nat, size: u32, freeSpace: u32)

  /** `Commands::reset()`: every counter back to zero. */
  const NoCommands := Commands(0, 0, 0, 0)

  /** `Buffers::reset()`: every counter back to zero. */
  const NoBuffers := Buffers(0, 0, 0)

  /** The vertices a command adds to its type's slot: its geometry's vertices
      once per instance, or once when it is not instanced. */
  function TypedVertices(c: CommandInfo): (r: u32)
    ensures c.numInstances == 0 ==> r == c.numVertices
    ensures c.numInstances > 0 && c.numVertices as int * c.numInstances as int < U32_MODULUS ==>
      r as int == c.numVertices as int * c.numInstances as int
    ensures c.numInstances > 0 ==> (c.numVertices as int * c.numInstances as int - r as int) % U32_MODULUS == 0
  {
    if c.numInstances > 0 then MulWrap(c.numVertices, c.numInstances) else c.numVertices
  }

  /** One command gathered into a slot: `vertices` grows by `vertices`,
      `commands` by one, `transparents` by one exactly for a transparent
      material, and `instances` by the instance count, all modulo 2^32. */
  function Gather(s: Commands, c: CommandInfo, vertices: u32): (r: Commands)
    ensures r.vertices as int == (s.vertices as int + vertices as int) % U32_MODULUS
    ensures r.commands as int == (s.commands as int + 1) % U32_MODULUS
    ensures r.transparents as int == (s.transparents as int + if c.transparent then 1 else 0) % U32_MODULUS
    ensures r.instances as int == (s.instances as int + c.numInstances as int) % U32_MODULUS
  {
    Commands(AddWrap(s.vertices, vertices), AddWrap(s.commands, 1),
             AddWrap(s.transparents, if c.transparent then 1 else 0), AddWrap(s.instances, c.numInstances))
  }

  /** One managed buffer gathered into the slot of its type. */
  function GatherBuffer(s: Buffers, b: BufferInfo): (r: Buffers)
    ensures r.count as int == (s.count as int + 1) % U32_MODULUS
    ensures r.size as int == (s.size as int + b.size as int) % U32_MODULUS
    ensures r.usedSpace as int == (s.usedSpace as int + b.size as int - b.freeSpace as int) % U32_MODULUS
  {
    Buffers(AddWrap(s.count, 1), AddWrap(s.size, b.size), AddWrap(s.usedSpace, SubWrap(b.size, b.freeSpace)))
  }

  /** The three counters an aggregate shares with the typed slots. */
  function CommandsOf(s: Commands): u32 { s.commands }
  function TransparentsOf(s: Commands): u32 { s.transparents }
  function InstancesOf(s: Commands): u32 { s.instances }

  /** The counter `f` of the typed slots, added up without wrapping. */
  function Total(s: seq<Commands>, f: Commands -> u32): (r: int)
    ensures r >= 0
    decreases |s|
  {
    if s == [] then 0 else Total(s[..|s| - 1], f) + f(s[|s| - 1]) as int
  }

  /** An aggregate counter equals the total of the typed slots' counters
      modulo 2^32. */
  ghost predicate Counts(all: u32, s: seq<Commands>, f: Commands -> u32)
  {
    (all as int - Total(s, f)) % U32_MODULUS == 0
  }

  /** The aggregate slot counts what the typed slots count: commands,
      transparents and instances. Vertices differ, as the aggregate counts
      an instanced command's vertices once. */
  ghost predicate Agrees(all: Commands, s: seq<Commands>)
  {
    Counts(all.commands, s, CommandsOf) &&
    Counts(all.transparents, s, TransparentsOf) &&
    Counts(all.instances, s, InstancesOf)
  }

  /** Replacing slot `i` changes a total by the difference of the two slots. */
  lemma {:induction false} TotalUpdate(s: seq<Commands>, i: nat, x: Commands, f: Commands -> u32)
    requires i < |s|
    ensures Total(s[i := x], f) == Total(s, f) - f(s[i]) as int + f(x) as int
    decreases |s|
  {
    var n := |s| - 1;
    if i < n {
      assert s[i := x][..n] == s[..n][i := x];
      TotalUpdate(s[..n], i, x, f);
    } else {
      assert s[i := x][..n] == s[..n];
    }
  }

  /** Slots that are all zero add up to zero. */
  lemma {:induction false} TotalZero(s: seq<Commands>, f: Commands -> u32)
    requires forall q :: 0 <= q < |s| ==> f(s[q]) == 0
    ensures Total(s, f) == 0
    decreases |s|
  {
    if s != [] {
      TotalZero(s[..|s| - 1], f);
    }
  }

  /** Adding the same amount, modulo 2^32, to an aggregate counter and to one
      typed slot's counter keeps the counter in agreement. */
  lemma CountsStep(all: u32, s: seq<Commands>, i: nat, x: Commands, f: Commands -> u32, d: int)
    requires Counts(all, s, f) && i < |s|
    requires f(x) as int == (f(s[i]) as int + d) % U32_MODULUS
    ensures Counts(((all as int + d) % U32_MODULUS) as u32, s[i := x], f)
  {
    TotalUpdate(s, i, x, f);
  }

  /** Gathering one command into its slot and into the aggregate keeps the
      aggregate in agreement with the typed slots. */
  lemma GatherAgrees(all: Commands, s: seq<Commands>, c: CommandInfo)
    requires Agrees(all, s) && c.typeIndex < |s|
    ensures Agrees(Gather(all, c, c.numVertices), s[c.typeIndex := Gather(s[c.typeIndex], c, TypedVertices(c))])
  {
    var x := Gather(s[c.typeIndex], c, TypedVertices(c));
    var a := Gather(all, c, c.numVertices);
    assert Counts(a.commands, s[c.typeIndex := x], CommandsOf) by {
      CountsStep(all.commands, s, c.typeIndex, x, CommandsOf, 1);
    }
    assert Counts(a.transparents, s[c.typeIndex := x], TransparentsOf) by {
      CountsStep(all.transparents, s, c.typeIndex, x, TransparentsOf, if c.transparent then 1 else 0);
    }
    assert Counts(a.instances, s[c.typeIndex := x], InstancesOf) by {
      CountsStep(all.instances, s, c.typeIndex, x, InstancesOf, c.numInstances as int);
    }
  }

  /** All-zero slots and a zero aggregate agree. */
  lemma ZeroAgrees(s: seq<Commands>)
    requires forall q :: 0 <= q < |s| ==> s[q] == NoCommands
    ensures Agrees(NoCommands, s)
  {
    TotalZero(s, CommandsOf);
    TotalZero(s, TransparentsOf);
    TotalZero(s, InstancesOf);
  }

  class RenderStatistics {
    const typedCommands: array<Commands>
    var allCommands: Commands
    const typedBuffers: array<Buffers>
    var index: u32
    const culledNodes: array<u32>

    /** `index` selects one of the two `culledNodes_` slots, and the
        aggregate agrees with the typed command slots. */
    ghost predicate Valid()
      reads this, typedCommands
    {
      culledNodes.Length == 2 && index < 2 && Agrees(allCommands, typedCommands[..])
    }

    /** The static initialisation: zeroed slots, `index` 0 and both culled
        counters 0. `commandTypes` and `bufferTypes` stand for
        `RenderCommand::CommandTypes::COUNT` and
        `RenderBuffersManager::BufferTypes::COUNT`. */
    constructor (commandTypes: nat, bufferTypes: nat)
      ensures Valid() && typedCommands.Length == commandTypes && typedBuffers.Length == bufferTypes
      ensures fresh(typedCommands) && fresh(typedBuffers) && fresh(culledNodes)
      ensures index == 0 && culledNodes[..] == [0, 0]
    {
      typedCommands := new Commands[commandTypes](_ => NoCommands);
      typedBuffers := new Buffers[bufferTypes](_ => NoBuffers);
      culledNodes := new u32[2](_ => 0);
      allCommands := NoCommands;
      index := 0;
      new;
      ZeroAgrees(typedCommands[..]);
    }

    /** The culled-node counter reported for the previous frame, the slot
        `(index + 1) % 2` that `appendMoreStatistics` prints. */
    function PreviousCulledNodes(): (r: u32)
      requires Valid()
      reads this, typedCommands, culledNodes
      ensures r == culledNodes[1 - index]
    {
      culledNodes[(index + 1) % 2]
    }

    /** `reset()`: zeroes every typed command slot, the aggregate and every
        typed buffer slot, then flips `index` and zeroes the culled counter of
        the new frame. The counter of the frame just ended is left alone, and
        it is the one now reported as the previous frame's. */
    method Reset()
      requires Valid()
      modifies this, typedCommands, typedBuffers, culledNodes
      ensures Valid() && index == 1 - old(index)
      ensures forall q :: 0 <= q < typedCommands.Length ==> typedCommands[q] == NoCommands
      ensures forall q :: 0 <= q < typedBuffers.Length ==> typedBuffers[q] == NoBuffers
      ensures allCommands == NoCommands
      ensures culledNodes[index] == 0 && culledNodes[1 - index] == old(culledNodes[index])
      ensures PreviousCulledNodes() == old(culledNodes[index])
    {
      for i := 0 to typedCommands.Length
        modifies typedCommands
        invariant forall q :: 0 <= q < i ==> typedCommands[q] == NoCommands
      {
        typedCommands[i] := NoCommands;
      }
      allCommands := NoCommands;
      for i := 0 to typedBuffers.Length
        modifies typedBuffers
        invariant forall q :: 0 <= q < i ==> typedBuffers[q] == NoBuffers
      {
        typedBuffers[i] := NoBuffers;
      }
      index := (index + 1) % 2;
      culledNodes[index] := 0;
      ZeroAgrees(typedCommands[..]);
    }

    /** `gatherStatistics(command)`: the command's type slot and the
        aggregate each gather it; the type slot counts the vertices of every
        instance, the aggregate those of the geometry. No other slot changes. */
    method GatherCommand(c: CommandInfo)
      requires Valid() && c.typeIndex < typedCommands.Length
      modifies this, typedCommands
      ensures Valid() && index == old(index)
      ensures typedCommands[..] == old(typedCommands[..][c.typeIndex := Gather(typedCommands[c.typeIndex], c, TypedVertices(c))])
      ensures allCommands == Gather(old(allCommands), c, c.numVertices)
    {
      GatherAgrees(allCommands, typedCommands[..], c);
      var typeIndex := c.typeIndex;
      typedCommands[typeIndex] := Gather(typedCommands[typeIndex], c, TypedVertices(c));
      allCommands := Gather(allCommands, c, c.numVertices);
    }

    /** `gatherStatistics(buffer)`: the buffer's type slot gathers it; no
        other slot changes. */
    method GatherBuffers(b: BufferInfo)
      requires Valid() && b.typeIndex < typedBuffers.Length
      modifies typedBuffers
      ensures typedBuffers[..] == old(typedBuffers[..][b.typeIndex := GatherBuffer(typedBuffers[b.typeIndex], b)])
    {
      typedBuffers[b.typeIndex] := GatherBuffer(typedBuffers[b.typeIndex], b);
    }
  }
}
