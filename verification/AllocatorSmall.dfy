/** The bump allocator: chunks of 2 MiB, each with a header that counts what remains,
    chained from the newest to the oldest. */
module AllocatorSmall {
  import opened VirtualMemory

  const CHUNK_SIZE: nat := 2 * 1024 * 1024
  const HEADER_SIZE: nat := 16
  const USABLE: nat := CHUNK_SIZE - HEADER_SIZE
  const MAX_ALIGN: nat := 16

  class Chunk {
    const block: Region
    var remaining: nat
    var prev: Chunk?

    constructor (block: Region)
      requires block.size == CHUNK_SIZE
      ensures this.block == block && remaining == USABLE && prev == null
    {
      this.block, remaining, prev := block, USABLE, null;
    }
  }

  /** An allocation: where it is, the padding in front of it and its chunk. */
  datatype Allocation = Allocation(region: Region, pad: nat, home: Chunk)

  /** Sizes and paddings of the allocations in chunk c. */
  ghost function Consumed(s: seq<Allocation>, c: Chunk): nat {
    if s == [] then 0
    else
      var a := s[|s| - 1];
      Consumed(s[..|s| - 1], c) + (if a.home == c then a.region.size + a.pad else 0)
  }

  lemma ConsumedAppend(s: seq<Allocation>, a: Allocation, c: Chunk)
    ensures Consumed(s + [a], c) == Consumed(s, c) + (if a.home == c then a.region.size + a.pad else 0)
  {
    assert (s + [a])[..|s|] == s;
  }

  lemma {:induction false} NothingConsumed(s: seq<Allocation>, c: Chunk)
    requires forall i :: 0 <= i < |s| ==> s[i].home != c
    ensures Consumed(s, c) == 0
  {
    if s == [] {
    } else {
      NothingConsumed(s[..|s| - 1], c);
    }
  }

  /** The consumed part of a chunk. */
  ghost function Used(c: Chunk): Region
    reads c
  {
    if c.remaining <= USABLE then Region(c.block.addr + HEADER_SIZE, USABLE - c.remaining) else c.block
  }

  ghost predicate ChunkOk(c: Chunk, s: seq<Allocation>)
    reads c
  {
    c.block.size == CHUNK_SIZE && c.remaining <= USABLE && USABLE - c.remaining == Consumed(s, c)
  }

  ghost predicate ChunksOk(chain: seq<Chunk>, s: seq<Allocation>)
    reads chain
  {
    forall i {:trigger chain[i]} :: 0 <= i < |chain| ==> ChunkOk(chain[i], s)
  }

  ghost predicate ChunksApart(chain: seq<Chunk>) {
    forall i, j :: 0 <= i < j < |chain| ==> chain[i] != chain[j] && Apart(chain[i].block, chain[j].block)
  }

  ghost predicate Placed(a: Allocation)
    reads a.home
  {
    Inside(a.region, Used(a.home))
  }

  ghost predicate AllPlaced(chain: seq<Chunk>, s: seq<Allocation>)
    reads chain
  {
    forall k {:trigger s[k]} :: 0 <= k < |s| ==> s[k].home in chain && Placed(s[k])
  }

  ghost predicate RegionsApart(s: seq<Allocation>) {
    forall k, l :: 0 <= k < l < |s| ==> Apart(s[k].region, s[l].region)
  }

  ghost predicate BehindAll(s: seq<Allocation>, r: Region) {
    forall k :: 0 <= k < |s| ==> Apart(s[k].region, r)
  }

  lemma AppendKeepsApart(s: seq<Allocation>, a: Allocation)
    requires RegionsApart(s) && BehindAll(s, a.region)
    ensures RegionsApart(s + [a])
  {
  }

  predicate Aligned(addr: nat, align: nat)
    requires align > 0
  {
    addr % align == 0
  }

  lemma MultiplesAreFar(k: int, align: int)
    requires align > 0
    ensures k >= 1 ==> k * align >= align
    ensures k <= -1 ==> k * align <= -align
  {
  }

  lemma MultipleOf(n: int, q: int, align: nat)
    requires align > 0 && n == q * align
    ensures n % align == 0
  {
    var d, m := n / align, n % align;
    assert n == d * align + m;
    assert (q - d) * align == m;
    MultiplesAreFar(q - d, align);
  }

  /** The next aligned address is less than align away. */
  lemma NextAligned(begin: nat, align: nat) returns (j: nat)
    requires align > 0
    ensures j < align && Aligned(begin + j, align)
  {
    var q, r := begin / align, begin % align;
    j := if r == 0 then 0 else align - r;
    if r != 0 {
      assert begin + j == q * align + align == (q + 1) * align;
      MultipleOf(begin + j, q + 1, align);
    }
  }

  /** The padding loop: the least padding that aligns. */
  method Padding(begin: nat, align: nat) returns (i: nat)
    requires align > 0
    ensures i < align && Aligned(begin + i, align)
    ensures forall a :: begin <= a < begin + i ==> !Aligned(a, align)
  {
    ghost var j := NextAligned(begin, align);
    i := 0;
    while !Aligned(begin + i, align)
      invariant i <= j && forall a :: begin <= a < begin + i ==> !Aligned(a, align)
      decreases j - i
    {
      i := i + 1;
    }
  }

  class SmallAllocator {
    var state: Chunk?
    ghost var chain: seq<Chunk>
    ghost var allocations: seq<Allocation>

    constructor ()
      ensures Valid() && chain == [] && allocations == []
    {
      state, chain, allocations := null, [], [];
    }

    ghost predicate Linked()
      reads this, chain
    {
      && state == (if chain == [] then null else chain[0])
      && (forall i {:trigger chain[i].prev} :: 0 <= i < |chain| ==>
            chain[i].prev == if i + 1 < |chain| then chain[i + 1] else null)
    }

    ghost predicate Valid()
      reads this, chain
    {
      && Linked()
      && ChunksApart(chain) && ChunksOk(chain, allocations)
      && AllPlaced(chain, allocations) && RegionsApart(allocations)
    }

    ghost predicate Owns(vm: AddressSpace)
      reads this, vm
    {
      forall i :: 0 <= i < |chain| ==> chain[i].block in vm.live
    }

    /** find_block: the newest chunk with enough room. */
    method FindBlock(size: nat, align: nat) returns (block: Chunk?)
      requires Valid() && align > 0
      ensures block == null ==> forall i :: 0 <= i < |chain| ==> chain[i].remaining < size + align - 1
      ensures block != null ==>
                exists k :: 0 <= k < |chain| && chain[k] == block && block.remaining >= size + align - 1
                            && forall i :: 0 <= i < k ==> chain[i].remaining < size + align - 1
    {
      var needed := size + align - 1;
      block := state;
      ghost var k := 0;
      while block != null
        invariant k <= |chain| && block == (if k < |chain| then chain[k] else null)
        invariant forall i :: 0 <= i < k ==> chain[i].remaining < needed
        decreases |chain| - k
      {
        if block.remaining >= needed {
          return;
        }
        block, k := block.prev, k + 1;
      }
    }

    /** A range behind the consumed part of a chunk is apart from every allocation. */
    lemma BehindIsApart(block: Chunk, r: Region)
      requires Valid() && block in chain && Inside(r, block.block)
      requires Used(block).addr + Used(block).size <= r.addr
      ensures BehindAll(allocations, r)
    {
      forall k | 0 <= k < |allocations| ensures Apart(allocations[k].region, r) {
        var a := allocations[k];
        if a.home != block {
          var i, j :| 0 <= i < |chain| && 0 <= j < |chain| && chain[i] == a.home && chain[j] == block;
          assert ChunkOk(chain[i], allocations);
          PartsApart(chain[i].block, chain[j].block, a.region, r);
        }
      }
    }

    /** The room of an allocation is taken from its chunk. */
    method Take(block: Chunk, taken: nat, ghost a: Allocation)
      requires Valid() && block in chain && a.home == block && taken == a.region.size + a.pad <= block.remaining
      requires a.region.addr == Used(block).addr + Used(block).size + a.pad
      requires BehindAll(allocations, a.region)
      modifies this`allocations, block`remaining
      ensures Valid() && allocations == old(allocations) + [a] && block.remaining == old(block.remaining) - taken
    {
      AppendKeepsApart(allocations, a);
      ghost var was := allocations;
      block.remaining, allocations := block.remaining - taken, allocations + [a];
      forall k {:trigger chain[k]} | 0 <= k < |chain| ensures ChunkOk(chain[k], allocations) {
        assert old(ChunkOk(chain[k], allocations));
        ConsumedAppend(was, a, chain[k]);
      }
      forall k | 0 <= k < |was| ensures was[k].home in chain && Placed(was[k]) {
        assert old(Placed(was[k]));
      }
    }

    lemma ChainedIsOk(block: Chunk)
      requires Valid() && block in chain
      ensures ChunkOk(block, allocations)
    {
      var i :| 0 <= i < |chain| && chain[i] == block;
    }

    /** allocate_from_block: the lowest aligned address behind the consumed part. */
    method AllocateFromBlock(block: Chunk, size: nat, align: nat) returns (addr: nat, ghost pad: nat)
      requires Valid() && block in chain && align > 0 && block.remaining >= size + align - 1
      modifies this`allocations, block`remaining
      ensures Valid() && Aligned(addr, align)
      ensures pad < align && addr == old(Used(block).addr + Used(block).size) + pad
      ensures allocations == old(allocations) + [Allocation(Region(addr, size), pad, block)]
      ensures block.remaining == old(block.remaining) - size - pad
    {
      ChainedIsOk(block);
      var alreadyConsumed := USABLE - block.remaining;
      var begin := block.block.addr + HEADER_SIZE + alreadyConsumed;
      var i := Padding(begin, align);
      addr, pad := begin + i, i;
      ghost var a := Allocation(Region(addr, size), pad, block);
      BehindIsApart(block, a.region);
      Take(block, size + i, a);
    }

    /** allocate_block. */
    method AllocateBlock(vm: AddressSpace) returns (block: Chunk)
      requires vm.Valid()
      modifies vm
      ensures vm.Valid() && fresh(block) && block.remaining == USABLE && block.prev == null
      ensures block.block.size == CHUNK_SIZE && block.block !in old(vm.live) && vm.live == old(vm.live) + {block.block}
      ensures forall q :: q in old(vm.live) ==> Apart(q, block.block)
    {
      var r := vm.Reserve(CHUNK_SIZE);
      block := new Chunk(r);
    }

    /** A new chunk goes to the front of the chain. */
    method Push(block: Chunk)
      requires Valid() && block !in chain && block.remaining == USABLE && block.block.size == CHUNK_SIZE
      requires forall i :: 0 <= i < |chain| ==> Apart(chain[i].block, block.block)
      modifies this`state, this`chain, block`prev
      ensures Valid() && chain == [block] + old(chain) && allocations == old(allocations)
    {
      forall k | 0 <= k < |allocations| ensures allocations[k].home != block {
        assert allocations[k].home in chain;
      }
      NothingConsumed(allocations, block);
      block.prev := state;
      state, chain := block, [block] + chain;
      forall k | 0 <= k < |allocations| ensures allocations[k].home in chain && Placed(allocations[k]) {
        assert old(Placed(allocations[k]) && allocations[k].home in chain);
      }
      forall k {:trigger chain[k]} | 0 <= k < |chain| ensures ChunkOk(chain[k], allocations) {
        assert k > 0 ==> chain[k] == old(chain)[k - 1] && old(ChunkOk(chain[k - 1], allocations));
      }
    }

    /** The ranges handed out. */
    ghost function Handed(): set<Region>
      reads this
    {
      Regions(allocations)
    }

    /** Every handed-out range lies in a chunk that is reserved. */
    lemma HandedLiesInChunk(vm: AddressSpace, r: Region) returns (c: Chunk)
      requires Valid() && Owns(vm) && r in Handed()
      ensures c in chain && Inside(r, c.block) && c.block in vm.live && c.block in Blocks(chain)
    {
      var k :| 0 <= k < |allocations| && allocations[k].region == r;
      c := allocations[k].home;
      assert Placed(allocations[k]);
      ChainedIsOk(c);
    }

    /** A handed-out range lies in a 2 MiB chunk behind the 16 bytes of its header. */
    lemma HandedOffHeader(k: nat)
      requires Valid() && k < |allocations|
      ensures var a := allocations[k];
              && a.home in chain && a.home.block.size == 0x20_0000
              && a.home.block.addr + 16 <= a.region.addr
              && a.region.addr + a.region.size <= a.home.block.addr + 0x20_0000
    {
      assert Placed(allocations[k]);
      ChainedIsOk(allocations[k].home);
    }

    ghost predicate HasRoom(needed: nat)
      reads this, chain
    {
      exists i {:trigger chain[i]} :: 0 <= i < |chain| && chain[i].remaining >= needed
    }

    /** The chunk for a request: the newest with room, or a new one when none has. */
    method ChunkFor(vm: AddressSpace, size: nat, align: nat) returns (block: Chunk)
      requires Valid() && vm.Valid() && Owns(vm)
      requires size < SMALL_LIMIT && 0 < align <= MAX_ALIGN
      modifies this, chain, vm
      ensures Valid() && vm.Valid() && Owns(vm) && allocations == old(allocations)
      ensures block in chain && block.remaining >= size + align - 1
      ensures old(HasRoom(size + align - 1)) ==> chain == old(chain) && vm.live == old(vm.live)
      ensures !old(HasRoom(size + align - 1)) ==>
                && |chain| == old(|chain|) + 1 && chain[1..] == old(chain)
                && fresh(chain[0])
                && chain[0].block !in old(vm.live) && vm.live == old(vm.live) + {chain[0].block}
    {
      var found := FindBlock(size, align);
      if found == null {
        block := AllocateBlock(vm);
        Push(block);
      } else {
        block := found;
      }
    }

    /** allocate_bytes. */
    method AllocateBytes(vm: AddressSpace, size: nat, align: nat) returns (addr: nat, ghost pad: nat)
      requires Valid() && vm.Valid() && Owns(vm)
      requires size < SMALL_LIMIT && 0 < align <= MAX_ALIGN
      modifies this, chain, vm
      ensures Valid() && vm.Valid() && Owns(vm)
      ensures Aligned(addr, align) && pad < align
      ensures |allocations| == old(|allocations|) + 1 && allocations[..old(|allocations|)] == old(allocations)
      ensures var a := allocations[old(|allocations|)];
              a.region == Region(addr, size) && a.pad == pad && a.home in chain
      ensures old(HasRoom(size + align - 1)) ==> chain == old(chain) && vm.live == old(vm.live)
      ensures !old(HasRoom(size + align - 1)) ==>
                && |chain| == old(|chain|) + 1 && chain[1..] == old(chain)
                && fresh(chain[0])
                && chain[0].block !in old(vm.live) && vm.live == old(vm.live) + {chain[0].block}
    {
      var block := ChunkFor(vm, size, align);
      addr, pad := AllocateFromBlock(block, size, align);
    }

    /** The destructor: walks the chain and releases every chunk, each of them once. */
    method Destroy(vm: AddressSpace)
      requires Valid() && vm.Valid() && Owns(vm)
      modifies vm
      ensures vm.Valid() && vm.live == old(vm.live) - Blocks(chain)
    {
      var self := state;
      ghost var k := 0;
      while self != null
        invariant k <= |chain| && self == (if k < |chain| then chain[k] else null)
        invariant vm.Valid() && vm.live == old(vm.live) - Blocks(chain[..k])
        decreases |chain| - k
      {
        assert chain[..k + 1] == chain[..k] + [chain[k]];
        BlocksAppend(chain[..k], chain[k]);
        assert self.block !in Blocks(chain[..k]);
        vm.Release(self.block);
        self, k := self.prev, k + 1;
      }
      assert chain[..k] == chain;
    }
  }

  ghost function Regions(s: seq<Allocation>): set<Region> {
    set k | 0 <= k < |s| :: s[k].region
  }

  lemma OneMore(s: seq<Allocation>, t: seq<Allocation>)
    requires |t| == |s| + 1 && t[..|s|] == s && RegionsApart(t)
    ensures Regions(t) == Regions(s) + {t[|s|].region}
    ensures forall q :: q in Regions(s) ==> Apart(q, t[|s|].region)
  {
    forall k | 0 <= k < |s| ensures s[k] == t[k] {
      assert t[..|s|][k] == t[k];
    }
    forall r ensures r in Regions(t) <==> r in Regions(s) + {t[|s|].region} {
      if r in Regions(s) {
        var k :| 0 <= k < |s| && s[k].region == r;
        assert t[k].region == r;
      }
      if r in Regions(t) {
        var k :| 0 <= k < |t| && t[k].region == r;
        assert k < |s| ==> s[k].region == r;
      }
    }
  }

  ghost function Blocks(chain: seq<Chunk>): set<Region> {
    set i | 0 <= i < |chain| :: chain[i].block
  }

  lemma BlocksAppend(chain: seq<Chunk>, c: Chunk)
    ensures Blocks(chain + [c]) == Blocks(chain) + {c.block}
  {
    forall r ensures r in Blocks(chain + [c]) <==> r in Blocks(chain) + {c.block} {
      if r in Blocks(chain) {
        var i :| 0 <= i < |chain| && chain[i].block == r;
        assert (chain + [c])[i].block == r;
      }
      assert (chain + [c])[|chain|].block == c.block;
    }
  }
}
