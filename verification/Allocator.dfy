/** The allocator of one set of results: small requests are bumped out of chunks, large
    ones get a range of their own. */
module Allocator {
  import opened Words
  import opened VirtualMemory
  import S = AllocatorSmall
  import B = AllocatorBig

  predicate GoodAlign(align: nat) {
    align in {1, 2, 4, 8, 16}
  }

  lemma GranulesAreAligned(addr: nat, align: nat)
    requires addr % GRANULARITY == 0 && GoodAlign(align)
    ensures S.Aligned(addr, align)
  {
  }

  class MemoryAllocator {
    const vm: AddressSpace
    const small: S.SmallAllocator
    const big: B.BigAllocator

    constructor (vm: AddressSpace)
      requires vm.Valid()
      ensures this.vm == vm && fresh(small) && fresh(big) && Valid() && Handed() == {}
      ensures small.chain == [] && big.chain == []
    {
      this.vm := vm;
      small := new S.SmallAllocator();
      big := new B.BigAllocator();
    }

    ghost predicate Separate()
      reads small, big
    {
      S.Blocks(small.chain) !! Elements(big.regions) && S.Blocks(small.chain) !! B.Blocks(big.chain)
    }

    ghost predicate Valid()
      reads vm, small, small.chain, big, big.chain
    {
      vm.Valid() && small.Valid() && small.Owns(vm) && big.Valid() && big.Owns(vm) && Separate()
    }

    /** Every range handed out. */
    ghost function Handed(): set<Region>
      reads small, big
    {
      small.Handed() + Elements(big.regions)
    }

    lemma SmallApartFromBig(r: Region, q: Region)
      requires Valid() && r in small.Handed() && q in Elements(big.regions)
      ensures Apart(q, r) && Apart(r, q)
    {
      var c := small.HandedLiesInChunk(vm, r);
      assert Apart(c.block, q);
      PartsApart(c.block, q, r, q);
    }

    lemma SmallApartFromAllBig(r: Region)
      requires Valid() && r in small.Handed()
      ensures forall q :: q in Elements(big.regions) ==> Apart(q, r)
    {
      forall q | q in Elements(big.regions) ensures Apart(q, r) {
        SmallApartFromBig(r, q);
      }
    }

    lemma BigApartFromAllSmall(r: Region)
      requires Valid() && r in Elements(big.regions)
      ensures forall q :: q in small.Handed() ==> Apart(q, r)
    {
      forall q | q in small.Handed() ensures Apart(q, r) {
        SmallApartFromBig(q, r);
      }
    }

    /** Different ranges handed out are apart. */
    lemma HandedApart(r: Region, q: Region)
      requires Valid() && r in Handed() && q in Handed() && r != q
      ensures Apart(r, q)
    {
      if r in small.Handed() && q in small.Handed() {
        var i :| 0 <= i < |small.allocations| && small.allocations[i].region == r;
        var j :| 0 <= j < |small.allocations| && small.allocations[j].region == q;
      } else if r in small.Handed() {
        SmallApartFromBig(r, q);
      } else if q in small.Handed() {
        SmallApartFromBig(q, r);
      }
    }

    /** The request reaches the small allocator; the large one is left alone. */
    method TakeSmall(size: nat, align: nat) returns (addr: nat)
      requires Valid() && GoodAlign(align) && size < SMALL_LIMIT
      modifies vm, small, small.chain
      ensures Valid() && S.Aligned(addr, align)
      ensures |small.allocations| == old(|small.allocations|) + 1
      ensures small.allocations[..old(|small.allocations|)] == old(small.allocations)
      ensures small.allocations[old(|small.allocations|)].region == Region(addr, size)
      ensures forall i :: 0 <= i < |small.chain| ==> small.chain[i] in old(small.chain) || fresh(small.chain[i])
    {
      ghost var pad;
      addr, pad := small.AllocateBytes(vm, size, align);
    }

    method AllocateSmall(size: nat, align: nat) returns (addr: nat)
      requires Valid() && GoodAlign(align) && size < SMALL_LIMIT
      modifies vm, small, small.chain
      ensures Valid() && S.Aligned(addr, align)
      ensures Handed() == old(Handed()) + {Region(addr, size)}
      ensures forall q :: q in old(Handed()) ==> Apart(q, Region(addr, size))
      ensures forall i :: 0 <= i < |small.chain| ==> small.chain[i] in old(small.chain) || fresh(small.chain[i])
    {
      ghost var was := small.allocations;
      addr := TakeSmall(size, align);
      S.OneMore(was, small.allocations);
      SmallApartFromAllBig(Region(addr, size));
    }

    method AllocateBig(size: nat, align: nat) returns (addr: nat)
      requires Valid() && GoodAlign(align) && size >= SMALL_LIMIT
      modifies vm, big, big.chain
      ensures Valid() && S.Aligned(addr, align)
      ensures Handed() == old(Handed()) + {Region(addr, size)}
      ensures forall q :: q in old(Handed()) ==> Apart(q, Region(addr, size))
      ensures forall i :: 0 <= i < |big.chain| ==> big.chain[i] in old(big.chain) || fresh(big.chain[i])
    {
      addr := big.AllocateBytes(vm, size, align);
      GranulesAreAligned(addr, align);
      BigApartFromAllSmall(Region(addr, size));
    }

    /** allocate_bytes: the new range is aligned and apart from everything handed out
        before. */
    method AllocateBytes(size: nat, align: nat) returns (addr: nat)
      requires Valid() && GoodAlign(align)
      modifies vm, small, small.chain, big, big.chain
      ensures Valid() && S.Aligned(addr, align)
      ensures Handed() == old(Handed()) + {Region(addr, size)}
      ensures forall q :: q in old(Handed()) ==> Apart(q, Region(addr, size))
      ensures forall i :: 0 <= i < |small.chain| ==> small.chain[i] in old(small.chain) || fresh(small.chain[i])
      ensures forall i :: 0 <= i < |big.chain| ==> big.chain[i] in old(big.chain) || fresh(big.chain[i])
      ensures if size < 0x1_0000 then big.regions == old(big.regions) else small.allocations == old(small.allocations)
    {
      if size < SMALL_LIMIT {
        addr := AllocateSmall(size, align);
      } else {
        addr := AllocateBig(size, align);
      }
    }

    /** The destructors of the two members: everything they reserved is released. */
    method Destroy()
      requires Valid()
      modifies vm
      ensures vm.Valid()
      ensures vm.live == old(vm.live) - Elements(big.regions) - B.Blocks(big.chain) - S.Blocks(small.chain)
    {
      big.Destroy(vm);
      assert small.Owns(vm) by {
        forall i | 0 <= i < |small.chain| ensures small.chain[i].block in vm.live {
          assert small.chain[i].block in S.Blocks(small.chain);
        }
      }
      small.Destroy(vm);
    }
  }
}
