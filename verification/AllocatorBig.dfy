/** The allocator of large ranges: each allocation is its own range, recorded in 64 KiB
    directory pages that are chained from the newest to the oldest. */
module AllocatorBig {
  import opened Words
  import opened VirtualMemory

  const PAGE_SIZE: nat := 64 * 1024
  const SLOTS: nat := (PAGE_SIZE - 16) / 8
  const NO_REGION := Region(0, 0)

  /** A record of 16 bytes and the slots, of 8 bytes each, fill a directory page. */
  lemma SlotsFillPage()
    ensures 16 + 8 * SLOTS == PAGE_SIZE == 0x1_0000
  {
  }

  class Page {
    const block: Region
    var allocs: seq<Region>
    var free: nat
    var prev: Page?

    constructor (block: Region, prev: Page?)
      ensures this.block == block && free == SLOTS && |allocs| == SLOTS && this.prev == prev
    {
      this.block, allocs, free, this.prev := block, seq(SLOTS, i => NO_REGION), SLOTS, prev;
    }
  }

  /** The recorded allocations of a page. */
  ghost function Recorded(p: Page): seq<Region>
    reads p
  {
    if p.free <= SLOTS == |p.allocs| then p.allocs[..SLOTS - p.free] else []
  }

  /** Number of allocations in the pages behind the first k. */
  function Older(pages: nat, k: nat): nat
    requires k < pages
  {
    (pages - 1 - k) * SLOTS
  }

  /** Page k of the chain is full unless it is the newest, and records its part of the
      allocations in order. */
  ghost predicate PageOk(chain: seq<Page>, regions: seq<Region>, k: nat)
    requires k < |chain|
    reads chain[k]
  {
    var p := chain[k];
    && p.free <= SLOTS == |p.allocs| && (k > 0 ==> p.free == 0)
    && Older(|chain|, k) + SLOTS - p.free <= |regions|
    && (k == 0 ==> Older(|chain|, k) + SLOTS - p.free == |regions|)
    && Recorded(p) == regions[Older(|chain|, k)..Older(|chain|, k) + SLOTS - p.free]
  }

  ghost function Blocks(chain: seq<Page>): set<Region> {
    set i | 0 <= i < |chain| :: chain[i].block
  }

  lemma ElementsAppend(s: seq<Region>, r: Region)
    requires Distinct(s) && r !in Elements(s)
    ensures Distinct(s + [r]) && Elements(s + [r]) == Elements(s) + {r}
  {
    forall i | 0 <= i < |s| ensures s[i] != r {
      assert s[i] in Elements(s);
    }
  }

  lemma DistinctParts(a: seq<Region>, b: seq<Region>, c: seq<Region>)
    requires Distinct(a + b + c)
    ensures Distinct(b) && Elements(b) !! Elements(c)
    ensures Elements(b) <= Elements(a + b + c)
    ensures Elements(b + c) == Elements(b) + Elements(c)
  {
    var s := a + b + c;
    forall i | 0 <= i < |b| ensures b[i] == s[|a| + i] {
    }
    forall i | 0 <= i < |c| ensures c[i] == s[|a| + |b| + i] {
    }
  }

  lemma BlocksNext(chain: seq<Page>, k: nat)
    requires k < |chain|
    requires forall i, j :: 0 <= i < j < |chain| ==> chain[i].block != chain[j].block
    ensures Blocks(chain[..k + 1]) == Blocks(chain[..k]) + {chain[k].block}
    ensures chain[k].block !in Blocks(chain[..k])
  {
    var s, t := chain[..k], chain[..k + 1];
    assert t == s + [chain[k]];
    forall r ensures r in Blocks(t) <==> r in Blocks(s) + {chain[k].block} {
      if r in Blocks(s) {
        var i :| 0 <= i < k && s[i].block == r;
        assert t[i].block == r;
      }
      assert t[k].block == chain[k].block;
    }
  }

  class BigAllocator {
    var state: Page?
    ghost var chain: seq<Page>
    ghost var regions: seq<Region>

    constructor ()
      ensures Valid() && chain == [] && regions == []
    {
      state, chain, regions := null, [], [];
    }

    ghost predicate Linked()
      reads this, chain
    {
      && state == (if chain == [] then null else chain[0])
      && (forall i {:trigger chain[i].prev} :: 0 <= i < |chain| ==>
            chain[i].prev == if i + 1 < |chain| then chain[i + 1] else null)
    }

    ghost predicate Valid()
      reads this, chain
    {
      && Linked() && (chain == [] ==> regions == [])
      && (forall k {:trigger PageOk(chain, regions, k)} :: 0 <= k < |chain| ==> PageOk(chain, regions, k))
      && (forall i, j :: 0 <= i < j < |chain| ==> chain[i] != chain[j] && chain[i].block != chain[j].block)
      && Distinct(regions) && Blocks(chain) !! Elements(regions)
    }

    /** All ranges of this allocator are reserved. */
    ghost predicate Owns(vm: AddressSpace)
      reads this, vm
    {
      Blocks(chain) <= vm.live && Elements(regions) <= vm.live
    }

    /** An empty page goes to the front of the chain, when the newest page is full. */
    method Push(page: Page)
      requires Valid() && (state == null || state.free == 0)
      requires page !in chain && page.prev == state && page.free == SLOTS == |page.allocs|
      requires page.block !in Blocks(chain) && page.block !in Elements(regions)
      modifies this`state, this`chain
      ensures Valid() && chain == [page] + old(chain)
    {
      ghost var was := chain;
      assert was != [] ==> PageOk(was, regions, 0);
      state, chain := page, [page] + chain;
      forall k | 0 <= k < |chain| ensures PageOk(chain, regions, k) {
        if k > 0 {
          assert chain[k] == was[k - 1] && old(PageOk(was, regions, k - 1));
        }
      }
    }

    /** A new directory page. */
    method NewPage(vm: AddressSpace)
      requires Valid() && vm.Valid() && Owns(vm) && (state == null || state.free == 0)
      modifies this`state, this`chain, vm
      ensures Valid() && vm.Valid() && Owns(vm)
      ensures |chain| == old(|chain|) + 1 && chain[1..] == old(chain) && fresh(chain[0]) && chain[0].free == SLOTS
      ensures chain[0].block !in old(vm.live) && vm.live == old(vm.live) + {chain[0].block}
    {
      var r := vm.Reserve(PAGE_SIZE);
      var page := new Page(r, state);
      Push(page);
    }

    method WriteSlot(page: Page, r: Region)
      requires 0 < page.free <= SLOTS == |page.allocs|
      modifies page`allocs, page`free
      ensures page.free == old(page.free) - 1 && |page.allocs| == SLOTS
      ensures Recorded(page) == old(Recorded(page)) + [r]
    {
      page.allocs := page.allocs[SLOTS - page.free := r];
      page.free := page.free - 1;
    }

    /** A range is written to the first free slot of the newest page. */
    method Record(r: Region)
      requires Valid() && state != null && state.free > 0
      requires r !in Elements(regions) && r !in Blocks(chain)
      modifies this`regions, state`allocs, state`free
      ensures Valid() && chain == old(chain) && regions == old(regions) + [r]
    {
      assert PageOk(chain, regions, 0);
      ElementsAppend(regions, r);
      WriteSlot(state, r);
      regions := regions + [r];
      assert PageOk(chain, regions, 0);
      forall k | 1 <= k < |chain| ensures PageOk(chain, regions, k) {
        assert old(PageOk(chain, regions, k));
      }
    }

    /** allocate_bytes. */
    method AllocateBytes(vm: AddressSpace, size: nat, align: nat) returns (addr: nat)
      requires Valid() && vm.Valid() && Owns(vm) && size >= SMALL_LIMIT
      modifies this, chain, vm
      ensures Valid() && vm.Valid() && Owns(vm)
      ensures regions == old(regions) + [Region(addr, size)] && Region(addr, size) !in old(vm.live)
      ensures addr % GRANULARITY == 0
      ensures forall q :: q in old(vm.live) ==> Apart(q, Region(addr, size))
      ensures if old(state == null || state.free == 0)
              then |chain| == old(|chain|) + 1 && chain[1..] == old(chain) && fresh(chain[0])
                   && chain[0].block !in old(vm.live)
                   && vm.live == old(vm.live) + {chain[0].block, Region(addr, size)}
              else chain == old(chain) && vm.live == old(vm.live) + {Region(addr, size)}
    {
      if state == null || state.free == 0 {
        NewPage(vm);
      }
      var r := vm.Reserve(size);
      assert r !in Blocks(chain) && r !in Elements(regions);
      Record(r);
      addr := r.addr;
    }

    /** The ranges recorded from page k on. */
    ghost function From(k: nat): seq<Region>
      requires Valid() && k <= |chain|
      reads this, chain
    {
      if k > 0 && Older(|chain|, k - 1) <= |regions| then regions[..Older(|chain|, k - 1)] else regions
    }

    /** The loop body of the destructor: every recorded range of the page, then the page. */
    method FreePage(vm: AddressSpace, page: Page)
      requires vm.Valid() && page.free <= SLOTS == |page.allocs|
      requires Distinct(Recorded(page)) && Elements(Recorded(page)) <= vm.live
      requires page.block in vm.live && page.block !in Elements(Recorded(page))
      modifies vm
      ensures vm.Valid() && vm.live == old(vm.live) - Elements(Recorded(page)) - {page.block}
    {
      var usedAllocs := SLOTS - page.free;
      ghost var s := Recorded(page);
      var i := 0;
      while i != usedAllocs
        invariant i <= usedAllocs && vm.Valid() && vm.live == old(vm.live) - Elements(s[..i])
        decreases usedAllocs - i
      {
        assert s[i] == page.allocs[i] && s[i] in Elements(s);
        assert Elements(s[..i + 1]) == Elements(s[..i]) + {s[i]};
        assert s[i] !in s[..i];
        vm.Release(page.allocs[i]);
        i := i + 1;
      }
      assert s[..i] == s;
      vm.Release(page.block);
    }

    /** What page k records follows what is recorded behind it. */
    lemma FromStep(k: nat)
      requires Valid() && k < |chain|
      ensures From(k) == From(k + 1) + Recorded(chain[k])
    {
      assert PageOk(chain, regions, k);
      assert k + 1 < |chain| ==> PageOk(chain, regions, k + 1);
    }

    lemma PageRangesAreReserved(k: nat, released: seq<Region>)
      requires Valid() && k < |chain| && regions == From(k) + released
      ensures var s := Recorded(chain[k]);
              && regions == From(k + 1) + (s + released) && Distinct(s)
              && Elements(s) <= Elements(regions) && Elements(s) !! Elements(released)
              && Elements(s + released) == Elements(s) + Elements(released)
      ensures Elements(released) <= Elements(regions)
    {
      FromStep(k);
      DistinctParts(From(k + 1), Recorded(chain[k]), released);
    }

    lemma PageBlockIsReserved(k: nat)
      requires Valid() && k < |chain|
      ensures chain[k].free <= SLOTS == |chain[k].allocs|
      ensures chain[k].block in Blocks(chain) - Blocks(chain[..k]) && chain[k].block !in Elements(regions)
      ensures Blocks(chain[..k]) <= Blocks(chain) && Blocks(chain) !! Elements(regions)
      ensures Blocks(chain[..k + 1]) == Blocks(chain[..k]) + {chain[k].block}
    {
      BlocksNext(chain, k);
      assert PageOk(chain, regions, k) && chain[k].block in Blocks(chain);
    }

    /** What is still reserved when the destructor comes to page k. */
    lemma PageIsReserved(k: nat, released: seq<Region>)
      requires Valid() && k < |chain| && regions == From(k) + released
      ensures var s := Recorded(chain[k]);
              && chain[k].free <= SLOTS == |chain[k].allocs| && regions == From(k + 1) + (s + released)
              && Distinct(s) && Elements(s) <= Elements(regions) - Elements(released) - Blocks(chain[..k])
              && Elements(s + released) == Elements(s) + Elements(released)
      ensures chain[k].block in Blocks(chain) - Blocks(chain[..k]) && chain[k].block !in Elements(regions)
      ensures Elements(released) <= Elements(regions)
      ensures Blocks(chain[..k + 1]) == Blocks(chain[..k]) + {chain[k].block}
    {
      PageRangesAreReserved(k, released);
      PageBlockIsReserved(k);
    }

    /** What the destructor has released when it comes to page k, out of what was reserved. */
    ghost predicate Releasing(vm: AddressSpace, k: nat, released: seq<Region>, base: set<Region>)
      requires Valid() && k <= |chain|
      reads this, chain, vm
    {
      && vm.Valid() && regions == From(k) + released
      && Elements(regions) <= base && Blocks(chain) <= base
      && vm.live == base - Elements(released) - Blocks(chain[..k])
    }

    method ReleasePage(vm: AddressSpace, page: Page, ghost k: nat, ghost released: seq<Region>, ghost base: set<Region>)
      returns (ghost more: seq<Region>)
      requires Valid() && k < |chain| && page == chain[k] && Releasing(vm, k, released, base)
      modifies vm
      ensures Releasing(vm, k + 1, more, base)
    {
      PageIsReserved(k, released);
      FreePage(vm, page);
      more := Recorded(page) + released;
    }

    /** The destructor releases every recorded range and every page, each of them once. */
    method Destroy(vm: AddressSpace)
      requires Valid() && vm.Valid() && Owns(vm)
      modifies vm
      ensures vm.Valid() && vm.live == old(vm.live) - Elements(regions) - Blocks(chain)
    {
      var self := state;
      ghost var k := 0;
      ghost var released: seq<Region> := [];
      assert chain[..0] == [] && From(0) + released == regions;
      while self != null
        invariant k <= |chain| && self == (if k < |chain| then chain[k] else null)
        invariant Releasing(vm, k, released, old(vm.live))
        decreases |chain| - k
      {
        released := ReleasePage(vm, self, k, released, old(vm.live));
        self, k := self.prev, k + 1;
      }
      assert chain[..k] == chain && From(k) == [];
    }
  }
}
