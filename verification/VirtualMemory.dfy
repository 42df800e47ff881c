/** Address ranges, and the operating system's supply of them. */
module VirtualMemory {

  datatype Region = Region(addr: nat, size: nat)

  predicate Apart(a: Region, b: Region) {
    a.addr + a.size <= b.addr || b.addr + b.size <= a.addr
  }

  predicate Inside(a: Region, b: Region) {
    b.addr <= a.addr && a.addr + a.size <= b.addr + b.size
  }

  /** Parts of two ranges that are apart are apart. */
  lemma PartsApart(a: Region, b: Region, x: Region, y: Region)
    requires Apart(a, b) && Inside(x, a) && Inside(y, b)
    ensures Apart(x, y)
  {
  }

  const GRANULARITY: nat := 0x10000

  /** Requests below this size are small. */
  const SMALL_LIMIT: nat := 64 * 1024

  function RoundUp(n: nat): (r: nat)
    ensures r >= n && r % GRANULARITY == 0
  {
    (n + GRANULARITY - 1) / GRANULARITY * GRANULARITY
  }

  /** VirtualAlloc and VirtualFree: reserved ranges are apart from each other, and only a
      reserved range can be released. */
  class AddressSpace {
    var live: set<Region>
    var top: nat

    ghost predicate Valid()
      reads this
    {
      && top > 0 && top % GRANULARITY == 0
      && (forall r :: r in live ==> r.addr > 0 && r.size > 0 && r.addr + r.size <= top)
      && (forall r, q :: r in live && q in live && r != q ==> Apart(r, q))
    }

    constructor ()
      ensures Valid() && live == {}
    {
      live, top := {}, GRANULARITY;
    }

    method Reserve(size: nat) returns (r: Region)
      requires Valid() && size > 0
      modifies this
      ensures Valid() && r.size == size && r.addr > 0 && r.addr % GRANULARITY == 0
      ensures r !in old(live) && live == old(live) + {r}
      ensures forall q :: q in old(live) ==> Apart(q, r)
    {
      r := Region(top, size);
      live, top := live + {r}, RoundUp(top + size);
    }

    method Release(r: Region)
      requires Valid() && r in live
      modifies this
      ensures Valid() && live == old(live) - {r}
    {
      live := live - {r};
    }
  }
}
