/** The source addresses of one core: those whose connections come back to it. */
module AddressPool {
  import opened Containers
  import Rss

  const MIN_PORT := 1025
  const MAX_PORT := 65536

  // The core, and the far end whose connections the pool is for. Addresses and ports in host order.
  datatype Config = Config(core: int, numQueues: int, redirects: bool, base: bv32, numAddr: nat,
                           daddr: bv32, dport: bv16)

  // An address of the pool: the i-th from the base on, with a port.
  datatype Entry = Entry(i: int, port: int)

  function Address(c: Config, e: Entry): bv32
    requires 0 <= e.i < 0x1_0000_0000
  {
    c.base + e.i as bv32
  }

  predicate InSpace(c: Config, e: Entry) { 0 <= e.i < c.numAddr && MIN_PORT <= e.port < MAX_PORT }

  // Packets from the far end to this address come to the core.
  predicate OnCore(c: Config, e: Entry)
    requires InSpace(c, e) && c.numAddr < 0x1_0000_0000 && 0 < c.numQueues
  {
    Rss.CpuCore(c.daddr, Address(c, e), c.dport, e.port as bv16, c.redirects, c.numQueues) == c.core
  }

  // And so do those on their way out.
  lemma BothWays(c: Config, e: Entry)
    requires InSpace(c, e) && c.numAddr < 0x1_0000_0000 && 0 < c.numQueues && OnCore(c, e)
    ensures Rss.CpuCore(Address(c, e), c.daddr, e.port as bv16, c.dport, c.redirects, c.numQueues) == c.core
  {
    hide Rss.CpuCore, Address;
    Rss.SameCoreBothWays(c.daddr, Address(c, e), c.dport, e.port as bv16, c.redirects, c.numQueues);
  }

  class Pool {
    const c: Config
    const mapper: set<Entry>          // where addrmap points to an entry
    var freeList: seq<Entry>
    var usedList: seq<Entry>
    var numFree: int
    var numUsed: int
    const numEntry: int

    // Every entry is free or used, not both, and is on the core.
    ghost predicate Valid()
      reads this
    {
      && 0 < c.numQueues && c.numAddr < 0x1_0000_0000
      && NoDup(freeList) && NoDup(usedList)
      && numFree == |freeList| && numUsed == |usedList| && numFree + numUsed == numEntry
      && (forall e :: e in mapper <==> e in freeList || e in usedList)
      && (forall e :: e in freeList ==> e !in usedList)
      && (forall e :: e in mapper ==> InSpace(c, e) && OnCore(c, e))
    }

    // CreateAddressPoolPerCore: the first so many addresses on the core, by address and port.
    constructor (c: Config)
      requires 0 < c.numQueues && c.numAddr < 0x1_0000_0000
      ensures Valid() && usedList == [] && this.c == c
      ensures forall e :: e in freeList <==> e in mapper
      ensures numFree <= c.numAddr * (MAX_PORT - MIN_PORT) / c.numQueues
      ensures numFree < c.numAddr * (MAX_PORT - MIN_PORT) / c.numQueues ==>
                forall e :: InSpace(c, e) && OnCore(c, e) ==> e in mapper
    {
      var limit := c.numAddr * (MAX_PORT - MIN_PORT) / c.numQueues;
      var free := Search(c, limit);
      this.c := c;
      mapper := set e | e in free;
      freeList, usedList, numFree, numUsed, numEntry := free, [], |free|, 0, |free|;
    }

    // FetchAddressPerCore: an address nobody has, whose connections with the far end come to this core and leave
    // from it.
    method FetchAddressPerCore() returns (ret: int, saddr: Entry)
      requires Valid()
      modifies this`freeList, this`usedList, this`numFree, this`numUsed
      ensures Valid() && ret == if old(freeList) == [] then -1 else 0
      ensures ret == 0 ==>
        && saddr in mapper && saddr !in old(usedList) && InSpace(c, saddr)
        && Rss.CpuCore(c.daddr, Address(c, saddr), c.dport, saddr.port as bv16, c.redirects, c.numQueues) == c.core
        && Rss.CpuCore(Address(c, saddr), c.daddr, saddr.port as bv16, c.dport, c.redirects, c.numQueues) == c.core
        && freeList == old(freeList)[1..] && usedList == old(usedList) + [saddr]
      ensures ret != 0 ==> freeList == old(freeList) && usedList == old(usedList)
    {
      hide Rss.CpuCore, Address;
      if freeList == [] {
        return -1, Entry(0, 0);
      }
      saddr := freeList[0];
      Fetched(saddr);
      freeList, usedList := freeList[1..], usedList + [saddr];
      numFree, numUsed := numFree - 1, numUsed + 1;
      ret := 0;
    }

    lemma Fetched(e: Entry)
      requires Valid() && freeList != [] && e == freeList[0]
      ensures InSpace(c, e) && OnCore(c, e) && e in mapper && e !in usedList
      ensures Rss.CpuCore(Address(c, e), c.daddr, e.port as bv16, c.dport, c.redirects, c.numQueues) == c.core
      ensures NoDup(freeList[1..]) && NoDup(usedList + [e])
      ensures forall x :: x in freeList <==> x == e || x in freeList[1..]
      ensures e !in freeList[1..]
    {
      hide Rss.CpuCore, Address;
      assert e in freeList;
      BothWays(c, e);
      NoDupSnoc(usedList, e);
    }

    // FreeAddress of an address that is not free already; -1 for one the pool does not know.
    method FreeAddress(e: Entry) returns (ret: int)
      requires Valid() && e !in freeList
      modifies this`freeList, this`usedList, this`numFree, this`numUsed
      ensures Valid() && ret == if e in mapper then 0 else -1
      ensures ret == 0 ==> freeList == old(freeList) + [e] && usedList == Without(old(usedList), e)
      ensures ret != 0 ==> freeList == old(freeList) && usedList == old(usedList)
    {
      hide OnCore, InSpace;
      if e !in mapper {
        return -1;
      }
      WithoutFacts(usedList, e);
      NoDupSnoc(freeList, e);
      usedList, freeList := Without(usedList, e), freeList + [e];
      numFree, numUsed := numFree + 1, numUsed - 1;
      ret := 0;
    }
  }

  // What the search has seen after addresses below i and, of address i, ports below j.
  predicate Before(e: Entry, i: int, j: int) { e.i < i || (e.i == i && e.port < j) }

  ghost predicate Found(c: Config, free: seq<Entry>, limit: int, i: int, j: int)
    requires 0 < c.numQueues && c.numAddr < 0x1_0000_0000
  {
    && NoDup(free) && |free| <= limit
    && (forall e :: e in free ==> InSpace(c, e) && OnCore(c, e) && Before(e, i, j))
    && (|free| < limit ==> forall e :: InSpace(c, e) && OnCore(c, e) && Before(e, i, j) ==> e in free)
  }

  // Its search of the address space.
  method Search(c: Config, limit: int) returns (free: seq<Entry>)
    requires 0 < c.numQueues && c.numAddr < 0x1_0000_0000 && 0 <= limit
    ensures Found(c, free, limit, c.numAddr, MIN_PORT)
  {
    hide OnCore;
    free := [];
    var i := 0;
    while i < c.numAddr
      invariant 0 <= i <= c.numAddr && Found(c, free, limit, i, MIN_PORT)
    {
      free := SearchPorts(c, limit, i, free);
      NextAddress(c, free, limit, i);
      i := i + 1;
    }
  }

  method SearchPorts(c: Config, limit: int, i: int, free0: seq<Entry>) returns (free: seq<Entry>)
    requires 0 < c.numQueues && c.numAddr < 0x1_0000_0000 && 0 <= i < c.numAddr && Found(c, free0, limit, i, MIN_PORT)
    ensures Found(c, free, limit, i, MAX_PORT)
  {
    hide OnCore, Found;
    free := free0;
    var j := MIN_PORT;
    while j < MAX_PORT
      invariant MIN_PORT <= j <= MAX_PORT && Found(c, free, limit, i, j)
    {
      if |free| >= limit {
        Full(c, free, limit, i, j);
        break;
      }
      NextPort(c, free, limit, i, j);
      if OnCore(c, Entry(i, j)) {
        free := free + [Entry(i, j)];
      }
      j := j + 1;
    }
  }

  lemma NextPort(c: Config, free: seq<Entry>, limit: int, i: int, j: int)
    requires 0 < c.numQueues && c.numAddr < 0x1_0000_0000 && Found(c, free, limit, i, j)
    requires 0 <= i < c.numAddr && MIN_PORT <= j < MAX_PORT && |free| < limit
    ensures Found(c, if OnCore(c, Entry(i, j)) then free + [Entry(i, j)] else free, limit, i, j + 1)
  {
    hide OnCore;
    NoDupSnoc(free, Entry(i, j));
    assert forall e :: Before(e, i, j + 1) <==> Before(e, i, j) || e == Entry(i, j);
  }

  lemma Full(c: Config, free: seq<Entry>, limit: int, i: int, j: int)
    requires 0 < c.numQueues && c.numAddr < 0x1_0000_0000
    requires Found(c, free, limit, i, j) && j <= MAX_PORT && limit <= |free|
    ensures Found(c, free, limit, i, MAX_PORT)
  {
  }

  lemma NextAddress(c: Config, free: seq<Entry>, limit: int, i: int)
    requires 0 < c.numQueues && c.numAddr < 0x1_0000_0000 && Found(c, free, limit, i, MAX_PORT)
    ensures Found(c, free, limit, i + 1, MIN_PORT)
  {
  }
}
