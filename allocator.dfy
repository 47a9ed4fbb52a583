/** The FeabhOS fixed-block pool allocator (POSIX port): a free list threaded through the
    blocks of client-supplied memory, and a static table of pool descriptors.

    Memory is modelled one block at a time: `links[k]` is the free-list word stored at the
    start of block k, holding the index of the next free block or `Null`. Addresses handed to
    and from clients are byte addresses; block k starts at `start_addr + k * block_size`. */
module Allocator {

  /** `MAX_POOLS`. */
  const MaxPools: nat := 8

  /** `sizeof(uintptr_t)` on a 64-bit POSIX host. */
  const WordSize: nat := 8

  const WordLimit: nat := 0x1_0000_0000

  /** The NULL link that terminates the free list. */
  const Null: int := -1

  /** `size_bytes_t` and `num_elements_t`. */
  type Uint32 = x: int | 0 <= x < 0x1_0000_0000

  /** The `feabhOS_error` codes the allocator returns. */
  datatype Error =
    | ErrorOk | ErrorOutOfMemory | ErrorInvalidHandle
    | ErrorParam1 | ErrorParam2 | ErrorParam3 | ErrorParam4 | ErrorStupid

  // ---------------------------------------------------------------------------
  // Parameter checking of feabhOS_pool_create

  /** The checks as written: the first failing one decides, and `block_size * num_blocks` is a
      32-bit product that wraps. `memory` is the address of the pool memory, 0 for NULL. */
  function CreateCheckAsWritten(memory: nat, poolSize: Uint32, blockSize: Uint32, numBlocks: Uint32): (e: Error)
    ensures e == ErrorOk ==> memory != 0 && poolSize != 0 && blockSize >= WordSize && numBlocks != 0
    ensures e == ErrorParam1 <==> memory == 0
  {
    if memory == 0 then ErrorParam1
    else if poolSize == 0 then ErrorParam2
    else if blockSize == 0 then ErrorParam3
    else if blockSize < WordSize then ErrorParam3
    else if numBlocks == 0 then ErrorParam4
    else if (blockSize * numBlocks) % WordLimit > poolSize then ErrorParam2
    else ErrorOk
  }

  /** The checks with the product computed exactly, as the header documents them
      (`ERROR_PARAM2` when `pool_size < block_size * num_blocks`). */
  function CreateCheck(memory: nat, poolSize: Uint32, blockSize: Uint32, numBlocks: Uint32): (e: Error)
    ensures e == ErrorOk <==>
              memory != 0 && poolSize != 0 && blockSize >= WordSize && numBlocks != 0
              && blockSize * numBlocks <= poolSize
    ensures e == ErrorParam1 <==> memory == 0
    ensures e == ErrorParam2 <==>
              (memory != 0 && (poolSize == 0 ||
                (blockSize >= WordSize && numBlocks != 0 && blockSize * numBlocks > poolSize)))
    ensures e == ErrorParam3 <==> memory != 0 && poolSize != 0 && blockSize < WordSize
    ensures e == ErrorParam4 <==> memory != 0 && poolSize != 0 && blockSize >= WordSize && numBlocks == 0
  {
    if memory == 0 then ErrorParam1
    else if poolSize == 0 then ErrorParam2
    else if blockSize == 0 then ErrorParam3
    else if blockSize < WordSize then ErrorParam3
    else if numBlocks == 0 then ErrorParam4
    else if blockSize * numBlocks > poolSize then ErrorParam2
    else ErrorOk
  }

  /** Whenever the product does not wrap, the written checks are the documented ones. */
  lemma CreateChecksAgree(memory: nat, poolSize: Uint32, blockSize: Uint32, numBlocks: Uint32)
    requires blockSize * numBlocks < WordLimit
    ensures CreateCheckAsWritten(memory, poolSize, blockSize, numBlocks)
         == CreateCheck(memory, poolSize, blockSize, numBlocks)
  {
    assert (blockSize * numBlocks) % WordLimit == blockSize * numBlocks;
  }

  /** 65536 blocks of 64 KiB wrap to a product of 0, so a 256-byte pool is accepted for them. */
  lemma CreateCheckWraps()
    ensures CreateCheckAsWritten(0x1000, 0x100, 0x1_0000, 0x1_0000) == ErrorOk
    ensures CreateCheck(0x1000, 0x100, 0x1_0000, 0x1_0000) == ErrorParam2
  {
    assert 0x1_0000 * 0x1_0000 == WordLimit;
    assert WordLimit % WordLimit == 0;
  }

  // ---------------------------------------------------------------------------
  // The free list

  /** `fl` is the free list read from `head` by following links: each block in range, the
      last one's link `Null`. */
  ghost predicate IsFreeList(links: seq<int>, head: int, fl: seq<nat>)
    decreases |fl|
  {
    if fl == [] then head == Null
    else head == fl[0] && fl[0] < |links| && IsFreeList(links, links[fl[0]], fl[1..])
  }

  ghost predicate Distinct(fl: seq<nat>)
  {
    forall i, j | 0 <= i < j < |fl| :: fl[i] != fl[j]
  }

  /** Blocks lo, lo+1, ..., n-1. */
  function Range(lo: nat, n: nat): (r: seq<nat>)
    requires lo <= n
    ensures |r| == n - lo && forall i | 0 <= i < |r| :: r[i] == lo + i
    decreases n - lo
  {
    if lo == n then [] else [lo] + Range(lo + 1, n)
  }

  /** The links the loop of `pool_create` writes: each block to the next, the last to NULL. */
  function InitialLinks(n: nat): (links: seq<int>)
    requires n > 0
    ensures |links| == n
  {
    seq(n, i requires 0 <= i < n => if i < n - 1 then i + 1 else Null)
  }

  /** The links decide the free list: there is only one list from a given head. */
  lemma {:induction false} FreeListUnique(links: seq<int>, head: int, f1: seq<nat>, f2: seq<nat>)
    requires IsFreeList(links, head, f1) && IsFreeList(links, head, f2)
    ensures f1 == f2
    decreases |f1|
  {
    if f1 != [] && f2 != [] {
      FreeListUnique(links, links[head], f1[1..], f2[1..]);
      assert f1 == [f1[0]] + f1[1..];
      assert f2 == [f2[0]] + f2[1..];
    }
  }

  /** A freshly created pool of n blocks lists every block exactly once, in address order. */
  lemma {:induction false} InitialFreeList(n: nat, lo: nat)
    requires lo < n
    ensures IsFreeList(InitialLinks(n), lo, Range(lo, n)) && Distinct(Range(lo, n))
    decreases n - lo
  {
    if lo + 1 < n {
      InitialFreeList(n, lo + 1);
    } else {
      assert Range(lo + 1, n) == [];
    }
  }

  /** Changing the link of a block that is not on the list leaves the list intact. */
  lemma {:induction false} FreeListFrame(links: seq<int>, head: int, fl: seq<nat>, k: nat, v: int)
    requires IsFreeList(links, head, fl) && k < |links| && k !in fl
    ensures IsFreeList(links[k := v], head, fl)
    decreases |fl|
  {
    if fl != [] {
      assert fl[0] != k;
      assert forall x | x in fl[1..] :: x in fl;
      FreeListFrame(links, links[fl[0]], fl[1..], k, v);
    }
  }

  /** The abstract pool: the block links and the head of the free list (`current_free`). */
  datatype PoolState = PoolState(links: seq<int>, head: int)

  predicate HeadInRange(p: PoolState)
  {
    p.head == Null || 0 <= p.head < |p.links|
  }

  /** `feabhOS_block_allocate` on a pool: NULL when the list is empty, otherwise the head,
      with the head advanced to its link. */
  function Allocate(p: PoolState): (r: (int, PoolState))
    requires HeadInRange(p)
    ensures r.1.links == p.links
  {
    if p.head == Null then (Null, p) else (p.head, PoolState(p.links, p.links[p.head]))
  }

  /** Returning block k: its link takes the old head and it becomes the head. */
  function Free(p: PoolState, k: nat): (r: PoolState)
    requires k < |p.links|
    ensures |r.links| == |p.links| && HeadInRange(r) && r.links[k] == p.head
  {
    PoolState(p.links[k := p.head], k)
  }

  /** The blocks handed out by n allocations in a row, and the pool after them. */
  function AllocateN(p: PoolState, n: nat, ghost fl: seq<nat>): (r: (seq<int>, PoolState))
    requires IsFreeList(p.links, p.head, fl)
    ensures |r.0| == n && r.1.links == p.links
    ensures IsFreeList(r.1.links, r.1.head, if n >= |fl| then [] else fl[n..])
    decreases n
  {
    if n == 0 then ([], p)
    else
      var (b, p1) := Allocate(p);
      var (bs, p2) := AllocateN(p1, n - 1, if fl == [] then [] else fl[1..]);
      ([b] + bs, p2)
  }

  /** Allocating as often as there are free blocks hands out the free list in order and
      empties it; every further allocation returns NULL. */
  lemma {:induction false} AllocateNDrains(p: PoolState, fl: seq<nat>)
    requires IsFreeList(p.links, p.head, fl)
    ensures AllocateN(p, |fl|, fl).0 == fl
    ensures AllocateN(p, |fl|, fl).1 == PoolState(p.links, Null)
    ensures Allocate(AllocateN(p, |fl|, fl).1).0 == Null
    decreases |fl|
  {
    if fl != [] {
      AllocateNDrains(PoolState(p.links, p.links[p.head]), fl[1..]);
      assert fl == [fl[0]] + fl[1..];
    }
  }

  /** A fresh pool of n blocks serves exactly n allocations, of the distinct blocks 0..n-1,
      and then returns NULL. */
  lemma FreshPoolServesEachBlockOnce(n: nat)
    requires n > 0
    ensures IsFreeList(InitialLinks(n), 0, Range(0, n))
    ensures AllocateN(PoolState(InitialLinks(n), 0), n, Range(0, n)).0 == Range(0, n)
    ensures Distinct(Range(0, n))
    ensures Allocate(AllocateN(PoolState(InitialLinks(n), 0), n, Range(0, n)).1).0 == Null
  {
    InitialFreeList(n, 0);
    AllocateNDrains(PoolState(InitialLinks(n), 0), Range(0, n));
  }

  /** Allocating keeps the list well formed: the rest of it remains. */
  lemma AllocatePreservesFreeList(p: PoolState, fl: seq<nat>)
    requires IsFreeList(p.links, p.head, fl) && Distinct(fl)
    ensures HeadInRange(p)
    ensures fl == [] ==> Allocate(p).0 == Null
    ensures fl != [] ==> Allocate(p).0 == fl[0]
                         && IsFreeList(Allocate(p).1.links, Allocate(p).1.head, fl[1..])
                         && Distinct(fl[1..])
  {
  }

  /** Freeing a block that is not free keeps the list well formed, with the block in front;
      the next allocation hands that same block back and restores the head. */
  lemma FreePreservesFreeList(p: PoolState, fl: seq<nat>, k: nat)
    requires IsFreeList(p.links, p.head, fl) && Distinct(fl) && k < |p.links| && k !in fl
    ensures IsFreeList(Free(p, k).links, Free(p, k).head, [k] + fl) && Distinct([k] + fl)
    ensures Allocate(Free(p, k)).0 == k && Allocate(Free(p, k)).1.head == p.head
  {
    FreeListFrame(p.links, p.head, fl, k, p.head);
  }

  // ---------------------------------------------------------------------------
  // Address arithmetic

  lemma MulMonotone(a: nat, b: nat, c: nat)
    requires a <= b
    ensures a * c <= b * c
  {
    assert b * c == a * c + (b - a) * c;
  }

  /** An offset that is a multiple of the block size and below n blocks is the start of a
      block with an index below n. */
  lemma OffsetIndex(off: nat, bs: nat, n: nat)
    requires bs > 0 && off < n * bs && off % bs == 0
    ensures off / bs < n && (off / bs) * bs == off
  {
    assert off == bs * (off / bs) + off % bs;
    if off / bs >= n {
      MulMonotone(n, off / bs, bs);
      assert false;
    }
  }

  // ---------------------------------------------------------------------------
  // Pool descriptors

  /** `struct feabhOS_pool`, together with the free-list words it threads through the
      client's memory. */
  class Pool {
    var startAddr: nat
    var currentFree: int
    var blockSize: Uint32
    var numBlocks: Uint32
    var links: array<int>
    /** The free list, head first. */
    ghost var freeList: seq<nat>

    ghost predicate Valid()
      reads this, links
    {
      && startAddr > 0 && blockSize >= WordSize && numBlocks > 0
      && blockSize * numBlocks < WordLimit
      && links.Length == numBlocks
      && IsFreeList(links[..], currentFree, freeList) && Distinct(freeList)
    }

    /** The abstract pool. */
    ghost function State(): (p: PoolState)
      reads this, links
      requires Valid()
      ensures HeadInRange(p)
    {
      PoolState(links[..], currentFree)
    }

    /** The address of block k: `next` applied k times to `begin`. */
    function Address(k: nat): (a: nat)
      reads this
    {
      startAddr + k * blockSize
    }

    /** `end()`: one past the last block, with the 32-bit product of the source. */
    function End(): (a: nat)
      reads this, links
      requires Valid()
      ensures a == startAddr + numBlocks * blockSize
      ensures forall k: nat | k < numBlocks :: startAddr <= Address(k) < a
    {
      assert forall k: nat | k < numBlocks :: k * blockSize < numBlocks * blockSize by {
        forall k: nat | k < numBlocks
          ensures k * blockSize < numBlocks * blockSize
        {
          MulMonotone(k + 1, numBlocks, blockSize);
        }
      }
      startAddr + (numBlocks * blockSize) % WordLimit
    }

    /** The all-zero descriptor of the static table. */
    constructor ()
      ensures startAddr == 0 && currentFree == Null && blockSize == 0 && numBlocks == 0
      ensures fresh(links) && links.Length == 0 && freeList == []
    {
      startAddr, currentFree, blockSize, numBlocks := 0, Null, 0, 0;
      links := new int[0];
      freeList := [];
    }

    /** The descriptor set-up of `pool_create`: the fields, then the loop that makes each
        block's first word point at the next block and the last one NULL. */
    method Init(memory: nat, size: Uint32, count: Uint32)
      requires memory > 0 && size >= WordSize && count > 0 && size * count < WordLimit
      modifies this
      ensures Valid() && fresh(links)
      ensures startAddr == memory && blockSize == size && numBlocks == count
      ensures State() == PoolState(InitialLinks(count), 0) && freeList == Range(0, count)
    {
      var ls := new int[count];
      var i: nat := 0;
      while i < count - 1
        invariant i <= count - 1
        invariant forall j | 0 <= j < i :: ls[j] == j + 1
      {
        ls[i] := i + 1;
        i := i + 1;
      }
      ls[i] := Null;
      assert ls[..] == InitialLinks(count);
      startAddr := memory;
      currentFree := 0;
      blockSize := size;
      numBlocks := count;
      links := ls;
      InitialFreeList(count, 0);
      freeList := Range(0, count);
    }
  }

  /** The static `pools` table and `next_pool` counter of `get_instance`. */
  class PoolTable {
    const pools: seq<Pool>
    var nextPool: nat

    ghost predicate Valid()
      reads this
    {
      |pools| == MaxPools && nextPool <= MaxPools
      && forall i, j | 0 <= i < j < |pools| :: pools[i] != pools[j]
    }

    constructor ()
      ensures Valid() && nextPool == 0
      ensures forall i | 0 <= i < |pools| :: fresh(pools[i])
    {
      var ps: seq<Pool> := [];
      while |ps| < MaxPools
        invariant |ps| <= MaxPools
        invariant forall i | 0 <= i < |ps| :: fresh(ps[i])
        invariant forall i, j | 0 <= i < j < |ps| :: ps[i] != ps[j]
      {
        var p := new Pool();
        ps := ps + [p];
      }
      pools := ps;
      nextPool := 0;
    }

    /** `get_instance()`: the next unused descriptor; slots are never reused. When all are
        taken the assertion fails and the program aborts, modelled as `null`. */
    method GetInstance() returns (p: Pool?)
      requires Valid()
      modifies this
      ensures Valid()
      ensures old(nextPool) == MaxPools ==> p == null && nextPool == MaxPools
      ensures old(nextPool) < MaxPools ==> p == pools[old(nextPool)] && nextPool == old(nextPool) + 1
      ensures p != null ==> forall i | 0 <= i < old(nextPool) :: pools[i] != p
    {
      if nextPool == MaxPools {
        return null;
      }
      p := pools[nextPool];
      nextPool := nextPool + 1;
    }

    /** `feabhOS_pool_create`: rejects bad arguments without taking a descriptor; otherwise
        takes the next descriptor and threads the free list through all blocks in order.
        `aborted` is the failed assertion of `get_instance`. */
    method PoolCreate(memory: nat, poolSize: Uint32, blockSize: Uint32, numBlocks: Uint32)
      returns (e: Error, handle: Pool?, aborted: bool)
      requires Valid()
      modifies this, pools
      ensures Valid()
      ensures e == CreateCheck(memory, poolSize, blockSize, numBlocks)
      ensures e != ErrorOk ==> handle == null && !aborted && nextPool == old(nextPool)
      ensures e == ErrorOk && old(nextPool) == MaxPools ==> aborted && handle == null
      ensures e == ErrorOk && old(nextPool) < MaxPools ==>
                !aborted && handle == pools[old(nextPool)] && nextPool == old(nextPool) + 1
                && handle.Valid() && fresh(handle.links)
                && handle.startAddr == memory && handle.blockSize == blockSize
                && handle.numBlocks == numBlocks
                && handle.State() == PoolState(InitialLinks(numBlocks), 0)
                && handle.freeList == Range(0, numBlocks)
      ensures forall i | 0 <= i < |pools| && (handle == null || i != old(nextPool)) :: unchanged(pools[i])
    {
      e := CreateCheck(memory, poolSize, blockSize, numBlocks);
      handle, aborted := null, false;
      if e != ErrorOk {
        return;
      }
      var pool := GetInstance();
      if pool == null {
        aborted := true;
        return;
      }
      pool.Init(memory, blockSize, numBlocks);
      handle := pool;
    }
  }

  // ---------------------------------------------------------------------------
  // Allocation and release

  /** `feabhOS_block_allocate`: NULL (address 0) for a NULL `pool_handle` or an exhausted
      pool; otherwise the head block, whose link becomes the new head. `handle == null`
      stands for a NULL `pool_handle`; a non-null handle is the descriptor it points to. */
  method BlockAllocate(handle: Pool?) returns (addr: nat)
    requires handle != null ==> handle.Valid()
    modifies handle
    ensures handle == null ==> addr == 0
    ensures handle != null ==>
      && handle.Valid() && handle.links == old(handle.links)
      && handle.startAddr == old(handle.startAddr) && handle.blockSize == old(handle.blockSize)
      && handle.numBlocks == old(handle.numBlocks)
      && handle.State() == Allocate(old(handle.State())).1
      && (old(handle.freeList) == [] ==> addr == 0 && handle.freeList == [])
      && (old(handle.freeList) != [] ==>
            addr == handle.Address(old(handle.freeList[0])) && handle.freeList == old(handle.freeList[1..]))
  {
    if handle == null {
      return 0;
    }
    AllocatePreservesFreeList(handle.State(), handle.freeList);
    if handle.currentFree == Null {
      return 0;
    }
    addr := handle.Address(handle.currentFree);
    handle.currentFree := handle.links[handle.currentFree];
    handle.freeList := handle.freeList[1..];
  }

  /** `feabhOS_block_free`: INVALID_HANDLE for a NULL `pool_handle`, OK and no effect for a NULL
      block, STUPID for an address outside the pool; otherwise the block is pushed on the
      free list. The caller must pass the start of a block (an address the pool handed out). */
  method BlockFree(handle: Pool?, block: nat) returns (e: Error)
    requires handle != null ==> handle.Valid()
    requires handle != null && block != 0 && handle.startAddr <= block < handle.End() ==>
               (block - handle.startAddr) % handle.blockSize == 0
    modifies handle, if handle == null then null else handle.links
    ensures handle == null ==> e == ErrorInvalidHandle
    ensures handle != null ==>
      && handle.links == old(handle.links)
      && handle.startAddr == old(handle.startAddr) && handle.blockSize == old(handle.blockSize)
      && handle.numBlocks == old(handle.numBlocks)
    ensures handle != null && block == 0 ==>
      && e == ErrorOk && handle.Valid()
      && handle.State() == old(handle.State()) && handle.freeList == old(handle.freeList)
    ensures handle != null && block != 0 && (block < handle.startAddr || block >= old(handle.End())) ==>
      && e == ErrorStupid && handle.Valid()
      && handle.State() == old(handle.State()) && handle.freeList == old(handle.freeList)
    ensures handle != null && block != 0 && handle.startAddr <= block < old(handle.End()) ==>
      e == ErrorOk
      && var k := (block - handle.startAddr) / handle.blockSize;
         k < handle.numBlocks && handle.Address(k) == block
         && handle.currentFree == k
         && handle.links[..] == old(handle.links[..])[k := old(handle.currentFree)]
         && handle.freeList == [k] + old(handle.freeList)
         && (k !in old(handle.freeList) ==> handle.Valid() && handle.State() == Free(old(handle.State()), k))
  {
    if handle == null {
      return ErrorInvalidHandle;
    }
    if block == 0 {
      return ErrorOk;
    }
    if block < handle.startAddr || block >= handle.End() {
      return ErrorStupid;
    }
    var k := (block - handle.startAddr) / handle.blockSize;
    OffsetIndex(block - handle.startAddr, handle.blockSize, handle.numBlocks);
    ghost var before := handle.State();
    if k !in handle.freeList {
      FreePreservesFreeList(before, handle.freeList, k);
    }
    handle.links[k] := handle.currentFree;
    handle.currentFree := k;
    handle.freeList := [k] + handle.freeList;
    e := ErrorOk;
  }
}
