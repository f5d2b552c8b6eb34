/** The kernel's heap over physical memory: `kmalloc`, `kzalloc` and `kfree`. */
module KernelHeap {
  import opened MachineWords
  import opened BlockTable
  import opened BlockHeap

  const HEAP_SIZE_BYTES := 104857600
  const HEAP_ADDRESS: word := 0x0100_0000

  /** 32-bit words in the physical address space. */
  const WORDS := 0x4000_0000

  /** The `memset` of `kzalloc`, word by word. */
  method ClearWords(words: array<word>, first: nat, count: nat)
    requires first + count <= words.Length
    modifies words
    ensures forall x :: 0 <= x < words.Length ==>
      words[x] == if first <= x < first + count then 0 else old(words[x])
  {
    var w := 0;
    while w < count
      invariant 0 <= w <= count
      invariant forall x :: 0 <= x < words.Length ==>
        words[x] == if first <= x < first + w then 0 else old(words[x])
    {
      words[first + w] := 0;
      w := w + 1;
    }
  }

  /** Malloc answers zero or the address of a block of the pool. */
  lemma MallocInPool(m: seq<bv8>, total: nat, saddr: word, n: nat)
    requires total + n <= |m| && PoolFits(saddr, total)
    ensures var address := MallocOutcome(m, total, saddr, n).0;
      address == 0 || saddr <= address < saddr + total * BLOCK_SIZE
  {
    var s := StartBlock(m[..total], n);
    if 0 <= s {
      AddressRoundTrip(saddr, total, s);
    }
  }

  class KernelMemory {
    const heap: Heap
    /** Physical memory by word: address a is at index a / 4. */
    const words: array<word>

    constructor (heap: Heap, words: array<word>)
      ensures this.heap == heap && this.words == words
    {
      this.heap := heap;
      this.words := words;
    }

    /** The block table and the words it hands out are separate memory. */
    predicate Valid()
      reads this, heap
    {
      && heap.Valid()
      && words.Length == WORDS
      && PoolFits(heap.saddr, heap.table.total)
      && heap.saddr % BLOCK_SIZE == 0
      && heap.table.entries as object != words as object
    }

    /** Memory goes on behind the pool's end for that many bytes. */
    predicate RoomAbove(bytes: nat)
      requires heap.table != null
      reads heap
    {
      heap.saddr + heap.table.total * BLOCK_SIZE + bytes <= TWO_TO_THE_32
    }

    /** The kernel's own pool: 25600 blocks from 0x01000000 on. */
    method Init(table: HeapTable)
      requires table.total == HEAP_SIZE_BYTES / BLOCK_SIZE
      requires table.total + MAX_BLOCKS <= table.entries.Length
      requires words.Length == WORDS && table.entries as object != words as object
      modifies heap, table.entries
      ensures Valid() && heap.table == table && heap.saddr == HEAP_ADDRESS
      ensures Encodes(heap.Table(), map[]) && FreeCount(heap.Table()) == 25600
    {
      var res := heap.Create(HEAP_ADDRESS, HEAP_ADDRESS + HEAP_SIZE_BYTES, table);
      Conservation(heap.Table(), map[]);
    }

    method KMalloc(size: word) returns (address: word)
      requires Valid()
      modifies heap.table.entries
      ensures Valid() && BlocksFor(size) < MAX_BLOCKS
      ensures (address, heap.table.entries[..]) ==
        MallocOutcome(old(heap.table.entries[..]), heap.table.total, heap.saddr, BlocksFor(size))
      ensures 1 <= BlocksFor(size) && old(exists s :: FreeRun(heap.Table(), s, BlocksFor(size))) ==>
        GrantsLeast(old(heap.table.entries[..]), heap.table.total, heap.saddr, BlocksFor(size),
                    address, heap.table.entries[..])
    {
      address := heap.Malloc(size);
    }

    /** Clearing goes word by word, so the size is a multiple of four. A run at the pool's end may be
        shorter than the request, so memory has to go on behind it. */
    method KZalloc(size: word) returns (address: word)
      requires Valid() && size % 4 == 0 && RoomAbove(size)
      modifies heap.table.entries, words
      ensures Valid() && BlocksFor(size) < MAX_BLOCKS
      ensures (address, heap.table.entries[..]) ==
        MallocOutcome(old(heap.table.entries[..]), heap.table.total, heap.saddr, BlocksFor(size))
      ensures address == 0 ==> words[..] == old(words[..])
      ensures address != 0 ==> address / 4 + size / 4 <= WORDS && forall x :: 0 <= x < WORDS ==>
        words[x] == if address / 4 <= x < address / 4 + size / 4 then 0 else old(words[x])
    {
      hide MallocOutcome;
      hide BlocksFor;
      address := KMalloc(size);
      if address == 0 {
        return;
      }
      MallocInPool(old(heap.table.entries[..]), heap.table.total, heap.saddr, BlocksFor(size));
      ClearWords(words, address / 4, size / 4);
    }

    method KFree(ptr: word)
      requires Valid() && 0 <= AddressToBlock(heap.saddr, ptr)
      modifies heap.table.entries
      ensures Valid()
      ensures heap.table.entries[..] ==
        Freed(old(heap.table.entries[..]), heap.table.total, AddressToBlock(heap.saddr, ptr))
    {
      heap.Free(ptr);
    }
  }

  /** A live set with one-block runs added at the given blocks. */
  ghost function WithBlocks(live: Runs, bs: seq<nat>): Runs {
    live + map b | b in bs :: 1
  }

  ghost predicate Distinct(bs: seq<nat>) {
    forall i, j :: 0 <= i < j < |bs| ==> bs[i] != bs[j]
  }

  lemma WithBlocksAdd(live: Runs, bs: seq<nat>, s: nat)
    ensures WithBlocks(live, bs)[s := 1] == WithBlocks(live, bs + [s])
    ensures s in WithBlocks(live, bs) <==> s in live || s in bs
  {
  }

  lemma WithBlocksDrop(live: Runs, bs: seq<nat>)
    requires bs != [] && Distinct(bs) && forall b :: b in bs ==> b !in live
    ensures bs[0] in WithBlocks(live, bs)
    ensures WithBlocks(live, bs) - {bs[0]} == WithBlocks(live, bs[1..])
  {
    var first, rest := bs[0], bs[1..];
    assert bs == [first] + rest && first !in rest && first !in live;
    assert forall b :: b in bs <==> b == first || b in rest;
  }

  /** A request of at most one block in an encoding table with a free block left takes one block
      that no live run holds. */
  lemma OneBlockOutcome(m: seq<bv8>, total: nat, saddr: word, live: Runs, size: word) returns (s: nat)
    requires total + MAX_BLOCKS <= |m| && PoolFits(saddr, total)
    requires Encodes(m[..total], live) && 1 <= FreeCount(m[..total])
    requires 0 < size <= BLOCK_SIZE
    ensures BlocksFor(size) == 1 && s < total && s !in live
    ensures MallocOutcome(m, total, saddr, 1) == (saddr + s * BLOCK_SIZE, Taken(m, s, 1))
    ensures Encodes(Taken(m, s, 1)[..total], live[s := 1])
    ensures FreeCount(Taken(m, s, 1)[..total]) == FreeCount(m[..total]) - 1
    ensures Taken(m, s, 1)[total..] == m[total..]
  {
    var t := m[..total];
    BlocksCover(size);
    s := OneBlockFound(t);
    hide Encodes, FreeCount, StartBlock, Taken;
    AddressRoundTrip(saddr, total, s);
    TakeEncodes(t, live, s, 1);
    TakeCount(t, s, 1);
    TakenPrefix(m, total, s, 1);
  }

  /** On an all-free table every request of blocks that fits the pool is granted from its first block on:
      the kernel's frame buffer of 768 blocks is. */
  lemma EmptyHeapGrants(m: seq<bv8>, total: nat, saddr: word, size: word)
    requires total + MAX_BLOCKS <= |m| && PoolFits(saddr, total) && Encodes(m[..total], map[])
    requires 0 < size <= total * BLOCK_SIZE && size <= 0xffff_f000
    ensures 1 <= BlocksFor(size) < MAX_BLOCKS
    ensures var (address, after) := MallocOutcome(m, total, saddr, BlocksFor(size));
      address == saddr && Encodes(after[..total], map[0 := BlocksFor(size)]) && after[total..] == m[total..]
    ensures BlocksFor(1024 * 768 * 32 / 8) == 768
  {
    var t, n := m[..total], BlocksFor(size);
    BlocksCover(size);
    assert forall i :: 0 <= i < total ==> t[i] == FREE;
    assert FreeRun(t, 0, n);
    assert IsStartBlock(t, n, 0);
    StartBlockUnique(t, n, 0);
    TakeEncodes(t, map[], 0, n);
    TakenPrefix(m, total, 0, n);
    assert map[][0 := n] == map[0 := n];
  }

  lemma OneBlockFound(t: Table) returns (s: nat)
    requires 1 <= FreeCount(t)
    ensures s == StartBlock(t, 1) && FreeRun(t, s, 1)
  {
    OneBlockExact(t);
    var i :| i in FreeBlocks(t);
    assert IsFree(t[i]);
    s := StartBlock(t, 1);
  }

  /** Freeing the address of a live run. */
  lemma LiveFreeOutcome(m: seq<bv8>, total: nat, saddr: word, live: Runs, s: nat)
    requires total <= |m| && PoolFits(saddr, total)
    requires Encodes(m[..total], live) && s in live
    ensures s < total && AddressToBlock(saddr, saddr + s * BLOCK_SIZE) == s
    ensures Encodes(Freed(m, total, s)[..total], live - {s})
    ensures Freed(m, total, s)[total..] == m[total..]
  {
    AddressRoundTrip(saddr, total, s);
    FreeEncodes(m[..total], live, s);
    FreedPrefix(m, total, s);
  }

  /** The same for a client that already holds the blocks `bs` beside the live runs. */
  lemma NextBlockOutcome(m: seq<bv8>, total: nat, saddr: word, live: Runs, bs: seq<nat>, size: word) returns (s: nat)
    requires total + MAX_BLOCKS <= |m| && PoolFits(saddr, total)
    requires Encodes(m[..total], WithBlocks(live, bs)) && 1 <= FreeCount(m[..total])
    requires 0 < size <= BLOCK_SIZE
    ensures BlocksFor(size) == 1 && s < total && s !in live && s !in bs
    ensures MallocOutcome(m, total, saddr, 1).0 == saddr + s * BLOCK_SIZE != 0
    ensures var after := MallocOutcome(m, total, saddr, 1).1;
      && Encodes(after[..total], WithBlocks(live, bs + [s]))
      && FreeCount(after[..total]) == FreeCount(m[..total]) - 1
      && after[total..] == m[total..]
  {
    s := OneBlockOutcome(m, total, saddr, WithBlocks(live, bs), size);
    WithBlocksAdd(live, bs, s);
  }

  lemma FirstBlockOutcome(m: seq<bv8>, total: nat, saddr: word, live: Runs, bs: seq<nat>)
    requires total <= |m| && PoolFits(saddr, total)
    requires bs != [] && Distinct(bs) && forall b :: b in bs ==> b !in live
    requires Encodes(m[..total], WithBlocks(live, bs))
    ensures bs[0] < total && AddressToBlock(saddr, saddr + bs[0] * BLOCK_SIZE) == bs[0]
    ensures Encodes(Freed(m, total, bs[0])[..total], WithBlocks(live, bs[1..]))
    ensures Freed(m, total, bs[0])[total..] == m[total..]
  {
    LiveFreeOutcome(m, total, saddr, WithBlocks(live, bs), bs[0]);
    WithBlocksDrop(live, bs);
  }

  /** `kzalloc` of at most a page, by a client that already holds the blocks `bs`: it gets a
      cleared block of its own. */
  method ZallocPage(k: KernelMemory, size: word, ghost live: Runs, ghost bs: seq<nat>)
    returns (address: word, ghost s: nat)
    requires k.Valid() && size % 4 == 0 && 0 < size <= BLOCK_SIZE && k.RoomAbove(BLOCK_SIZE)
    requires Encodes(k.heap.Table(), WithBlocks(live, bs)) && 1 <= FreeCount(k.heap.Table())
    modifies k.heap.table.entries, k.words
    ensures k.Valid()
    ensures s < k.heap.table.total && s !in live && s !in bs
    ensures address == k.heap.saddr + s * BLOCK_SIZE
    ensures Encodes(k.heap.Table(), WithBlocks(live, bs + [s]))
    ensures FreeCount(k.heap.Table()) == old(FreeCount(k.heap.Table())) - 1
    ensures k.heap.table.entries[k.heap.table.total..] == old(k.heap.table.entries[k.heap.table.total..])
    ensures forall x :: 0 <= x < WORDS ==>
      k.words[x] == if address / 4 <= x < address / 4 + size / 4 then 0 else old(k.words[x])
  {
    hide Encodes;
    hide FreeCount;
    hide WithBlocks;
    hide MallocOutcome;
    hide BlocksFor;
    ghost var m, total := k.heap.table.entries[..], k.heap.table.total;
    assert m[..total] == k.heap.Table() && m[total..] == k.heap.table.entries[total..];
    s := NextBlockOutcome(m, total, k.heap.saddr, live, bs, size);
    address := k.KZalloc(size);
    ghost var after := k.heap.table.entries[..];
    assert after[..total] == k.heap.Table() && after[total..] == k.heap.table.entries[total..];
  }

  /** `kfree` of the first of the blocks `bs` a client holds. */
  method FreeFirst(k: KernelMemory, ptr: word, ghost live: Runs, ghost bs: seq<nat>)
    requires k.Valid() && bs != [] && Distinct(bs) && (forall b :: b in bs ==> b !in live)
    requires Encodes(k.heap.Table(), WithBlocks(live, bs))
    requires ptr == k.heap.saddr + bs[0] * BLOCK_SIZE
    modifies k.heap.table.entries
    ensures k.Valid()
    ensures Encodes(k.heap.Table(), WithBlocks(live, bs[1..]))
    ensures k.heap.table.entries[k.heap.table.total..] == old(k.heap.table.entries[k.heap.table.total..])
  {
    hide Encodes;
    hide WithBlocks;
    hide Freed;
    hide AddressToBlock;
    ghost var m, total := k.heap.table.entries[..], k.heap.table.total;
    assert m[..total] == k.heap.Table() && m[total..] == k.heap.table.entries[total..];
    FirstBlockOutcome(m, total, k.heap.saddr, live, bs);
    k.KFree(ptr);
    ghost var after := k.heap.table.entries[..];
    assert after[..total] == k.heap.Table() && after[total..] == k.heap.table.entries[total..];
  }
}
