/** The block heap: scanning, marking and freeing rewrite the table in place. */
module BlockHeap {
  import opened MachineWords
  import opened BlockTable

  const EINVARG := 2

  /** No 32-bit size rounds up to this many blocks. */
  const MAX_BLOCKS := 0x10_0000

  /** The size rounded up to a block multiple, in 32-bit arithmetic. */
  function AlignToUpper(val: word): word {
    if val % BLOCK_SIZE == 0 then val
    else ToWord(val - val % BLOCK_SIZE + BLOCK_SIZE)
  }

  function BlocksFor(size: word): nat {
    AlignToUpper(size) / BLOCK_SIZE
  }

  /** The rounding covers the request in fewer than one spare block, unless the addition wraps:
      the sizes above 0xfffff000 ask for no block at all. */
  lemma BlocksCover(size: word)
    ensures BlocksFor(size) < MAX_BLOCKS
    ensures size <= 0xffff_f000 ==> size <= BLOCK_SIZE * BlocksFor(size) < size + BLOCK_SIZE
    ensures size <= 0xffff_f000 <==> size <= BLOCK_SIZE * BlocksFor(size)
    ensures BlocksFor(size) == 0 <==> size == 0 || 0xffff_f000 < size
  {
  }

  /** What malloc answers and what it leaves in memory. `m` is the memory from the table's first
      byte on: the table itself is m[..total], and marking may run past it. */
  ghost function MallocOutcome(m: seq<bv8>, total: nat, saddr: word, n: nat): (r: (word, seq<bv8>))
    requires total + n <= |m|
    ensures |r.1| == |m|
  {
    var s := StartBlock(m[..total], n);
    if s < 0 then (0, m) else (ToWord(saddr + s * BLOCK_SIZE), Taken(m, s, n))
  }

  /** The pool lies in the lower memory without wrapping, does not hold address zero, and is small
      enough for the signed address difference. */
  predicate PoolFits(saddr: word, total: nat) {
    0 < saddr && saddr + total * BLOCK_SIZE <= TWO_TO_THE_32 && total * BLOCK_SIZE <= 0x8000_0000
  }

  function AddressToBlock(saddr: word, address: word): int {
    TruncDiv(ToInt32(address - saddr), BLOCK_SIZE)
  }

  function BlockToAddress(saddr: word, block: int): word {
    ToWord(saddr + block * BLOCK_SIZE)
  }

  /** Block and address conversions are inverse on the pool. */
  lemma AddressRoundTrip(saddr: word, total: nat, block: nat)
    requires PoolFits(saddr, total) && block < total
    ensures AddressToBlock(saddr, BlockToAddress(saddr, block)) == block
    ensures BlockToAddress(saddr, block) == saddr + block * BLOCK_SIZE != 0
  {
  }

  /** Any address inside a block converts to that block. */
  lemma InnerAddress(saddr: word, total: nat, address: word)
    requires PoolFits(saddr, total) && saddr <= address < saddr + total * BLOCK_SIZE
    ensures 0 <= AddressToBlock(saddr, address) < total
    ensures 0 <= address - BlockToAddress(saddr, AddressToBlock(saddr, address)) < BLOCK_SIZE
  {
  }

  /** Blocks s..s+n carry the bytes of a run, and the other bytes are kept. */
  ghost predicate RunMarked(m: seq<bv8>, after: seq<bv8>, s: int, n: nat) {
    |m| == |after| && forall i :: 0 <= i < |m| ==> after[i] == if s <= i < s + n then RunEntry(i - s, n) else m[i]
  }

  /** A granted request: the address of the least run of n free blocks, and exactly its blocks are marked. */
  ghost predicate GrantsLeast(m: seq<bv8>, total: nat, saddr: word, n: nat, address: word, after: seq<bv8>)
    requires total <= |m|
  {
    exists s: nat :: LeastRun(m[..total], n, s) && 0 != address == saddr + s * BLOCK_SIZE && RunMarked(m, after, s, n)
  }

  /** A request nothing fits in a table whose last block is free: the address of the free run that ends the
      table, whose blocks are marked, and those behind it. */
  ghost predicate SpillsFromEnd(m: seq<bv8>, total: nat, saddr: word, n: nat, address: word, after: seq<bv8>)
    requires total <= |m|
  {
    exists s: nat :: EndRun(m[..total], s) && 0 != address == saddr + s * BLOCK_SIZE && RunMarked(m, after, s, n)
  }

  /** What every request does: one that some free run holds is granted the least such run; any other is
      refused without effect when there is no free last block, and spills over the table's end when there is. */
  lemma OutcomeMeans(m: seq<bv8>, total: nat, saddr: word, n: nat)
    requires total + n <= |m| && PoolFits(saddr, total)
    ensures
      var (address, after) := MallocOutcome(m, total, saddr, n);
      if 1 <= n && exists s :: FreeRun(m[..total], s, n) then GrantsLeast(m, total, saddr, n, address, after)
      else if total == 0 || !IsFree(m[total - 1]) then address == 0 && after == m
      else SpillsFromEnd(m, total, saddr, n, address, after)
  {
    var t := m[..total];
    assert IsStartBlock(t, n, StartBlock(t, n));
    assert total != 0 ==> t[total - 1] == m[total - 1];
    hide StartBlock, FreeRun, IsFree, Taken, GrantsLeast, SpillsFromEnd, PoolFits;
    if 0 <= StartBlock(t, n) {
      Granted(m, total, saddr, n);
    }
  }

  lemma Granted(m: seq<bv8>, total: nat, saddr: word, n: nat)
    requires total + n <= |m| && PoolFits(saddr, total) && 0 <= StartBlock(m[..total], n)
    ensures
      var (s, (address, after)) := (StartBlock(m[..total], n), MallocOutcome(m, total, saddr, n));
      && (LeastRun(m[..total], n, s) ==> GrantsLeast(m, total, saddr, n, address, after))
      && (EndRun(m[..total], s) ==> SpillsFromEnd(m, total, saddr, n, address, after))
  {
    hide StartBlock, FreeRun, RunEntry, LeastRun, EndRun, RunMarked;
    var s := StartBlock(m[..total], n);
    assert RunMarked(m, Taken(m, s, n), s, n) by {
      Marked(m, s, n);
    }
    hide Taken;
    AddressRoundTrip(saddr, total, s);
  }

  lemma Marked(m: seq<bv8>, s: nat, n: nat)
    requires s + n <= |m|
    ensures RunMarked(m, Taken(m, s, n), s, n)
  {
    hide RunEntry;
  }

  class HeapTable {
    const entries: array<bv8>
    const total: nat

    constructor (entries: array<bv8>, total: nat)
      ensures this.entries == entries && this.total == total
    {
      this.entries := entries;
      this.total := total;
    }
  }

  class Heap {
    var table: HeapTable?
    var saddr: word

    /** The zeroed global before `Create`. */
    constructor ()
      ensures table == null && saddr == 0
    {
      table := null;
      saddr := 0;
    }

    /** The memory from the table's first byte on reaches past the table by as many bytes as one
        request can mark. */
    predicate Valid()
      reads this
    {
      table != null && table.total + MAX_BLOCKS <= table.entries.Length
    }

    ghost function Table(): (t: Table)
      requires Valid()
      reads this, table.entries
      ensures |t| == table.total
    {
      table.entries[..table.total]
    }

    method Create(ptr: word, end: word, table: HeapTable) returns (res: int)
      requires table.total + MAX_BLOCKS <= table.entries.Length
      modifies this, table.entries
      ensures res == 0 <==> ptr % BLOCK_SIZE == 0 && end % BLOCK_SIZE == 0
                            && table.total == ToWord(end - ptr) / BLOCK_SIZE
      ensures res == 0 || res == -EINVARG
      ensures ptr % BLOCK_SIZE == 0 && end % BLOCK_SIZE == 0 ==> this.table == table && saddr == ptr
      ensures ptr % BLOCK_SIZE != 0 || end % BLOCK_SIZE != 0 ==>
        this.table == old(this.table) && saddr == old(saddr)
      ensures table.entries[table.total..] == old(table.entries[table.total..])
      ensures res != 0 ==> table.entries[..] == old(table.entries[..])
      ensures res == 0 ==> Valid() && Encodes(Table(), map[])
    {
      if ptr % BLOCK_SIZE != 0 || end % BLOCK_SIZE != 0 {
        return -EINVARG;
      }
      this.saddr := ptr;
      this.table := table;
      var tableSize := ToWord(end - ptr);
      if table.total != tableSize / BLOCK_SIZE {
        return -EINVARG;
      }
      var i := 0;
      while i < table.total
        invariant 0 <= i <= table.total
        invariant this.table == table && saddr == ptr
        invariant forall j :: 0 <= j < i ==> table.entries[j] == FREE
        invariant table.entries[table.total..] == old(table.entries[table.total..])
      {
        table.entries[i] := FREE;
        i := i + 1;
      }
      return 0;
    }

    method GetStartBlock(n: nat) returns (r: int)
      requires Valid()
      ensures IsStartBlock(Table(), n, r)
      ensures r == StartBlock(Table(), n)
    {
      var bc, bs := 0, -1;
      ghost var t := Table();
      var i := 0;
      while i < table.total
        invariant 0 <= i <= table.total
        invariant bs == -1 ==> bc == 0 && (i == 0 || !IsFree(t[i - 1]))
        invariant bs != -1 ==> 0 <= bs < i && bc == i - bs && FreeRun(t, bs, bc)
        invariant bs != -1 ==> bs == 0 || !IsFree(t[bs - 1])
        invariant 1 <= n ==> bc < n
        invariant 1 <= n ==> forall s :: s + n <= i ==> !FreeRun(t, s, n)
        invariant t == Table()
      {
        assert table.entries[i] == t[i];
        if EntryType(table.entries[i]) != FREE {
          assert forall s :: FreeRun(t, s, n) ==> !(s <= i < s + n);
          bc, bs := 0, -1;
          i := i + 1;
          continue;
        }
        if bs == -1 {
          bs := i;
        }
        bc := bc + 1;
        if bc == n {
          assert FreeRun(t, bs, n);
          break;
        }
        assert forall s :: FreeRun(t, s, n) && s < bs ==> s + n <= bs;
        i := i + 1;
      }
      r := if bs == -1 then -ENOMEM else bs;
      StartBlockUnique(t, n, r);
    }

    method MarkBlocksTaken(startBlock: nat, totalBlocks: nat)
      requires Valid() && startBlock + totalBlocks <= table.entries.Length
      modifies table.entries
      ensures table.entries[..] == Taken(old(table.entries[..]), startBlock, totalBlocks)
    {
      var endBlock := startBlock + totalBlocks - 1;
      var entry := TAKEN | IS_FIRST;
      if totalBlocks > 1 {
        entry := entry | HAS_NEXT;
      }
      var i := startBlock;
      while i <= endBlock
        invariant startBlock <= i <= endBlock + 1
        invariant i <= endBlock ==> entry == RunEntry(i - startBlock, totalBlocks)
        invariant forall j :: startBlock <= j < i ==> table.entries[j] == RunEntry(j - startBlock, totalBlocks)
        invariant forall j :: 0 <= j < startBlock || i <= j < table.entries.Length ==>
          table.entries[j] == old(table.entries[j])
      {
        table.entries[i] := entry;
        entry := TAKEN;
        if i != endBlock - 1 {
          entry := entry | HAS_NEXT;
        }
        i := i + 1;
      }
    }

    method MallocBlocks(totalBlocks: nat) returns (address: word)
      requires Valid() && totalBlocks < MAX_BLOCKS
      modifies table.entries
      ensures (address, table.entries[..]) ==
        MallocOutcome(old(table.entries[..]), table.total, saddr, totalBlocks)
    {
      var startBlock := GetStartBlock(totalBlocks);
      if startBlock < 0 {
        return 0;
      }
      address := BlockToAddress(saddr, startBlock);
      MarkBlocksTaken(startBlock, totalBlocks);
    }

    method MarkBlocksFree(startingBlock: nat)
      requires Valid()
      modifies table.entries
      ensures table.entries[..] == Freed(old(table.entries[..]), table.total, startingBlock)
    {
      var i := startingBlock;
      while i < table.total
        invariant startingBlock <= i
        invariant Freed(table.entries[..], table.total, i)
               == Freed(old(table.entries[..]), table.total, startingBlock)
        decreases table.total - i
      {
        var entry := table.entries[i];
        ghost var before := table.entries[..];
        table.entries[i] := FREE;
        assert table.entries[..] == before[i := FREE];
        if entry & HAS_NEXT == 0 {
          return;
        }
        i := i + 1;
      }
    }

    method Malloc(size: word) returns (address: word)
      requires Valid()
      modifies table.entries
      ensures BlocksFor(size) < MAX_BLOCKS
      ensures (address, table.entries[..]) ==
        MallocOutcome(old(table.entries[..]), table.total, saddr, BlocksFor(size))
      ensures PoolFits(saddr, table.total) && 1 <= BlocksFor(size) && old(exists s :: FreeRun(Table(), s, BlocksFor(size))) ==>
        GrantsLeast(old(table.entries[..]), table.total, saddr, BlocksFor(size), address, table.entries[..])
    {
      BlocksCover(size);
      var alignedSize := AlignToUpper(size);
      var totalBlocks := alignedSize / BLOCK_SIZE;
      if PoolFits(saddr, table.total) && 1 <= totalBlocks {
        OutcomeMeans(table.entries[..], table.total, saddr, totalBlocks);
      }
      address := MallocBlocks(totalBlocks);
    }

    /** The table is indexed from the pool's start on, so the address must not lie below it. */
    method Free(ptr: word)
      requires Valid() && 0 <= AddressToBlock(saddr, ptr)
      modifies table.entries
      ensures table.entries[..] == Freed(old(table.entries[..]), table.total, AddressToBlock(saddr, ptr))
    {
      MarkBlocksFree(AddressToBlock(saddr, ptr));
    }
  }
}
