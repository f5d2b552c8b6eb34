/** The life of a 4 GB address space: it is built from 1026 heap blocks, edited, and given back. */
module AddressSpace {
  import opened MachineWords
  import opened BlockTable
  import opened KernelHeap
  import opened Paging

  /** Page frames of the physical address space. */
  const FRAMES := 0x10_0000

  function PageAddress(p: nat): (r: word)
    requires p < FRAMES
    ensures r % PAGE_SIZE == 0 && r / 4 == p * ENTRIES && IsDirectory(r)
  {
    p * PAGE_SIZE
  }

  /** The entry of an untouched table: page b of the i-th 4 MB, with the flags. */
  function IdentityEntry(i: nat, b: nat, flags: byte): word
    requires i < ENTRIES && b < ENTRIES
  {
    i * TABLE_SPAN + b * PAGE_SIZE + flags
  }

  /** The signed running offset wraps halfway through the address space; as a word it is right. */
  lemma OffsetAsWord(i: nat, b: nat)
    requires i < ENTRIES && b < ENTRIES
    ensures ToWord(ToInt32(i * TABLE_SPAN) + b * PAGE_SIZE) == i * TABLE_SPAN + b * PAGE_SIZE
  {
  }

  /** The code computes the entry as `(offset + b * 4096) | flags`. */
  lemma IdentityEntryBits(i: nat, b: nat, flags: byte)
    requires i < ENTRIES && b < ENTRIES
    ensures BitOr(i * TABLE_SPAN + b * PAGE_SIZE, flags) == IdentityEntry(i, b, flags)
  {
    hide BitOr;
    OrFlags(i * ENTRIES + b, 0, flags);
    OrZero(flags);
  }

  /** The flags with the writeable bit set. */
  function WithWriteable(flags: byte): (r: nat)
    ensures r < 256 && r % 2 == flags % 2
  {
    if flags / 2 % 2 == 0 then flags + 2 else flags
  }

  lemma SplitLowBits(f: nat) returns (a: nat, b: nat, c: nat)
    ensures b < 2 && c < 2 && f == 2 * (2 * a + b) + c
    ensures b == f / 2 % 2
  {
    a, b, c := f / 2 / 2, f / 2 % 2, f % 2;
  }

  lemma SetWriteable(flags: byte)
    ensures BitOr(flags, IS_WRITEABLE) == WithWriteable(flags)
  {
    hide BitOr;
    var a, b, c := SplitLowBits(flags);
    BitStep(2 * a + b, 1, c, 0);
    BitStep(a, 0, b, 1);
    OrZero(a);
  }

  /** The entry that names a table: its frame, the flags, and the writeable bit. */
  function DirectoryEntry(table: nat, flags: byte): (r: word)
    requires table < FRAMES
  {
    PageAddress(table) + WithWriteable(flags)
  }

  lemma LowPageBits(p: nat, low: nat)
    requires low < PAGE_SIZE
    ensures (p * PAGE_SIZE + low) % PAGE_SIZE == low
  {
  }

  lemma LowestBit(p: nat, low: nat)
    ensures (p * PAGE_SIZE + low) % 2 == low % 2
  {
    assert p * PAGE_SIZE + low == 2 * (2048 * p) + low;
  }

  /** The table is found again by masking the entry, and the entry is present when the flags say
      so. */
  lemma DirectoryEntryNames(table: nat, flags: byte)
    requires table < FRAMES
    ensures Frame(DirectoryEntry(table, flags)) == PageAddress(table)
    ensures DirectoryEntry(table, flags) % 2 == flags % 2
  {
    LowPageBits(table, WithWriteable(flags));
    LowestBit(table, WithWriteable(flags));
  }

  /** The code computes it as `table | flags | PAGING_IS_WRITEABLE`. */
  lemma DirectoryEntryBits(table: nat, flags: byte)
    requires table < FRAMES
    ensures BitOr(BitOr(PageAddress(table), flags), IS_WRITEABLE) == DirectoryEntry(table, flags)
  {
    hide BitOr;
    OrFlags(table, 0, flags);
    OrZero(flags);
    OrFlags(table, flags, IS_WRITEABLE);
    SetWriteable(flags);
  }

  // ---------------------------------------------------------------- the finished structure

  /** Chunk, directory and 1024 tables sit in different page frames; the chunk names the directory
      and each directory entry its table. */
  ghost predicate IsAddressSpace(m: seq<word>, chunk: nat, dir: nat, tables: seq<nat>)
    requires |m| == WORDS
  {
    && |tables| == ENTRIES && Distinct(tables + [dir, chunk])
    && (forall p :: p in tables + [dir, chunk] ==> p < FRAMES)
    && dir < FRAMES && chunk < FRAMES
    && m[chunk * ENTRIES] == PageAddress(dir)
    && (forall i :: 0 <= i < ENTRIES ==> tables[i] < FRAMES && Frame(m[dir * ENTRIES + i]) == PageAddress(tables[i]))
  }

  lemma DirectoryNames(m: seq<word>, chunk: nat, dir: nat, tables: seq<nat>, i: nat)
    requires |m| == WORDS && IsAddressSpace(m, chunk, dir, tables) && i < ENTRIES
    ensures tables[i] < FRAMES && tables[i] != dir && tables[i] != chunk
    ensures Frame(Directory(m, PageAddress(dir), i)) == PageAddress(tables[i])
  {
    var bs := tables + [dir, chunk];
    assert bs[i] != bs[ENTRIES] && bs[i] != bs[ENTRIES + 1];
  }

  /** Alias freedom of the page tables follows from the frames being different. */
  lemma AddressSpaceAliasFree(m: seq<word>, chunk: nat, dir: nat, tables: seq<nat>)
    requires |m| == WORDS && IsAddressSpace(m, chunk, dir, tables)
    ensures AliasFree(m, PageAddress(dir))
  {
    forall i, j | 0 <= i < j < ENTRIES
      ensures Frame(Directory(m, PageAddress(dir), i)) != Frame(Directory(m, PageAddress(dir), j))
    {
      DirectoryNames(m, chunk, dir, tables, i);
      DirectoryNames(m, chunk, dir, tables, j);
      assert (tables + [dir, chunk])[i] != (tables + [dir, chunk])[j];
    }
    forall i | 0 <= i < ENTRIES
      ensures Frame(Directory(m, PageAddress(dir), i)) != PageAddress(dir)
    {
      DirectoryNames(m, chunk, dir, tables, i);
    }
  }

  /** The word of a translation lies in the page of its table. */
  lemma SlotInTable(m: seq<word>, chunk: nat, dir: nat, tables: seq<nat>, virt: word)
    requires |m| == WORDS && IsAddressSpace(m, chunk, dir, tables)
    ensures var t := tables[DirectoryIndex(virt)] * ENTRIES; t <= Slot(m, PageAddress(dir), virt) < t + ENTRIES
  {
    DirectoryNames(m, chunk, dir, tables, DirectoryIndex(virt));
  }

  /** Editing a translation keeps the structure. */
  lemma UpdateKeepsStructure(m: seq<word>, chunk: nat, dir: nat, tables: seq<nat>, virt: word, val: word)
    requires |m| == WORDS && IsAddressSpace(m, chunk, dir, tables)
    ensures IsAddressSpace(Update(m, PageAddress(dir), virt, val), chunk, dir, tables)
  {
    SlotInTable(m, chunk, dir, tables, virt);
    DirectoryNames(m, chunk, dir, tables, DirectoryIndex(virt));
  }

  // ---------------------------------------------------------------- building

  /** Table frame t holds the identity entries of the i-th 4 MB. */
  ghost predicate IdentityTable(m: seq<word>, t: nat, i: nat, flags: byte)
    requires |m| == WORDS && t < FRAMES && i < ENTRIES
  {
    forall x :: t * ENTRIES <= x < t * ENTRIES + ENTRIES ==> m[x] == IdentityEntry(i, x - t * ENTRIES, flags)
  }

  /** The first |tables| tables are filled and entered into the directory. */
  ghost predicate Built(m: seq<word>, dir: nat, tables: seq<nat>, flags: byte)
    requires |m| == WORDS
  {
    && |tables| <= ENTRIES && dir < FRAMES && Distinct([dir] + tables)
    && (forall i :: 0 <= i < |tables| ==> tables[i] < FRAMES)
    && (forall i :: 0 <= i < |tables| ==> m[dir * ENTRIES + i] == DirectoryEntry(tables[i], flags))
    && (forall i :: 0 <= i < |tables| ==> IdentityTable(m, tables[i], i, flags))
  }

  /** Two memories agree outside page frame t. */
  ghost predicate SameOutside(m: seq<word>, u: seq<word>, t: nat)
    requires |m| == WORDS == |u|
  {
    forall x :: 0 <= x < WORDS && !(t * ENTRIES <= x < t * ENTRIES + ENTRIES) ==> u[x] == m[x]
  }

  /** Writing in a page frame of its own keeps what is built. */
  lemma BuiltFrame(m: seq<word>, u: seq<word>, dir: nat, tables: seq<nat>, flags: byte, t: nat)
    requires |m| == WORDS == |u| && Built(m, dir, tables, flags) && SameOutside(m, u, t)
    requires t !in [dir] + tables
    ensures Built(u, dir, tables, flags)
  {
    forall i | 0 <= i < |tables|
      ensures u[dir * ENTRIES + i] == DirectoryEntry(tables[i], flags)
      ensures IdentityTable(u, tables[i], i, flags)
    {
      assert t != ([dir] + tables)[0] && t != ([dir] + tables)[i + 1];
      assert IdentityTable(m, tables[i], i, flags);
    }
  }

  /** A filled table entered at the next directory index extends what is built. */
  lemma BuiltExtend(m: seq<word>, dir: nat, tables: seq<nat>, flags: byte, t: nat)
    requires |m| == WORDS && Built(m, dir, tables, flags) && |tables| < ENTRIES
    requires t !in [dir] + tables && t < FRAMES && IdentityTable(m, t, |tables|, flags)
    ensures Built(m[dir * ENTRIES + |tables| := DirectoryEntry(t, flags)], dir, tables + [t], flags)
  {
    var u := m[dir * ENTRIES + |tables| := DirectoryEntry(t, flags)];
    var more := tables + [t];
    assert [dir] + more == [dir] + tables + [t];
    assert t != ([dir] + tables)[0];
    forall i | 0 <= i < |more|
      ensures u[dir * ENTRIES + i] == DirectoryEntry(more[i], flags)
      ensures IdentityTable(u, more[i], i, flags)
    {
      if i < |tables| {
        assert ([dir] + tables)[0] != ([dir] + tables)[i + 1];
        assert IdentityTable(m, tables[i], i, flags);
      }
    }
  }

  /** The inner loop of `paging_new_4gb`: fills one table from the running offset. */
  method FillTable(words: array<word>, entry: word, offset: int, flags: byte, ghost t: nat, ghost i: nat)
    requires words.Length == WORDS && t < FRAMES && entry == PageAddress(t)
    requires i < ENTRIES && offset == ToInt32(i * TABLE_SPAN)
    modifies words
    ensures IdentityTable(words[..], t, i, flags)
    ensures SameOutside(old(words[..]), words[..], t)
  {
    ghost var before := words[..];
    var b := 0;
    while b < ENTRIES
      invariant 0 <= b <= ENTRIES
      invariant forall x :: t * ENTRIES <= x < t * ENTRIES + b ==> words[x] == IdentityEntry(i, x - t * ENTRIES, flags)
      invariant forall x :: 0 <= x < WORDS && !(t * ENTRIES <= x < t * ENTRIES + ENTRIES) ==> words[x] == before[x]
    {
      hide BitOr;
      OffsetAsWord(i, b);
      IdentityEntryBits(i, b, flags);
      words[entry / 4 + b] := BitOr(ToWord(offset + b * PAGE_SIZE), flags);
      b := b + 1;
    }
  }

  // ---------------------------------------------------------------- heap blocks as page frames

  /** The page frames of heap blocks, for a pool that starts at page frame `base`. */
  ghost function FramesOf(base: nat, bs: seq<nat>): (r: seq<nat>)
    ensures |r| == |bs|
    ensures forall i :: 0 <= i < |bs| ==> r[i] == base + bs[i]
  {
    seq(|bs|, i requires 0 <= i < |bs| => base + bs[i])
  }

  lemma FramesOfFresh(base: nat, bs: seq<nat>, s: nat)
    requires Distinct(bs) && s !in bs
    ensures base + s !in FramesOf(base, bs)
    ensures FramesOf(base, bs + [s]) == FramesOf(base, bs) + [base + s]
    ensures Distinct(bs + [s])
  {
  }

  lemma FramesOfDistinct(base: nat, bs: seq<nat>)
    requires Distinct(bs)
    ensures Distinct(FramesOf(base, bs))
  {
  }

  /** What a finished address space holds of the heap: the blocks of directory, tables and chunk, in
      the order they were taken. */
  ghost predicate HoldsBlocks(k: KernelMemory, live: Runs, bs: seq<nat>, chunk: nat, dir: nat, tables: seq<nat>)
    requires k.Valid()
    reads k, k.heap, k.heap.table.entries
  {
    && Distinct(bs) && (forall b :: b in bs ==> b !in live)
    && FramesOf(k.heap.saddr / PAGE_SIZE, bs) == [dir] + tables + [chunk]
    && Encodes(k.heap.Table(), WithBlocks(live, bs))
  }

  lemma FinishedStructure(m: seq<word>, chunk: nat, dir: nat, tables: seq<nat>, flags: byte)
    requires |m| == WORDS && |tables| == ENTRIES && Built(m, dir, tables, flags)
    requires chunk < FRAMES && Distinct([dir] + tables + [chunk])
    ensures IsAddressSpace(m[chunk * ENTRIES := PageAddress(dir)], chunk, dir, tables)
    ensures Built(m[chunk * ENTRIES := PageAddress(dir)], dir, tables, flags)
  {
    var u := m[chunk * ENTRIES := PageAddress(dir)];
    FinishedDistinct(dir, tables, chunk);
    BuiltFrame(m, u, dir, tables, flags, chunk);
    hide Distinct;
    forall i | 0 <= i < ENTRIES
      ensures tables[i] < FRAMES && Frame(u[dir * ENTRIES + i]) == PageAddress(tables[i])
    {
      DirectoryEntryNames(tables[i], flags);
    }
  }

  lemma FinishedDistinct(dir: nat, tables: seq<nat>, chunk: nat)
    requires |tables| == ENTRIES && Distinct([dir] + tables + [chunk])
    ensures Distinct(tables + [dir, chunk]) && chunk !in [dir] + tables && dir != chunk
  {
    var all, bs := [dir] + tables + [chunk], tables + [dir, chunk];
    assert all[0] != all[ENTRIES + 1];
    forall i | 0 <= i <= ENTRIES
      ensures ([dir] + tables)[i] != chunk
    {
      assert all[i] != all[ENTRIES + 1];
    }
    forall i, j | 0 <= i < j < |bs|
      ensures bs[i] != bs[j]
    {
      var p := if i < ENTRIES then i + 1 else if i == ENTRIES then 0 else ENTRIES + 1;
      var q := if j < ENTRIES then j + 1 else if j == ENTRIES then 0 else ENTRIES + 1;
      assert all[p] == bs[i] && all[q] == bs[j];
      assert all[if p < q then p else q] != all[if p < q then q else p];
    }
  }

  /** What the construction holds after a number of tables. */
  ghost predicate Building(k: KernelMemory, live: Runs, bs: seq<nat>, dir: nat, tables: seq<nat>, flags: byte)
    requires k.Valid()
    reads k, k.heap, k.heap.table.entries, k.words
  {
    && Distinct(bs) && (forall b :: b in bs ==> b !in live)
    && FramesOf(k.heap.saddr / PAGE_SIZE, bs) == [dir] + tables
    && Encodes(k.heap.Table(), WithBlocks(live, bs))
    && Built(k.words[..], dir, tables, flags)
  }

  /** One turn of the outer loop: takes a table, fills it and enters it into the directory. */
  method AddTable(k: KernelMemory, directory: word, i: nat, offset: int, flags: byte, ghost live: Runs,
                  ghost bs: seq<nat>, ghost dir: nat, ghost tables: seq<nat>)
    returns (ghost s: nat, ghost t: nat)
    requires k.Valid() && k.RoomAbove(BLOCK_SIZE) && |tables| == i < ENTRIES
    requires Building(k, live, bs, dir, tables, flags) && 1 <= FreeCount(k.heap.Table())
    requires directory == PageAddress(dir) && offset == ToInt32(i * TABLE_SPAN)
    modifies k.heap.table.entries, k.words
    ensures k.Valid() && Building(k, live, bs + [s], dir, tables + [t], flags)
    ensures FreeCount(k.heap.Table()) == old(FreeCount(k.heap.Table())) - 1
    ensures k.heap.table.entries[k.heap.table.total..] == old(k.heap.table.entries[k.heap.table.total..])
  {
    hide Encodes;
    hide FreeCount;
    hide WithBlocks;
    hide BitOr;
    hide Built;
    hide IdentityTable;
    ghost var base := k.heap.saddr / PAGE_SIZE;
    ghost var before := k.words[..];
    var entry;
    entry, s := ZallocPage(k, 4 * ENTRIES, live, bs);
    t := base + s;
    FramesOfFresh(base, bs, s);
    ghost var zeroed := k.words[..];
    assert SameOutside(before, zeroed, t);
    FillTable(k.words, entry, offset, flags, t, i);
    ghost var filled := k.words[..];
    BuiltFrame(before, filled, dir, tables, flags, t);
    BuiltExtend(filled, dir, tables, flags, t);
    DirectoryEntryBits(t, flags);
    k.words[directory / 4 + i] := BitOr(BitOr(entry, flags), IS_WRITEABLE);
  }

  method NewChunk(k: KernelMemory, flags: byte, ghost live: Runs)
    returns (chunk: word, ghost bs: seq<nat>, ghost chunkFrame: nat, ghost dir: nat, ghost tables: seq<nat>)
    requires k.Valid() && k.RoomAbove(BLOCK_SIZE)
    requires Encodes(k.heap.Table(), live) && ENTRIES + 2 <= FreeCount(k.heap.Table())
    modifies k.heap.table.entries, k.words
    ensures k.Valid() && chunkFrame < FRAMES && chunk == PageAddress(chunkFrame)
    ensures IsAddressSpace(k.words[..], chunkFrame, dir, tables)
    ensures HoldsBlocks(k, live, bs, chunkFrame, dir, tables)
    ensures Built(k.words[..], dir, tables, flags)
    ensures FreeCount(k.heap.Table()) == old(FreeCount(k.heap.Table())) - (ENTRIES + 2)
    ensures k.heap.table.entries[k.heap.table.total..] == old(k.heap.table.entries[k.heap.table.total..])
  {
    hide FreeCount, Building, HoldsBlocks, Built, IsAddressSpace;
    ghost var s: nat, t: nat;
    var directory;
    directory, s := NewDirectory(k, flags, live);
    hide Encodes;
    bs, dir, tables := [s], k.heap.saddr / PAGE_SIZE + s, [];
    var offset := 0;
    var i := 0;
    while i < ENTRIES
      invariant 0 <= i <= ENTRIES && |tables| == i && dir < FRAMES
      invariant k.Valid() && directory == PageAddress(dir) && offset == ToInt32(i * TABLE_SPAN)
      invariant Building(k, live, bs, dir, tables, flags)
      invariant FreeCount(k.heap.Table()) == old(FreeCount(k.heap.Table())) - 1 - i
      invariant k.heap.table.entries[k.heap.table.total..] == old(k.heap.table.entries[k.heap.table.total..])
    {
      s, t := AddTable(k, directory, i, offset, flags, live, bs, dir, tables);
      bs, tables := bs + [s], tables + [t];
      offset := ToInt32(offset + ENTRIES * PAGE_SIZE);
      i := i + 1;
    }
    chunk, chunkFrame, s := AddChunk(k, directory, flags, live, bs, dir, tables);
    bs := bs + [s];
  }

  /** The first step: an empty directory. */
  method NewDirectory(k: KernelMemory, flags: byte, ghost live: Runs) returns (directory: word, ghost s: nat)
    requires k.Valid() && k.RoomAbove(BLOCK_SIZE)
    requires Encodes(k.heap.Table(), live) && 1 <= FreeCount(k.heap.Table())
    modifies k.heap.table.entries, k.words
    ensures k.Valid() && k.heap.saddr / PAGE_SIZE + s < FRAMES
    ensures directory == PageAddress(k.heap.saddr / PAGE_SIZE + s)
    ensures Building(k, live, [s], k.heap.saddr / PAGE_SIZE + s, [], flags)
    ensures FreeCount(k.heap.Table()) == old(FreeCount(k.heap.Table())) - 1
    ensures k.heap.table.entries[k.heap.table.total..] == old(k.heap.table.entries[k.heap.table.total..])
  {
    hide Encodes, FreeCount, WithBlocks, Built, FramesOf;
    NoBlocks(live);
    directory, s := ZallocPage(k, 4 * ENTRIES, live, []);
    assert [] + [s] == [s];
    NoTables(k.words[..], k.heap.saddr / PAGE_SIZE, s, flags);
  }

  lemma NoTables(m: seq<word>, base: nat, s: nat, flags: byte)
    requires |m| == WORDS && base + s < FRAMES
    ensures Built(m, base + s, [], flags) && FramesOf(base, [s]) == [base + s] + []
  {
  }

  /** The last step: the chunk structure that names the directory. */
  method AddChunk(k: KernelMemory, directory: word, flags: byte, ghost live: Runs,
                  ghost bs: seq<nat>, ghost dir: nat, ghost tables: seq<nat>)
    returns (chunk: word, ghost chunkFrame: nat, ghost s: nat)
    requires k.Valid() && k.RoomAbove(BLOCK_SIZE) && |tables| == ENTRIES && dir < FRAMES
    requires Building(k, live, bs, dir, tables, flags) && 1 <= FreeCount(k.heap.Table())
    requires directory == PageAddress(dir)
    modifies k.heap.table.entries, k.words
    ensures k.Valid() && chunkFrame < FRAMES && chunk == PageAddress(chunkFrame)
    ensures IsAddressSpace(k.words[..], chunkFrame, dir, tables)
    ensures HoldsBlocks(k, live, bs + [s], chunkFrame, dir, tables)
    ensures Built(k.words[..], dir, tables, flags)
    ensures FreeCount(k.heap.Table()) == old(FreeCount(k.heap.Table())) - 1
    ensures k.heap.table.entries[k.heap.table.total..] == old(k.heap.table.entries[k.heap.table.total..])
  {
    hide Encodes;
    hide FreeCount;
    hide WithBlocks;
    hide IdentityTable;
    hide IsAddressSpace;
    ghost var before := k.words[..];
    chunk, s := ZallocPage(k, 4, live, bs);
    chunkFrame := k.heap.saddr / PAGE_SIZE + s;
    FramesOfFresh(k.heap.saddr / PAGE_SIZE, bs, s);
    ghost var zeroed := k.words[..];
    assert SameOutside(before, zeroed, chunkFrame);
    BuiltFrame(before, zeroed, dir, tables, flags, chunkFrame);
    FramesOfDistinct(k.heap.saddr / PAGE_SIZE, bs + [s]);
    FinishedStructure(zeroed, chunkFrame, dir, tables, flags);
    k.words[chunk / 4] := directory;
    assert k.words[..] == zeroed[chunkFrame * ENTRIES := PageAddress(dir)];
  }

  lemma NoBlocks(live: Runs)
    ensures WithBlocks(live, []) == live
  {
  }

  // ---------------------------------------------------------------- the identity map

  /** In a finished address space the walk of every 32-bit address yields its own page frame with
      exactly the flags, and with the present flag every access goes to its own address. */
  lemma IdentityMap(m: seq<word>, dir: nat, tables: seq<nat>, flags: byte, va: word)
    requires |m| == WORDS && Built(m, dir, tables, flags) && |tables| == ENTRIES
    ensures Walk(m, PageAddress(dir), va) == PageOf(va) + flags
    ensures Frame(Walk(m, PageAddress(dir), va)) == PageOf(va)
    ensures Directory(m, PageAddress(dir), DirectoryIndex(va)) % 2 == flags % 2
    ensures Translate(m, PageAddress(dir), va) == if flags % 2 == 1 then va else -1
  {
    var i, b := DirectoryIndex(va), TableIndex(va);
    DirectoryEntryNames(tables[i], flags);
    assert m[dir * ENTRIES + i] == DirectoryEntry(tables[i], flags);
    assert IdentityTable(m, tables[i], i, flags);
    assert Walk(m, PageAddress(dir), va) == IdentityEntry(i, b, flags);
    IndexSplit(va);
    LowestBit(i * ENTRIES + b, flags);
    LowPageBits(i * ENTRIES + b, flags);
  }

  lemma NextPagesDiffer(a: word, b: word)
    requires a % PAGE_SIZE == 0 && b % PAGE_SIZE == 0 && a != b
    ensures NextPage(a) != NextPage(b) && PageOf(NextPage(a)) == NextPage(a) && NextPage(a) != a
    ensures PagesAfter(a, NextPage(a)) == 1
  {
  }

  lemma MapEntryBits(phys: word, flags: byte)
    requires phys % PAGE_SIZE == 0
    ensures MapEntry(phys, flags) == phys + flags
  {
    hide BitOr;
    OrFlags(phys / PAGE_SIZE, 0, flags);
    OrZero(flags);
  }

  /** Two pages mapped elsewhere in a finished address space: the loop as written leaves the second one
      at its identity. */
  lemma SecondPageKept(m: seq<word>, chunk: nat, dir: nat, tables: seq<nat>, flags: byte, virt: word, phys: word)
    requires |m| == WORDS && IsAddressSpace(m, chunk, dir, tables)
    requires |tables| == ENTRIES && Built(m, dir, tables, flags)
    requires virt % PAGE_SIZE == 0 && phys % PAGE_SIZE == 0 && virt != phys
    ensures
      var d, vals, next := PageAddress(dir), RangeEntries(phys, 2, flags), NextPage(virt);
      && Walk(Update(m, d, virt, vals[0]), d, next) == next + flags
      && RangeWalk(m, d, virt, vals, next) == NextPage(phys) + flags != next + flags
  {
    assert dir < FRAMES;
    hide IsAddressSpace, Built, BitOr, AliasFree, Walk, Update, PagesAfter;
    var d, vals, next := PageAddress(dir), RangeEntries(phys, 2, flags), NextPage(virt);
    AddressSpaceAliasFree(m, chunk, dir, tables);
    SingleUpdate(m, d, virt, vals[0]);
    NextPagesDiffer(virt, phys);
    IdentityMap(m, dir, tables, flags, next);
    RangeEntryAt(phys, 2, flags, 1);
    OnePageOnPhys(phys, 1);
    MapEntryBits(NextPage(phys), flags);
  }

  // ---------------------------------------------------------------- giving it back

  /** The order `paging_free_4gb` frees in: the tables, the directory, the chunk. */
  ghost function FreeOrder(bs: seq<nat>): (r: seq<nat>)
    requires |bs| == ENTRIES + 2
    ensures |r| == |bs|
  {
    bs[1..ENTRIES + 1] + [bs[0], bs[ENTRIES + 1]]
  }

  lemma FreeOrderIsSame(live: Runs, bs: seq<nat>)
    requires |bs| == ENTRIES + 2 && Distinct(bs)
    ensures Distinct(FreeOrder(bs))
    ensures forall b :: b in FreeOrder(bs) <==> b in bs
    ensures WithBlocks(live, FreeOrder(bs)) == WithBlocks(live, bs)
  {
    var r := FreeOrder(bs);
    forall b
      ensures b in r <==> b in bs
    {
      if b in bs {
        var i :| 0 <= i < |bs| && bs[i] == b;
        assert r[if i == 0 then ENTRIES else if i <= ENTRIES then i - 1 else i] == b;
      }
    }
  }

  lemma BlocksOfFrames(base: nat, bs: seq<nat>, chunk: nat, dir: nat, tables: seq<nat>)
    requires FramesOf(base, bs) == [dir] + tables + [chunk] && |tables| == ENTRIES
    ensures |bs| == ENTRIES + 2 && dir == base + bs[0] && chunk == base + bs[ENTRIES + 1]
    ensures forall i :: 0 <= i < ENTRIES ==> tables[i] == base + bs[i + 1]
  {
    var all := [dir] + tables + [chunk];
    assert |all| == ENTRIES + 2 && all[0] == dir && all[ENTRIES + 1] == chunk;
    forall i | 0 <= i < ENTRIES
      ensures tables[i] == base + bs[i + 1]
    {
      assert all[i + 1] == tables[i];
    }
  }

  method FreeChunk(k: KernelMemory, chunk: word, ghost live: Runs, ghost bs: seq<nat>,
                   ghost chunkFrame: nat, ghost dir: nat, ghost tables: seq<nat>)
    requires k.Valid() && chunkFrame < FRAMES && chunk == PageAddress(chunkFrame)
    requires IsAddressSpace(k.words[..], chunkFrame, dir, tables)
    requires HoldsBlocks(k, live, bs, chunkFrame, dir, tables)
    modifies k.heap.table.entries
    ensures k.Valid() && Encodes(k.heap.Table(), live)
    ensures k.heap.table.entries[k.heap.table.total..] == old(k.heap.table.entries[k.heap.table.total..])
  {
    hide Encodes;
    hide WithBlocks;
    hide BitAnd;
    BlocksOfFrames(k.heap.saddr / PAGE_SIZE, bs, chunkFrame, dir, tables);
    ghost var rest := FreeOrder(bs);
    FreeOrderIsSame(live, bs);
    var directory := k.words[chunk / 4];
    var i := 0;
    while i < 1024
      invariant 0 <= i <= ENTRIES
      invariant k.Valid()
      invariant Encodes(k.heap.Table(), WithBlocks(live, rest[i..]))
      invariant k.heap.table.entries[k.heap.table.total..] == old(k.heap.table.entries[k.heap.table.total..])
    {
      var entry := k.words[directory / 4 + i];
      FrameIsMask(entry);
      var table := BitAnd(entry, 0xffff_f000);
      assert rest[i..][0] == bs[i + 1];
      FreeFirst(k, table, live, rest[i..]);
      assert rest[i..][1..] == rest[i + 1..];
      i := i + 1;
    }
    FreeFirst(k, directory, live, rest[1024..]);
    FreeFirst(k, chunk, live, rest[1024..][1..]);
    assert rest[1024..][1..][1..] == [];
    NoBlocks(live);
  }

  // ---------------------------------------------------------------- a whole life

  /** The calls a client makes on a directory. */
  datatype Edit =
    | SetEntry(virt: word, val: word)
    | MapPage(virt: word, phys: word, flags: int)
    | MapPages(virt: word, phys: word, physEnd: word, flags: int)

  /** The one word a call stores, if its arguments are accepted. */
  datatype Store = NoStore | StoreAt(page: word, val: word)

  function StoreOf(e: Edit): Store {
    match e
    case SetEntry(virt, val) =>
      if virt % PAGE_SIZE == 0 then StoreAt(virt, val) else NoStore
    case MapPage(virt, phys, flags) =>
      if virt % PAGE_SIZE == 0 && phys % PAGE_SIZE == 0 then StoreAt(virt, MapEntry(phys, flags)) else NoStore
    case MapPages(virt, phys, physEnd, flags) =>
      if virt % PAGE_SIZE == 0 && phys % PAGE_SIZE == 0 && physEnd % PAGE_SIZE == 0 && phys < physEnd
      then StoreAt(virt, MapEntry(phys, flags)) else NoStore
  }

  function Stored(m: seq<word>, dir: word, s: Store): (u: seq<word>)
    requires |m| == WORDS && IsDirectory(dir)
    ensures |u| == WORDS
  {
    match s
    case NoStore => m
    case StoreAt(page, val) => Update(m, dir, page, val)
  }

  method Apply(k: KernelMemory, directory: word, e: Edit) returns (res: int)
    requires k.words.Length == WORDS && IsDirectory(directory)
    modifies k.words
    ensures k.words[..] == Stored(old(k.words[..]), directory, StoreOf(e))
  {
    match e
    case SetEntry(virt, val) => res := Set(k, directory, virt, val);
    case MapPage(virt, phys, flags) => res := Map(k, directory, virt, phys, flags);
    case MapPages(virt, phys, physEnd, flags) => res := MapTo(k, directory, virt, phys, physEnd, flags);
  }

  /** The entry of an address after the calls: the last value stored for its page, or the one it
      started with. */
  function LastStored(edits: seq<Edit>, va: word, start: word): word {
    if edits == [] then start
    else
      match StoreOf(edits[|edits| - 1])
      case NoStore => LastStored(edits[..|edits| - 1], va, start)
      case StoreAt(page, val) =>
        if PageOf(va) == page then val else LastStored(edits[..|edits| - 1], va, start)
  }

  function Edited(m: seq<word>, dir: word, edits: seq<Edit>): (u: seq<word>)
    requires |m| == WORDS && IsDirectory(dir)
    ensures |u| == WORDS
  {
    if edits == [] then m
    else Stored(Edited(m, dir, edits[..|edits| - 1]), dir, StoreOf(edits[|edits| - 1]))
  }

  /** Over any sequence of calls the structure stands and every translation is the last one stored. */
  lemma {:induction false} EditsLaw(m: seq<word>, chunk: nat, dir: nat, tables: seq<nat>, edits: seq<Edit>)
    requires |m| == WORDS && IsAddressSpace(m, chunk, dir, tables)
    ensures IsAddressSpace(Edited(m, PageAddress(dir), edits), chunk, dir, tables)
    ensures forall va: word ::
      Walk(Edited(m, PageAddress(dir), edits), PageAddress(dir), va)
      == LastStored(edits, va, Walk(m, PageAddress(dir), va))
  {
    if edits != [] {
      var fewer, s := edits[..|edits| - 1], StoreOf(edits[|edits| - 1]);
      var u := Edited(m, PageAddress(dir), fewer);
      EditsLaw(m, chunk, dir, tables, fewer);
      if s.StoreAt? {
        assert s.page % PAGE_SIZE == 0;
        AddressSpaceAliasFree(u, chunk, dir, tables);
        SingleUpdate(u, PageAddress(dir), s.page, s.val);
        UpdateKeepsStructure(u, chunk, dir, tables, s.page, s.val);
      }
    }
  }

  /** Every translation of an edited address space is the last one stored, or the identity. */
  lemma EditedIdentity(m: seq<word>, chunk: nat, dir: nat, tables: seq<nat>, flags: byte, edits: seq<Edit>)
    requires |m| == WORDS && IsAddressSpace(m, chunk, dir, tables) && Built(m, dir, tables, flags)
    ensures dir < FRAMES && IsAddressSpace(Edited(m, PageAddress(dir), edits), chunk, dir, tables)
    ensures forall va: word :: Walk(Edited(m, PageAddress(dir), edits), PageAddress(dir), va)
                            == LastStored(edits, va, IdentityWalk(va, flags))
  {
    DirectoryWord(m, chunk, dir, tables);
    hide IsAddressSpace, Built, Walk, Edited, LastStored, IdentityWalk;
    EditsLaw(m, chunk, dir, tables, edits);
    forall va: word
      ensures Walk(m, PageAddress(dir), va) == IdentityWalk(va, flags)
    {
      IdentityMap(m, dir, tables, flags, va);
    }
  }

  method ApplyAll(k: KernelMemory, directory: word, edits: seq<Edit>)
    requires k.words.Length == WORDS && IsDirectory(directory)
    modifies k.words
    ensures k.words[..] == Edited(old(k.words[..]), directory, edits)
  {
    var i := 0;
    while i < |edits|
      invariant 0 <= i <= |edits|
      invariant k.words[..] == Edited(old(k.words[..]), directory, edits[..i])
    {
      var res := Apply(k, directory, edits[i]);
      i := i + 1;
      assert edits[..i][..i - 1] == edits[..i - 1];
    }
    assert edits[..i] == edits;
  }

  /** An address space is created, edited by any sequence of calls and freed. Just before the end
      every translation is the last one stored, or the identity; after the end the heap's table, and
      the memory behind it, are what they were, byte for byte. */
  method Lifetime(k: KernelMemory, flags: byte, edits: seq<Edit>, ghost live: Runs)
    returns (ghost last: seq<word>, ghost directory: word)
    requires k.Valid() && k.RoomAbove(BLOCK_SIZE)
    requires Encodes(k.heap.Table(), live) && ENTRIES + 2 <= FreeCount(k.heap.Table())
    modifies k.heap.table.entries, k.words
    ensures |last| == WORDS && IsDirectory(directory)
    ensures forall va: word :: Walk(last, directory, va) == LastStored(edits, va, IdentityWalk(va, flags))
    ensures k.heap.table.entries[..] == old(k.heap.table.entries[..])
  {
    hide Encodes, FreeCount, WithBlocks, IsAddressSpace, Built, Walk, Edited, LastStored, IdentityWalk;
    ghost var before, total := k.heap.table.entries[..], k.heap.table.total;
    var chunk;
    ghost var bs, chunkFrame, dir, tables;
    chunk, bs, chunkFrame, dir, tables := NewChunk(k, flags, live);
    ghost var untouched := k.words[..];
    DirectoryWord(untouched, chunkFrame, dir, tables);
    BlocksOfFrames(k.heap.saddr / PAGE_SIZE, bs, chunkFrame, dir, tables);
    var dirAddress := k.words[chunk / 4];
    ApplyAll(k, dirAddress, edits);
    EditedIdentity(untouched, chunkFrame, dir, tables, flags, edits);
    last, directory := k.words[..], dirAddress;
    FreeChunk(k, chunk, live, bs, chunkFrame, dir, tables);
    SameTable(before, k.heap.table.entries[..], total, live);
  }

  function IdentityWalk(va: word, flags: byte): (r: word)
    ensures r == PageOf(va) + flags
  {
    LowPageBits(va / PAGE_SIZE, flags);
    PageOf(va) + flags
  }

  lemma DirectoryWord(m: seq<word>, chunk: nat, dir: nat, tables: seq<nat>)
    requires |m| == WORDS && chunk < FRAMES && IsAddressSpace(m, chunk, dir, tables)
    ensures dir < FRAMES && |tables| == ENTRIES && m[PageAddress(chunk) / 4] == PageAddress(dir)
  {
  }
}
