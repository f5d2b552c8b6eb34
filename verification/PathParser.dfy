/** The path parser over the kernel heap: the root, every part and every part's text are heap blocks of
    their own, linked by address. */
module PathParser {
  import opened MachineWords
  import opened BlockTable
  import opened BlockHeap
  import opened KernelConfig
  import opened KernelHeap
  import opened PathText

  const SIZE_OF_ROOT := 8
  const SIZE_OF_PART := 8

  /** What the parser keeps in a block. */
  datatype Cell =
    | Buffer(bytes: seq<byte>)
    | Part(text: word, next: word)
    | Root(driveNo: int, first: word)

  const EMPTY_BUFFER: Cell := Buffer(seq(MAX_PATH, i => 0))

  /** A text buffer that holds a name and zeros behind it. */
  function Filled(name: seq<byte>): (r: Cell)
    requires |name| <= MAX_PATH
  {
    Buffer(name + seq(MAX_PATH - |name|, i => 0))
  }

  class ParserMemory {
    const heap: Heap
    /** The contents of the blocks the kernel holds, by address. */
    var cells: map<word, Cell>

    constructor (heap: Heap)
      ensures this.heap == heap && cells == map[]
    {
      this.heap := heap;
      cells := map[];
    }

    predicate Valid()
      reads this, heap
    {
      heap.Valid() && PoolFits(heap.saddr, heap.table.total)
    }

    /** The blocks `bs` are held beside the live runs, and nothing else is. */
    ghost predicate Owns(live: Runs, bs: seq<nat>)
      requires Valid()
      reads this, heap, heap.table.entries
    {
      Distinct(bs) && (forall b :: b in bs ==> b !in live) && Encodes(heap.Table(), WithBlocks(live, bs))
    }

    /** `kzalloc` of a structure of at most a block. */
    method KZalloc(size: word, zeroed: Cell, ghost live: Runs, ghost bs: seq<nat>) returns (address: word, ghost s: nat)
      requires Valid() && 0 < size <= BLOCK_SIZE && Owns(live, bs) && 1 <= FreeCount(heap.Table())
      modifies `cells, heap.table.entries
      ensures Valid() && Owns(live, bs + [s]) && s < heap.table.total
      ensures address == heap.saddr + s * BLOCK_SIZE != 0
      ensures cells == old(cells)[address := zeroed]
      ensures FreeCount(heap.Table()) == old(FreeCount(heap.Table())) - 1
      ensures heap.table.entries[heap.table.total..] == old(heap.table.entries[heap.table.total..])
    {
      hide Encodes;
      hide FreeCount;
      hide WithBlocks;
      hide MallocOutcome;
      hide BlocksFor;
      ghost var m, total := heap.table.entries[..], heap.table.total;
      assert m[..total] == heap.Table() && m[total..] == heap.table.entries[total..];
      s := NextBlockOutcome(m, total, heap.saddr, live, bs, size);
      address := heap.Malloc(size);
      ghost var after := heap.table.entries[..];
      assert after[..total] == heap.Table() && after[total..] == heap.table.entries[total..];
      cells := cells[address := zeroed];
    }

    /** `kfree` of the i-th of the blocks held. */
    method KFree(ptr: word, ghost live: Runs, ghost bs: seq<nat>, ghost i: nat)
      requires Valid() && i < |bs| && Owns(live, bs) && ptr == heap.saddr + bs[i] * BLOCK_SIZE
      modifies `cells, heap.table.entries
      ensures Valid() && Owns(live, Without(bs, i))
      ensures cells == old(cells) - {ptr}
      ensures heap.table.entries[heap.table.total..] == old(heap.table.entries[heap.table.total..])
    {
      hide Encodes;
      hide WithBlocks;
      hide Freed;
      hide AddressToBlock;
      ghost var m, total := heap.table.entries[..], heap.table.total;
      assert m[..total] == heap.Table() && m[total..] == heap.table.entries[total..];
      WithoutBlock(live, bs, i);
      LiveFreeOutcome(m, total, heap.saddr, WithBlocks(live, bs), bs[i]);
      heap.Free(ptr);
      ghost var after := heap.table.entries[..];
      assert after[..total] == heap.Table() && after[total..] == heap.table.entries[total..];
      cells := cells - {ptr};
    }
  }

  /** The blocks left when the i-th is given back. */
  function Without(bs: seq<nat>, i: nat): (r: seq<nat>)
    requires i < |bs|
    ensures |r| == |bs| - 1
    ensures forall j :: 0 <= j < |r| ==> r[j] == bs[if j < i then j else j + 1]
  {
    bs[..i] + bs[i + 1..]
  }

  lemma WithoutMembers(bs: seq<nat>, i: nat)
    requires i < |bs| && Distinct(bs)
    ensures Distinct(Without(bs, i))
    ensures forall b :: b in Without(bs, i) <==> b in bs && b != bs[i]
  {
    var less := Without(bs, i);
    forall b
      ensures b in less <==> b in bs && b != bs[i]
    {
      if b in less {
        var j :| 0 <= j < |less| && less[j] == b;
        assert bs[if j < i then j else j + 1] == b;
      }
      if b in bs && b != bs[i] {
        var j :| 0 <= j < |bs| && bs[j] == b;
        assert less[if j < i then j else j - 1] == b;
      }
    }
  }

  lemma WithoutBlock(live: Runs, bs: seq<nat>, i: nat)
    requires i < |bs| && Distinct(bs) && forall b :: b in bs ==> b !in live
    ensures bs[i] in WithBlocks(live, bs)
    ensures WithBlocks(live, bs) - {bs[i]} == WithBlocks(live, Without(bs, i))
    ensures Distinct(Without(bs, i))
    ensures forall b :: b in Without(bs, i) ==> b in bs
  {
    hide Without;
    hide Distinct;
    WithoutMembers(bs, i);
    assert bs[i] in bs;
  }

  // ---------------------------------------------------------------- one component

  /** The character a path pointer sees; at the end it is the terminator. */
  function CharAt(path: seq<byte>, p: nat): byte
    requires p <= |path|
  {
    if p < |path| then path[p] else 0
  }

  function NextPos(path: seq<byte>, p: nat): (q: nat)
    requires p <= |path|
    ensures p <= q <= |path|
  {
    var e := ComponentEnd(path, p);
    if e < |path| then e + 1 else e
  }

  /** The copying loop: fills the buffer at `address` with the component at p. */
  method CopyComponent(m: ParserMemory, address: word, path: seq<byte>, p: nat) returns (q: nat)
    requires IsText(path) && p <= |path| < p + MAX_PATH
    requires address in m.cells && m.cells[address] == EMPTY_BUFFER
    modifies m`cells
    ensures q == ComponentEnd(path, p)
    ensures m.cells == old(m.cells)[address := Filled(path[p..q])]
  {
    ghost var before := m.cells;
    var i := 0;
    q := p;
    assert Filled(path[p..q]) == EMPTY_BUFFER;
    while CharAt(path, q) != SLASH && CharAt(path, q) != 0
      invariant p <= q <= |path| && i == q - p
      invariant ComponentEnd(path, q) == ComponentEnd(path, p)
      invariant m.cells == before[address := Filled(path[p..q])]
      decreases |path| - q
    {
      FillOne(path, p, q);
      m.cells := m.cells[address := Buffer(m.cells[address].bytes[i := CharAt(path, q)])];
      q := q + 1;
      i := i + 1;
    }
    assert q < |path| ==> path[q] in path;
  }

  lemma FillOne(path: seq<byte>, p: nat, q: nat)
    requires p <= q < |path| < p + MAX_PATH
    ensures Filled(path[p..q]).bytes[q - p := path[q]] == Filled(path[p..q + 1]).bytes
  {
  }

  lemma LastIsNew(live: Runs, bs: seq<nat>, s: nat)
    requires Distinct(bs + [s]) && forall b :: b in bs + [s] ==> b !in live
    ensures s !in bs && s !in live
  {
    assert s in bs + [s];
    forall i | 0 <= i < |bs|
      ensures bs[i] != s
    {
      assert (bs + [s])[i] != (bs + [s])[|bs|];
    }
  }

  /** Takes a buffer for the component at p and gives it back at once if the component is empty. */
  method GetPathPart(m: ParserMemory, path: seq<byte>, p: nat, ghost live: Runs, ghost bs: seq<nat>)
    returns (text: word, q: nat, ghost s: nat)
    requires m.Valid() && m.Owns(live, bs) && 1 <= FreeCount(m.heap.Table())
    requires IsText(path) && p <= |path| < p + MAX_PATH
    requires forall a :: a in m.cells ==> forall b: nat :: b !in live && b !in bs ==> a != m.heap.saddr + b * BLOCK_SIZE
    modifies m`cells, m.heap.table.entries
    ensures m.Valid() && q == NextPos(path, p)
    ensures m.heap.table.entries[m.heap.table.total..] == old(m.heap.table.entries[m.heap.table.total..])
    ensures ComponentEnd(path, p) == p ==>
      text == 0 && m.heap.table.entries[..] == old(m.heap.table.entries[..]) && m.cells == old(m.cells)
    ensures ComponentEnd(path, p) > p ==>
      && m.Owns(live, bs + [s]) && s < m.heap.table.total
      && text == m.heap.saddr + s * BLOCK_SIZE != 0
      && FreeCount(m.heap.Table()) == old(FreeCount(m.heap.Table())) - 1
      && m.cells == old(m.cells)[text := Filled(path[p..ComponentEnd(path, p)])]
  {
    hide FreeCount;
    hide Encodes;
    hide WithBlocks;
    ghost var entries, cells, total := m.heap.table.entries[..], m.cells, m.heap.table.total;
    assert entries[..total] == m.heap.Table() && entries[total..] == m.heap.table.entries[total..];
    text, s := m.KZalloc(MAX_PATH, EMPTY_BUFFER, live, bs);
    LastIsNew(live, bs, s);
    q := CopyComponent(m, text, path, p);
    var i := q - p;
    if q < |path| {
      q := q + 1;
    }
    if i == 0 {
      assert Without(bs + [s], |bs|) == bs;
      m.KFree(text, live, bs + [s], |bs|);
      text := 0;
      ghost var after := m.heap.table.entries[..];
      assert after[..total] == m.heap.Table() && after[total..] == m.heap.table.entries[total..];
      SameTable(entries, after, total, WithBlocks(live, bs));
      assert m.cells == cells;
    }
  }

  /** Takes the component at p as a new part and links it behind the last one; no part and no effect for
      an empty component. The part's own block is the second one requested. */
  method ParsePathPart(m: ParserMemory, last: word, path: seq<byte>, p: nat, ghost live: Runs, ghost bs: seq<nat>)
    returns (part: word, q: nat, ghost s: nat, ghost t: nat)
    requires m.Valid() && m.Owns(live, bs) && IsText(path) && p <= |path| < p + MAX_PATH
    requires (if ComponentEnd(path, p) > p then 2 else 1) <= FreeCount(m.heap.Table())
    requires forall a :: a in m.cells ==> forall b: nat :: b !in live && b !in bs ==> a != m.heap.saddr + b * BLOCK_SIZE
    requires last != 0 ==> last in m.cells && m.cells[last].Part?
    modifies m`cells, m.heap.table.entries
    ensures m.Valid() && q == NextPos(path, p)
    ensures m.heap.table.entries[m.heap.table.total..] == old(m.heap.table.entries[m.heap.table.total..])
    ensures ComponentEnd(path, p) == p ==>
      part == 0 && m.heap.table.entries[..] == old(m.heap.table.entries[..]) && m.cells == old(m.cells)
    ensures ComponentEnd(path, p) > p ==>
      && m.Owns(live, bs + [s] + [t])
      && part == BlockToAddress(m.heap.saddr, t) != 0
      && FreeCount(m.heap.Table()) == old(FreeCount(m.heap.Table())) - 2
      && m.cells == WithPart(old(m.cells), m.heap.saddr, s, t, path[p..ComponentEnd(path, p)], last)
  {
    hide FreeCount, Encodes, WithBlocks, BlockToAddress, ComponentEnd, NextPos, Distinct;
    var text;
    text, q, s := GetPathPart(m, path, p, live, bs);
    if text == 0 {
      return 0, q, s, 0;
    }
    LastIsNew(live, bs, s);
    part, t := m.KZalloc(SIZE_OF_PART, Part(0, 0), live, bs + [s]);
    LastIsNew(live, bs + [s], t);
    AddressRoundTrip(m.heap.saddr, m.heap.table.total, s);
    AddressRoundTrip(m.heap.saddr, m.heap.table.total, t);
    m.cells := m.cells[part := Part(text, m.cells[part].next)];
    m.cells := m.cells[part := Part(m.cells[part].text, 0)];
    if last != 0 {
      m.cells := m.cells[last := Part(m.cells[last].text, part)];
    }
  }

  /** The cells with a new part and its text, linked behind the last one. */
  function WithPart(cells: map<word, Cell>, saddr: word, s: nat, t: nat, name: seq<byte>, last: word): map<word, Cell>
    requires |name| <= MAX_PATH
  {
    var text, part := BlockToAddress(saddr, s), BlockToAddress(saddr, t);
    Linked(cells[text := Filled(name)][part := Part(text, 0)], last, part)
  }

  /** The cells after the last part, if any, is made to name its successor. */
  function Linked(cells: map<word, Cell>, last: word, part: word): map<word, Cell> {
    if last in cells && last != 0 && cells[last].Part? then cells[last := Part(cells[last].text, part)] else cells
  }

  // ---------------------------------------------------------------- the structure in memory

  /** Beside the cells of others there are exactly those of the blocks `bs`. */
  ghost predicate OwnCells(cells: map<word, Cell>, others: map<word, Cell>, saddr: word, bs: seq<nat>) {
    && (forall a :: a in others ==> a in cells && cells[a] == others[a])
    && (forall i :: 0 <= i < |bs| ==> BlockToAddress(saddr, bs[i]) in cells && BlockToAddress(saddr, bs[i]) !in others)
    && (forall a :: a in cells && a !in others ==> exists i :: 0 <= i < |bs| && a == BlockToAddress(saddr, bs[i]))
  }

  /** Blocks in the order root, text, part, text, part, ...: part number i names its text and the next
      part. */
  ghost predicate NodeAt(cells: map<word, Cell>, saddr: word, bs: seq<nat>, names: seq<seq<byte>>, i: nat)
    requires |bs| == 1 + 2 * |names| && i < |names|
  {
    var text, part := BlockToAddress(saddr, bs[1 + 2 * i]), BlockToAddress(saddr, bs[2 + 2 * i]);
    && |names[i]| < MAX_PATH
    && text in cells && cells[text] == Filled(names[i])
    && part in cells && cells[part] == Part(text, if i + 1 < |names| then BlockToAddress(saddr, bs[4 + 2 * i]) else 0)
  }

  ghost predicate RootAt(cells: map<word, Cell>, saddr: word, bs: seq<nat>, drive: int)
    requires bs != []
  {
    var root := BlockToAddress(saddr, bs[0]);
    root in cells && cells[root] == Root(drive, if 3 <= |bs| then BlockToAddress(saddr, bs[2]) else 0)
  }

  /** Every block of the structure is a different one of the pool. */
  ghost predicate InPool(saddr: word, total: nat, bs: seq<nat>) {
    PoolFits(saddr, total) && Distinct(bs) && forall i :: 0 <= i < |bs| ==> bs[i] < total
  }

  ghost predicate IsPath(cells: map<word, Cell>, saddr: word, bs: seq<nat>, names: seq<seq<byte>>, drive: int) {
    && |bs| == 1 + 2 * |names|
    && RootAt(cells, saddr, bs, drive)
    && forall i :: 0 <= i < |names| ==> NodeAt(cells, saddr, bs, names, i)
  }

  lemma AddressInjective(saddr: word, total: nat, b: nat, c: nat)
    requires PoolFits(saddr, total) && b < total && c < total
    ensures BlockToAddress(saddr, b) == saddr + b * BLOCK_SIZE != 0
    ensures BlockToAddress(saddr, b) == BlockToAddress(saddr, c) <==> b == c
  {
  }

  lemma AddressesDistinct(saddr: word, total: nat, bs: seq<nat>)
    requires InPool(saddr, total, bs)
    ensures forall i, j :: 0 <= i < j < |bs| ==> BlockToAddress(saddr, bs[i]) != BlockToAddress(saddr, bs[j])
    ensures forall i :: 0 <= i < |bs| ==> BlockToAddress(saddr, bs[i]) != 0
  {
    forall i, j | 0 <= i < j < |bs|
      ensures BlockToAddress(saddr, bs[i]) != BlockToAddress(saddr, bs[j])
    {
      AddressInjective(saddr, total, bs[i], bs[j]);
    }
    forall i | 0 <= i < |bs|
      ensures BlockToAddress(saddr, bs[i]) != 0
    {
      AddressInjective(saddr, total, bs[i], bs[i]);
    }
  }

  /** Linking a new part behind the last one. */
  lemma AppendPart(cells: map<word, Cell>, saddr: word, total: nat, bs: seq<nat>, names: seq<seq<byte>>, drive: int,
                   s: nat, t: nat, name: seq<byte>)
    requires IsPath(cells, saddr, bs, names, drive) && InPool(saddr, total, bs + [s] + [t]) && |name| < MAX_PATH
    ensures IsPath(Grown(cells, saddr, bs, |names|, drive, s, t, name), saddr, bs + [s] + [t], names + [name], drive)
  {
    var text, part := BlockToAddress(saddr, s), BlockToAddress(saddr, t);
    var added := cells[text := Filled(name)][part := Part(text, 0)];
    var all, longer, n := bs + [s] + [t], names + [name], |names|;
    var more := if names == [] then added[BlockToAddress(saddr, bs[0]) := Root(drive, part)]
                else Linked(added, BlockToAddress(saddr, bs[2 * n]), part);
    AddressesDistinct(saddr, total, all);
    assert forall i :: 0 <= i < |bs| ==> all[i] == bs[i];
    assert all[|bs|] == s && all[|bs| + 1] == t;
    if names != [] {
      assert NodeAt(cells, saddr, bs, names, n - 1);
    }
    forall i | 0 <= i <= n
      ensures NodeAt(more, saddr, all, longer, i)
    {
      if i < n {
        assert NodeAt(cells, saddr, bs, names, i);
      }
    }
  }

  // ---------------------------------------------------------------- parsing a whole path

  /** The cells of others lie in live blocks. */
  ghost predicate OthersPlaced(others: map<word, Cell>, saddr: word, live: Runs) {
    forall a :: a in others ==> exists b :: b in live && a == BlockToAddress(saddr, b)
  }

  lemma BlocksInPool(t: Table, saddr: word, live: Runs, bs: seq<nat>)
    requires PoolFits(saddr, |t|) && Distinct(bs) && Encodes(t, WithBlocks(live, bs))
    ensures InPool(saddr, |t|, bs)
    ensures forall b :: b in live ==> b < |t|
  {
    forall i | 0 <= i < |bs|
      ensures bs[i] < |t|
    {
      assert bs[i] in WithBlocks(live, bs);
    }
    forall b | b in live
      ensures b < |t|
    {
      assert b in WithBlocks(live, bs);
    }
  }

  /** No cell lies in a block that is neither live nor held. */
  lemma NothingElsewhere(cells: map<word, Cell>, others: map<word, Cell>, saddr: word, total: nat, live: Runs, bs: seq<nat>)
    requires OwnCells(cells, others, saddr, bs) && OthersPlaced(others, saddr, live) && InPool(saddr, total, bs)
    requires forall b :: b in live ==> b < total
    ensures forall a :: a in cells ==> forall b: nat :: b !in live && b !in bs ==> a != saddr + b * BLOCK_SIZE
  {
    forall a, b: nat | a in cells && b !in live && b !in bs
      ensures a != saddr + b * BLOCK_SIZE
    {
      if a in others {
        var c :| c in live && a == BlockToAddress(saddr, c);
        AddressInjective(saddr, total, c, c);
      } else {
        var i :| 0 <= i < |bs| && a == BlockToAddress(saddr, bs[i]);
        AddressInjective(saddr, total, bs[i], bs[i]);
      }
    }
  }

  /** Two more blocks with cells of their own. */
  lemma OwnTwoMore(cells: map<word, Cell>, more: map<word, Cell>, others: map<word, Cell>, saddr: word, total: nat,
                   live: Runs, bs: seq<nat>, s: nat, t: nat)
    requires OwnCells(cells, others, saddr, bs) && OthersPlaced(others, saddr, live)
    requires InPool(saddr, total, bs + [s] + [t]) && s !in live && t !in live
    requires forall b :: b in live ==> b < total
    requires forall a :: a in more <==> a in cells || a == BlockToAddress(saddr, s) || a == BlockToAddress(saddr, t)
    requires forall a :: a in others && a in cells ==> a in more && more[a] == cells[a]
    ensures OwnCells(more, others, saddr, bs + [s] + [t])
  {
    var all := bs + [s] + [t];
    assert all[|bs|] == s && all[|bs| + 1] == t;
    forall i | 0 <= i < |all|
      ensures BlockToAddress(saddr, all[i]) in more && BlockToAddress(saddr, all[i]) !in others
    {
      if i < |bs| {
        assert all[i] == bs[i];
      } else {
        if BlockToAddress(saddr, all[i]) in others {
          var c :| c in live && BlockToAddress(saddr, all[i]) == BlockToAddress(saddr, c);
          AddressInjective(saddr, total, all[i], c);
          assert false;
        }
      }
    }
    forall a | a in more && a !in others
      ensures exists i :: 0 <= i < |all| && a == BlockToAddress(saddr, all[i])
    {
      if a in cells {
        var i :| 0 <= i < |bs| && a == BlockToAddress(saddr, bs[i]);
        assert all[i] == bs[i];
      } else if a == BlockToAddress(saddr, s) {
        assert a == BlockToAddress(saddr, all[|bs|]);
      } else {
        assert a == BlockToAddress(saddr, all[|bs| + 1]);
      }
    }
  }

  /** The cells after a part is added to a path of the given parts. */
  function Grown(cells: map<word, Cell>, saddr: word, bs: seq<nat>, parts: nat, drive: int,
                 s: nat, t: nat, name: seq<byte>): map<word, Cell>
    requires |name| <= MAX_PATH && |bs| == 1 + 2 * parts
  {
    if parts == 0 then
      WithPart(cells, saddr, s, t, name, 0)[BlockToAddress(saddr, bs[0]) := Root(drive, BlockToAddress(saddr, t))]
    else WithPart(cells, saddr, s, t, name, BlockToAddress(saddr, bs[2 * parts]))
  }

  /** Growing keeps the others' cells apart. */
  lemma GrownOwns(cells: map<word, Cell>, others: map<word, Cell>, saddr: word, total: nat, live: Runs, bs: seq<nat>,
                  parts: nat, drive: int, s: nat, t: nat, name: seq<byte>)
    requires OwnCells(cells, others, saddr, bs) && OthersPlaced(others, saddr, live)
    requires InPool(saddr, total, bs + [s] + [t]) && s !in live && t !in live
    requires forall b :: b in live ==> b < total
    requires |name| <= MAX_PATH && |bs| == 1 + 2 * parts
    ensures OwnCells(Grown(cells, saddr, bs, parts, drive, s, t, name), others, saddr, bs + [s] + [t])
  {
    var more := Grown(cells, saddr, bs, parts, drive, s, t, name);
    forall a | a in others && a in cells
      ensures a in more && more[a] == cells[a]
    {
      var c :| c in live && a == BlockToAddress(saddr, c);
      assert (bs + [s] + [t])[|bs|] == s && (bs + [s] + [t])[|bs| + 1] == t;
      AddressInjective(saddr, total, c, s);
      AddressInjective(saddr, total, c, t);
      assert BlockToAddress(saddr, bs[0]) !in others && BlockToAddress(saddr, bs[2 * parts]) !in others;
    }
    OwnTwoMore(cells, more, others, saddr, total, live, bs, s, t);
  }

  /** The root is still in place when the first part is made. */
  lemma RootKept(cells: map<word, Cell>, saddr: word, total: nat, bs: seq<nat>, drive: int, s: nat, t: nat, name: seq<byte>)
    requires bs != [] && RootAt(cells, saddr, bs, drive) && InPool(saddr, total, bs + [s] + [t]) && |name| <= MAX_PATH
    ensures BlockToAddress(saddr, bs[0]) in WithPart(cells, saddr, s, t, name, 0)
    ensures WithPart(cells, saddr, s, t, name, 0)[BlockToAddress(saddr, bs[0])] == cells[BlockToAddress(saddr, bs[0])]
  {
    AddressesDistinct(saddr, total, bs + [s] + [t]);
    assert (bs + [s] + [t])[0] == bs[0] && (bs + [s] + [t])[|bs|] == s && (bs + [s] + [t])[|bs| + 1] == t;
  }

  /** What stands in memory after some parts of a path. */
  ghost predicate Building(m: ParserMemory, others: map<word, Cell>, live: Runs, bs: seq<nat>,
                           names: seq<seq<byte>>, drive: int)
    requires m.Valid()
    reads m, m.heap, m.heap.table.entries
  {
    && m.Owns(live, bs) && OthersPlaced(others, m.heap.saddr, live)
    && OwnCells(m.cells, others, m.heap.saddr, bs)
    && IsPath(m.cells, m.heap.saddr, bs, names, drive)
  }

  /** One call of the part parser from `pathparser_parse`: the first part is entered into the root, later
      ones are linked behind the last. */
  method LinkPart(m: ParserMemory, root: word, last: word, path: seq<byte>, p: nat, ghost others: map<word, Cell>,
                  ghost live: Runs, ghost bs: seq<nat>, ghost names: seq<seq<byte>>, ghost drive: int)
    returns (part: word, q: nat, ghost more: seq<nat>)
    requires m.Valid() && Building(m, others, live, bs, names, drive)
    requires IsText(path) && p <= |path| < p + MAX_PATH
    requires (if ComponentEnd(path, p) > p then 2 else 1) <= FreeCount(m.heap.Table())
    requires root == BlockToAddress(m.heap.saddr, bs[0])
    requires last == if names == [] then 0 else BlockToAddress(m.heap.saddr, bs[2 * |names|])
    modifies m`cells, m.heap.table.entries
    ensures m.Valid() && q == NextPos(path, p)
    ensures m.heap.table.entries[m.heap.table.total..] == old(m.heap.table.entries[m.heap.table.total..])
    ensures ComponentEnd(path, p) == p ==>
      part == 0 && more == bs && FreeCount(m.heap.Table()) == old(FreeCount(m.heap.Table()))
      && Building(m, others, live, bs, names, drive)
    ensures ComponentEnd(path, p) > p ==>
      && |more| == |bs| + 2 && more[0] == bs[0] && part == BlockToAddress(m.heap.saddr, more[|bs| + 1]) != 0
      && FreeCount(m.heap.Table()) == old(FreeCount(m.heap.Table())) - 2
      && Building(m, others, live, more, names + [path[p..ComponentEnd(path, p)]], drive)
  {
    hide FreeCount;
    hide Encodes;
    hide WithBlocks;
    hide OwnCells;
    hide OthersPlaced;
    hide WithPart;
    hide InPool;
    ghost var cells, saddr, total := m.cells, m.heap.saddr, m.heap.table.total;
    BlocksInPool(m.heap.Table(), saddr, live, bs);
    NothingElsewhere(cells, others, saddr, total, live, bs);
    if names != [] {
      assert NodeAt(cells, saddr, bs, names, |names| - 1);
      AddressesDistinct(saddr, total, bs);
    }
    ghost var s, t;
    part, q, s, t := ParsePathPart(m, last, path, p, live, bs);
    more := bs;
    if part != 0 {
      more := bs + [s] + [t];
      ghost var name := path[p..ComponentEnd(path, p)];
      BlocksInPool(m.heap.Table(), saddr, live, more);
      RootKept(cells, saddr, total, bs, drive, s, t, name);
      if last == 0 {
        m.cells := m.cells[root := Root(m.cells[root].driveNo, part)];
      }
      assert s in more && t in more;
      AppendPart(cells, saddr, total, bs, names, drive, s, t, name);
      GrownOwns(cells, others, saddr, total, live, bs, |names|, drive, s, t, name);
    }
  }

  /** The same in terms of the parts still to come. */
  method AddPart(m: ParserMemory, root: word, last: word, path: seq<byte>, p: nat, ghost others: map<word, Cell>,
                 ghost live: Runs, ghost bs: seq<nat>, ghost names: seq<seq<byte>>, ghost drive: int)
    returns (part: word, q: nat, ghost more: seq<nat>, ghost names': seq<seq<byte>>)
    requires m.Valid() && Building(m, others, live, bs, names, drive)
    requires IsText(path) && p <= |path| < p + MAX_PATH
    requires (if PartsFrom(path, p) == [] then 1 else 2) <= FreeCount(m.heap.Table())
    requires |bs| == 1 + 2 * |names| && root == BlockToAddress(m.heap.saddr, bs[0])
    requires last == if names == [] then 0 else BlockToAddress(m.heap.saddr, bs[2 * |names|])
    modifies m`cells, m.heap.table.entries
    ensures m.Valid() && q == NextPos(path, p)
    ensures m.heap.table.entries[m.heap.table.total..] == old(m.heap.table.entries[m.heap.table.total..])
    ensures Building(m, others, live, more, names', drive) && |more| == 1 + 2 * |names'| && more[0] == bs[0]
    ensures part == 0 ==>
      PartsFrom(path, p) == [] && names' == names && FreeCount(m.heap.Table()) == old(FreeCount(m.heap.Table()))
    ensures part != 0 ==>
      && p < q && |names'| == |names| + 1 && names' + PartsFrom(path, q) == names + PartsFrom(path, p)
      && part == BlockToAddress(m.heap.saddr, more[2 * |names'|])
      && FreeCount(m.heap.Table()) == old(FreeCount(m.heap.Table())) - 2
  {
    hide FreeCount;
    hide Building;
    hide PartsFrom;
    NextParts(path, p);
    part, q, more := LinkPart(m, root, last, path, p, others, live, bs, names, drive);
    names' := names;
    if part != 0 {
      ghost var name := path[p..ComponentEnd(path, p)];
      names' := names + [name];
      assert names + ([name] + PartsFrom(path, q)) == names' + PartsFrom(path, q);
    }
  }

  lemma NextParts(path: seq<byte>, p: nat)
    requires p <= |path|
    ensures ComponentEnd(path, p) == p ==> PartsFrom(path, p) == []
    ensures ComponentEnd(path, p) > p ==>
      PartsFrom(path, p) == [path[p..ComponentEnd(path, p)]] + PartsFrom(path, NextPos(path, p))
  {
  }

  /** The root block, before any part. */
  method CreateRoot(m: ParserMemory, drive: int, ghost live: Runs) returns (root: word, ghost bs: seq<nat>)
    requires m.Valid() && Encodes(m.heap.Table(), live) && 1 <= FreeCount(m.heap.Table())
    requires OthersPlaced(m.cells, m.heap.saddr, live)
    modifies m`cells, m.heap.table.entries
    ensures m.Valid() && |bs| == 1 && root == BlockToAddress(m.heap.saddr, bs[0]) != 0
    ensures Building(m, old(m.cells), live, bs, [], drive)
    ensures FreeCount(m.heap.Table()) == old(FreeCount(m.heap.Table())) - 1
    ensures m.heap.table.entries[m.heap.table.total..] == old(m.heap.table.entries[m.heap.table.total..])
  {
    hide FreeCount, Encodes, WithBlocks, OwnCells, IsPath;
    ghost var others, saddr, total := m.cells, m.heap.saddr, m.heap.table.total;
    NoBlocksHeld(live);
    ghost var s;
    root, s := m.KZalloc(SIZE_OF_ROOT, Root(0, 0), live, []);
    bs := [s];
    assert [] + [s] == bs;
    BlocksInPool(m.heap.Table(), saddr, live, bs);
    NotPlaced(others, saddr, total, live, s);
    hide OthersPlaced;
    m.cells := m.cells[root := Root(drive, m.cells[root].first)];
    m.cells := m.cells[root := Root(m.cells[root].driveNo, 0)];
    assert m.cells == others[root := Root(drive, 0)];
    RootOnly(others, saddr, s, drive);
  }

  /** A block that no live run starts with holds none of the others. */
  lemma NotPlaced(others: map<word, Cell>, saddr: word, total: nat, live: Runs, s: nat)
    requires PoolFits(saddr, total) && OthersPlaced(others, saddr, live) && s < total && s !in live
    requires forall b :: b in live ==> b < total
    ensures BlockToAddress(saddr, s) !in others
  {
    if BlockToAddress(saddr, s) in others {
      var c :| c in live && BlockToAddress(saddr, s) == BlockToAddress(saddr, c);
      AddressInjective(saddr, total, c, s);
      assert false;
    }
  }

  /** A root without parts next to the others. */
  lemma RootOnly(others: map<word, Cell>, saddr: word, s: nat, drive: int)
    requires BlockToAddress(saddr, s) !in others && BlockToAddress(saddr, s) != 0
    ensures
      var cells := others[BlockToAddress(saddr, s) := Root(drive, 0)];
      OwnCells(cells, others, saddr, [s]) && IsPath(cells, saddr, [s], [], drive)
  {
    assert [s][0] == s;
  }

  lemma NoBlocksHeld(live: Runs)
    ensures WithBlocks(live, []) == live
  {
  }

  /** A path that is not accepted leaves no trace. An accepted one with k parts holds exactly 1 + 2k
      blocks: the root, and each part and its text, linked in order; its parts are those of the text. The
      parser checks none of its allocations, so that many blocks and one for the last, empty component
      have to be free. */
  method Parse(m: ParserMemory, path: seq<byte>, ghost live: Runs)
    returns (root: word, ghost bs: seq<nat>, ghost names: seq<seq<byte>>)
    requires m.Valid() && Encodes(m.heap.Table(), live) && OthersPlaced(m.cells, m.heap.saddr, live)
    requires IsText(path)
    requires Accepted(path) ==> 2 + 2 * |Parts(path)| <= FreeCount(m.heap.Table())
    modifies m`cells, m.heap.table.entries
    ensures m.Valid()
    ensures m.heap.table.entries[m.heap.table.total..] == old(m.heap.table.entries[m.heap.table.total..])
    ensures !Accepted(path) ==>
      root == 0 && m.cells == old(m.cells) && m.heap.table.entries[..] == old(m.heap.table.entries[..])
    ensures Accepted(path) ==>
      && names == Parts(path) && |bs| == 1 + 2 * |names|
      && root == BlockToAddress(m.heap.saddr, bs[0]) != 0
      && Building(m, old(m.cells), live, bs, names, Drive(path))
      && FreeCount(m.heap.Table()) == old(FreeCount(m.heap.Table())) - (1 + 2 * |names|)
  {
    root, bs, names := 0, [], [];
    if |path| > MAX_PATH {
      return;
    }
    if !(3 <= |path| && DIGIT_0 <= path[0] <= DIGIT_0 + 9 && path[1] == COLON && path[2] == SLASH) {
      return;
    }
    hide FreeCount;
    hide Encodes;
    hide OthersPlaced;
    hide PartsFrom;
    hide Building;
    ghost var others, drive := m.cells, Drive(path);
    var p: nat := 3;
    var part: word;
    root, bs := CreateRoot(m, path[0] - DIGIT_0, live);
    part, p, bs, names := AddPart(m, root, 0, path, p, others, live, bs, names, drive);
    if part == 0 {
      return;
    }
    p, bs, names := ParseRest(m, root, part, path, p, others, live, bs, names, drive);
  }

  /** The loop over the parts after the first. */
  method ParseRest(m: ParserMemory, root: word, first: word, path: seq<byte>, from: nat, ghost others: map<word, Cell>,
                   ghost live: Runs, ghost held: seq<nat>, ghost before: seq<seq<byte>>, ghost drive: int)
    returns (p: nat, ghost bs: seq<nat>, ghost names: seq<seq<byte>>)
    requires m.Valid() && Building(m, others, live, held, before, drive)
    requires |held| == 1 + 2 * |before| && before != [] && IsText(path) && 3 <= from <= |path| <= MAX_PATH
    requires root == BlockToAddress(m.heap.saddr, held[0]) && first == BlockToAddress(m.heap.saddr, held[2 * |before|]) != 0
    requires 1 + 2 * |PartsFrom(path, from)| <= FreeCount(m.heap.Table())
    modifies m`cells, m.heap.table.entries
    ensures m.Valid() && Building(m, others, live, bs, names, drive)
    ensures |bs| == 1 + 2 * |names| && bs[0] == held[0] && names == before + PartsFrom(path, from)
    ensures FreeCount(m.heap.Table()) == old(FreeCount(m.heap.Table())) - 2 * |PartsFrom(path, from)|
    ensures m.heap.table.entries[m.heap.table.total..] == old(m.heap.table.entries[m.heap.table.total..])
  {
    hide FreeCount;
    hide PartsFrom;
    hide Building;
    hide NextPos;
    var part := first;
    p, bs, names := from, held, before;
    ghost var all := before + PartsFrom(path, from);
    while part != 0
      invariant 3 <= p <= |path| && m.Valid() && names != [] && |bs| == 1 + 2 * |names| && bs[0] == held[0]
      invariant Building(m, others, live, bs, names, drive)
      invariant part != 0 ==> part == BlockToAddress(m.heap.saddr, bs[2 * |names|]) && names + PartsFrom(path, p) == all
      invariant part == 0 ==> names == all
      invariant |names| <= |all|
      invariant FreeCount(m.heap.Table()) == old(FreeCount(m.heap.Table())) - 2 * (|names| - |before|)
      invariant m.heap.table.entries[m.heap.table.total..] == old(m.heap.table.entries[m.heap.table.total..])
      decreases |path| - p, part
    {
      ghost var rest := PartsFrom(path, p);
      assert |names| + |rest| == |all|;
      part, p, bs, names := AddPart(m, root, part, path, p, others, live, bs, names, drive);
      assert part == 0 ==> names + rest == names;
    }
  }

  // ---------------------------------------------------------------- what a reader of the memory sees

  /** The C string in a buffer: its bytes up to the first zero. */
  function TextIn(bytes: seq<byte>): seq<byte> {
    if bytes == [] || bytes[0] == 0 then [] else [bytes[0]] + TextIn(bytes[1..])
  }

  /** The texts met by following the pointers from a part on, up to a null pointer, in at most `limit` steps. */
  function TextsFrom(cells: map<word, Cell>, part: word, limit: nat): seq<seq<byte>>
    decreases limit
  {
    if limit == 0 || part == 0 || part !in cells || !cells[part].Part? then []
    else
      var text := cells[part].text;
      (if text in cells && cells[text].Buffer? then [TextIn(cells[text].bytes)] else [])
        + TextsFrom(cells, cells[part].next, limit - 1)
  }

  lemma {:induction false} TextInFilled(name: seq<byte>, zeros: seq<byte>)
    requires 0 !in name && zeros != [] && zeros[0] == 0
    ensures TextIn(name + zeros) == name
  {
    if name == [] {
      assert name + zeros == zeros;
    } else {
      assert (name + zeros)[1..] == name[1..] + zeros;
      TextInFilled(name[1..], zeros);
    }
  }

  /** The parts from number i on, read from memory. */
  lemma {:induction false} TextsAre(cells: map<word, Cell>, saddr: word, total: nat, bs: seq<nat>, names: seq<seq<byte>>,
                                    i: nat, limit: nat)
    requires |bs| == 1 + 2 * |names| && i <= |names| <= i + limit && InPool(saddr, total, bs)
    requires forall j :: 0 <= j < |names| ==> NodeAt(cells, saddr, bs, names, j) && 0 !in names[j]
    ensures TextsFrom(cells, if i < |names| then BlockToAddress(saddr, bs[2 + 2 * i]) else 0, limit) == names[i..]
    decreases limit
  {
    if i < |names| {
      assert NodeAt(cells, saddr, bs, names, i);
      AddressInjective(saddr, total, bs[2 + 2 * i], bs[2 + 2 * i]);
      hide NodeAt, InPool, BlockToAddress;
      TextsAre(cells, saddr, total, bs, names, i + 1, limit - 1);
      TextInFilled(names[i], seq(MAX_PATH - |names[i]|, x => 0));
    }
  }

  lemma {:induction false} PartsZeroFree(path: seq<byte>, p: nat)
    requires IsText(path) && p <= |path|
    ensures forall i :: 0 <= i < |PartsFrom(path, p)| ==> 0 !in PartsFrom(path, p)[i]
    ensures |PartsFrom(path, p)| <= |path| - p
    decreases |path| - p
  {
    var q := ComponentEnd(path, p);
    if p < q {
      PartsZeroFree(path, NextPos(path, p));
      assert forall b :: b in path[p..q] ==> b in path;
    }
  }

  /** The memory at a root shows a path: its drive's digit, and, pointer after pointer, the components of
      its text behind the third byte, up to the first empty one. */
  ghost predicate Shows(cells: map<word, Cell>, root: word, path: seq<byte>)
    requires 3 <= |path|
  {
    && root in cells && cells[root].Root? && 48 + cells[root].driveNo == path[0]
    && forall limit: nat :: |path| <= limit ==>
          TextsFrom(cells, cells[root].first, limit) == BeforeEmpty(Split(path[3..]))
  }

  lemma PathShown(m: ParserMemory, others: map<word, Cell>, live: Runs, bs: seq<nat>, path: seq<byte>)
    requires m.Valid() && Accepted(path) && IsText(path) && Building(m, others, live, bs, Parts(path), Drive(path))
    ensures Shows(m.cells, BlockToAddress(m.heap.saddr, bs[0]), path)
  {
    var cells, saddr, total, names := m.cells, m.heap.saddr, m.heap.table.total, Parts(path);
    PartsOfPath(path);
    PartsZeroFree(path, 3);
    BlocksInPool(m.heap.Table(), saddr, live, bs);
    hide InPool, Parts, Accepted, PartsFrom, Encodes, OwnCells, OthersPlaced, NodeAt, BlockToAddress, Split, BeforeEmpty;
    var first := if 0 < |names| then BlockToAddress(saddr, bs[2]) else 0;
    forall limit: nat | |path| <= limit
      ensures TextsFrom(cells, first, limit) == names
    {
      TextsAre(cells, saddr, total, bs, names, 0, limit);
    }
  }

  // ---------------------------------------------------------------- giving a path back

  /** Giving the first of the held blocks back. */
  method FreeHeld(m: ParserMemory, ptr: word, ghost others: map<word, Cell>, ghost live: Runs, ghost bs: seq<nat>)
    requires m.Valid() && bs != [] && m.Owns(live, bs) && OwnCells(m.cells, others, m.heap.saddr, bs)
    requires ptr == BlockToAddress(m.heap.saddr, bs[0])
    modifies m`cells, m.heap.table.entries
    ensures m.Valid() && m.Owns(live, bs[1..]) && OwnCells(m.cells, others, m.heap.saddr, bs[1..])
    ensures m.cells == old(m.cells) - {ptr}
    ensures m.heap.table.entries[m.heap.table.total..] == old(m.heap.table.entries[m.heap.table.total..])
  {
    hide Encodes;
    hide WithBlocks;
    ghost var saddr, total, cells := m.heap.saddr, m.heap.table.total, m.cells;
    BlocksInPool(m.heap.Table(), saddr, live, bs);
    AddressInjective(saddr, total, bs[0], bs[0]);
    OwnDrop(cells, others, saddr, total, bs);
    assert Without(bs, 0) == bs[1..];
    m.KFree(ptr, live, bs, 0);
  }

  lemma OwnDrop(cells: map<word, Cell>, others: map<word, Cell>, saddr: word, total: nat, bs: seq<nat>)
    requires bs != [] && OwnCells(cells, others, saddr, bs) && InPool(saddr, total, bs)
    ensures OwnCells(cells - {BlockToAddress(saddr, bs[0])}, others, saddr, bs[1..])
  {
    AddressesDistinct(saddr, total, bs);
    var less := cells - {BlockToAddress(saddr, bs[0])};
    forall i | 0 <= i < |bs| - 1
      ensures BlockToAddress(saddr, bs[1..][i]) in less && BlockToAddress(saddr, bs[1..][i]) !in others
    {
      assert bs[1..][i] == bs[i + 1];
    }
    forall a | a in less && a !in others
      ensures exists i :: 0 <= i < |bs[1..]| && a == BlockToAddress(saddr, bs[1..][i])
    {
      var i :| 0 <= i < |bs| && a == BlockToAddress(saddr, bs[i]);
      assert bs[1..][i - 1] == bs[i];
    }
  }

  /** Cells of later parts survive when earlier blocks go. */
  lemma NodesSurvive(cells: map<word, Cell>, saddr: word, total: nat, bs: seq<nat>, names: seq<seq<byte>>, i: nat, k: nat)
    requires |bs| == 1 + 2 * |names| && InPool(saddr, total, bs) && k < 1 + 2 * i && i <= |names| && k < |bs|
    requires forall j :: i <= j < |names| ==> NodeAt(cells, saddr, bs, names, j)
    ensures forall j :: i <= j < |names| ==> NodeAt(cells - {BlockToAddress(saddr, bs[k])}, saddr, bs, names, j)
  {
    forall j | i <= j < |names|
      ensures NodeAt(cells - {BlockToAddress(saddr, bs[k])}, saddr, bs, names, j)
    {
      assert NodeAt(cells, saddr, bs, names, j);
      AddressInjective(saddr, total, bs[k], bs[1 + 2 * j]);
      AddressInjective(saddr, total, bs[k], bs[2 + 2 * j]);
    }
  }

  /** The order of freeing: text and part of each component, then the root. */
  ghost function FreeOrder(bs: seq<nat>, i: nat): seq<nat>
    requires bs != [] && i < |bs|
  {
    bs[1 + i..] + [bs[0]]
  }

  /** `pathparser_free` of a path the caller holds: all blocks and cells go back. */
  method Free(m: ParserMemory, root: word, ghost others: map<word, Cell>, ghost live: Runs, ghost bs: seq<nat>,
              ghost names: seq<seq<byte>>, ghost drive: int)
    requires m.Valid() && Building(m, others, live, bs, names, drive) && root == BlockToAddress(m.heap.saddr, bs[0])
    modifies m`cells, m.heap.table.entries
    ensures m.Valid() && Encodes(m.heap.Table(), live) && m.cells == others
    ensures m.heap.table.entries[m.heap.table.total..] == old(m.heap.table.entries[m.heap.table.total..])
  {
    hide Encodes;
    hide WithBlocks;
    hide OwnCells;
    ghost var saddr, total := m.heap.saddr, m.heap.table.total;
    BlocksInPool(m.heap.Table(), saddr, live, bs);
    Reordered(m.cells, others, saddr, live, bs);
    assert RootAt(m.cells, saddr, bs, drive);
    var part := m.cells[root].first;
    ghost var i := 0;
    while part != 0
      invariant 0 <= i <= |names| && m.Valid()
      invariant part == if i < |names| then BlockToAddress(saddr, bs[2 + 2 * i]) else 0
      invariant m.Owns(live, FreeOrder(bs, 2 * i)) && OwnCells(m.cells, others, saddr, FreeOrder(bs, 2 * i))
      invariant forall j :: i <= j < |names| ==> NodeAt(m.cells, saddr, bs, names, j)
      invariant m.heap.table.entries[m.heap.table.total..] == old(m.heap.table.entries[m.heap.table.total..])
      decreases |names| - i
    {
      part, i := FreeNode(m, part, others, live, bs, names, i);
    }
    AddressesDistinct(saddr, total, bs);
    FreeHeld(m, root, others, live, FreeOrder(bs, 2 * i));
    assert FreeOrder(bs, 2 * i)[1..] == [];
    NoBlocksHeld(live);
    OnlyOthers(m.cells, others, saddr);
  }

  lemma OnlyOthers(cells: map<word, Cell>, others: map<word, Cell>, saddr: word)
    requires OwnCells(cells, others, saddr, [])
    ensures cells == others
  {
  }

  lemma RotateMembers(bs: seq<nat>)
    requires bs != [] && Distinct(bs)
    ensures Distinct(FreeOrder(bs, 0))
    ensures forall b :: b in FreeOrder(bs, 0) <==> b in bs
  {
    var r, n := FreeOrder(bs, 0), |bs|;
    forall b
      ensures b in r <==> b in bs
    {
      if b in r {
        var j :| 0 <= j < n && r[j] == b;
        assert r[j] == bs[if j < n - 1 then j + 1 else 0];
      }
      if b in bs {
        var j :| 0 <= j < n && bs[j] == b;
        assert r[if j == 0 then n - 1 else j - 1] == b;
      }
    }
  }

  lemma OwnSameBlocks(cells: map<word, Cell>, others: map<word, Cell>, saddr: word, bs: seq<nat>, r: seq<nat>)
    requires OwnCells(cells, others, saddr, bs) && forall b :: b in r <==> b in bs
    ensures OwnCells(cells, others, saddr, r)
  {
    forall i | 0 <= i < |r|
      ensures BlockToAddress(saddr, r[i]) in cells && BlockToAddress(saddr, r[i]) !in others
    {
      assert r[i] in bs;
      var j :| 0 <= j < |bs| && bs[j] == r[i];
    }
    forall a | a in cells && a !in others
      ensures exists i :: 0 <= i < |r| && a == BlockToAddress(saddr, r[i])
    {
      var j :| 0 <= j < |bs| && a == BlockToAddress(saddr, bs[j]);
      assert bs[j] in r;
      var i :| 0 <= i < |r| && r[i] == bs[j];
    }
  }

  lemma Reordered(cells: map<word, Cell>, others: map<word, Cell>, saddr: word, live: Runs, bs: seq<nat>)
    requires bs != [] && Distinct(bs) && OwnCells(cells, others, saddr, bs)
    ensures Distinct(FreeOrder(bs, 0)) && OwnCells(cells, others, saddr, FreeOrder(bs, 0))
    ensures WithBlocks(live, FreeOrder(bs, 0)) == WithBlocks(live, bs)
    ensures forall b :: b in FreeOrder(bs, 0) <==> b in bs
  {
    hide FreeOrder, OwnCells, Distinct;
    RotateMembers(bs);
    OwnSameBlocks(cells, others, saddr, bs, FreeOrder(bs, 0));
    SameBlocksHeld(live, bs, FreeOrder(bs, 0));
  }

  lemma SameBlocksHeld(live: Runs, bs: seq<nat>, r: seq<nat>)
    requires forall b :: b in r <==> b in bs
    ensures WithBlocks(live, r) == WithBlocks(live, bs)
  {
    var x, y := map b | b in r :: 1, map b | b in bs :: 1;
    assert x.Keys == y.Keys;
    assert x == y;
  }

  /** One turn of the freeing loop. */
  method FreeNode(m: ParserMemory, part: word, ghost others: map<word, Cell>, ghost live: Runs, ghost bs: seq<nat>,
                  ghost names: seq<seq<byte>>, ghost i: nat)
    returns (nextPart: word, ghost next: nat)
    requires m.Valid() && i < |names| && |bs| == 1 + 2 * |names|
    requires InPool(m.heap.saddr, m.heap.table.total, bs) && part == BlockToAddress(m.heap.saddr, bs[2 + 2 * i])
    requires m.Owns(live, FreeOrder(bs, 2 * i)) && OwnCells(m.cells, others, m.heap.saddr, FreeOrder(bs, 2 * i))
    requires forall j :: i <= j < |names| ==> NodeAt(m.cells, m.heap.saddr, bs, names, j)
    modifies m`cells, m.heap.table.entries
    ensures m.Valid() && next == i + 1
    ensures nextPart == if next < |names| then BlockToAddress(m.heap.saddr, bs[2 + 2 * next]) else 0
    ensures m.Owns(live, FreeOrder(bs, 2 * next)) && OwnCells(m.cells, others, m.heap.saddr, FreeOrder(bs, 2 * next))
    ensures forall j :: next <= j < |names| ==> NodeAt(m.cells, m.heap.saddr, bs, names, j)
    ensures m.heap.table.entries[m.heap.table.total..] == old(m.heap.table.entries[m.heap.table.total..])
  {
    hide Encodes;
    hide WithBlocks;
    hide OwnCells;
    hide InPool;
    ghost var saddr, total := m.heap.saddr, m.heap.table.total;
    next := i + 1;
    assert NodeAt(m.cells, saddr, bs, names, i);
    nextPart := m.cells[part].next;
    var text := m.cells[part].text;
    ghost var order := FreeOrder(bs, 2 * i);
    assert order[0] == bs[1 + 2 * i] && order[1..] == FreeOrder(bs, 2 * i + 1);
    assert order[1..][0] == bs[2 + 2 * i] && order[1..][1..] == FreeOrder(bs, 2 * next);
    NodesSurvive(m.cells, saddr, total, bs, names, next, 1 + 2 * i);
    FreeHeld(m, text, others, live, order);
    NodesSurvive(m.cells, saddr, total, bs, names, next, 2 + 2 * i);
    FreeHeld(m, part, others, live, order[1..]);
  }

  /** Parsing a path and freeing it leaves the heap's table, the memory behind it and the cells of all
      others as they were. */
  method ParseAndFree(m: ParserMemory, path: seq<byte>, ghost live: Runs) returns (accepted: bool)
    requires m.Valid() && Encodes(m.heap.Table(), live) && OthersPlaced(m.cells, m.heap.saddr, live)
    requires IsText(path)
    requires Accepted(path) ==> 2 + 2 * |Parts(path)| <= FreeCount(m.heap.Table())
    modifies m`cells, m.heap.table.entries
    ensures accepted == Accepted(path)
    ensures m.heap.table.entries[..] == old(m.heap.table.entries[..]) && m.cells == old(m.cells)
  {
    hide Encodes;
    hide FreeCount;
    hide OthersPlaced;
    hide Building;
    hide Parts;
    ghost var entries, cells, total := m.heap.table.entries[..], m.cells, m.heap.table.total;
    assert entries[..total] == m.heap.Table() && entries[total..] == m.heap.table.entries[total..];
    var root;
    ghost var bs, names;
    root, bs, names := Parse(m, path, live);
    accepted := root != 0;
    if root != 0 {
      Free(m, root, cells, live, bs, names, Drive(path));
      ghost var after := m.heap.table.entries[..];
      assert after[..total] == m.heap.Table() && after[total..] == m.heap.table.entries[total..];
      SameTable(entries, after, total, live);
    }
  }
}
