/** Whole runs of the heap: any sequence of requests and releases from an empty table. */
module HeapRuns {
  import opened MachineWords
  import opened BlockTable
  import opened BlockHeap

  // ---------------------------------------------------------------- when malloc is honest

  /** The guard a caller can evaluate before asking for n blocks: some free run holds them, or the
      last block is taken so that the scan reports failure. */
  ghost predicate Answerable(t: Table, n: nat) {
    || (1 <= n && exists s :: FreeRun(t, s, n))
    || t == []
    || !IsFree(t[|t| - 1])
  }

  /** The outcome a caller relies on: failure without any effect when no run of n blocks is free, or
      the least run of n >= 1 free blocks, marked inside the table. */
  ghost predicate HonestOutcome(m: seq<bv8>, total: nat, saddr: word, n: nat)
    requires total + n <= |m|
  {
    var (address, after) := MallocOutcome(m, total, saddr, n);
    || (address == 0 && after == m && (n == 0 || forall s :: !FreeRun(m[..total], s, n)))
    || (1 <= n && GrantsLeast(m, total, saddr, n, address, after))
  }

  /** Malloc keeps its promise exactly when the request is answerable. */
  lemma HonestIffAnswerable(m: seq<bv8>, total: nat, saddr: word, n: nat)
    requires total + n <= |m| && PoolFits(saddr, total)
    ensures HonestOutcome(m, total, saddr, n) <==> Answerable(m[..total], n)
  {
    hide Taken, RunEntry;
    var t := m[..total];
    OutcomeMeans(m, total, saddr, n);
    hide MallocOutcome;
    assert total == 0 || t[total - 1] == m[total - 1];
    var (address, after) := MallocOutcome(m, total, saddr, n);
    if GrantsLeast(m, total, saddr, n, address, after) {
      var s: nat :| LeastRun(t, n, s);
    }
  }

  /** A request that is not answerable and not empty corrupts an encoding table: the bytes after
      it are overwritten and no set of live runs fits what is left. */
  lemma UnanswerableCorrupts(m: seq<bv8>, total: nat, saddr: word, n: nat, live: Runs, other: Runs)
    requires total + n <= |m| && 1 <= n
    requires Encodes(m[..total], live) && !Answerable(m[..total], n)
    ensures MallocOutcome(m, total, saddr, n).1[total] == RunEntry(total - StartBlock(m[..total], n), n)
    ensures !Encodes(MallocOutcome(m, total, saddr, n).1[..total], other)
  {
    var t := m[..total];
    var s := StartBlock(t, n);
    assert total - s < n by {
      assert n <= total - s ==> FreeRun(t, s, n);
    }
    var u := Taken(m, s, n)[..total];
    assert u[total - 1] == RunEntry(total - 1 - s, n);
    RunEntryBits(total - 1 - s, n);
    if Encodes(u, other) {
      LastBlockEnds(u, other);
    }
  }

  /** In an encoding table no run reaches past the last block. */
  lemma LastBlockEnds(t: Table, live: Runs)
    requires Encodes(t, live) && t != []
    ensures t[|t| - 1] & HAS_NEXT == 0
  {
    if t[|t| - 1] != FREE {
      var r :| Covers(live, r, |t| - 1);
      RunEntryBits(|t| - 1 - r, live[r]);
    }
  }

  /** The smallest failing shape: two free blocks, three asked for. */
  lemma SpillExample()
    ensures !Answerable([FREE, FREE], 3)
    ensures MallocOutcome([FREE, FREE, FREE, FREE, FREE], 2, 0x0100_0000, 3) ==
      (0x0100_0000, [TAKEN | IS_FIRST | HAS_NEXT, TAKEN | HAS_NEXT, TAKEN, FREE, FREE])
  {
    var t := [FREE, FREE];
    assert FreeRun(t, 0, |t| - 0);
    assert IsStartBlock(t, 3, 0);
    StartBlockUnique(t, 3, 0);
    var m := [FREE, FREE, FREE, FREE, FREE];
    assert m[..2] == t;
    assert Taken(m, 0, 3) == [TAKEN | IS_FIRST | HAS_NEXT, TAKEN | HAS_NEXT, TAKEN, FREE, FREE];
  }

  // ---------------------------------------------------------------- sequences of operations

  datatype Op = Malloc(size: word) | Free(address: word)

  /** Memory from the table on, and the size granted at each live first block. */
  datatype State = State(m: seq<bv8>, granted: map<nat, word>)

  ghost function LiveRuns(granted: map<nat, word>): Runs {
    map b | b in granted :: BlocksFor(granted[b])
  }

  /** Positive sizes that do not wrap and are answerable, and releases of live addresses. */
  ghost predicate Legal(st: State, total: nat, saddr: word, op: Op)
    requires total <= |st.m|
  {
    match op
    case Malloc(size) => 0 < size <= 0xffff_f000 && Answerable(st.m[..total], BlocksFor(size))
    case Free(address) => exists b :: b in st.granted && address == BlockToAddress(saddr, b)
  }

  ghost function Step(st: State, total: nat, saddr: word, op: Op): (r: State)
    requires total + MAX_BLOCKS <= |st.m|
    ensures |r.m| == |st.m|
  {
    match op
    case Malloc(size) =>
      BlocksCover(size);
      var (address, m) := MallocOutcome(st.m, total, saddr, BlocksFor(size));
      if address == 0 then State(m, st.granted)
      else
        var b := AddressToBlock(saddr, address);
        State(m, if 0 <= b then st.granted[b := size] else st.granted)
    case Free(address) =>
      var b := AddressToBlock(saddr, address);
      if 0 <= b then State(Freed(st.m, total, b), st.granted - {b}) else st
  }

  ghost predicate LegalRun(st: State, total: nat, saddr: word, ops: seq<Op>)
    requires total + MAX_BLOCKS <= |st.m|
    decreases |ops|
  {
    ops == [] || (Legal(st, total, saddr, ops[0]) && LegalRun(Step(st, total, saddr, ops[0]), total, saddr, ops[1..]))
  }

  ghost function Run(st: State, total: nat, saddr: word, ops: seq<Op>): (r: State)
    requires total + MAX_BLOCKS <= |st.m|
    ensures |r.m| == |st.m|
    decreases |ops|
  {
    if ops == [] then st else Run(Step(st, total, saddr, ops[0]), total, saddr, ops[1..])
  }

  ghost predicate Consistent(st: State, total: nat)
    requires total <= |st.m|
  {
    Encodes(st.m[..total], LiveRuns(st.granted)) && forall b :: b in st.granted ==> 0 < st.granted[b] <= 0xffff_f000
  }

  /** An answerable request takes the least fitting free run; it changes nothing exactly when no run fits. */
  lemma MallocStep(st: State, total: nat, saddr: word, size: word) returns (s: int)
    requires total + MAX_BLOCKS <= |st.m| && PoolFits(saddr, total)
    requires Legal(st, total, saddr, Malloc(size))
    ensures 1 <= BlocksFor(size) < MAX_BLOCKS
    ensures s < 0 <==> forall r :: !FreeRun(st.m[..total], r, BlocksFor(size))
    ensures s < 0 ==> Step(st, total, saddr, Malloc(size)) == st
    ensures s >= 0 ==> FreeRun(st.m[..total], s, BlocksFor(size))
    ensures s >= 0 ==> forall r :: FreeRun(st.m[..total], r, BlocksFor(size)) ==> s <= r
    ensures s >= 0 ==>
      Step(st, total, saddr, Malloc(size)) == State(Taken(st.m, s, BlocksFor(size)), st.granted[s := size])
  {
    BlocksCover(size);
    s := StartBlock(st.m[..total], BlocksFor(size));
    if s >= 0 {
      AddressRoundTrip(saddr, total, s);
    }
  }

  lemma MallocKeeps(st: State, total: nat, saddr: word, size: word)
    requires total + MAX_BLOCKS <= |st.m| && PoolFits(saddr, total)
    requires Consistent(st, total) && Legal(st, total, saddr, Malloc(size))
    ensures Consistent(Step(st, total, saddr, Malloc(size)), total)
    ensures Step(st, total, saddr, Malloc(size)).m[total..] == st.m[total..]
  {
    var s := MallocStep(st, total, saddr, size);
    if s >= 0 {
      var n, t := BlocksFor(size), st.m[..total];
      TakeEncodes(t, LiveRuns(st.granted), s, n);
      TakenPrefix(st.m, total, s, n);
      LiveRunsAdd(st.granted, s, size);
    }
  }

  lemma LiveRunsAdd(granted: map<nat, word>, s: nat, size: word)
    ensures LiveRuns(granted[s := size]) == LiveRuns(granted)[s := BlocksFor(size)]
  {
  }

  lemma FreeKeeps(st: State, total: nat, saddr: word, address: word)
    requires total + MAX_BLOCKS <= |st.m| && PoolFits(saddr, total)
    requires Consistent(st, total) && Legal(st, total, saddr, Free(address))
    ensures Consistent(Step(st, total, saddr, Free(address)), total)
    ensures Step(st, total, saddr, Free(address)).m[total..] == st.m[total..]
  {
    var b :| b in st.granted && address == BlockToAddress(saddr, b);
    assert b in LiveRuns(st.granted);
    AddressRoundTrip(saddr, total, b);
    FreeEncodes(st.m[..total], LiveRuns(st.granted), b);
    FreedPrefix(st.m, total, b);
    assert LiveRuns(st.granted - {b}) == LiveRuns(st.granted) - {b};
  }

  /** Every legal run keeps table and granted set consistent and never touches the memory behind
      the table. */
  lemma {:induction false} RunKeeps(st: State, total: nat, saddr: word, ops: seq<Op>)
    requires total + MAX_BLOCKS <= |st.m| && PoolFits(saddr, total)
    requires Consistent(st, total) && LegalRun(st, total, saddr, ops)
    ensures Consistent(Run(st, total, saddr, ops), total)
    ensures Run(st, total, saddr, ops).m[total..] == st.m[total..]
    decreases |ops|
  {
    if ops != [] {
      match ops[0] {
        case Malloc(size) => MallocKeeps(st, total, saddr, size);
        case Free(address) => FreeKeeps(st, total, saddr, address);
      }
      RunKeeps(Step(st, total, saddr, ops[0]), total, saddr, ops[1..]);
    }
  }

  /** Address a lies in the range handed out for the live first block b. */
  ghost predicate InRange(saddr: word, granted: map<nat, word>, b: nat, a: int) {
    b in granted && BlockToAddress(saddr, b) <= a < BlockToAddress(saddr, b) + granted[b]
  }

  /** The granted byte ranges are block-aligned, inside the pool and pairwise disjoint. */
  ghost predicate RangesSound(saddr: word, total: nat, granted: map<nat, word>) {
    && (forall b :: b in granted ==>
          && BlockToAddress(saddr, b) % BLOCK_SIZE == 0
          && saddr <= BlockToAddress(saddr, b)
          && BlockToAddress(saddr, b) + granted[b] <= saddr + total * BLOCK_SIZE)
    && (forall b, c, a :: InRange(saddr, granted, b, a) && InRange(saddr, granted, c, a) ==> b == c)
  }

  lemma LiveRange(t: Table, total: nat, saddr: word, granted: map<nat, word>, b: nat)
    requires Encodes(t, LiveRuns(granted)) && |t| == total && PoolFits(saddr, total)
    requires b in granted && granted[b] <= 0xffff_f000
    ensures b + BlocksFor(granted[b]) <= total && 1 <= BlocksFor(granted[b])
    ensures BlockToAddress(saddr, b) == saddr + b * BLOCK_SIZE
    ensures granted[b] <= BlocksFor(granted[b]) * BLOCK_SIZE
  {
    assert b in LiveRuns(granted);
    AddressRoundTrip(saddr, total, b);
    BlocksCover(granted[b]);
  }

  lemma EncodedRangesSound(t: Table, total: nat, saddr: word, granted: map<nat, word>)
    requires Encodes(t, LiveRuns(granted)) && |t| == total && PoolFits(saddr, total)
    requires saddr % BLOCK_SIZE == 0
    requires forall b :: b in granted ==> granted[b] <= 0xffff_f000
    ensures RangesSound(saddr, total, granted)
  {
    forall b | b in granted
      ensures BlockToAddress(saddr, b) % BLOCK_SIZE == 0
      ensures saddr <= BlockToAddress(saddr, b)
      ensures BlockToAddress(saddr, b) + granted[b] <= saddr + total * BLOCK_SIZE
    {
      LiveRange(t, total, saddr, granted, b);
    }
    forall b, c, a | InRange(saddr, granted, b, a) && InRange(saddr, granted, c, a)
      ensures b == c
    {
      LiveRange(t, total, saddr, granted, b);
      LiveRange(t, total, saddr, granted, c);
      assert b in LiveRuns(granted) && c in LiveRuns(granted);
      assert !(b < c) && !(c < b);
    }
  }

  /** After any legal run from an all-free table: the table encodes exactly the granted runs, free
      and live blocks add up to the table's size, the granted ranges are sound, and the memory
      behind the table is untouched. */
  lemma AllocatorInvariant(m: seq<bv8>, total: nat, saddr: word, ops: seq<Op>)
    requires total + MAX_BLOCKS <= |m| && PoolFits(saddr, total) && saddr % BLOCK_SIZE == 0
    requires forall i :: 0 <= i < total ==> m[i] == FREE
    requires LegalRun(State(m, map[]), total, saddr, ops)
    ensures
      var st := Run(State(m, map[]), total, saddr, ops);
      && Encodes(st.m[..total], LiveRuns(st.granted))
      && FreeCount(st.m[..total]) + LiveBlocks(LiveRuns(st.granted)) == total
      && RangesSound(saddr, total, st.granted)
      && st.m[total..] == m[total..]
  {
    var start := State(m, map[]);
    assert LiveRuns(start.granted) == map[];
    RunKeeps(start, total, saddr, ops);
    var st := Run(start, total, saddr, ops);
    Conservation(st.m[..total], LiveRuns(st.granted));
    EncodedRangesSound(st.m[..total], total, saddr, st.granted);
  }

  /** Malloc and then free of what it returned restores the memory byte for byte. */
  lemma MallocFreeRestores(m: seq<bv8>, total: nat, saddr: word, size: word, live: Runs)
    requires total + MAX_BLOCKS <= |m| && PoolFits(saddr, total) && Encodes(m[..total], live)
    requires Legal(State(m, map[]), total, saddr, Malloc(size))
    ensures BlocksFor(size) < MAX_BLOCKS
    ensures
      var (address, after) := MallocOutcome(m, total, saddr, BlocksFor(size));
      address != 0 ==>
        0 <= AddressToBlock(saddr, address) && Freed(after, total, AddressToBlock(saddr, address)) == m
  {
    hide Freed;
    hide Encodes;
    BlocksCover(size);
    var t, n := m[..total], BlocksFor(size);
    var s := StartBlock(t, n);
    if s >= 0 {
      AddressRoundTrip(saddr, total, s);
      FreeRunIsApart(t, live, s, n);
      assert forall i :: s <= i < s + n ==> m[i] == t[i];
      TakeThenFree(m, total, s, n);
    }
  }

  ghost function Answer(st: State, total: nat, saddr: word, op: Op): word
    requires total + MAX_BLOCKS <= |st.m|
  {
    match op
    case Malloc(size) =>
      BlocksCover(size);
      MallocOutcome(st.m, total, saddr, BlocksFor(size)).0
    case Free(_) => 0
  }

  /** What the requests of a run answer; zero stands at the releases. */
  ghost function Answers(st: State, total: nat, saddr: word, ops: seq<Op>): seq<word>
    requires total + MAX_BLOCKS <= |st.m|
    decreases |ops|
  {
    if ops == [] then []
    else [Answer(st, total, saddr, ops[0])] + Answers(Step(st, total, saddr, ops[0]), total, saddr, ops[1..])
  }

  /** One operation on the heap object. */
  method Perform(h: Heap, op: Op, ghost st: State) returns (answer: word)
    requires h.Valid() && PoolFits(h.saddr, h.table.total) && st.m == h.table.entries[..]
    requires Legal(st, h.table.total, h.saddr, op)
    requires forall b :: b in st.granted ==> b < h.table.total
    modifies h.table.entries
    ensures h.Valid() && answer == Answer(st, h.table.total, h.saddr, op)
    ensures h.table.entries[..] == Step(st, h.table.total, h.saddr, op).m
    ensures forall b :: b in Step(st, h.table.total, h.saddr, op).granted ==> b < h.table.total
  {
    hide MallocOutcome;
    hide Freed;
    hide Legal;
    StepBounds(st, h.table.total, h.saddr, op);
    match op {
      case Malloc(size) =>
        answer := h.Malloc(size);
      case Free(address) =>
        h.Free(address);
        answer := 0;
    }
  }

  /** The first step of a run. */
  lemma RunStep(st: State, total: nat, saddr: word, ops: seq<Op>, i: nat)
    requires total + MAX_BLOCKS <= |st.m| && i < |ops| && LegalRun(st, total, saddr, ops[i..])
    ensures Legal(st, total, saddr, ops[i])
    ensures
      var next := Step(st, total, saddr, ops[i]);
      && LegalRun(next, total, saddr, ops[i + 1..])
      && Run(st, total, saddr, ops[i..]) == Run(next, total, saddr, ops[i + 1..])
      && Answers(st, total, saddr, ops[i..]) == [Answer(st, total, saddr, ops[i])] + Answers(next, total, saddr, ops[i + 1..])
  {
    hide Step;
    hide Legal;
    assert ops[i..][1..] == ops[i + 1..];
  }

  /** The heap object carries out a legal run: its memory goes through the same states, and its requests
      answer the same addresses. */
  method Execute(h: Heap, ops: seq<Op>) returns (answers: seq<word>)
    requires h.Valid() && PoolFits(h.saddr, h.table.total)
    requires LegalRun(State(h.table.entries[..], map[]), h.table.total, h.saddr, ops)
    modifies h.table.entries
    ensures h.Valid() && answers == Answers(State(old(h.table.entries[..]), map[]), h.table.total, h.saddr, ops)
    ensures h.table.entries[..] == Run(State(old(h.table.entries[..]), map[]), h.table.total, h.saddr, ops).m
  {
    answers := [];
    ghost var st := State(h.table.entries[..], map[]);
    ghost var goal := Run(st, h.table.total, h.saddr, ops);
    ghost var all := Answers(st, h.table.total, h.saddr, ops);
    assert ops[0..] == ops;
    var i := 0;
    while i < |ops|
      invariant 0 <= i <= |ops| && st.m == h.table.entries[..]
      invariant LegalRun(st, h.table.total, h.saddr, ops[i..])
      invariant Run(st, h.table.total, h.saddr, ops[i..]) == goal
      invariant answers + Answers(st, h.table.total, h.saddr, ops[i..]) == all
      invariant forall b :: b in st.granted ==> b < h.table.total
    {
      hide Run;
      hide Answers;
      hide LegalRun;
      hide Legal;
      hide Step;
      hide Answer;
      RunStep(st, h.table.total, h.saddr, ops, i);
      var answer := Perform(h, ops[i], st);
      answers := answers + [answer];
      st := Step(st, h.table.total, h.saddr, ops[i]);
      i := i + 1;
    }
  }

  /** A legal step frees a block of the pool, or grants one. */
  lemma StepBounds(st: State, total: nat, saddr: word, op: Op)
    requires total + MAX_BLOCKS <= |st.m| && PoolFits(saddr, total) && Legal(st, total, saddr, op)
    requires forall b :: b in st.granted ==> b < total
    ensures op.Free? ==> 0 <= AddressToBlock(saddr, op.address) < total
    ensures forall b :: b in Step(st, total, saddr, op).granted ==> b < total
  {
    match op {
      case Malloc(size) =>
        BlocksCover(size);
        var s := StartBlock(st.m[..total], BlocksFor(size));
        if s >= 0 {
          AddressRoundTrip(saddr, total, s);
        }
      case Free(address) =>
        var b :| b in st.granted && address == BlockToAddress(saddr, b);
        AddressRoundTrip(saddr, total, b);
    }
  }
}
