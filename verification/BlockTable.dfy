/** The heap's block table as a value: one byte per 4096-byte block, with the flag bits
    taken, is-first and has-next, and the set of live runs such a table encodes. */
module BlockTable {

  const TAKEN: bv8 := 0x01
  const FREE: bv8 := 0x00
  const HAS_NEXT: bv8 := 0x80
  const IS_FIRST: bv8 := 0x40

  const BLOCK_SIZE := 4096
  const ENOMEM := 3

  type Table = seq<bv8>

  /** Live runs: the first block of each run and how many blocks it has. */
  type Runs = map<nat, nat>

  function EntryType(e: bv8): bv8 {
    e & 0x0f
  }

  predicate IsFree(e: bv8) {
    EntryType(e) == FREE
  }

  ghost predicate FreeRun(t: Table, s: int, n: nat) {
    0 <= s && s + n <= |t| && forall i :: s <= i < s + n ==> IsFree(t[i])
  }

  // ---------------------------------------------------------------- first fit

  /** s starts the least run of n free blocks. */
  ghost predicate LeastRun(t: Table, n: nat, s: int) {
    FreeRun(t, s, n) && forall r :: FreeRun(t, r, n) ==> s <= r
  }

  /** s starts the free run that ends the table. */
  ghost predicate EndRun(t: Table, s: int) {
    0 <= s < |t| && FreeRun(t, s, |t| - s) && (s == 0 || !IsFree(t[s - 1]))
  }

  /** What the scan for n blocks answers: the least start of a free run of n blocks if there is
      one; otherwise the start of the free run that ends the table, however short, and -ENOMEM
      if the last block is taken. */
  ghost predicate IsStartBlock(t: Table, n: nat, r: int) {
    if 1 <= n && exists s :: FreeRun(t, s, n) then LeastRun(t, n, r)
    else if t == [] || !IsFree(t[|t| - 1]) then r == -ENOMEM
    else EndRun(t, r)
  }

  ghost function FirstFit(t: Table, n: nat, from: nat): (r: int)
    requires exists s :: from <= s && FreeRun(t, s, n)
    ensures from <= r && FreeRun(t, r, n)
    ensures forall s :: from <= s && FreeRun(t, s, n) ==> r <= s
    decreases |t| - from
  {
    var s :| from <= s && FreeRun(t, s, n);
    if FreeRun(t, from, n) then from else FirstFit(t, n, from + 1)
  }

  ghost function TrailingRun(t: Table, r: nat): (s: int)
    requires r < |t| && FreeRun(t, r, |t| - r)
    ensures 0 <= s <= r && FreeRun(t, s, |t| - s) && (s == 0 || !IsFree(t[s - 1]))
  {
    if r == 0 || !IsFree(t[r - 1]) then r else TrailingRun(t, r - 1)
  }

  ghost function StartBlock(t: Table, n: nat): (r: int)
    ensures IsStartBlock(t, n, r)
    ensures r == -ENOMEM || 0 <= r < |t|
  {
    if 1 <= n && exists s :: FreeRun(t, s, n) then
      var s :| FreeRun(t, s, n);
      assert 0 <= s;
      FirstFit(t, n, 0)
    else if t == [] || !IsFree(t[|t| - 1]) then -ENOMEM
    else TrailingRun(t, |t| - 1)
  }

  /** The answer is unique, so `IsStartBlock` determines the scan. */
  lemma StartBlockUnique(t: Table, n: nat, r: int)
    requires IsStartBlock(t, n, r)
    ensures r == StartBlock(t, n)
  {
  }

  /** One-block requests are exact: they fail only when no block is free. */
  lemma OneBlockExact(t: Table)
    ensures StartBlock(t, 1) == -ENOMEM <==> forall i :: 0 <= i < |t| ==> !IsFree(t[i])
    ensures StartBlock(t, 1) >= 0 ==> FreeRun(t, StartBlock(t, 1), 1)
  {
    if i :| 0 <= i < |t| && IsFree(t[i]) {
      assert FreeRun(t, i, 1);
    }
    if s :| FreeRun(t, s, 1) {
      assert IsFree(t[s]);
    }
  }

  // ---------------------------------------------------------------- encoding of live runs

  /** The byte of the k-th block of a live run of n blocks. */
  function RunEntry(k: nat, n: nat): bv8
    requires k < n
  {
    if k == 0 then if n > 1 then TAKEN | IS_FIRST | HAS_NEXT else TAKEN | IS_FIRST
    else if k == n - 1 then TAKEN else TAKEN | HAS_NEXT
  }

  lemma RunEntryBits(k: nat, n: nat)
    requires k < n
    ensures !IsFree(RunEntry(k, n))
    ensures RunEntry(k, n) & HAS_NEXT != 0 <==> k < n - 1
    ensures RunEntry(k, n) & IS_FIRST != 0 <==> k == 0
  {
  }

  ghost predicate Covers(live: Runs, s: nat, i: int) {
    s in live && s <= i < s + live[s]
  }

  /** The table says exactly that `live` are the live runs: they lie inside the table, do not
      overlap, carry their flag bytes, and every other byte is the free byte. */
  ghost predicate Encodes(t: Table, live: Runs) {
    && (forall s :: s in live ==> 1 <= live[s] && s + live[s] <= |t|)
    && (forall s, r :: s in live && r in live && s < r ==> s + live[s] <= r)
    && (forall s: nat, i: int {:trigger Covers(live, s, i)} :: Covers(live, s, i) ==> t[i] == RunEntry(i - s, live[s]))
    && (forall i :: 0 <= i < |t| ==> t[i] == FREE || exists s :: Covers(live, s, i))
  }

  /** In an encoding table a block is free exactly when no live run covers it. */
  lemma FreeIffUncovered(t: Table, live: Runs, i: nat)
    requires Encodes(t, live) && i < |t|
    ensures IsFree(t[i]) <==> t[i] == FREE
    ensures IsFree(t[i]) <==> forall s :: !Covers(live, s, i)
  {
    if s :| Covers(live, s, i) {
      RunEntryBits(i - s, live[s]);
    }
  }

  /** The table determines the live runs. */
  lemma EncodingUnique(t: Table, live: Runs, other: Runs)
    requires Encodes(t, live) && Encodes(t, other)
    ensures live == other
  {
    SubEncoding(t, live, other);
    SubEncoding(t, other, live);
  }

  lemma SubEncoding(t: Table, live: Runs, other: Runs)
    requires Encodes(t, live) && Encodes(t, other)
    ensures forall s :: s in live ==> s in other && other[s] == live[s]
  {
    forall s | s in live
      ensures s in other && other[s] == live[s]
    {
      assert Covers(live, s, s);
      RunEntryBits(0, live[s]);
      var r :| Covers(other, r, s);
      RunEntryBits(s - r, other[r]);
      assert r == s;
      var k := if live[s] <= other[s] then live[s] else other[s];
      assert Covers(live, s, s + k - 1) && Covers(other, s, s + k - 1);
      RunEntryBits(k - 1, live[s]);
      RunEntryBits(k - 1, other[s]);
    }
  }

  /** The live runs determine the table. */
  lemma EncodingDetermines(t: Table, u: Table, live: Runs)
    requires Encodes(t, live) && Encodes(u, live) && |t| == |u|
    ensures t == u
  {
    forall i | 0 <= i < |t|
      ensures t[i] == u[i]
    {
      if s :| Covers(live, s, i) {
        assert t[i] == RunEntry(i - s, live[s]);
      }
    }
  }

  /** Two tables that encode the same live runs, with the same memory behind them, are the same. */
  lemma SameTable(m: seq<bv8>, u: seq<bv8>, total: nat, live: Runs)
    requires |m| == |u| && total <= |m|
    requires Encodes(m[..total], live) && Encodes(u[..total], live) && m[total..] == u[total..]
    ensures m == u
  {
    EncodingDetermines(m[..total], u[..total], live);
    assert m == m[..total] + m[total..] && u == u[..total] + u[total..];
  }

  // ---------------------------------------------------------------- marking blocks

  /** The table after blocks s..s+n are marked taken. */
  function Taken(t: Table, s: nat, n: nat): (u: Table)
    requires s + n <= |t|
    ensures |u| == |t|
    ensures forall i :: 0 <= i < |t| ==> u[i] == if s <= i < s + n then RunEntry(i - s, n) else t[i]
  {
    t[..s] + seq(n, k requires 0 <= k < n => RunEntry(k, n)) + t[s + n..]
  }

  /** The table after the has-next chain that starts at block s is marked free; the walk stops at
      the end of the table. */
  function Freed(t: Table, total: nat, s: nat): (u: Table)
    requires total <= |t|
    ensures |u| == |t|
    ensures forall i :: 0 <= i < |t| && (i < s || total <= i) ==> u[i] == t[i]
    decreases total - s
  {
    if total <= s then t
    else if t[s] & HAS_NEXT != 0 then Freed(t[s := FREE], total, s + 1)
    else t[s := FREE]
  }

  /** A free run lies apart from every live run and holds only free bytes. */
  lemma FreeRunIsApart(t: Table, live: Runs, s: nat, n: nat)
    requires Encodes(t, live) && 1 <= n && FreeRun(t, s, n)
    ensures forall i :: s <= i < s + n ==> t[i] == FREE
    ensures forall r :: r in live ==> r + live[r] <= s || s + n <= r
  {
    forall i | s <= i < s + n
      ensures t[i] == FREE && forall r :: !Covers(live, r, i)
    {
      FreeIffUncovered(t, live, i);
    }
    forall r | r in live
      ensures r + live[r] <= s || s + n <= r
    {
      assert Covers(live, r, r) && !Covers(live, r, s);
    }
  }

  /** Taking a free run adds it to the live runs. */
  lemma TakeEncodes(t: Table, live: Runs, s: nat, n: nat)
    requires Encodes(t, live) && 1 <= n && FreeRun(t, s, n)
    ensures s !in live
    ensures Encodes(Taken(t, s, n), live[s := n])
  {
    FreeRunIsApart(t, live, s, n);
    var u, more := Taken(t, s, n), live[s := n];
    forall r, i | Covers(more, r, i)
      ensures u[i] == RunEntry(i - r, more[r])
    {
      assert r == s || Covers(live, r, i);
    }
    forall i | 0 <= i < |u|
      ensures u[i] == FREE || exists r :: Covers(more, r, i)
    {
      if s <= i < s + n {
        assert Covers(more, s, i);
      } else if r :| Covers(live, r, i) {
        assert Covers(more, r, i);
      }
    }
  }

  /** A whole run is on the table from block s on, n blocks long. */
  ghost predicate RunAt(t: Table, s: nat, n: nat) {
    1 <= n && s + n <= |t| && forall i :: s <= i < s + n ==> t[i] == RunEntry(i - s, n)
  }

  /** On any table, from any block on: cleared are the blocks up to the first without a successor, e, or up
      to the table's end, and no others. */
  lemma {:induction false} FreedExact(t: Table, total: nat, s: nat, e: nat)
    requires s <= e <= total <= |t| && forall i :: s <= i < e ==> t[i] & 0x80 != 0
    requires e < total ==> t[e] & 0x80 == 0
    ensures forall i :: 0 <= i < |t| ==> Freed(t, total, s)[i] == if s <= i <= e && i < total then 0x00 else t[i]
    decreases e - s
  {
    if s < e {
      FreedExact(t[s := FREE], total, s + 1, e);
    }
  }

  /** Freeing a run clears its blocks and nothing else. */
  lemma FreedClearsRun(t: Table, total: nat, s: nat, n: nat)
    requires s + n <= total <= |t| && RunAt(t, s, n)
    ensures forall i :: 0 <= i < |t| ==>
      Freed(t, total, s)[i] == if s <= i < s + n then FREE else t[i]
  {
    forall i | s <= i < s + n
      ensures t[i] & 0x80 != 0 <==> i < s + n - 1
    {
      RunEntryBits(i - s, n);
    }
    FreedExact(t, total, s, s + n - 1);
  }

  /** Taking a run and freeing it restores the table byte for byte. */
  lemma TakeThenFree(t: Table, total: nat, s: nat, n: nat)
    requires 1 <= n && s + n <= total <= |t|
    requires forall i :: s <= i < s + n ==> t[i] == FREE
    ensures Freed(Taken(t, s, n), total, s) == t
  {
    FreedClearsRun(Taken(t, s, n), total, s, n);
  }

  /** Freeing a live start removes exactly that run. */
  lemma FreeEncodes(t: Table, live: Runs, s: nat)
    requires Encodes(t, live) && s in live
    ensures Encodes(Freed(t, |t|, s), live - {s})
  {
    hide Freed, RunEntry;
    var n := live[s];
    forall i | s <= i < s + n
      ensures t[i] == RunEntry(i - s, n)
    {
      assert Covers(live, s, i);
    }
    FreedClearsRun(t, |t|, s, n);
    var u, less := Freed(t, |t|, s), live - {s};
    forall r, i | Covers(less, r, i)
      ensures u[i] == RunEntry(i - r, less[r])
    {
      assert Covers(live, r, i);
    }
    forall i | 0 <= i < |u|
      ensures u[i] == FREE || exists r :: Covers(less, r, i)
    {
      if !(s <= i < s + n) && t[i] != FREE {
        var r :| Covers(live, r, i);
        assert Covers(less, r, i);
      }
    }
  }

  /** Taking a run of the table does not touch the memory behind it. */
  lemma TakenPrefix(m: seq<bv8>, total: nat, s: nat, n: nat)
    requires s + n <= total <= |m|
    ensures Taken(m, s, n)[..total] == Taken(m[..total], s, n)
    ensures Taken(m, s, n)[total..] == m[total..]
  {
  }

  /** Freeing only looks at the table, not at the memory behind it. */
  lemma {:induction false} FreedPrefix(m: seq<bv8>, total: nat, s: nat)
    requires total <= |m|
    ensures Freed(m, total, s) == Freed(m[..total], total, s) + m[total..]
    decreases total - s
  {
    if s < total {
      assert m[..total][s := FREE] == m[s := FREE][..total];
      assert m[s := FREE][total..] == m[total..];
      FreedPrefix(m[s := FREE], total, s + 1);
    }
  }

  // ---------------------------------------------------------------- conservation

  ghost function FreeBlocks(t: Table): set<nat> {
    set i: nat | i < |t| && IsFree(t[i])
  }

  ghost function FreeCount(t: Table): nat {
    |FreeBlocks(t)|
  }

  ghost function Interval(s: nat, n: nat): (r: set<nat>)
    ensures forall i :: i in r <==> s <= i < s + n
    ensures |r| == n
  {
    if n == 0 then {}
    else
      assert s + n - 1 !in Interval(s, n - 1);
      Interval(s, n - 1) + {s + n - 1}
  }

  /** Some live run; which one does not matter. */
  ghost function SomeRun(live: Runs): (s: nat)
    requires live != map[]
    ensures s in live
  {
    var s :| s in live;
    s
  }

  ghost function LiveBlocks(live: Runs): nat {
    if live == map[] then 0
    else live[SomeRun(live)] + LiveBlocks(live - {SomeRun(live)})
  }

  /** Taking n blocks of a free run leaves n fewer free blocks. */
  lemma TakeCount(t: Table, s: nat, n: nat)
    requires FreeRun(t, s, n)
    ensures FreeCount(Taken(t, s, n)) == FreeCount(t) - n
  {
    var u := Taken(t, s, n);
    forall i: nat | s <= i < s + n
      ensures !IsFree(u[i])
    {
      RunEntryBits(i - s, n);
    }
    assert FreeBlocks(t) == FreeBlocks(u) + Interval(s, n);
    assert FreeBlocks(u) !! Interval(s, n);
  }

  /** Clearing n taken blocks gives n more free blocks. */
  lemma ClearCount(t: Table, u: Table, s: nat, n: nat)
    requires s + n <= |t| == |u|
    requires forall i :: s <= i < s + n ==> !IsFree(t[i])
    requires forall i :: 0 <= i < |t| ==> u[i] == if s <= i < s + n then FREE else t[i]
    ensures FreeCount(u) == FreeCount(t) + n
  {
    assert IsFree(FREE);
    assert FreeBlocks(u) == FreeBlocks(t) + Interval(s, n);
    assert FreeBlocks(t) !! Interval(s, n);
  }

  /** Freeing a live run gives all its blocks back. */
  lemma FreeCounts(t: Table, live: Runs, s: nat)
    requires Encodes(t, live) && s in live
    ensures FreeCount(Freed(t, |t|, s)) == FreeCount(t) + live[s]
  {
    forall i | s <= i < s + live[s]
      ensures t[i] == RunEntry(i - s, live[s]) && !IsFree(t[i])
    {
      assert Covers(live, s, i);
      RunEntryBits(i - s, live[s]);
    }
    FreedClearsRun(t, |t|, s, live[s]);
    ClearCount(t, Freed(t, |t|, s), s, live[s]);
  }

  /** Blocks are conserved: free blocks and live lengths always add up to the table's size. */
  lemma {:induction false} Conservation(t: Table, live: Runs)
    requires Encodes(t, live)
    ensures FreeCount(t) + LiveBlocks(live) == |t|
    decreases |live|
  {
    if live == map[] {
      forall i: nat | i < |t|
        ensures IsFree(t[i])
      {
        FreeIffUncovered(t, live, i);
      }
      assert FreeBlocks(t) == Interval(0, |t|);
    } else {
      var s := SomeRun(live);
      FreeEncodes(t, live, s);
      FreeCounts(t, live, s);
      assert (live - {s}).Keys == live.Keys - {s};
      Conservation(Freed(t, |t|, s), live - {s});
    }
  }

  /** The table after freeing the given starts one after the other. */
  function FreedAll(t: Table, order: seq<nat>): (u: Table)
    ensures |u| == |t|
    decreases |order|
  {
    if order == [] then t else FreedAll(Freed(t, |t|, order[0]), order[1..])
  }

  lemma {:induction false} FreedAllEncodes(t: Table, live: Runs, order: seq<nat>)
    requires Encodes(t, live)
    requires forall i :: 0 <= i < |order| ==> order[i] in live
    requires forall i, j :: 0 <= i < j < |order| ==> order[i] != order[j]
    ensures Encodes(FreedAll(t, order), live - (set s | s in order))
    decreases |order|
  {
    if order == [] {
      assert live - (set s | s in order) == live;
    } else {
      FreeEncodes(t, live, order[0]);
      FreedAllEncodes(Freed(t, |t|, order[0]), live - {order[0]}, order[1..]);
      assert live - {order[0]} - (set s | s in order[1..]) == live - (set s | s in order);
    }
  }

  /** Freeing every live run once, in any order, gives the all-free table. */
  lemma FreeEverything(t: Table, live: Runs, order: seq<nat>)
    requires Encodes(t, live)
    requires forall s :: s in order <==> s in live
    requires forall i, j :: 0 <= i < j < |order| ==> order[i] != order[j]
    ensures forall i :: 0 <= i < |t| ==> FreedAll(t, order)[i] == FREE
  {
    FreedAllEncodes(t, live, order);
    assert live - (set s | s in order) == map[];
  }
}
