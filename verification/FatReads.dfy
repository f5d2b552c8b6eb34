/** Reading files of a FAT volume: the driver's code, in `int` arithmetic, where the walk along the cluster
    chain starts anew for every cluster. Up to 2^31 its reads are those along the chain. */
module FatReads {
  import opened MachineWords
  import opened DiskStream
  import opened FatTable
  import opened FatChain

  // ---------------------------------------------------------------- what the code does with any `int`

  /** How many links ahead of the first cluster an offset lies; a loop over a negative number of links
      makes no step. */
  function Ahead(v: Volume, offset: int32): nat
    requires 1 <= v.sectorsPerCluster
  {
    if offset < 0 then 0 else Quotient(offset, v.ClusterSize())
  }

  /** The result of a read. */
  function IntResult(v: Volume, start: nat, offset: int32, total: int32): int
    requires 1 <= v.sectorsPerCluster
    decreases total
  {
    var size := v.ClusterSize();
    if ChainAt(v, start, Ahead(v, offset)) < 0 then -EIO
    else if total <= size then 0
    else IntResult(v, start, ToInt32(offset + size), total - size)
  }

  /** The origin of its j-th byte. */
  function IntOrigin(v: Volume, start: nat, offset: int32, j: nat): Origin
    requires 1 <= v.sectorsPerCluster
    decreases j
  {
    var size, c := v.ClusterSize(), ChainAt(v, start, Ahead(v, offset));
    if c < 0 then Kept
    else if j < size then From(RawSource(ToInt32(ClusterPos(v, c) + TruncMod(offset, size)), j))
    else IntOrigin(v, start, ToInt32(offset + size), j - size)
  }

  /** Its output; bytes from `total` on are kept. */
  function IntData(v: Volume, start: nat, offset: int32, total: int32, was: seq<byte>): (data: seq<byte>)
    requires 1 <= v.sectorsPerCluster
    ensures |data| == |was|
    ensures forall j :: 0 <= j < |was| ==>
      data[j] == if j < total then Delivery(v, IntOrigin(v, start, offset, j), was[j]) else was[j]
  {
    seq(|was|, j requires 0 <= j < |was| =>
      if j < total then Delivery(v, IntOrigin(v, start, offset, j), was[j]) else was[j])
  }

  /** What `fat16_read` does: item after item, leaving at the first error. The error and the output. */
  function IntItems(v: Volume, start: nat, offset: int32, size: word, nmemb: nat, was: seq<byte>): (r: (int, seq<byte>))
    requires 1 <= v.sectorsPerCluster && |was| == Times(nmemb, size)
    ensures |r.1| == |was|
    decreases nmemb
  {
    if nmemb == 0 then (0, was)
    else
      var res := IntResult(v, start, offset, ToInt32(size));
      var head := IntData(v, start, offset, ToInt32(size), was[..size]);
      if res < 0 then (res, head + was[size..])
      else
        var rest := IntItems(v, start, ToInt32(offset + size), size, nmemb - 1, was[size..]);
        (rest.0, head + rest.1)
  }

  // ---------------------------------------------------------------- the code

  /** The position computed in `int` arithmetic. */
  lemma StartingPosition(v: Volume, cluster: int, r: int)
    ensures ToInt32(ToInt32(ToInt32(v.endingSectorPos + (cluster - 2) * v.sectorsPerCluster) * SECTOR_SIZE) + r)
         == ToInt32(ClusterPos(v, cluster) + r)
  {
    var sector := v.endingSectorPos + (cluster - 2) * v.sectorsPerCluster;
    hide ToInt32;
    WrapPlus(ToInt32(sector) * SECTOR_SIZE, r);
    WrapTimesPlus(sector, SECTOR_SIZE, r);
  }

  class FatDriver {
    const volume: Volume
    const fatReadStream: DiskStreamer
    const clusterReadStream: DiskStreamer

    ghost predicate Valid() {
      && fatReadStream.disk == volume.disk == clusterReadStream.disk
      && fatReadStream.around == volume.around == clusterReadStream.around
      && fatReadStream != clusterReadStream
      && 1 <= volume.sectorsPerCluster
    }

    constructor (volume: Volume)
      requires 1 <= volume.sectorsPerCluster
      ensures Valid() && this.volume == volume
    {
      this.volume := volume;
      fatReadStream := new DiskStreamer(volume.disk, volume.around);
      clusterReadStream := new DiskStreamer(volume.disk, volume.around);
    }

    method GetFatEntry(cluster: int) returns (res: int)
      requires Valid()
      modifies fatReadStream
      ensures 0 <= res == FatEntry(volume, cluster)
      ensures 0 <= cluster ==>
        var p := ToInt32(1024 * volume.reservedSectors * cluster);
        res % 0x100 == volume.disk(p) && res / 0x100 == volume.disk(p + 1)
    {
      if 0 <= cluster {
        EntryBytes(volume, cluster);
      }
      var fatTablePosition := ToWord(volume.reservedSectors * SECTOR_SIZE);
      res := fatReadStream.Seek(ToInt32(fatTablePosition * ToWord(cluster * ENTRY_SIZE)));
      ghost var p := fatReadStream.pos;
      var result := new byte[ENTRY_SIZE];
      EntryAligned(volume, cluster);
      GuardedRead(volume.disk, volume.around, p, ENTRY_SIZE, 0);
      GuardedRead(volume.disk, volume.around, p, ENTRY_SIZE, 1);
      res := fatReadStream.Read(result, 0, ENTRY_SIZE);
      var low: int, high: int := result[0], result[1];
      res := low + 0x100 * high;
    }

    method GetClusterForOffset(startingCluster: nat, offset: int32) returns (res: int)
      requires Valid()
      modifies fatReadStream
      ensures res == ChainAt(volume, startingCluster, Ahead(volume, offset))
    {
      hide FatEntry;
      var clustersAhead := TruncDiv(offset, volume.ClusterSize());
      LinksAhead(volume, offset);
      var clusterToUse := startingCluster;
      var i := 0;
      while i < clustersAhead
        invariant 0 <= i <= Ahead(volume, offset)
        invariant 0 <= clusterToUse == ChainAt(volume, startingCluster, i)
      {
        var entry := GetFatEntry(clusterToUse);
        if IsStop(entry) {
          StopsEarly(volume, startingCluster, i, clustersAhead);
        }
        if entry == 0xff8 || entry == 0xfff {
          return -EIO;
        }
        if entry == BAD_SECTOR {
          return -EIO;
        }
        if entry == 0xff0 || entry == 0xff6 {
          return -EIO;
        }
        if entry == 0 {
          return -EIO;
        }
        clusterToUse := entry;
        i := i + 1;
      }
      res := clusterToUse;
    }

    /** `out` is filled from index `at` on. */
    method ReadInternalFromStream(cluster: nat, offset: int32, total: int32, out: array<byte>, at: nat)
      returns (res: int)
      requires Valid() && at <= out.Length && at + total <= out.Length
      modifies fatReadStream, clusterReadStream, out
      ensures res == IntResult(volume, cluster, offset, total)
      ensures forall x :: 0 <= x < out.Length ==>
        out[x] == if at <= x < at + total then Delivery(volume, IntOrigin(volume, cluster, offset, x - at), old(out[x]))
                  else old(out[x])
      decreases total
    {
      hide RawSource, ChainAt, ToInt32, Fetch, EntryPos, ClusterPos, Ahead, TruncMod;
      var size := volume.ClusterSize();
      var clusterToUse := GetClusterForOffset(cluster, offset);
      if clusterToUse < 0 {
        return clusterToUse;
      }
      var offsetFromCluster := TruncMod(offset, size);
      var startingSector := ToInt32(volume.endingSectorPos + (clusterToUse - 2) * volume.sectorsPerCluster);
      var startingPos := ToInt32(ToInt32(startingSector * SECTOR_SIZE) + offsetFromCluster);
      StartingPosition(volume, clusterToUse, offsetFromCluster);
      var totalToRead := if total > size then size else total;
      res := clusterReadStream.Seek(startingPos);
      if res != 0 {
        return;
      }
      res := clusterReadStream.Read(out, at, totalToRead);
      if res != 0 {
        return;
      }
      if total - totalToRead > 0 {
        var next := ToInt32(offset + totalToRead);
        res := ReadInternalFromStream(cluster, next, total - totalToRead, out, at + totalToRead);
      }
    }
  }

  lemma LinksAhead(v: Volume, offset: int32)
    requires 1 <= v.sectorsPerCluster
    ensures
      var n := TruncDiv(offset, v.ClusterSize());
      if 0 < n then Ahead(v, offset) == n else Ahead(v, offset) == 0
  {
    var size, o: int := v.ClusterSize(), offset;
    QuotientOfNat(if o < 0 then -o else o, size);
    hide Quotient;
  }

  lemma QuotientOfNat(a: nat, size: nat)
    requires 1 <= size
    ensures 0 <= a / size == Quotient(a, size)
  {
  }

  /** The first cluster as the code joins it: `high | low`. */
  function FirstCluster(high: half, low: half): nat {
    BitOr(high, low)
  }

  /** Without a shift, that is the number the two halves mean only if the upper one is zero. */
  lemma FirstClusterExact(high: half, low: half)
    ensures FirstCluster(high, low) < 0x1_0000
    ensures FirstCluster(high, low) == high * 0x1_0000 + low <==> high == 0
  {
    assert Shl(1, 16) == 0x1_0000 by {
      PageShift(0);
      assert Shl(1, 14) == 16384;
    }
    hide BitOr;
    OrSplit(16, 0, high, 0, low);
    OrZero(low);
  }

  /** `fat16_read_internal`: the read as a change of the end of `out`. */
  method ReadInternal(fs: FatDriver, start: nat, offset: int32, total: int32, out: array<byte>, at: nat)
    returns (res: int)
    requires fs.Valid() && at <= out.Length && at + total <= out.Length
    modifies fs.fatReadStream, fs.clusterReadStream, out
    ensures res == IntResult(fs.volume, start, offset, total)
    ensures out[..] == old(out[..at]) + IntData(fs.volume, start, offset, total, old(out[at..]))
  {
    hide IntResult, IntOrigin, Delivery;
    res := fs.ReadInternalFromStream(start, offset, total, out, at);
  }

  lemma NoIntItems(v: Volume, start: nat, offset: int32, size: word)
    requires 1 <= v.sectorsPerCluster
    ensures IntItems(v, start, offset, size, 0, []) == (0, [])
  {
  }

  lemma IntItemsStep(v: Volume, start: nat, offset: int32, size: word, n: nat, was: seq<byte>)
    requires 1 <= v.sectorsPerCluster && 1 <= n && |was| == Times(n, size)
    ensures size <= |was| && |was| - size == Times(n - 1, size)
    ensures
      var res := IntResult(v, start, offset, ToInt32(size));
      var head := IntData(v, start, offset, ToInt32(size), was[..size]);
      var rest := IntItems(v, start, ToInt32(offset + size), size, n - 1, was[size..]);
      IntItems(v, start, offset, size, n, was) ==
        if res < 0 then (res, head + was[size..]) else (rest.0, head + rest.1)
  {
    hide IntData, IntResult, ToInt32;
  }

  /** An item's bytes do not reach behind it. */
  lemma ItemData(v: Volume, start: nat, offset: int32, size: word, was: seq<byte>)
    requires 1 <= v.sectorsPerCluster && size <= |was|
    ensures IntData(v, start, offset, ToInt32(size), was)
         == IntData(v, start, offset, ToInt32(size), was[..size]) + was[size..]
  {
    assert ToInt32(size) <= size;
    hide IntData, IntOrigin, Delivery, ToInt32;
  }

  /** Advancing over one item: what is done so far, followed by the outcome of the rest, stays the
      outcome of the whole. */
  lemma ItemsAdvance(v: Volume, start: nat, offset: int32, size: word, n: nat, done: seq<byte>, was: seq<byte>)
    requires 1 <= v.sectorsPerCluster && 1 <= n && |was| == Times(n, size)
    ensures size <= |was| && |was| - size == Times(n - 1, size)
    ensures
      var res := IntResult(v, start, offset, ToInt32(size));
      var data := IntData(v, start, offset, ToInt32(size), was);
      var whole := IntItems(v, start, offset, size, n, was);
      var rest := IntItems(v, start, ToInt32(offset + size), size, n - 1, was[size..]);
      && data[size..] == was[size..]
      && if res < 0 then whole.0 == res && done + whole.1 == done + data
         else whole.0 == rest.0 && done + whole.1 == done + data[..size] + rest.1
  {
    hide IntItems, IntData, IntResult, ToInt32;
    IntItemsStep(v, start, offset, size, n, was);
    ItemData(v, start, offset, size, was);
    var head := IntData(v, start, offset, ToInt32(size), was[..size]);
    var rest := IntItems(v, start, ToInt32(offset + size), size, n - 1, was[size..]);
    var data := IntData(v, start, offset, ToInt32(size), was);
    assert data[..size] == head && data[size..] == was[size..];
    assert done + (head + rest.1) == done + head + rest.1;
  }

  /** With n items to go, what is done so far and the outcome of the rest are the goal. */
  ghost predicate ItemsLeft(v: Volume, start: nat, offset: int32, size: word, n: nat, done: seq<byte>, was: seq<byte>,
                            goal: (int, seq<byte>))
    requires 1 <= v.sectorsPerCluster
  {
    |was| == Times(n, size) && var rest := IntItems(v, start, offset, size, n, was); goal == (rest.0, done + rest.1)
  }

  lemma NoItemsLeft(v: Volume, start: nat, offset: int32, size: word, done: seq<byte>, was: seq<byte>,
                    goal: (int, seq<byte>))
    requires 1 <= v.sectorsPerCluster && ItemsLeft(v, start, offset, size, 0, done, was, goal)
    ensures goal == (0, done + was)
  {
  }

  /** One turn of the item loop. */
  method ReadItem(fs: FatDriver, start: nat, offset: int32, size: word, out: array<byte>, at: nat, ghost n: nat,
                  ghost goal: (int, seq<byte>)) returns (res: int)
    requires fs.Valid() && 1 <= n && at <= out.Length
    requires ItemsLeft(fs.volume, start, offset, size, n, out[..at], out[at..], goal)
    modifies fs.fatReadStream, fs.clusterReadStream, out
    ensures res < 0 ==> goal == (res, out[..])
    ensures res >= 0 ==>
      && at + size <= out.Length
      && ItemsLeft(fs.volume, start, ToInt32(offset + size), size, n - 1, out[..at + size], out[at + size..], goal)
  {
    assert ToInt32(size) <= size;
    hide IntItems, IntResult, IntData, ToInt32, Times;
    ghost var v, done, was := fs.volume, out[..at], out[at..];
    ItemsAdvance(v, start, offset, size, n, done, was);
    res := ReadInternal(fs, start, offset, ToInt32(size), out, at);
    ghost var data := IntData(v, start, offset, ToInt32(size), was);
    assert out[..] == done + data;
    assert out[..at + size] == done + data[..size] && out[at + size..] == data[size..];
  }

  /** `fat16_read` on an item with the given first cluster; the output goes to the end of `out`, from
      index `at` on. */
  method ReadItems(fs: FatDriver, high: half, low: half, pos: word, size: word, nmemb: word, out: array<byte>, at: nat)
    returns (res: int)
    requires fs.Valid() && at + Times(nmemb, size) == out.Length
    modifies fs.fatReadStream, fs.clusterReadStream, out
    ensures
      var outcome := IntItems(fs.volume, FirstCluster(high, low), ToInt32(pos), size, nmemb, old(out[at..]));
      && out[..] == old(out[..at]) + outcome.1
      && res == if outcome.0 < 0 then outcome.0 else ToInt32(nmemb)
  {
    hide IntItems, FirstCluster, ToInt32, Times;
    var start := FirstCluster(high, low);
    var offset: int32, outPtr: nat := ToInt32(pos), at;
    ghost var v, outcome := fs.volume, IntItems(fs.volume, start, offset, size, nmemb, out[at..]);
    ghost var goal := (outcome.0, out[..at] + outcome.1);
    var i := 0;
    assert ItemsLeft(v, start, offset, size, nmemb, out[..at], out[at..], goal);
    hide ItemsLeft;
    while i < nmemb
      invariant 0 <= i <= nmemb && outPtr <= out.Length
      invariant ItemsLeft(v, start, offset, size, nmemb - i, out[..outPtr], out[outPtr..], goal)
    {
      res := ReadItem(fs, start, offset, size, out, outPtr, nmemb - i, goal);
      if res < 0 {
        return;
      }
      outPtr := outPtr + size;
      offset := ToInt32(offset + size);
      i := i + 1;
    }
    NoItemsLeft(v, start, offset, size, out[..outPtr], out[outPtr..], goal);
    assert out[..] == out[..outPtr] + out[outPtr..];
    res := ToInt32(nmemb);
  }

  // ---------------------------------------------------------------- reads that stay below 2^31

  /** A read that ends below 2^31 has the result of the read along the chain. */
  lemma {:induction false} ResultInRange(v: Volume, start: nat, offset: int32, total: nat)
    requires 1 <= v.sectorsPerCluster && 0 <= offset && offset + total < POSITION_LIMIT
    ensures IntResult(v, start, offset, total) == ReadResult(v, start, Quotient(offset, v.ClusterSize()), total)
    decreases total
  {
    var size := v.ClusterSize();
    if size < total {
      InPlace(offset + size);
      hide ChainAt, ToInt32, Quotient, Remainder;
      NextCluster(offset, size);
      ResultInRange(v, start, offset + size, total - size);
    }
  }

  /** And so have its bytes their origin there. */
  lemma {:induction false} OriginInRange(v: Volume, start: nat, offset: int32, j: nat)
    requires 1 <= v.sectorsPerCluster && 0 <= offset && offset + j < POSITION_LIMIT
    ensures IntOrigin(v, start, offset, j)
         == ReadOrigin(v, start, Quotient(offset, v.ClusterSize()), Remainder(offset, v.ClusterSize()), j)
    decreases j
  {
    var size := v.ClusterSize();
    assert TruncMod(offset, size) == Remainder(offset, size);
    hide ChainAt, ToInt32, Quotient, Remainder, TruncMod, RawSource, ClusterPos;
    if size <= j {
      InPlace(offset + size);
      NextCluster(offset, size);
      OriginInRange(v, start, offset + size, j - size);
    }
  }

  lemma DataInRange(v: Volume, start: nat, offset: int32, was: seq<byte>)
    requires 1 <= v.sectorsPerCluster && 0 <= offset && offset + |was| < POSITION_LIMIT
    ensures IntData(v, start, offset, |was|, was)
         == ReadData(v, start, Quotient(offset, v.ClusterSize()), Remainder(offset, v.ClusterSize()), was)
  {
    hide IntData, ReadData, IntOrigin, ReadOrigin, Delivery, Quotient, Remainder;
    forall j | 0 <= j < |was|
      ensures IntData(v, start, offset, |was|, was)[j]
           == ReadData(v, start, Quotient(offset, v.ClusterSize()), Remainder(offset, v.ClusterSize()), was)[j]
    {
      OriginInRange(v, start, offset, j);
      ByteOfOrigin(v, start, Quotient(offset, v.ClusterSize()), Remainder(offset, v.ClusterSize()), j, was[j]);
    }
  }

  lemma ByteOfOrigin(v: Volume, start: nat, k: nat, r: nat, j: nat, was: byte)
    requires 1 <= v.sectorsPerCluster
    ensures ReadByte(v, start, k, r, j, was) == Delivery(v, ReadOrigin(v, start, k, r, j), was)
  {
  }

  /** Items that end below 2^31 are the items along the chain. */
  lemma {:induction false} ItemsInRange(v: Volume, start: nat, offset: int32, size: word, nmemb: nat, was: seq<byte>)
    requires 1 <= v.sectorsPerCluster && |was| == Times(nmemb, size)
    requires 0 <= offset && offset + |was| < POSITION_LIMIT
    ensures IntItems(v, start, offset, size, nmemb, was) == ItemsOutcome(v, start, offset, size, nmemb, was)
    decreases nmemb
  {
    hide IntItems, ItemsOutcome, IntData, ReadData, IntResult, ReadResult, ToInt32, Quotient, Remainder;
    if nmemb == 0 {
      NoItems(v, start, offset, size);
      NoIntItems(v, start, offset, size);
    } else {
      IntItemsStep(v, start, offset, size, nmemb, was);
      ItemsStep(v, start, offset, size, nmemb, was);
      InPlace(size);
      InPlace(offset + size);
      DataInRange(v, start, offset, was[..size]);
      ResultInRange(v, start, offset, size);
      ItemsInRange(v, start, offset + size, size, nmemb - 1, was[size..]);
    }
  }

  /** An item of 2^31 bytes or more is a negative number of bytes: where its cluster is reached it counts
      as read, without a byte. */
  lemma HugeItemUnread(v: Volume, start: nat, offset: int32, size: word, was: seq<byte>)
    requires 1 <= v.sectorsPerCluster && POSITION_LIMIT <= size && |was| == size
    ensures IntItems(v, start, offset, size, 1, was)
         == (if ChainAt(v, start, Ahead(v, offset)) < 0 then -EIO else 0, was)
  {
    assert ToInt32(size) < 0;
    assert Times(0, size) == 0 && Times(1, size) == size;
    hide ChainAt, Ahead, ToInt32, IntItems, IntData;
    IntItemsStep(v, start, offset, size, 1, was);
    NoIntItems(v, start, ToInt32(offset + size), size);
    assert was[..size] == was && was[size..] == [];
    NothingRead(v, start, offset, ToInt32(size), was);
    assert was + was[size..] == was;
  }

  lemma NothingRead(v: Volume, start: nat, offset: int32, total: int32, was: seq<byte>)
    requires 1 <= v.sectorsPerCluster && total <= 0
    ensures IntData(v, start, offset, total, was) == was
    ensures IntResult(v, start, offset, total) == if ChainAt(v, start, Ahead(v, offset)) < 0 then -EIO else 0
  {
    hide ChainAt, Ahead;
  }
}
