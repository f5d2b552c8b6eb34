/** The file a cluster chain holds, and exactly when reads deliver it: inside a cluster, over a cluster's
    end, and item by item. */
module FatFile {
  import opened MachineWords
  import opened DiskStream
  import opened FatTable
  import opened FatChain

  /** The bytes of one cluster. */
  function ClusterBytes(v: Volume, cluster: int): (r: seq<byte>)
    ensures |r| == v.ClusterSize()
    ensures forall i :: 0 <= i < |r| ==> r[i] == v.disk(ClusterPos(v, cluster) + i)
  {
    seq(v.ClusterSize(), i => v.disk(ClusterPos(v, cluster) + i))
  }

  /** The n clusters of the chain from the k-th on, one after the other. */
  function ChainData(v: Volume, start: nat, k: nat, n: nat): (r: seq<byte>)
    ensures |r| == Times(n, v.ClusterSize())
    decreases n
  {
    if n == 0 then []
    else ClusterBytes(v, ChainAt(v, start, k)) + ChainData(v, start, k + 1, n - 1)
  }

  /** Where byte y of the file, counted from its k-th cluster on, lies; the file may end before it. */
  function FileOrigin(v: Volume, start: nat, k: nat, y: nat): Origin
    requires 1 <= v.sectorsPerCluster
    decreases y
  {
    if y >= v.ClusterSize() then FileOrigin(v, start, k + 1, y - v.ClusterSize())
    else if ChainAt(v, start, k) < 0 then Kept
    else From(OnDisk(ClusterPos(v, ChainAt(v, start, k)) + y))
  }

  lemma {:induction false} FileByte(v: Volume, start: nat, k: nat, n: nat, y: nat)
    requires 1 <= v.sectorsPerCluster && y < Times(n, v.ClusterSize()) && FileOrigin(v, start, k, y).From?
    ensures
      var source := FileOrigin(v, start, k, y).source;
      source.OnDisk? && ChainData(v, start, k, n)[y] == v.disk(source.pos)
    decreases n
  {
    hide ChainAt;
    if y >= v.ClusterSize() {
      FileByte(v, start, k + 1, n - 1, y - v.ClusterSize());
    }
  }

  /** Counting from the first cluster on. */
  lemma {:induction false} FileFromStart(v: Volume, start: nat, k: nat, n: nat, y: nat)
    requires 1 <= v.sectorsPerCluster
    ensures FileOrigin(v, start, k, Times(n, v.ClusterSize()) + y) == FileOrigin(v, start, k + n, y)
    decreases n
  {
    if n != 0 {
      FileFromStart(v, start, k + 1, n - 1, y);
    }
  }

  // ---------------------------------------------------------------- one cluster's worth

  /** The j-th byte of a read that starts r bytes into the k-th cluster comes from where the file has it. */
  predicate Delivered(v: Volume, start: nat, k: nat, r: nat, j: nat)
    requires 1 <= v.sectorsPerCluster
  {
    FileOrigin(v, start, k, r + j).From? && ReadOrigin(v, start, k, r, j) == FileOrigin(v, start, k, r + j)
  }

  ghost predicate Delivers(v: Volume, start: nat, k: nat, r: nat, total: nat)
    requires 1 <= v.sectorsPerCluster
  {
    forall j: nat :: j < total ==> Delivered(v, start, k, r, j)
  }

  /** What makes m bytes from r bytes into the k-th cluster right: the cluster is there, its bytes are at
      positions an `int` holds, the sector read by the stream is not left in the middle; and when the
      bytes run over the cluster's end, the next cluster of the chain is the next one of the disk. */
  predicate PartExact(v: Volume, start: nat, k: nat, r: nat, m: nat) {
    var c := ChainAt(v, start, k);
    && c >= 0
    && InsideSector(ClusterPos(v, c) + r, m) && InRange(ClusterPos(v, c) + r, m)
    && (r + m > v.ClusterSize() ==> ChainAt(v, start, k + 1) == c + 1)
  }

  lemma NextClusterPos(v: Volume, c: int)
    ensures ClusterPos(v, c + 1) == ClusterPos(v, c) + v.ClusterSize()
  {
    assert (c + 1 - 2) * v.sectorsPerCluster == (c - 2) * v.sectorsPerCluster + v.sectorsPerCluster;
  }

  lemma ClusterPosInjective(v: Volume, c: int, d: int)
    requires 1 <= v.sectorsPerCluster && ClusterPos(v, c) == ClusterPos(v, d)
    ensures c == d
  {
    var s := v.sectorsPerCluster;
    assert (c - d) * s == 0 by {
      assert (c - 2) * s - (d - 2) * s == (c - d) * s;
    }
  }

  lemma ClusterPosLow(v: Volume, c: nat)
    ensures ClusterPos(v, c) >= -0x4_0000
  {
    assert (c - 2) * v.sectorsPerCluster >= -2 * v.sectorsPerCluster by {
      assert c * v.sectorsPerCluster >= 0;
    }
  }

  /** Where the file has the bytes of a part. */
  lemma PartOrigin(v: Volume, start: nat, k: nat, r: nat, j: nat)
    requires 1 <= v.sectorsPerCluster && r < v.ClusterSize() && j < v.ClusterSize()
    ensures
      var size := v.ClusterSize();
      var next := if r + j < size then k else k + 1;
      FileOrigin(v, start, k, r + j) ==
        if ChainAt(v, start, next) < 0 then Kept
        else From(OnDisk(ClusterPos(v, ChainAt(v, start, next)) + if r + j < size then r + j else r + j - size))
  {
    hide ChainAt, ClusterPos;
  }

  lemma PartDelivered(v: Volume, start: nat, k: nat, r: nat, m: nat, j: nat)
    requires 1 <= v.sectorsPerCluster && r < v.ClusterSize() && j < m <= v.ClusterSize()
    requires PartExact(v, start, k, r, m)
    ensures Delivered(v, start, k, r, j)
  {
    hide ChainAt, ClusterPos, RawSource, InsideSector, ToInt32;
    var c := ChainAt(v, start, k);
    PartOrigin(v, start, k, r, j);
    NextClusterPos(v, c);
    RightSource(ClusterPos(v, c) + r, m, j);
    hide FileOrigin;
  }

  /** Just behind a stretch that fits its sector, the next byte is beside the buffer or on the disk. */
  lemma EdgeSource(p: int32, n: nat)
    requires 1 <= n && InsideSector(p, n)
    ensures RawSource(p, n).Beside? || RawSource(p, n) == OnDisk(ToInt32(p + n))
  {
    if InsideSector(p, n + 1) {
      GuardedSource(p, n + 1, n);
    }
  }

  lemma EdgePosition(p: int, n: nat, q: int)
    requires 1 <= n && InsideSector(p, n) && InRange(p, n) && -0x4_0000 <= q
    requires RawSource(ToInt32(p), n) == OnDisk(q)
    ensures q == p + n
  {
    assert -POSITION_LIMIT <= p && p + n <= POSITION_LIMIT;
    InPlace(p);
    hide *;
    EdgeSource(p, n);
    Unwrapped(p + n, q);
  }

  lemma Unwrapped(p: int, q: int)
    requires -POSITION_LIMIT <= p <= POSITION_LIMIT && q == ToInt32(p) && -0x4_0000 <= q
    ensures p == q
  {
  }

  lemma PartNeeded(v: Volume, start: nat, k: nat, r: nat, m: nat)
    requires 1 <= v.sectorsPerCluster && r < v.ClusterSize() && 1 <= m <= v.ClusterSize()
    requires Delivers(v, start, k, r, m)
    ensures PartExact(v, start, k, r, m)
  {
    hide ChainAt, ClusterPos, RawSource, InsideSector, ToInt32, FileOrigin;
    var size, c := v.ClusterSize(), ChainAt(v, start, k);
    assert Delivered(v, start, k, r, 0);
    PartOrigin(v, start, k, r, 0);
    var p := ClusterPos(v, c) + r;
    var inside := if r + m <= size then m else size - r;
    forall j: nat | j < inside
      ensures RawSource(ToInt32(p), j) == OnDisk(p + j)
    {
      assert Delivered(v, start, k, r, j);
      PartOrigin(v, start, k, r, j);
    }
    SourcesExact(p, inside);
    if r + m > size {
      assert Delivered(v, start, k, r, size - r);
      PartOrigin(v, start, k, r, size - r);
      NeighbourNeeded(v, c, ChainAt(v, start, k + 1), r);
      NextClusterPos(v, c);
      forall j: nat | j < m
        ensures RawSource(ToInt32(p), j) == OnDisk(p + j)
      {
        assert Delivered(v, start, k, r, j);
        PartOrigin(v, start, k, r, j);
      }
      SourcesExact(p, m);
    }
  }

  /** When the bytes up to a cluster's end are right and the one behind it comes from the start of
      another cluster, that one is the disk's next cluster. */
  lemma NeighbourNeeded(v: Volume, c: nat, d: nat, r: nat)
    requires 1 <= v.sectorsPerCluster && r < v.ClusterSize()
    requires InsideSector(ClusterPos(v, c) + r, v.ClusterSize() - r)
    requires InRange(ClusterPos(v, c) + r, v.ClusterSize() - r)
    requires RawSource(ToInt32(ClusterPos(v, c) + r), v.ClusterSize() - r) == OnDisk(ClusterPos(v, d))
    ensures d == c + 1
  {
    hide *;
    var size := v.ClusterSize();
    ClusterPosLow(v, d);
    EdgePosition(ClusterPos(v, c) + r, size - r, ClusterPos(v, d));
    NextClusterPos(v, c);
    ClusterPosInjective(v, d, c + 1);
  }

  // ---------------------------------------------------------------- reads of any length

  /** How many bytes a read takes from its q-th cluster on. */
  function PartLength(v: Volume, total: nat, q: nat): (m: nat)
    requires Times(q, v.ClusterSize()) < total
    ensures m <= v.ClusterSize()
  {
    var rest := total - Times(q, v.ClusterSize());
    if rest < v.ClusterSize() then rest else v.ClusterSize()
  }

  ghost predicate AllPartsExact(v: Volume, start: nat, k: nat, r: nat, total: nat) {
    forall q: nat :: Times(q, v.ClusterSize()) < total ==> PartExact(v, start, k + q, r, PartLength(v, total, q))
  }

  lemma DeliveredLater(v: Volume, start: nat, k: nat, r: nat, j: nat)
    requires 1 <= v.sectorsPerCluster
    ensures Delivered(v, start, k, r, v.ClusterSize() + j) <==> Delivered(v, start, k + 1, r, j)
  {
    assert ChainAt(v, start, k) < 0 ==> ChainAt(v, start, k + 1) < 0;
    hide ChainAt, ClusterPos, RawSource;
    assert FileOrigin(v, start, k, r + (v.ClusterSize() + j)) == FileOrigin(v, start, k + 1, r + j);
    assert r + j < v.ClusterSize() ==> ChainAt(v, start, k) < 0 ==> FileOrigin(v, start, k + 1, r + j) == Kept;
    if ChainAt(v, start, k) < 0 {
      BehindTheEnd(v, start, k + 1, r + j);
    }
  }

  lemma {:induction false} BehindTheEnd(v: Volume, start: nat, k: nat, y: nat)
    requires 1 <= v.sectorsPerCluster && ChainAt(v, start, k) < 0
    ensures FileOrigin(v, start, k, y) == Kept
    decreases y
  {
    if y >= v.ClusterSize() {
      BehindTheEnd(v, start, k + 1, y - v.ClusterSize());
    }
  }

  lemma DeliversInParts(v: Volume, start: nat, k: nat, r: nat, total: nat)
    requires 1 <= v.sectorsPerCluster && v.ClusterSize() < total
    ensures Delivers(v, start, k, r, total)
      <==> Delivers(v, start, k, r, v.ClusterSize()) && Delivers(v, start, k + 1, r, total - v.ClusterSize())
  {
    hide Delivered;
    var size, next := v.ClusterSize(), k + 1;
    if Delivers(v, start, k, r, total) {
      forall j: nat | j < total - size
        ensures Delivered(v, start, next, r, j)
      {
        DeliveredLater(v, start, k, r, j);
      }
    }
    if Delivers(v, start, k, r, size) && Delivers(v, start, k + 1, r, total - size) {
      forall j: nat | j < total
        ensures Delivered(v, start, k, r, j)
      {
        if j >= size {
          DeliveredLater(v, start, k, r, j - size);
        }
      }
    }
  }

  lemma PartsInOrder(v: Volume, start: nat, k: nat, r: nat, total: nat)
    requires 1 <= v.sectorsPerCluster && v.ClusterSize() < total
    ensures AllPartsExact(v, start, k, r, total)
      <==> PartExact(v, start, k, r, v.ClusterSize()) && AllPartsExact(v, start, k + 1, r, total - v.ClusterSize())
  {
    hide PartExact;
    var size := v.ClusterSize();
    if AllPartsExact(v, start, k, r, total) {
      assert Times(0, size) < total;
      forall q: nat | Times(q, size) < total - size
        ensures PartExact(v, start, k + 1 + q, r, PartLength(v, total - size, q))
      {
        assert Times(q + 1, size) < total;
      }
    }
    if PartExact(v, start, k, r, size) && AllPartsExact(v, start, k + 1, r, total - size) {
      forall q: nat | Times(q, size) < total
        ensures PartExact(v, start, k + q, r, PartLength(v, total, q))
      {
        if q != 0 {
          assert Times(q - 1, size) < total - size;
        }
      }
    }
  }

  /** A read from any offset takes every byte from where the file has it exactly when each cluster's part
      is exact: reads that run over a cluster's end need a chain of neighbours. */
  lemma {:induction false} ReadDeliversExactly(v: Volume, start: nat, k: nat, r: nat, total: nat)
    requires 1 <= v.sectorsPerCluster && r < v.ClusterSize()
    ensures Delivers(v, start, k, r, total) <==> AllPartsExact(v, start, k, r, total)
    decreases total
  {
    hide Delivered, PartExact;
    var size := v.ClusterSize();
    if size < total {
      DeliversInParts(v, start, k, r, total);
      PartsInOrder(v, start, k, r, total);
      OnePart(v, start, k, r, size);
      ReadDeliversExactly(v, start, k + 1, r, total - size);
    } else if 0 < total {
      OnePart(v, start, k, r, total);
      OnlyPart(v, start, k, r, total);
    }
  }

  lemma OnePart(v: Volume, start: nat, k: nat, r: nat, m: nat)
    requires 1 <= v.sectorsPerCluster && r < v.ClusterSize() && 1 <= m <= v.ClusterSize()
    ensures Delivers(v, start, k, r, m) <==> PartExact(v, start, k, r, m)
  {
    hide Delivered, PartExact;
    if Delivers(v, start, k, r, m) {
      PartNeeded(v, start, k, r, m);
    }
    if PartExact(v, start, k, r, m) {
      forall j: nat | j < m
        ensures Delivered(v, start, k, r, j)
      {
        PartDelivered(v, start, k, r, m, j);
      }
    }
  }

  lemma OnlyPart(v: Volume, start: nat, k: nat, r: nat, m: nat)
    requires 1 <= v.sectorsPerCluster && 1 <= m <= v.ClusterSize()
    ensures AllPartsExact(v, start, k, r, m) <==> PartExact(v, start, k, r, m)
  {
    hide PartExact;
    assert Times(0, v.ClusterSize()) == 0;
    assert forall q: nat :: Times(q, v.ClusterSize()) < m ==> q == 0;
  }

  // ---------------------------------------------------------------- reads as slices of the file

  lemma WholeClusters(offset: nat, size: nat)
    requires 0 < size
    ensures offset == Times(Quotient(offset, size), size) + Remainder(offset, size)
    ensures Remainder(offset, size) < size
  {
    TimesIsProduct(offset / size, size);
  }

  lemma DeliveredByte(v: Volume, start: nat, offset: nat, n: nat, j: nat, was: byte)
    requires 1 <= v.sectorsPerCluster && offset + j < Times(n, v.ClusterSize())
    requires Delivered(v, start, Quotient(offset, v.ClusterSize()), Remainder(offset, v.ClusterSize()), j)
    ensures ReadByte(v, start, Quotient(offset, v.ClusterSize()), Remainder(offset, v.ClusterSize()), j, was)
         == ChainData(v, start, 0, n)[offset + j]
  {
    hide ChainAt, ClusterPos, ReadOrigin, FileOrigin, ChainData, Times, Quotient, Remainder;
    var size := v.ClusterSize();
    var k, r := Quotient(offset, size), Remainder(offset, size);
    WholeClusters(offset, size);
    FileFromStart(v, start, 0, k, r + j);
    FileByte(v, start, 0, n, offset + j);
  }

  /** A read that delivers succeeds, and its output is the stretch of the file it asks for. */
  lemma DeliveredIsFile(v: Volume, start: nat, offset: nat, n: nat, was: seq<byte>)
    requires 1 <= v.sectorsPerCluster && 0 < |was| && offset + |was| <= Times(n, v.ClusterSize())
    requires Delivers(v, start, Quotient(offset, v.ClusterSize()), Remainder(offset, v.ClusterSize()), |was|)
    ensures ReadResult(v, start, Quotient(offset, v.ClusterSize()), |was|) == 0
    ensures ReadData(v, start, Quotient(offset, v.ClusterSize()), Remainder(offset, v.ClusterSize()), was)
         == ChainData(v, start, 0, n)[offset..offset + |was|]
  {
    hide ChainAt, ReadOrigin, ReadByte, ReadData, ReadResult, ChainData, Times, Quotient, Remainder, Delivered;
    var size := v.ClusterSize();
    var k, r := Quotient(offset, size), Remainder(offset, size);
    WholeClusters(offset, size);
    ReadDeliversExactly(v, start, k, r, |was|);
    ResultExact(v, start, k, |was|);
    var last := ClustersNeeded(v, |was|) - 1;
    assert PartExact(v, start, k + last, r, PartLength(v, |was|, last));
    var data := ReadData(v, start, k, r, was);
    forall j | 0 <= j < |was|
      ensures data[j] == ChainData(v, start, 0, n)[offset + j]
    {
      DeliveredByte(v, start, offset, n, j, was[j]);
    }
  }

  /** All clusters a read looks up lie at positions an `int` can hold, as far as they are read. */
  ghost predicate PositionsHeld(v: Volume, start: nat, k: nat, total: nat) {
    forall q: nat :: Times(q, v.ClusterSize()) < total ==>
      ClusterPos(v, ChainAt(v, start, k + q)) + PartLength(v, total, q) <= POSITION_LIMIT
  }

  lemma AlignedPart(v: Volume, start: nat, k: nat, m: nat)
    requires 1 <= m <= v.ClusterSize()
    ensures PartExact(v, start, k, 0, m)
      <==> ChainAt(v, start, k) >= 0 && ClusterPos(v, ChainAt(v, start, k)) + m <= POSITION_LIMIT
  {
    hide ChainAt, TruncMod;
    var c := ChainAt(v, start, k);
    if c >= 0 {
      ClusterPosLow(v, c);
      SectorMultiple(v.endingSectorPos + (c - 2) * v.sectorsPerCluster);
    }
  }

  /** From a cluster's start a read delivers exactly when it succeeds and no position it computes leaves
      `int`; then its output is the stretch of the file from its offset on. */
  lemma ChainReadRefines(v: Volume, start: nat, offset: nat, was: seq<byte>)
    requires 1 <= v.sectorsPerCluster && Remainder(offset, v.ClusterSize()) == 0
    ensures
      var k, n := Quotient(offset, v.ClusterSize()), Quotient(offset, v.ClusterSize()) + ClustersNeeded(v, |was|);
      && offset + |was| <= Times(n, v.ClusterSize())
      && (0 < |was| ==>
            (Delivers(v, start, k, 0, |was|) <==> ReadResult(v, start, k, |was|) == 0 && PositionsHeld(v, start, k, |was|)))
      && (ReadResult(v, start, k, |was|) == 0 && PositionsHeld(v, start, k, |was|) ==>
            ReadData(v, start, k, 0, was) == ChainData(v, start, 0, n)[offset..offset + |was|])
  {
    hide ChainAt, ReadData, ReadResult, ChainData, Times, Quotient, Remainder, Delivers, ClustersNeeded;
    var size := v.ClusterSize();
    var k, n := Quotient(offset, size), Quotient(offset, size) + ClustersNeeded(v, |was|);
    WholeClusters(offset, size);
    TimesAdd(k, ClustersNeeded(v, |was|), size);
    if was == [] {
      assert ReadData(v, start, k, 0, was) == [] == ChainData(v, start, 0, n)[offset..offset];
    } else {
      AlignedParts(v, start, k, |was|);
      ReadDeliversExactly(v, start, k, 0, |was|);
      if Delivers(v, start, k, 0, |was|) {
        DeliveredIsFile(v, start, offset, n, was);
      }
    }
  }

  lemma AlignedParts(v: Volume, start: nat, k: nat, total: nat)
    requires 1 <= v.sectorsPerCluster && 0 < total
    ensures AllPartsExact(v, start, k, 0, total) <==> ReadResult(v, start, k, total) == 0 && PositionsHeld(v, start, k, total)
  {
    hide ChainAt, ReadResult, PartExact, ClusterPos;
    var n := ClustersNeeded(v, total);
    ResultExact(v, start, k, total);
    if ReadResult(v, start, k, total) == 0 {
      forall q: nat | Times(q, v.ClusterSize()) < total
        ensures ChainAt(v, start, k + q) >= 0
      {
        FewerClusters(q, n, v.ClusterSize(), total);
        ChainPrefix(v, start, k + q, k + n - 1);
      }
    }
    forall q: nat | Times(q, v.ClusterSize()) < total
      ensures PartExact(v, start, k + q, 0, PartLength(v, total, q)) <==>
        ChainAt(v, start, k + q) >= 0
        && ClusterPos(v, ChainAt(v, start, k + q)) + PartLength(v, total, q) <= POSITION_LIMIT
    {
      AlignedPart(v, start, k + q, PartLength(v, total, q));
    }
    assert Times(n - 1, v.ClusterSize()) < total;
  }

  lemma TimesMonotone(n: nat, q: nat, size: nat)
    requires n <= q
    ensures Times(n, size) <= Times(q, size)
  {
    TimesAdd(n, q - n, size);
  }

  lemma FewerClusters(q: nat, n: nat, size: nat, total: nat)
    requires Times(q, size) < total <= Times(n, size)
    ensures q < n
  {
    if n <= q {
      TimesMonotone(n, q, size);
    }
  }

  // ---------------------------------------------------------------- reads from inside a cluster

  /** Inside one cluster a read delivers exactly when the stream's guard holds at its offset. */
  lemma InsideOneCluster(v: Volume, start: nat, k: nat, r: nat, total: nat)
    requires 1 <= v.sectorsPerCluster && r < v.ClusterSize() && 1 <= total && r + total <= v.ClusterSize()
    requires ChainAt(v, start, k) >= 0
    requires 0 <= ClusterPos(v, ChainAt(v, start, k)) <= POSITION_LIMIT - v.ClusterSize()
    ensures Delivers(v, start, k, r, total) <==> InsideSector(r, total)
  {
    hide ChainAt, Delivers;
    OnePart(v, start, k, r, total);
    SectorOffset(v.endingSectorPos + (ChainAt(v, start, k) - 2) * v.sectorsPerCluster, r);
  }

  /** A read that runs over cluster ends delivers only if there the chain goes on with the disk's next
      cluster. */
  lemma NeighboursNeeded(v: Volume, start: nat, k: nat, r: nat, total: nat, q: nat)
    requires 1 <= v.sectorsPerCluster && 0 < r < v.ClusterSize() && Delivers(v, start, k, r, total)
    requires Times(q, v.ClusterSize()) + v.ClusterSize() < r + total
    ensures ChainAt(v, start, k + q) >= 0 && ChainAt(v, start, k + q + 1) == ChainAt(v, start, k + q) + 1
  {
    hide Delivers;
    ReadDeliversExactly(v, start, k, r, total);
    assert PartExact(v, start, k + q, r, PartLength(v, total, q));
  }

  /** A disk with one byte that is not zero, in cluster 5, which follows cluster 2. */
  function ForkedDisk(): Disk {
    p => if p == 2048 then 5 else if p == 54272 then 0x41 else 0
  }

  /** Half a cluster into a file whose second cluster is not the disk's next one, the read of a cluster's
      worth succeeds, and delivers a byte of a cluster that is not the file's. */
  lemma ForeignByteRead(around: Surroundings, was: byte)
    ensures
      var v := Volume(ForkedDisk(), around, 1, 2, 100);
      && v.ClusterSize() == 1024
      && ReadResult(v, 2, 0, 1024) == 0
      && ReadByte(v, 2, 0, 512, 512, was) == 0
      && ChainData(v, 2, 0, 2)[512 + 512] == 0x41
  {
    var v := Volume(ForkedDisk(), around, 1, 2, 100);
    assert FatEntry(v, 2) == 5;
    assert ChainAt(v, 2, 0) == 2;
    assert ChainAt(v, 2, 1) == 5;
    assert ClusterPos(v, 2) == 51200 && ClusterPos(v, 5) == 54272;
    assert RawSource(51712, 512) == OnDisk(52224);
    assert FileOrigin(v, 2, 1, 0) == From(OnDisk(54272));
    hide FatEntry, ChainAt, RawSource;
    assert Times(2, 1024) == 2048;
    FileByte(v, 2, 0, 2, 1024);
  }

  /** The shipped volume has 128 sectors a cluster and its data from sector 716 on: positions behind
      cluster 32763 do not fit an `int`. */
  lemma ShippedVolumeLimit(v: Volume, cluster: nat)
    requires v.sectorsPerCluster == 128 && v.endingSectorPos == 716
    ensures ClusterPos(v, cluster) + v.ClusterSize() <= POSITION_LIMIT <==> cluster <= 32763
    ensures 32765 <= cluster ==> ToInt32(ClusterPos(v, cluster)) != ClusterPos(v, cluster)
  {
  }

  // ---------------------------------------------------------------- items

  /** Where the i-th item of a read starts. */
  function ItemOffset(offset: nat, size: nat, i: nat): nat {
    offset + Times(i, size)
  }

  /** Every item is delivered. */
  ghost predicate ItemsDeliver(v: Volume, start: nat, offset: nat, size: nat, nmemb: nat)
    requires 1 <= v.sectorsPerCluster
  {
    forall i: nat :: i < nmemb ==> ItemDelivers(v, start, ItemOffset(offset, size, i), size)
  }

  ghost predicate ItemDelivers(v: Volume, start: nat, offset: nat, size: nat)
    requires 1 <= v.sectorsPerCluster
  {
    Delivers(v, start, Quotient(offset, v.ClusterSize()), Remainder(offset, v.ClusterSize()), size)
  }

  /** Items of any size from any offset are all delivered exactly when the parts of every one are exact. */
  lemma ItemsDeliverExactly(v: Volume, start: nat, offset: nat, size: nat, nmemb: nat)
    requires 1 <= v.sectorsPerCluster
    ensures ItemsDeliver(v, start, offset, size, nmemb)
      <==> forall i: nat :: i < nmemb ==> ItemExact(v, start, ItemOffset(offset, size, i), size)
  {
    hide Delivers, AllPartsExact, Quotient, Remainder, ItemOffset;
    forall i: nat
      ensures ItemDelivers(v, start, ItemOffset(offset, size, i), size)
         <==> ItemExact(v, start, ItemOffset(offset, size, i), size)
    {
      var at := ItemOffset(offset, size, i);
      WholeClusters(at, v.ClusterSize());
      ReadDeliversExactly(v, start, Quotient(at, v.ClusterSize()), Remainder(at, v.ClusterSize()), size);
    }
  }

  ghost predicate ItemExact(v: Volume, start: nat, offset: nat, size: nat)
    requires 1 <= v.sectorsPerCluster
  {
    AllPartsExact(v, start, Quotient(offset, v.ClusterSize()), Remainder(offset, v.ClusterSize()), size)
  }

  /** For items of any size: when every item is delivered, they are together the stretch of the file. */
  lemma {:induction false} ItemsAreFile(v: Volume, start: nat, offset: nat, size: nat, nmemb: nat, n: nat, was: seq<byte>)
    requires 1 <= v.sectorsPerCluster && 1 <= size && |was| == Times(nmemb, size)
    requires offset + |was| <= Times(n, v.ClusterSize()) && ItemsDeliver(v, start, offset, size, nmemb)
    ensures ItemsOutcome(v, start, offset, size, nmemb, was) == (0, ChainData(v, start, 0, n)[offset..offset + |was|])
    decreases nmemb
  {
    hide Delivers, ReadData, ReadResult, ChainData, Quotient, Remainder, ChainAt, ItemsOutcome;
    var file := ChainData(v, start, 0, n);
    if nmemb == 0 {
      assert was == [];
      NoItems(v, start, offset, size);
    } else {
      assert ItemOffset(offset, size, 0) == offset;
      ItemsStep(v, start, offset, size, nmemb, was);
      DeliveredIsFile(v, start, offset, n, was[..size]);
      LaterItems(v, start, offset, size, nmemb);
      ItemsAreFile(v, start, offset + size, size, nmemb - 1, n, was[size..]);
      assert file[offset..offset + |was|] == file[offset..offset + size] + file[offset + size..offset + |was|];
    }
  }

  lemma LaterItems(v: Volume, start: nat, offset: nat, size: nat, nmemb: nat)
    requires 1 <= v.sectorsPerCluster && 1 <= nmemb && ItemsDeliver(v, start, offset, size, nmemb)
    ensures ItemsDeliver(v, start, offset + size, size, nmemb - 1)
  {
    hide ItemDelivers;
    var later := offset + size;
    forall i: nat | i < nmemb - 1
      ensures ItemDelivers(v, start, ItemOffset(later, size, i), size)
    {
      assert ItemOffset(offset, size, i + 1) == ItemOffset(later, size, i);
    }
  }

  lemma WholeSectors(v: Volume, start: nat, k: nat, r: nat, m: nat)
    requires SECTOR_SIZE <= m && PartExact(v, start, k, r, m)
    ensures r % SECTOR_SIZE == 0
  {
    hide ChainAt;
    var n := v.endingSectorPos + (ChainAt(v, start, k) - 2) * v.sectorsPerCluster;
    assert ClusterPos(v, ChainAt(v, start, k)) == n * SECTOR_SIZE;
    hide ClusterPos;
    assert TruncMod(n * SECTOR_SIZE + r, SECTOR_SIZE) == 0;
  }

  lemma FirstPart(v: Volume, start: nat, k: nat, r: nat, total: nat) returns (m: nat)
    requires 1 <= v.sectorsPerCluster && SECTOR_SIZE <= total && AllPartsExact(v, start, k, r, total)
    ensures SECTOR_SIZE <= m && PartExact(v, start, k, r, m)
  {
    hide PartExact;
    assert Times(0, v.ClusterSize()) == 0;
    m := PartLength(v, total, 0);
  }

  /** Offsets a number of clusters apart from one another start at the same place in a sector. */
  lemma SamePlace(v: Volume, offset: nat, size: nat)
    requires 1 <= v.sectorsPerCluster && Remainder(offset, v.ClusterSize()) == 0
    ensures Remainder(offset + size, v.ClusterSize()) % SECTOR_SIZE == size % SECTOR_SIZE
  {
    var cs, s := v.ClusterSize(), v.sectorsPerCluster;
    var a, b := Quotient(offset, cs), Quotient(offset + size, cs);
    WholeClusters(offset, cs);
    WholeClusters(offset + size, cs);
    hide Quotient, Remainder, Times;
    ClustersAreSectors(v, a);
    ClustersAreSectors(v, b);
    SectorsApart(Remainder(offset + size, cs), size, b * s - a * s);
  }

  lemma ClustersAreSectors(v: Volume, n: nat)
    ensures Times(n, v.ClusterSize()) == (n * v.sectorsPerCluster) * SECTOR_SIZE
  {
    TimesIsProduct(n, v.ClusterSize());
    assert n * (v.sectorsPerCluster * SECTOR_SIZE) == (n * v.sectorsPerCluster) * SECTOR_SIZE;
  }

  lemma SectorsApart(r: nat, size: nat, d: int)
    requires size == d * SECTOR_SIZE + r
    ensures r % SECTOR_SIZE == size % SECTOR_SIZE
  {
    var q, t := r / SECTOR_SIZE, r % SECTOR_SIZE;
    assert size == (q + d) * SECTOR_SIZE + t;
  }

  lemma SecondItem(v: Volume, start: nat, offset: nat, size: nat, nmemb: nat)
    requires 1 <= v.sectorsPerCluster && 2 <= nmemb && ItemsDeliver(v, start, offset, size, nmemb)
    ensures
      Delivers(v, start, Quotient(offset + size, v.ClusterSize()), Remainder(offset + size, v.ClusterSize()), size)
  {
    hide Delivers, Quotient, Remainder;
    assert Times(0, size) == 0 && Times(1, size) == size;
    assert ItemOffset(offset, size, 1) == offset + size;
  }

  /** Items longer than a sector, but of no whole number of sectors, are not all delivered: from the start
      of a cluster on, already the second one starts inside a sector. */
  lemma SecondItemFails(v: Volume, start: nat, offset: nat, size: nat, nmemb: nat)
    requires 1 <= v.sectorsPerCluster && Remainder(offset, v.ClusterSize()) == 0
    requires SECTOR_SIZE < size && size % SECTOR_SIZE != 0 && 2 <= nmemb
    ensures !ItemsDeliver(v, start, offset, size, nmemb)
  {
    hide Delivers, ItemsDeliver, AllPartsExact, PartExact, Quotient, Remainder;
    if ItemsDeliver(v, start, offset, size, nmemb) {
      SecondItem(v, start, offset, size, nmemb);
      var k, r := Quotient(offset + size, v.ClusterSize()), Remainder(offset + size, v.ClusterSize());
      WholeClusters(offset + size, v.ClusterSize());
      ReadDeliversExactly(v, start, k, r, size);
      var m := FirstPart(v, start, k, r, size);
      WholeSectors(v, start, k, r, m);
      SamePlace(v, offset, size);
    }
  }

  /** Records that divide a sector stay inside sectors: they are all delivered exactly when the chain
      reaches their clusters, at positions an `int` can hold. */
  lemma RecordsDelivered(v: Volume, start: nat, offset: nat, size: nat, nmemb: nat)
    requires 1 <= v.sectorsPerCluster && 1 <= size && SECTOR_SIZE % size == 0 && offset % size == 0
    ensures ItemsDeliver(v, start, offset, size, nmemb)
      <==> forall i: nat :: i < nmemb ==> RecordReached(v, start, ItemOffset(offset, size, i), size)
  {
    hide ItemDelivers, RecordReached, ItemOffset;
    forall i: nat
      ensures ItemDelivers(v, start, ItemOffset(offset, size, i), size)
         <==> RecordReached(v, start, ItemOffset(offset, size, i), size)
    {
      MultipleOf(offset, i, size);
      OneRecord(v, start, ItemOffset(offset, size, i), size);
    }
  }

  ghost predicate RecordReached(v: Volume, start: nat, offset: nat, size: nat)
    requires 1 <= v.sectorsPerCluster
  {
    var c, r := ChainAt(v, start, Quotient(offset, v.ClusterSize())), Remainder(offset, v.ClusterSize());
    c >= 0 && (0 <= ClusterPos(v, c) + r || r % SECTOR_SIZE == 0) && ClusterPos(v, c) + r + size <= POSITION_LIMIT
  }

  lemma OneRecord(v: Volume, start: nat, offset: nat, size: nat)
    requires 1 <= v.sectorsPerCluster && 1 <= size && SECTOR_SIZE % size == 0 && offset % size == 0
    ensures ItemDelivers(v, start, offset, size) <==> RecordReached(v, start, offset, size)
  {
    var k, r := Quotient(offset, v.ClusterSize()), Remainder(offset, v.ClusterSize());
    WholeClusters(offset, v.ClusterSize());
    RecordPlace(v, offset, size);
    hide Delivers, Quotient, Remainder, ChainAt, PartExact;
    OnePart(v, start, k, r, size);
    if ChainAt(v, start, k) >= 0 {
      RecordPart(v, start, k, r, size);
    }
  }

  lemma RecordPart(v: Volume, start: nat, k: nat, r: nat, size: nat)
    requires 1 <= size && ChainAt(v, start, k) >= 0
    requires r % SECTOR_SIZE + size <= SECTOR_SIZE && r + size <= v.ClusterSize()
    ensures
      var p := ClusterPos(v, ChainAt(v, start, k)) + r;
      PartExact(v, start, k, r, size) <==> (0 <= p || r % SECTOR_SIZE == 0) && p + size <= POSITION_LIMIT
  {
    hide ChainAt;
    var c := ChainAt(v, start, k);
    var n := v.endingSectorPos + (c - 2) * v.sectorsPerCluster;
    ClusterPosLow(v, c);
    assert ClusterPos(v, c) == n * SECTOR_SIZE;
    hide ClusterPos;
    PlaceInSector(n, r, size);
  }

  lemma PlaceInSector(n: int, r: nat, size: nat)
    requires 1 <= size && r % SECTOR_SIZE + size <= SECTOR_SIZE
    ensures InsideSector(n * SECTOR_SIZE + r, size) <==> 0 <= n * SECTOR_SIZE + r || r % SECTOR_SIZE == 0
  {
  }

  /** A record lies in one sector, and so in one cluster. */
  lemma RecordPlace(v: Volume, offset: nat, size: nat)
    requires 1 <= v.sectorsPerCluster && 1 <= size && SECTOR_SIZE % size == 0 && offset % size == 0
    ensures Remainder(offset, v.ClusterSize()) % SECTOR_SIZE + size <= SECTOR_SIZE
    ensures Remainder(offset, v.ClusterSize()) + size <= v.ClusterSize()
  {
    var cs := v.ClusterSize();
    var k, r := Quotient(offset, cs), Remainder(offset, cs);
    WholeClusters(offset, cs);
    hide Quotient, Remainder, Times;
    ClustersAreSectors(v, k);
    RecordInSector(offset, size, k * v.sectorsPerCluster + r / SECTOR_SIZE, r % SECTOR_SIZE);
    SectorInCluster(r, size, v.sectorsPerCluster);
  }

  lemma RecordInSector(offset: nat, size: nat, a: nat, t: nat)
    requires 1 <= size && SECTOR_SIZE % size == 0 && offset % size == 0
    requires offset == a * SECTOR_SIZE + t && t < SECTOR_SIZE
    ensures t + size <= SECTOR_SIZE
  {
    var u, w := SECTOR_SIZE / size, offset / size;
    assert SECTOR_SIZE == u * size && offset == w * size;
    assert a * SECTOR_SIZE == (a * u) * size by {
      assert a * (u * size) == (a * u) * size;
    }
    MultipleBelow(w - a * u, size, u, t);
  }

  lemma MultipleBelow(d: int, size: nat, u: nat, t: nat)
    requires 1 <= size && t == d * size && t < u * size
    ensures t + size <= u * size
  {
    if u <= d {
      ProductGrows(u, d, size);
    } else {
      ProductGrows(d + 1, u, size);
    }
  }

  lemma ProductGrows(a: int, b: int, k: nat)
    requires a <= b
    ensures a * k <= b * k
  {
    assert b * k - a * k == (b - a) * k;
  }

  lemma SectorInCluster(r: nat, size: nat, s: nat)
    requires r < s * SECTOR_SIZE && r % SECTOR_SIZE + size <= SECTOR_SIZE
    ensures r + size <= s * SECTOR_SIZE
  {
  }

  lemma MultipleOf(offset: nat, i: nat, size: nat)
    requires 1 <= size && offset % size == 0
    ensures ItemOffset(offset, size, i) % size == 0
  {
    var q := offset / size;
    assert offset == q * size;
    TimesIsProduct(i, size);
    assert offset + i * size == (q + i) * size;
    DivModUnique(offset + i * size, size, q + i, 0);
  }
}
