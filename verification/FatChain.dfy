/** Reads along a cluster chain: which cluster every byte is taken from, when a read fails, and reads of
    many items. */
module FatChain {
  import opened MachineWords
  import opened DiskStream
  import opened FatTable

  /** Position of a cluster's first byte, from the sector where the code has the data begin; an `int` may
      not hold it. */
  function ClusterPos(v: Volume, cluster: int): int {
    (v.endingSectorPos + (cluster - 2) * v.sectorsPerCluster) * SECTOR_SIZE
  }

  /** Offset divided into whole clusters and the rest. */
  function Quotient(offset: nat, size: nat): nat
    requires 0 < size
  {
    offset / size
  }

  function Remainder(offset: nat, size: nat): nat
    requires 0 < size
  {
    offset % size
  }

  lemma DivModUnique(a: nat, size: nat, q: nat, r: nat)
    requires r < size && a == q * size + r
    ensures Quotient(a, size) == q && Remainder(a, size) == r
  {
    var p, s := a / size, a % size;
    assert a == p * size + s;
    Distribute(p, q, size);
    if p < q {
      AtLeast(q - p, size);
    } else if q < p {
      AtLeast(p - q, size);
    }
  }

  lemma Distribute(p: nat, q: nat, size: nat)
    ensures p * size - q * size == (p - q) * size && q * size - p * size == (q - p) * size
  {
  }

  lemma AtLeast(d: nat, size: nat)
    requires 1 <= d
    ensures d * size >= size
  {
  }

  lemma NextCluster(offset: nat, size: nat)
    requires 0 < size
    ensures Quotient(offset + size, size) == Quotient(offset, size) + 1
    ensures Remainder(offset + size, size) == Remainder(offset, size)
  {
    var q, r := offset / size, offset % size;
    assert offset == q * size + r;
    assert (q + 1) * size == q * size + size;
    DivModUnique(offset + size, size, q + 1, r);
  }

  /** The product, as repeated addition. */
  function Times(n: nat, size: nat): nat {
    if n == 0 then 0 else size + Times(n - 1, size)
  }

  lemma {:induction false} TimesIsProduct(n: nat, size: nat)
    ensures Times(n, size) == n * size
  {
    if n != 0 {
      TimesIsProduct(n - 1, size);
    }
  }

  lemma {:induction false} TimesAdd(n: nat, m: nat, size: nat)
    ensures Times(n + m, size) == Times(n, size) + Times(m, size)
  {
    if n != 0 {
      TimesAdd(n - 1, m, size);
    }
  }

  // ---------------------------------------------------------------- what a read delivers

  /** The result of a read that starts in the k-th cluster. */
  function ReadResult(v: Volume, start: nat, k: nat, total: nat): int
    requires 1 <= v.sectorsPerCluster
    decreases total
  {
    if ChainAt(v, start, k) < 0 then -EIO
    else if total <= v.ClusterSize() then 0
    else ReadResult(v, start, k + 1, total - v.ClusterSize())
  }

  /** Where a byte of the output comes from; it is kept when the chain ends too early. */
  datatype Origin = Kept | From(source: Source)

  /** The origin of the j-th byte of a read that starts r bytes into the k-th cluster. */
  function ReadOrigin(v: Volume, start: nat, k: nat, r: nat, j: nat): Origin
    requires 1 <= v.sectorsPerCluster
    decreases j
  {
    var c := ChainAt(v, start, k);
    if c < 0 then Kept
    else if j < v.ClusterSize() then From(RawSource(ToInt32(ClusterPos(v, c) + r), j))
    else ReadOrigin(v, start, k + 1, r, j - v.ClusterSize())
  }

  /** The byte of an origin; `was` is what the output held before. */
  function Delivery(v: Volume, origin: Origin, was: byte): byte {
    match origin
    case Kept => was
    case From(source) => Fetch(v.disk, v.around, source)
  }

  /** The j-th byte of the output. */
  function ReadByte(v: Volume, start: nat, k: nat, r: nat, j: nat, was: byte): byte
    requires 1 <= v.sectorsPerCluster
  {
    Delivery(v, ReadOrigin(v, start, k, r, j), was)
  }

  // ---------------------------------------------------------------- when a read fails

  /** How many clusters a read of `total` bytes looks up: at least one. */
  function ClustersNeeded(v: Volume, total: nat): (n: nat)
    requires 1 <= v.sectorsPerCluster
    ensures 1 <= n && total <= Times(n, v.ClusterSize())
    ensures 0 < total ==> Times(n - 1, v.ClusterSize()) < total
    decreases total
  {
    if total <= v.ClusterSize() then 1 else ClustersNeeded(v, total - v.ClusterSize()) + 1
  }

  /** A read succeeds exactly when the chain reaches the last cluster it needs. */
  lemma {:induction false} ResultExact(v: Volume, start: nat, k: nat, total: nat)
    requires 1 <= v.sectorsPerCluster
    ensures ReadResult(v, start, k, total) ==
      if ChainAt(v, start, k + ClustersNeeded(v, total) - 1) >= 0 then 0 else -EIO
    decreases total
  {
    hide ChainAt;
    var n := ClustersNeeded(v, total);
    if ChainAt(v, start, k + n - 1) >= 0 {
      ChainPrefix(v, start, k, k + n - 1);
    }
    if ChainAt(v, start, k) >= 0 && v.ClusterSize() < total {
      ResultExact(v, start, k + 1, total - v.ClusterSize());
    }
  }

  /** The output of a read that starts r bytes into the k-th cluster. */
  function ReadData(v: Volume, start: nat, k: nat, r: nat, was: seq<byte>): (data: seq<byte>)
    requires 1 <= v.sectorsPerCluster
    ensures |data| == |was|
    ensures forall j :: 0 <= j < |was| ==> data[j] == ReadByte(v, start, k, r, j, was[j])
  {
    seq(|was|, j requires 0 <= j < |was| => ReadByte(v, start, k, r, j, was[j]))
  }

  /** A read fails exactly when one of the links before the last cluster it looks up holds a stop value.
      When no link met is misread, that is exactly when the file the layout means ends too early. */
  lemma ChainReadFails(v: Volume, start: nat, k: nat, total: nat)
    requires 1 <= v.sectorsPerCluster
    ensures ReadResult(v, start, k, total) == 0 || ReadResult(v, start, k, total) == -EIO
    ensures ReadResult(v, start, k, total) == 0 <==>
      forall i :: 0 <= i < k + ClustersNeeded(v, total) - 1 ==>
        ChainAt(v, start, i) >= 0 && !IsStop(FatEntry(v, ChainAt(v, start, i)))
    ensures
      var last := k + ClustersNeeded(v, total) - 1;
      LinksAsMeant(v, start, last) ==> (ReadResult(v, start, k, total) == 0 <==> MeantChainAt(v, start, last) >= 0)
  {
    var last := k + ClustersNeeded(v, total) - 1;
    ResultExact(v, start, k, total);
    ChainReaches(v, start, last);
    WalkAsMeant(v, start, last);
  }

  // ---------------------------------------------------------------- reads of many items

  /** Item after item, each a read of its own, leaving at the first error: the error and the output. */
  function ItemsOutcome(v: Volume, start: nat, offset: nat, size: nat, nmemb: nat, was: seq<byte>): (r: (int, seq<byte>))
    requires 1 <= v.sectorsPerCluster && |was| == Times(nmemb, size)
    ensures |r.1| == |was|
    decreases nmemb
  {
    if nmemb == 0 then (0, was)
    else
      var k, within := Quotient(offset, v.ClusterSize()), Remainder(offset, v.ClusterSize());
      var head := ReadData(v, start, k, within, was[..size]);
      if ReadResult(v, start, k, size) < 0 then (ReadResult(v, start, k, size), head + was[size..])
      else
        var rest := ItemsOutcome(v, start, offset + size, size, nmemb - 1, was[size..]);
        (rest.0, head + rest.1)
  }

  /** Past whole clusters, a read delivers what a read that starts behind them delivers, if it got
      that far. */
  lemma {:induction false} SkipClusters(v: Volume, start: nat, k: nat, q: nat, total: nat, j: nat, was: byte)
    requires 1 <= v.sectorsPerCluster && Times(q, v.ClusterSize()) < total && Times(q, v.ClusterSize()) <= j
    ensures ReadResult(v, start, k, total) ==
      if 0 < q && ReadResult(v, start, k, Times(q, v.ClusterSize())) < 0 then -EIO
      else ReadResult(v, start, k + q, total - Times(q, v.ClusterSize()))
    ensures ReadByte(v, start, k, 0, j, was) ==
      if 0 < q && ReadResult(v, start, k, Times(q, v.ClusterSize())) < 0 then was
      else ReadByte(v, start, k + q, 0, j - Times(q, v.ClusterSize()), was)
    decreases q
  {
    var size := v.ClusterSize();
    if q != 0 {
      if ChainAt(v, start, k) >= 0 {
        SkipClusters(v, start, k + 1, q - 1, total - size, j - size, was);
        if q == 1 {
          assert ReadResult(v, start, k, size) == 0;
        } else {
          assert size < Times(q, size);
        }
      }
    }
  }

  /** The same for the bytes before: they do not depend on how long the read is. */
  lemma SplitRead(v: Volume, start: nat, k: nat, q: nat, was: seq<byte>)
    requires 1 <= v.sectorsPerCluster && 0 < q && Times(q, v.ClusterSize()) < |was|
    ensures
      var a := Times(q, v.ClusterSize());
      var head := ReadData(v, start, k, 0, was[..a]);
      if ReadResult(v, start, k, a) < 0 then
        ReadResult(v, start, k, |was|) == -EIO && ReadData(v, start, k, 0, was) == head + was[a..]
      else
        && ReadResult(v, start, k, |was|) == ReadResult(v, start, k + q, |was| - a)
        && ReadData(v, start, k, 0, was) == head + ReadData(v, start, k + q, 0, was[a..])
  {
    hide ReadData;
    hide ReadByte;
    hide ReadResult;
    var a := Times(q, v.ClusterSize());
    SkipClusters(v, start, k, q, |was|, a, 0);
    forall j | a <= j < |was|
      ensures ReadByte(v, start, k, 0, j, was[j]) ==
        if ReadResult(v, start, k, a) < 0 then was[j] else ReadByte(v, start, k + q, 0, j - a, was[j])
    {
      SkipClusters(v, start, k, q, |was|, j, was[j]);
    }
  }

  /** Reading nmemb items whose size is a positive multiple of the cluster size is one read of
      size * nmemb bytes: same result, same output. */
  lemma {:induction false} ItemsAreOneRead(v: Volume, start: nat, k: nat, q: nat, offset: nat, size: nat, nmemb: nat,
                                           was: seq<byte>)
    requires 1 <= v.sectorsPerCluster && 1 <= q && 1 <= nmemb && |was| == Times(nmemb, size)
    requires offset == k * v.ClusterSize() && size == Times(q, v.ClusterSize())
    ensures ItemsOutcome(v, start, offset, size, nmemb, was)
         == (ReadResult(v, start, k, |was|), ReadData(v, start, k, 0, was))
    decreases nmemb
  {
    hide ReadData;
    hide ReadResult;
    hide ChainAt;
    hide ItemsOutcome;
    hide Quotient;
    hide Remainder;
    var cs := v.ClusterSize();
    DivModUnique(offset, cs, k, 0);
    ChainReadFails(v, start, k, size);
    ItemsStep(v, start, offset, size, nmemb, was);
    if nmemb == 1 {
      assert was[..size] == was && was[size..] == [];
      assert ReadData(v, start, k, 0, was) + [] == ReadData(v, start, k, 0, was);
      NoItems(v, start, offset + size, size);
    } else {
      ItemsNonEmpty(q, cs, size, nmemb);
      SplitRead(v, start, k, q, was);
      TimesIsProduct(q, cs);
      SumOfMultiples(k, q, cs);
      ItemsAreOneRead(v, start, k + q, q, offset + size, size, nmemb - 1, was[size..]);
    }
  }

  lemma ItemsNonEmpty(q: nat, cs: nat, size: nat, nmemb: nat)
    requires 1 <= q && 1 <= cs && size == Times(q, cs) && 2 <= nmemb
    ensures size < Times(nmemb, size)
  {
    assert Times(nmemb, size) == size + (size + Times(nmemb - 2, size));
  }

  lemma NoItems(v: Volume, start: nat, offset: nat, size: nat)
    requires 1 <= v.sectorsPerCluster
    ensures ItemsOutcome(v, start, offset, size, 0, []) == (0, [])
  {
  }

  lemma ItemsStep(v: Volume, start: nat, offset: nat, size: nat, nmemb: nat, was: seq<byte>)
    requires 1 <= v.sectorsPerCluster && 1 <= nmemb && |was| == Times(nmemb, size)
    ensures size <= |was| && |was| - size == Times(nmemb - 1, size)
    ensures
      var k, within := Quotient(offset, v.ClusterSize()), Remainder(offset, v.ClusterSize());
      var head := ReadData(v, start, k, within, was[..size]);
      var rest := ItemsOutcome(v, start, offset + size, size, nmemb - 1, was[size..]);
      ItemsOutcome(v, start, offset, size, nmemb, was) ==
        if ReadResult(v, start, k, size) < 0 then (ReadResult(v, start, k, size), head + was[size..])
        else (rest.0, head + rest.1)
  {
    hide ReadData;
    hide ReadResult;
  }

  lemma SumOfMultiples(k: nat, q: nat, cs: nat)
    ensures k * cs + q * cs == (k + q) * cs
  {
  }
}
