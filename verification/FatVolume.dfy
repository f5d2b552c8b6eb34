/** From a name to a file's bytes: the entry is looked up in the root directory, its first cluster is taken
    from the slot's bytes, and the items are read along the chain. */
module FatVolume {
  import opened MachineWords
  import opened DiskStream
  import opened FatTable
  import opened FatChain
  import opened FatReads
  import opened FatFile
  import opened FatDirectory

  const HIGH_CLUSTER := 20
  const LOW_CLUSTER := 26

  function HalfAt(item: seq<byte>, p: nat): half
    requires p + 1 < |item|
  {
    var low: int, high: int := item[p], item[p + 1];
    low + 0x100 * high
  }

  /** The first cluster the two halves of an item mean. */
  function MeantFirstCluster(item: seq<byte>): word
    requires |item| == ITEM_SIZE
  {
    HalfAt(item, HIGH_CLUSTER) * 0x1_0000 + HalfAt(item, LOW_CLUSTER)
  }

  /** The first cluster the code takes. */
  function TakenFirstCluster(item: seq<byte>): nat
    requires |item| == ITEM_SIZE
  {
    FirstCluster(HalfAt(item, HIGH_CLUSTER), HalfAt(item, LOW_CLUSTER))
  }

  /** The bytes of the first cluster, lowest first: 26 and 27, then 20 and 21. */
  lemma FirstClusterBytes(item: seq<byte>)
    requires |item| == ITEM_SIZE
    ensures MeantFirstCluster(item) % 0x100 == item[26] && MeantFirstCluster(item) / 0x100 % 0x100 == item[27]
    ensures MeantFirstCluster(item) / 0x1_0000 % 0x100 == item[20] && MeantFirstCluster(item) / 0x100_0000 == item[21]
  {
    HalfSplit(item[20], item[21]);
    HalfSplit(item[26], item[27]);
    HalvesSplit(HalfAt(item, HIGH_CLUSTER), HalfAt(item, LOW_CLUSTER));
  }

  lemma HalfSplit(low: byte, high: byte)
    ensures (low + 0x100 * high as int) % 0x100 == low && (low + 0x100 * high as int) / 0x100 == high
  {
  }

  lemma HalvesSplit(high: half, low: half)
    ensures (high * 0x1_0000 + low) % 0x100 == low % 0x100 && (high * 0x1_0000 + low) / 0x100 % 0x100 == low / 0x100
    ensures (high * 0x1_0000 + low) / 0x1_0000 == high && (high * 0x1_0000 + low) / 0x100_0000 == high / 0x100
  {
    var x := high * 0x1_0000 + low;
    assert x == (high * 0x100) * 0x100 + low;
    assert x / 0x100 == high * 0x100 + low / 0x100;
  }

  /** What opening a file of the root directory and reading items from its start gives: the error or the
      number of items, and the output. */
  ghost function NamedRead(h: Header, v: Volume, n: nat, text: seq<byte>, size: word, nmemb: word, was: seq<byte>)
    : (r: (int, seq<byte>))
    requires 1 <= v.sectorsPerCluster && n <= h.rootDirEntries && |was| == Times(nmemb, size)
  {
    var found := Answer(v.disk, h.RootPos(), n, h.rootDirEntries, text);
    if found.None? || |found.item| != ITEM_SIZE then (-EIO, was)
    else
      var outcome := IntItems(v, TakenFirstCluster(found.item), 0, size, nmemb, was);
      (if outcome.0 < 0 then outcome.0 else ToInt32(nmemb), outcome.1)
  }

  /** `fat16_open` on a path of one part, and `fat16_read` on what it opens. */
  method ReadNamed(dirStream: DiskStreamer, fs: FatDriver, h: Header, name: seq<byte>, size: word, nmemb: word,
                   out: array<byte>, ghost text: seq<byte>, ghost n: nat) returns (res: int)
    requires fs.Valid() && dirStream.disk == fs.volume.disk
    requires dirStream != fs.fatReadStream && dirStream != fs.clusterReadStream
    requires RootInRange(h, n) && EndsAt(dirStream.disk, h.RootPos(), n) && n <= h.rootDirEntries
    requires HoldsText(name, text) && out.Length == Times(nmemb, size)
    requires forall i :: 0 <= i < n ==> NamesStop(SlotBytes(dirStream.disk, h.RootPos(), i))
    modifies dirStream, fs.fatReadStream, fs.clusterReadStream, out
    ensures (res, out[..]) == NamedRead(h, fs.volume, n, text, size, nmemb, old(out[..]))
  {
    hide NamesStop, Answer, IntItems, FirstCluster, RootInRange, EndsAt, Times;
    assert ToInt32(0) == 0;
    hide ToInt32;
    ghost var was := out[..];
    var found := FindInRoot(dirStream, h, name, text, n);
    assert out[..] == was == out[0..] && out[..0] == [];
    if found.None? {
      return -EIO;
    }
    AnswerIsSlot(dirStream.disk, h.RootPos(), n, h.rootDirEntries, text);
    var high, low := HalfAt(found.item, HIGH_CLUSTER), HalfAt(found.item, LOW_CLUSTER);
    res := ReadItems(fs, high, low, 0, size, nmemb, out, 0);
    ghost var outcome := IntItems(fs.volume, TakenFirstCluster(found.item), 0, size, nmemb, was);
    assert [] + outcome.1 == outcome.1;
    assert out[..] == outcome.1;
  }

  /** What is found is a slot of the disk. */
  lemma AnswerIsSlot(disk: Disk, pos: int, n: nat, entries: nat, text: seq<byte>)
    requires n <= entries
    ensures
      var found := Answer(disk, pos, n, entries, text);
      found.Some? ==> found.index < n && found.item == SlotBytes(disk, pos, found.index)
  {
    hide Matches;
    LastMatchMeans(DiskItems(disk, pos, entries), LiveCount(disk, pos, n), text);
  }

  // ---------------------------------------------------------------- the file the layout means

  /** The n clusters from the k-th on of the chain the layout means, from where the layout has them. */
  function LayoutData(h: Header, v: Volume, start: nat, k: nat, n: nat): (r: seq<byte>)
    ensures |r| == Times(n, v.ClusterSize())
    decreases n
  {
    if n == 0 then []
    else
      var pos := DataPos(h, MeantChainAt(v, start, k));
      seq(v.ClusterSize(), i => v.disk(pos + i)) + LayoutData(h, v, start, k + 1, n - 1)
  }

  lemma {:induction false} LayoutDataIsChainData(h: Header, v: Volume, start: nat, k: nat, n: nat)
    requires v == h.VolumeOf(v.disk, v.around) && h.rootDirEntries % 16 == 0
    requires forall i :: 0 <= i < k + n ==> ChainAt(v, start, i) == MeantChainAt(v, start, i)
    ensures LayoutData(h, v, start, k, n) == ChainData(v, start, k, n)
    decreases n
  {
    if n != 0 {
      hide ChainAt, MeantChainAt, ClusterPos, DataPos;
      LayoutDataIsChainData(h, v, start, k + 1, n - 1);
      DataPlaceExact(h, v.disk, v.around, ChainAt(v, start, k));
    }
  }

  /** No deleted slot comes before an entry. */
  ghost predicate NoneDeletedBefore(disk: Disk, pos: int, n: nat) {
    forall d, i :: 0 <= d < i < n && FirstByte(disk, pos, d) == DELETED ==> FirstByte(disk, pos, i) == DELETED
  }

  /** Everything a volume has to keep for its names to lead to its files: entries with names of their own
      and no deleted slot before one of them, and a root directory of whole sectors. */
  ghost predicate Faithful(h: Header, v: Volume, n: nat) {
    && 1 <= v.sectorsPerCluster && v == h.VolumeOf(v.disk, v.around) && h.rootDirEntries % 16 == 0
    && n <= h.rootDirEntries && EndsAt(v.disk, h.RootPos(), n)
    && (forall i :: 0 <= i < n ==> NamesStop(SlotBytes(v.disk, h.RootPos(), i)))
    && NamesDiffer(v.disk, h.RootPos(), n) && NoneDeletedBefore(v.disk, h.RootPos(), n)
  }

  /** Opening an entry by any spelling of its name and reading items from its start succeeds and gives the start of the file
      the layout means, when the first cluster needs no upper half, no link on the way is misread, and
      every item is exact. */
  lemma NamedFileRead(h: Header, v: Volume, n: nat, i: nat, text: seq<byte>, start: half, size: word, nmemb: word,
                      m: nat, was: seq<byte>)
    requires Faithful(h, v, n) && IsEntry(v.disk, h.RootPos(), n, i)
    requires SameIgnoringCase(text, Rendered(SlotBytes(v.disk, h.RootPos(), i)))
    requires
      var slot := SlotBytes(v.disk, h.RootPos(), i);
      slot[26] == start % 0x100 && slot[27] == start / 0x100 && slot[20] == 0 == slot[21]
    requires 1 <= size && 1 <= m && |was| == Times(nmemb, size) < POSITION_LIMIT && |was| <= Times(m, v.ClusterSize())
    requires LinksAsMeant(v, start, m - 1)
    requires forall j: nat :: j < nmemb ==> ItemExact(v, start, ItemOffset(0, size, j), size)
    ensures NamedRead(h, v, n, text, size, nmemb, was) == (ToInt32(nmemb), LayoutData(h, v, start, 0, m)[..|was|])
  {
    var slot := SlotBytes(v.disk, h.RootPos(), i);
    FoundByName(h, v, n, i);
    assert HalfAt(slot, HIGH_CLUSTER) == 0 && HalfAt(slot, LOW_CLUSTER) == start;
    FirstClusterExact(0, start);
    assert TakenFirstCluster(slot) == start;
    FileRead(h, v, start, size, nmemb, m, was);
    assert Answer(v.disk, h.RootPos(), n, h.rootDirEntries, text) == Some(i, slot);
    hide *;
  }

  lemma FoundByName(h: Header, v: Volume, n: nat, i: nat)
    requires Faithful(h, v, n) && IsEntry(v.disk, h.RootPos(), n, i)
    ensures IsFound(v.disk, h.RootPos(), n, h.rootDirEntries, i)
  {
    hide NamesStop, IsFound, NamesDiffer, EndsAt, IsEntry;
    EntriesFound(v.disk, h.RootPos(), n, h.rootDirEntries);
  }

  lemma FileRead(h: Header, v: Volume, start: nat, size: word, nmemb: word, m: nat, was: seq<byte>)
    requires 1 <= v.sectorsPerCluster && v == h.VolumeOf(v.disk, v.around) && h.rootDirEntries % 16 == 0
    requires 1 <= size && 1 <= m && |was| == Times(nmemb, size) < POSITION_LIMIT && |was| <= Times(m, v.ClusterSize())
    requires LinksAsMeant(v, start, m - 1)
    requires forall j: nat :: j < nmemb ==> ItemExact(v, start, ItemOffset(0, size, j), size)
    ensures IntItems(v, start, 0, size, nmemb, was) == (0, LayoutData(h, v, start, 0, m)[..|was|])
  {
    hide ChainAt, MeantChainAt, LinksAsMeant, ItemExact, ItemOffset, IntItems, ItemsOutcome;
    hide ChainData, LayoutData, Times;
    ItemsInRange(v, start, 0, size, nmemb, was);
    ItemsDeliverExactly(v, start, 0, size, nmemb);
    ItemsAreFile(v, start, 0, size, nmemb, m, was);
    WalkAsMeant(v, start, m - 1);
    LayoutDataIsChainData(h, v, start, 0, m);
  }
}
