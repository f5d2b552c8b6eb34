/** The table of a FAT volume: where the code looks for an entry, which entries end the walk along the
    cluster chain, and how both differ from what the layout means. */
module FatTable {
  import opened BitVectors
  import opened MachineWords
  import opened DiskStream

  const EIO := 1
  const BAD_SECTOR := 0xff7
  const ENTRY_SIZE := 2

  /** A sector number made of the header's fields: at most 255 tables of 65535 sectors, the reserved
      sectors and the root directory. */
  type SectorNumber = x: int | 0 <= x < 0x200_0000

  /** The disk and the header fields the reads depend on. */
  datatype Volume = Volume(disk: Disk, around: Surroundings, reservedSectors: half, sectorsPerCluster: byte,
                           endingSectorPos: SectorNumber)
  {
    function ClusterSize(): (r: nat)
      ensures 1 <= sectorsPerCluster ==> 0 < r
    {
      sectorsPerCluster * SECTOR_SIZE
    }
  }

  // ---------------------------------------------------------------- positions of entries

  /** Position of a table entry as the code computes it: the table's position times the entry's
      offset in 32-bit arithmetic, read as a signed number. */
  function EntryPos(v: Volume, cluster: int): int32 {
    ToInt32(ToWord(v.reservedSectors * SECTOR_SIZE) * ToWord(cluster * ENTRY_SIZE))
  }

  /** The little-endian 16-bit entry there. */
  function FatEntry(v: Volume, cluster: int): half {
    v.disk(EntryPos(v, cluster)) + 0x100 * v.disk(EntryPos(v, cluster) + 1)
  }

  /** The bytes of an entry, low byte first, and its position: 1024 times the product, wrapped. */
  lemma EntryBytes(v: Volume, cluster: nat)
    ensures EntryPos(v, cluster) == ToInt32(1024 * v.reservedSectors * cluster)
    ensures FatEntry(v, cluster) % 0x100 == v.disk(EntryPos(v, cluster))
    ensures FatEntry(v, cluster) / 0x100 == v.disk(EntryPos(v, cluster) + 1)
  {
    EntryPosIs(v.reservedSectors, cluster);
    hide ToInt32, ToWord;
    LowHigh(v.disk(EntryPos(v, cluster)), v.disk(EntryPos(v, cluster) + 1));
  }

  lemma EntryPosIs(r: half, c: nat)
    ensures ToInt32(ToWord(r * SECTOR_SIZE) * ToWord(c * ENTRY_SIZE)) == ToInt32(1024 * r * c)
  {
    hide ToInt32;
    var turns := c * ENTRY_SIZE / TWO_TO_THE_32;
    assert ToWord(r * SECTOR_SIZE) == r * SECTOR_SIZE;
    assert ToWord(c * ENTRY_SIZE) == c * ENTRY_SIZE - turns * TWO_TO_THE_32;
    hide ToWord;
    ProductWraps(r, c, turns);
    WrapShift(1024 * r * c, 512 * r * turns);
  }

  lemma LowHigh(low: byte, high: byte)
    ensures (low + 0x100 * high as int) % 0x100 == low && (low + 0x100 * high as int) / 0x100 == high
  {
  }

  lemma ProductWraps(r: nat, c: nat, turns: int)
    ensures r * SECTOR_SIZE * (c * ENTRY_SIZE - turns * TWO_TO_THE_32) == 1024 * r * c - 512 * r * turns * TWO_TO_THE_32
  {
  }

  /** Entries never straddle a sector: their positions are multiples of 1024. */
  lemma EntryAligned(v: Volume, cluster: int)
    ensures TruncMod(EntryPos(v, cluster), SECTOR_SIZE) == 0
    ensures InsideSector(EntryPos(v, cluster), ENTRY_SIZE) && InRange(EntryPos(v, cluster), ENTRY_SIZE)
  {
    var c := ToWord(cluster * ENTRY_SIZE);
    assert ToWord(v.reservedSectors * SECTOR_SIZE) == v.reservedSectors * SECTOR_SIZE;
    hide ToWord, ToInt32;
    var m := WrapWitness(v.reservedSectors * SECTOR_SIZE * c);
    var n := v.reservedSectors * c - m * 0x80_0000;
    assert EntryPos(v, cluster) == n * SECTOR_SIZE;
    hide EntryPos;
    AlignedInside(n, EntryPos(v, cluster));
  }

  lemma AlignedInside(n: int, pos: int32)
    requires pos == n * SECTOR_SIZE
    ensures TruncMod(pos, SECTOR_SIZE) == 0 && InsideSector(pos, ENTRY_SIZE) && InRange(pos, ENTRY_SIZE)
  {
    hide TruncMod;
    SectorMultiple(n);
  }

  /** The position the table's layout means: the entry's offset added to the table's position. */
  function MeantEntryPos(v: Volume, cluster: int): int {
    v.reservedSectors * SECTOR_SIZE + cluster * ENTRY_SIZE
  }

  /** The code reads the meant entry only in the empty case, wrapping products included. */
  lemma EntryPosMeant(v: Volume, cluster: half)
    ensures EntryPos(v, cluster) == MeantEntryPos(v, cluster) <==> v.reservedSectors == 0 && cluster == 0
  {
    var r := v.reservedSectors;
    assert ToWord(r * SECTOR_SIZE) == r * SECTOR_SIZE && ToWord(cluster * ENTRY_SIZE) == cluster * ENTRY_SIZE;
    hide ToWord;
    hide ToInt32;
    var product := r * SECTOR_SIZE * (cluster * ENTRY_SIZE);
    ProductOf(r, cluster);
    var m := WrapWitness(product);
    if EntryPos(v, cluster) == MeantEntryPos(v, cluster) {
      NoSuchEntry(r, cluster, r * cluster, m);
    } else if r == 0 && cluster == 0 {
      WrapShift(0, 0);
    }
  }

  lemma ProductOf(r: nat, c: nat)
    ensures 0 <= r * SECTOR_SIZE * (c * ENTRY_SIZE) == 1024 * (r * c)
  {
  }

  /** Product and sum are equal modulo 2^32 for no other numbers of 16 bits: carried over to
      bit-vectors, the equation has no other solution. */
  lemma NoSuchEntry(r: half, c: half, rc: nat, m: int)
    requires rc == r * c && 1024 * rc - m * TWO_TO_THE_32 == 512 * r + 2 * c
    ensures r == 0 && c == 0
  {
    assert m >= 0;
    hide *;
    HalfBelow(r);
    HalfBelow(c);
    Powers();
    LowProduct(r, c, rc);
    LowProduct(1024, rc, 1024 * rc);
    LowProduct(512, r, 512 * r);
    LowProduct(2, c, 2 * c);
    LowProduct(m, TWO_TO_THE_32, m * TWO_TO_THE_32);
    LowSumOfThree(512 * r, 2 * c, m * TWO_TO_THE_32, 1024 * rc);
    NoSuchRegisters(Low(r), Low(c), Low(m));
  }

  lemma NoSuchRegisters(r: Register, c: Register, m: Register)
    requires Below(r, 0x1_0000) && Below(c, 0x1_0000)
    requires Product(Register(1024), Product(r, c))
          == Sum(Sum(Product(Register(512), r), Product(Register(2), c)), Product(m, ZERO))
    ensures r == ZERO && c == ZERO
  {
    NoSuchBits(r.bits, c.bits, m.bits);
  }

  lemma NoSuchBits(r: bv32, c: bv32, m: bv32)
    requires r < 0x1_0000 && c < 0x1_0000
    requires Times(1024, Times(r, c)) == Plus(Plus(Times(512, r), Times(2, c)), Times(m, 0))
    ensures r == 0 && c == 0
  {
  }

  // ---------------------------------------------------------------- the cluster chain

  /** The entries the walk stops at. */
  predicate IsStop(entry: int) {
    entry == 0xff8 || entry == 0xfff || entry == BAD_SECTOR || entry == 0xff0 || entry == 0xff6 || entry == 0
  }

  /** The k-th cluster of the chain, or -EIO when a link before it is a stop value. */
  function ChainAt(v: Volume, start: nat, k: nat): (r: int)
    ensures 0 <= r || r == -EIO
  {
    if k == 0 then start
    else
      var c := ChainAt(v, start, k - 1);
      if c < 0 || IsStop(FatEntry(v, c)) then -EIO else FatEntry(v, c)
  }

  /** The k-th cluster is there exactly when no needed link holds a stop value. */
  lemma {:induction false} ChainReaches(v: Volume, start: nat, k: nat)
    ensures ChainAt(v, start, k) >= 0
      <==> forall i :: 0 <= i < k ==> ChainAt(v, start, i) >= 0 && !IsStop(FatEntry(v, ChainAt(v, start, i)))
  {
    if k != 0 {
      ChainReaches(v, start, k - 1);
    }
  }

  lemma {:induction false} ChainPrefix(v: Volume, start: nat, i: nat, k: nat)
    requires i <= k && ChainAt(v, start, k) >= 0
    ensures ChainAt(v, start, i) >= 0
  {
    if i < k {
      ChainPrefix(v, start, i, k - 1);
    }
  }

  lemma {:induction false} StopsEarly(v: Volume, start: nat, i: nat, k: nat)
    requires i < k && ChainAt(v, start, i) >= 0 && IsStop(FatEntry(v, ChainAt(v, start, i)))
    ensures ChainAt(v, start, k) == -EIO
  {
    if i + 1 < k {
      StopsEarly(v, start, i, k - 1);
    }
  }

  /** The disk holds c's link to d, low byte first, where the code looks for it. */
  ghost predicate Links(v: Volume, c: half, d: half) {
    var p := ToInt32(1024 * v.reservedSectors * c);
    v.disk(p) == d % 0x100 && v.disk(p + 1) == d / 0x100
  }

  /** On a disk that holds the links of any list of clusters the walk follows the list, and -EIO comes
      exactly behind the first stop value. */
  lemma {:induction false} ChainOnDisk(v: Volume, cs: seq<half>, k: nat)
    requires k < |cs| && forall i :: 0 <= i < |cs| - 1 ==> Links(v, cs[i], cs[i + 1])
    ensures ChainAt(v, cs[0], k) == if forall i :: 1 <= i <= k ==> !IsStop(cs[i]) then cs[k] else -EIO
  {
    hide IsStop, FatEntry, EntryPos, Links;
    if k != 0 {
      ChainOnDisk(v, cs, k - 1);
      LinkRead(v, cs[k - 1], cs[k]);
    }
  }

  lemma LinkRead(v: Volume, c: half, d: half)
    requires Links(v, c, d)
    ensures FatEntry(v, c) == d
  {
    hide FatEntry, EntryPos, ToInt32;
    EntryBytes(v, c);
  }

  // ---------------------------------------------------------------- the chain the layout means

  /** The entries that name no cluster in a table of 16-bit entries: free and reserved ones, the bad mark,
      and the end marks from 0xfff8 on. */
  predicate MeantStop(entry: int) {
    entry < 2 || 0xfff0 <= entry
  }

  /** The chain those entries end. */
  function MeantChainAt(v: Volume, start: nat, k: nat): (r: int)
    ensures 0 <= r || r == -EIO
  {
    if k == 0 then start
    else
      var c := MeantChainAt(v, start, k - 1);
      if c < 0 || MeantStop(FatEntry(v, c)) then -EIO else FatEntry(v, c)
  }

  /** The entries the walk takes for what they are not: the five marks of a 12-bit table, which name
      clusters in a 16-bit one, the sixteen marks of the 16-bit table, and one. */
  predicate Misread(entry: half) {
    || entry == 0xff0 || entry == 0xff6 || entry == 0xff7 || entry == 0xff8 || entry == 0xfff
    || 0xfff0 <= entry || entry == 1
  }

  lemma MisreadExact(entry: half)
    ensures Misread(entry) <==> IsStop(entry) != MeantStop(entry)
  {
  }

  /** No link met before the k-th cluster is misread. */
  ghost predicate LinksAsMeant(v: Volume, start: nat, k: nat) {
    forall i :: 0 <= i < k && ChainAt(v, start, i) >= 0 ==> !Misread(FatEntry(v, ChainAt(v, start, i)))
  }

  /** The walk reaches the clusters it is meant to reach, and ends where it is meant to end, exactly when
      no link it meets is misread. */
  lemma {:induction false} WalkAsMeant(v: Volume, start: nat, k: nat)
    ensures (forall i :: 0 <= i <= k ==> ChainAt(v, start, i) == MeantChainAt(v, start, i))
      <==> LinksAsMeant(v, start, k)
  {
    hide FatEntry, IsStop, MeantStop, Misread;
    if k != 0 {
      WalkAsMeant(v, start, k - 1);
      if LinksAsMeant(v, start, k - 1) {
        var c := ChainAt(v, start, k - 1);
        assert c == MeantChainAt(v, start, k - 1);
        if c >= 0 {
          MisreadExact(FatEntry(v, c));
          assert ChainAt(v, start, k) == MeantChainAt(v, start, k) <==> !Misread(FatEntry(v, c));
        }
      }
    }
  }

  /** An end mark of the 16-bit table is followed like a cluster. */
  lemma EndMarkFollowed(v: Volume)
    requires FatEntry(v, 2) == 0xfff8
    ensures ChainAt(v, 2, 1) == 0xfff8 && MeantChainAt(v, 2, 1) == -EIO
  {
    assert ChainAt(v, 2, 0) == 2 == MeantChainAt(v, 2, 0);
  }

  /** A cluster whose number is a mark of the 12-bit table ends the chain. */
  lemma ClusterTakenForMark(v: Volume)
    requires FatEntry(v, 2) == 0xff0
    ensures ChainAt(v, 2, 1) == -EIO && MeantChainAt(v, 2, 1) == 0xff0
  {
    assert ChainAt(v, 2, 0) == 2 == MeantChainAt(v, 2, 0);
  }
}
