/** A byte stream over 512-byte sector reads. */
module DiskStream {
  import opened MachineWords

  const SECTOR_SIZE := 512
  const POSITION_LIMIT := 0x8000_0000

  /** The bytes of the disk by position; every sector read succeeds. */
  type Disk = int -> byte

  /** What surrounds the sector buffer on the stack while a sector is copied: unknown bytes. */
  type Surroundings = (int, int) -> byte

  /** Where a delivered byte comes from: a position of the disk, or beside the buffer of a sector. */
  datatype Source = OnDisk(pos: int) | Beside(sector: int, index: int)

  function Fetch(disk: Disk, around: Surroundings, source: Source): byte {
    match source
    case OnDisk(pos) => disk(pos)
    case Beside(sector, index) => around(sector, index)
  }

  /** Index i of the buffer that holds a sector; indexes off the buffer reach its surroundings. */
  function BufferSource(sector: int, i: int): Source {
    if 0 <= i < SECTOR_SIZE then OnDisk(sector * SECTOR_SIZE + i) else Beside(sector, i)
  }

  /** The source of the j-th byte of a read that starts at `pos`: sector and offset are recomputed after
      every 512 bytes, and within those the read is not clipped at the sector's end. The position is
      an `int`, so it wraps. */
  function RawSource(pos: int32, j: nat): Source
    decreases j
  {
    if j < SECTOR_SIZE then BufferSource(TruncDiv(pos, SECTOR_SIZE), TruncMod(pos, SECTOR_SIZE) + j)
    else RawSource(ToInt32(pos + SECTOR_SIZE), j - SECTOR_SIZE)
  }

  function RawByte(disk: Disk, around: Surroundings, pos: int32, j: nat): byte {
    Fetch(disk, around, RawSource(pos, j))
  }

  /** The guard of an exact read: the first sector's part lies inside that sector. */
  predicate InsideSector(pos: int, total: int) {
    total <= 0 || 0 <= TruncMod(pos, SECTOR_SIZE) <= SECTOR_SIZE - (if total < SECTOR_SIZE then total else SECTOR_SIZE)
  }

  /** The read starts and ends at positions an `int` can hold. */
  predicate InRange(pos: int, total: int) {
    total <= 0 || (-POSITION_LIMIT <= pos && pos + total <= POSITION_LIMIT)
  }

  class DiskStreamer {
    const disk: Disk
    const around: Surroundings
    var pos: int32

    constructor (disk: Disk, around: Surroundings)
      ensures this.disk == disk && this.around == around && pos == 0
    {
      this.disk := disk;
      this.around := around;
      pos := 0;
    }

    method Seek(pos: int32) returns (res: int)
      modifies this
      ensures this.pos == pos && res == 0
    {
      this.pos := pos;
      return 0;
    }

    /** `out` is filled from index `at` on. */
    method Read(out: array<byte>, at: nat, total: int32) returns (res: int)
      requires at + total <= out.Length && at <= out.Length
      modifies this, out
      ensures res == 0 && pos == ToInt32(old(pos) + total)
      ensures forall x :: 0 <= x < out.Length ==>
        out[x] == if at <= x < at + total then RawByte(disk, around, old(pos), x - at) else old(out[x])
      decreases total
    {
      hide ToInt32;
      hide Fetch;
      var sector := TruncDiv(pos, SECTOR_SIZE);
      var offset := TruncMod(pos, SECTOR_SIZE);
      var buf := ReadSector(disk, sector);
      ghost var start := pos;
      var totalToRead := if total > SECTOR_SIZE then SECTOR_SIZE else total;
      CopyOut(disk, around, sector, buf, offset, out, at, totalToRead);
      pos := ToInt32(pos + totalToRead);
      if total > SECTOR_SIZE {
        WrapPlus(start + SECTOR_SIZE, total - SECTOR_SIZE);
        res := Read(out, at + SECTOR_SIZE, total - SECTOR_SIZE);
      } else {
        res := 0;
      }
    }
  }

  /** The copying loop of a read; `count` may be negative, and the buffer may be indexed off its
      ends. */
  method CopyOut(disk: Disk, around: Surroundings, sector: int, buf: array<byte>, offset: int,
                 out: array<byte>, at: nat, count: int)
    requires buf.Length == SECTOR_SIZE && buf != out && at + count <= out.Length
    requires forall n :: 0 <= n < SECTOR_SIZE ==> buf[n] == disk(sector * SECTOR_SIZE + n)
    modifies out
    ensures forall x :: 0 <= x < out.Length ==>
      out[x] == if at <= x < at + count then Fetch(disk, around, BufferSource(sector, offset + (x - at))) else old(out[x])
  {
    var i := 0;
    while i < count
      invariant 0 <= i && (i == 0 || i <= count)
      invariant forall x :: 0 <= x < out.Length ==>
        out[x] == if at <= x < at + i then Fetch(disk, around, BufferSource(sector, offset + (x - at))) else old(out[x])
    {
      out[at + i] := if 0 <= offset + i < SECTOR_SIZE then buf[offset + i] else around(sector, offset + i);
      i := i + 1;
    }
  }

  /** `DiskReadBlk` of one sector. */
  method ReadSector(disk: Disk, sector: int) returns (buf: array<byte>)
    ensures fresh(buf) && buf.Length == SECTOR_SIZE
    ensures forall i :: 0 <= i < SECTOR_SIZE ==> buf[i] == disk(sector * SECTOR_SIZE + i)
  {
    buf := new byte[SECTOR_SIZE];
    var i := 0;
    while i < SECTOR_SIZE
      invariant 0 <= i <= SECTOR_SIZE
      invariant forall j :: 0 <= j < i ==> buf[j] == disk(sector * SECTOR_SIZE + j)
    {
      buf[i] := disk(sector * SECTOR_SIZE + i);
      i := i + 1;
    }
  }

  lemma SectorSplit(pos: int)
    ensures pos == TruncDiv(pos, SECTOR_SIZE) * SECTOR_SIZE + TruncMod(pos, SECTOR_SIZE)
    ensures -SECTOR_SIZE < TruncMod(pos, SECTOR_SIZE) < SECTOR_SIZE
  {
  }

  /** Sectors are never cut by the limits of `int`. */
  lemma AlignedPosition(pos: int32, j: nat)
    requires TruncMod(pos, SECTOR_SIZE) == 0 && j < SECTOR_SIZE
    ensures ToInt32(pos + j) == pos + j == TruncDiv(pos, SECTOR_SIZE) * SECTOR_SIZE + j
  {
    SectorSplit(pos);
  }

  lemma NextSector(pos: int32)
    requires TruncMod(pos, SECTOR_SIZE) == 0
    ensures TruncMod(ToInt32(pos + SECTOR_SIZE), SECTOR_SIZE) == 0
  {
    var q := TruncDiv(pos, SECTOR_SIZE);
    assert pos == q * SECTOR_SIZE by {
      SectorSplit(pos);
    }
    hide TruncMod;
    hide TruncDiv;
    SectorMultiple(q + 1);
    SectorMultiple(-0x40_0000);
  }

  /** Offsets a number of sectors apart have the same place in their sector. */
  lemma SectorOffset(n: int, r: nat)
    requires n * SECTOR_SIZE >= 0
    ensures TruncMod(n * SECTOR_SIZE + r, SECTOR_SIZE) == TruncMod(r, SECTOR_SIZE)
  {
  }

  lemma SectorMultiple(n: int)
    ensures TruncMod(n * SECTOR_SIZE, SECTOR_SIZE) == 0
  {
  }

  /** From a sector boundary every byte comes from the disk, at its position as an `int`. */
  lemma {:induction false} AlignedSource(pos: int32, j: nat)
    requires TruncMod(pos, SECTOR_SIZE) == 0
    ensures RawSource(pos, j) == OnDisk(ToInt32(pos + j))
    decreases j
  {
    hide ToInt32;
    hide TruncDiv;
    hide TruncMod;
    if j < SECTOR_SIZE {
      AlignedPosition(pos, j);
    } else {
      NextSector(pos);
      WrapPlus(pos + SECTOR_SIZE, j - SECTOR_SIZE);
      AlignedSource(ToInt32(pos + SECTOR_SIZE), j - SECTOR_SIZE);
    }
  }

  /** The guard holds again for the rest of the read after a full sector. */
  lemma GuardOfRest(pos: int32, total: int)
    requires InsideSector(pos, total) && SECTOR_SIZE < total
    ensures TruncMod(pos, SECTOR_SIZE) == 0 == TruncMod(ToInt32(pos + SECTOR_SIZE), SECTOR_SIZE)
    ensures InsideSector(ToInt32(pos + SECTOR_SIZE), total - SECTOR_SIZE)
    ensures InRange(pos, total) ==> ToInt32(pos + SECTOR_SIZE) == pos + SECTOR_SIZE
  {
    if InRange(pos, total) {
      assert ToInt32(pos + SECTOR_SIZE) == pos + SECTOR_SIZE;
    }
    hide ToInt32;
    NextSector(pos);
  }

  /** Under the guard every byte comes from its position on the disk, as an `int`. */
  lemma GuardedSource(pos: int32, total: int, j: nat)
    requires InsideSector(pos, total) && j < total
    ensures RawSource(pos, j) == OnDisk(ToInt32(pos + j))
  {
    SectorSplit(pos);
    if SECTOR_SIZE <= j {
      AlignedSource(pos, j);
    }
  }

  lemma GuardedRead(disk: Disk, around: Surroundings, pos: int32, total: int, j: nat)
    requires InsideSector(pos, total) && InRange(pos, total) && j < total
    ensures RawByte(disk, around, pos, j) == disk(pos + j)
  {
    GuardedSource(pos, total, j);
  }

  /** Without the guard some byte comes from beside the buffer. */
  lemma StraddlingRead(pos: int32, total: int) returns (j: nat)
    requires !InsideSector(pos, total)
    ensures j < total && RawSource(pos, j).Beside?
  {
    var offset := TruncMod(pos, SECTOR_SIZE);
    j := if offset < 0 then 0 else if total < SECTOR_SIZE then total - 1 else SECTOR_SIZE - 1;
    assert !(0 <= offset + j < SECTOR_SIZE);
  }

  /** A read meant to start at p, at the position an `int` makes of it, that breaks the guard or leaves
      the range of `int` takes some byte from elsewhere. */
  lemma WrongSource(p: int, total: int) returns (j: nat)
    requires !(InsideSector(p, total) && InRange(p, total))
    ensures j < total && RawSource(ToInt32(p), j) != OnDisk(p + j)
  {
    var pos := ToInt32(p);
    if pos != p {
      SectorSplit(pos);
      j := 0;
    } else {
      hide RawSource;
      if !InsideSector(p, total) {
        j := StraddlingRead(pos, total);
      } else {
        j := POSITION_LIMIT - p;
        GuardedSource(pos, total, j);
      }
    }
  }

  lemma RightSource(p: int, total: int, j: nat)
    requires InsideSector(p, total) && InRange(p, total) && j < total
    ensures RawSource(ToInt32(p), j) == OnDisk(p + j)
  {
    hide RawSource;
    assert ToInt32(p) == p && ToInt32(p + j) == p + j;
    hide ToInt32;
    GuardedSource(p, total, j);
  }

  /** Such a read takes every byte from where it is meant to exactly when the guard holds and no position
      leaves the range. */
  lemma SourcesExact(p: int, total: int)
    ensures (forall j: nat :: j < total ==> RawSource(ToInt32(p), j) == OnDisk(p + j))
      <==> InsideSector(p, total) && InRange(p, total)
  {
    hide *;
    if InsideSector(p, total) && InRange(p, total) {
      forall j: nat | j < total
        ensures RawSource(ToInt32(p), j) == OnDisk(p + j)
      {
        RightSource(p, total, j);
      }
    } else {
      var j := WrongSource(p, total);
    }
  }

  /** A read delivers the disk's bytes, for every disk and whatever lies around the buffer, exactly when
      the guard holds and no position leaves the range. */
  lemma ReadExact(pos: int32, total: int)
    ensures (forall disk: Disk, around: Surroundings, j: nat :: j < total ==> RawByte(disk, around, pos, j) == disk(pos + j))
      <==> InsideSector(pos, total) && InRange(pos, total)
  {
    hide RawSource;
    if InsideSector(pos, total) && InRange(pos, total) {
      forall disk: Disk, around: Surroundings, j: nat | j < total
        ensures RawByte(disk, around, pos, j) == disk(pos + j)
      {
        GuardedRead(disk, around, pos, total, j);
      }
    } else {
      var j := WrongSource(pos, total);
      var disk: Disk := x => if x == pos + j then 1 else 0;
      var around: Surroundings := (s, i) => 0;
      assert RawByte(disk, around, pos, j) != disk(pos + j);
    }
  }

  /** On a given disk the guard alone decides, as long as positions stay in range. */
  lemma ReadExactOnDisk(disk: Disk, pos: int32, total: int)
    requires InRange(pos, total)
    ensures (forall around: Surroundings, j: nat :: j < total ==> RawByte(disk, around, pos, j) == disk(pos + j))
      <==> InsideSector(pos, total)
  {
    hide RawSource;
    if InsideSector(pos, total) {
      forall around: Surroundings, j: nat | j < total
        ensures RawByte(disk, around, pos, j) == disk(pos + j)
      {
        GuardedRead(disk, around, pos, total, j);
      }
    } else {
      var j := StraddlingRead(pos, total);
      var other: byte := if disk(pos + j) == 0 then 1 else 0;
      var around: Surroundings := (s, i) => other;
      assert RawByte(disk, around, pos, j) != disk(pos + j);
    }
  }
}
