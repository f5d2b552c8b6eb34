/** Two-level 32-bit page tables built out of one-block heap allocations. A directory has 1024
    words, each naming a table by its page frame; a table has 1024 words, each naming a page. */
module Paging {
  import opened MachineWords
  import opened BlockHeap
  import opened KernelHeap

  const IS_WRITEABLE := 0x02
  const ENTRIES := 1024
  const PAGE_SIZE := 4096
  const TABLE_SPAN := 0x40_0000

  // ---------------------------------------------------------------- lookup over physical words

  /** The page frame an entry names. */
  function Frame(e: word): word {
    e - e % PAGE_SIZE
  }

  /** The code finds a table again with `entry & 0xfffff000`. */
  lemma FrameIsMask(e: word)
    ensures BitAnd(e, 0xffff_f000) == Frame(e)
  {
    MaskFrame(e / PAGE_SIZE, e % PAGE_SIZE);
  }

  predicate IsDirectory(dir: word) {
    dir % 4 == 0 && dir + 4 * ENTRIES <= TWO_TO_THE_32
  }

  function Directory(m: seq<word>, dir: word, i: int): word
    requires |m| == WORDS && IsDirectory(dir) && 0 <= i < ENTRIES
  {
    m[dir / 4 + i]
  }

  function DirectoryIndex(va: word): (r: int)
    ensures 0 <= r < ENTRIES
  {
    va / TABLE_SPAN
  }

  function TableIndex(va: word): (r: int)
    ensures 0 <= r < ENTRIES
  {
    va % TABLE_SPAN / PAGE_SIZE
  }

  /** Index of the word that translates the page of a virtual address. */
  function Slot(m: seq<word>, dir: word, va: word): (r: int)
    requires |m| == WORDS && IsDirectory(dir)
    ensures 0 <= r < WORDS
  {
    Frame(Directory(m, dir, DirectoryIndex(va))) / 4 + TableIndex(va)
  }

  /** The page-table entry found by the two-level walk. */
  function Walk(m: seq<word>, dir: word, va: word): word
    requires |m| == WORDS && IsDirectory(dir)
  {
    m[Slot(m, dir, va)]
  }

  /** What the processor makes of an access: both levels must have the present bit. */
  function Translate(m: seq<word>, dir: word, va: word): (r: int)
    requires |m| == WORDS && IsDirectory(dir)
  {
    if Directory(m, dir, DirectoryIndex(va)) % 2 == 1 && Walk(m, dir, va) % 2 == 1 then
      Frame(Walk(m, dir, va)) + va % PAGE_SIZE
    else -1
  }

  function PageOf(va: word): word {
    va - va % PAGE_SIZE
  }

  /** Memory after the word that translates `virt` is stored. */
  function Update(m: seq<word>, dir: word, virt: word, val: word): (u: seq<word>)
    requires |m| == WORDS && IsDirectory(dir)
    ensures |u| == WORDS
  {
    m[Slot(m, dir, virt) := val]
  }

  // ---------------------------------------------------------------- one translation at a time

  /** No two directory entries name the same table and none names the directory itself. */
  ghost predicate AliasFree(m: seq<word>, dir: word)
    requires |m| == WORDS && IsDirectory(dir)
  {
    && dir % PAGE_SIZE == 0
    && (forall i, j :: 0 <= i < j < ENTRIES ==> Frame(Directory(m, dir, i)) != Frame(Directory(m, dir, j)))
    && (forall i :: 0 <= i < ENTRIES ==> Frame(Directory(m, dir, i)) != dir)
  }

  /** The two indexes split an address without loss. */
  lemma IndexSplit(va: word)
    ensures PageOf(va) == DirectoryIndex(va) * TABLE_SPAN + TableIndex(va) * PAGE_SIZE
    ensures PageOf(va) == PAGE_SIZE * (DirectoryIndex(va) * ENTRIES + TableIndex(va))
  {
  }

  lemma IndexesInjective(va: word, vb: word)
    ensures PageOf(va) == PageOf(vb) <==> DirectoryIndex(va) == DirectoryIndex(vb) && TableIndex(va) == TableIndex(vb)
  {
    IndexSplit(va);
    IndexSplit(vb);
  }

  /** Different pages are translated by different words, none of them in the directory. */
  lemma SlotsDistinct(m: seq<word>, dir: word, va: word, vb: word)
    requires |m| == WORDS && IsDirectory(dir) && AliasFree(m, dir)
    ensures Slot(m, dir, va) == Slot(m, dir, vb) <==> PageOf(va) == PageOf(vb)
    ensures !(dir / 4 <= Slot(m, dir, va) < dir / 4 + ENTRIES)
  {
    IndexesInjective(va, vb);
    var e, f := Directory(m, dir, DirectoryIndex(va)), Directory(m, dir, DirectoryIndex(vb));
    assert Frame(e) == Frame(f) <==> DirectoryIndex(va) == DirectoryIndex(vb);
    PageWords(e / PAGE_SIZE, TableIndex(va), f / PAGE_SIZE, TableIndex(vb));
    PageWords(e / PAGE_SIZE, TableIndex(va), dir / PAGE_SIZE, 0);
  }

  /** Word indexes of two pages only meet at the same offset of the same page. */
  lemma PageWords(p: nat, a: nat, q: nat, b: nat)
    requires a < ENTRIES && b < ENTRIES
    ensures p * PAGE_SIZE / 4 == p * ENTRIES
    ensures p * ENTRIES + a == q * ENTRIES + b <==> p == q && a == b
    ensures q * ENTRIES <= p * ENTRIES + a < q * ENTRIES + ENTRIES <==> p == q
  {
  }

  /** Storing the word of one page changes the translation of that page and of no other, and no
      directory entry. */
  lemma SingleUpdate(m: seq<word>, dir: word, virt: word, val: word)
    requires |m| == WORDS && IsDirectory(dir) && AliasFree(m, dir)
    ensures AliasFree(Update(m, dir, virt, val), dir)
    ensures forall i :: 0 <= i < ENTRIES ==> Directory(Update(m, dir, virt, val), dir, i) == Directory(m, dir, i)
    ensures forall va: word ::
      Walk(Update(m, dir, virt, val), dir, va) == (if PageOf(va) == PageOf(virt) then val else Walk(m, dir, va))
  {
    var u := Update(m, dir, virt, val);
    SlotsDistinct(m, dir, virt, virt);
    assert forall i :: 0 <= i < ENTRIES ==> Directory(u, dir, i) == Directory(m, dir, i);
    assert AliasFree(u, dir) by {
      forall i, j | 0 <= i < j < ENTRIES
        ensures Frame(Directory(u, dir, i)) != Frame(Directory(u, dir, j))
      {
        assert Frame(Directory(m, dir, i)) != Frame(Directory(m, dir, j));
      }
      forall i | 0 <= i < ENTRIES
        ensures Frame(Directory(u, dir, i)) != dir
      {
        assert Frame(Directory(m, dir, i)) != dir;
      }
    }
    forall va: word
      ensures Walk(u, dir, va) == if PageOf(va) == PageOf(virt) then val else Walk(m, dir, va)
    {
      SlotsDistinct(m, dir, va, virt);
      assert Slot(u, dir, va) == Slot(m, dir, va);
    }
  }

  /** The address rounded up to a page, in 32-bit arithmetic. */
  function AlignAddress(ptr: word): word {
    if ptr % PAGE_SIZE != 0 then ToWord(ptr + PAGE_SIZE - ptr % PAGE_SIZE) else ptr
  }

  /** It is the least page address not below the given one, except in the last page, where it wraps to
      zero. */
  lemma AlignExact(ptr: word)
    ensures AlignAddress(ptr) % PAGE_SIZE == 0
    ensures ptr <= AlignAddress(ptr) < ptr + PAGE_SIZE <==> ptr <= 0xffff_f000
    ensures 0xffff_f000 < ptr ==> AlignAddress(ptr) == 0
  {
  }

  method GetIndexes(virtualAddress: word) returns (res: int, directoryIndex: int, tableIndex: int)
    ensures res == if virtualAddress % PAGE_SIZE == 0 then 0 else -EINVARG
    ensures res == 0 ==> 0 <= directoryIndex < ENTRIES && 0 <= tableIndex < ENTRIES
    ensures res == 0 ==> virtualAddress == PAGE_SIZE * (directoryIndex * ENTRIES + tableIndex)
    ensures res == 0 ==> directoryIndex == DirectoryIndex(virtualAddress) && tableIndex == TableIndex(virtualAddress)
  {
    directoryIndex, tableIndex := 0, 0;
    if virtualAddress % PAGE_SIZE != 0 {
      return -EINVARG, 0, 0;
    }
    IndexSplit(virtualAddress);
    directoryIndex := virtualAddress / (ENTRIES * PAGE_SIZE);
    tableIndex := virtualAddress % (ENTRIES * PAGE_SIZE) / PAGE_SIZE;
    res := 0;
  }

  method Set(k: KernelMemory, directory: word, virt: word, val: word) returns (res: int)
    requires k.words.Length == WORDS && IsDirectory(directory)
    modifies k.words
    ensures res == if virt % PAGE_SIZE == 0 then 0 else -EINVARG
    ensures k.words[..] ==
      if virt % PAGE_SIZE == 0 then Update(old(k.words[..]), directory, virt, val) else old(k.words[..])
  {
    if virt % PAGE_SIZE != 0 {
      return -EINVARG;
    }
    var di, ti;
    res, di, ti := GetIndexes(virt);
    if res < 0 {
      return res;
    }
    var entry := k.words[directory / 4 + di];
    FrameIsMask(entry);
    var table := BitAnd(entry, 0xffff_f000);
    k.words[table / 4 + ti] := val;
    return 0;
  }

  /** The entry `phys | flags`, with the signed flags converted to a word. */
  function MapEntry(phys: word, flags: int): (r: word)
  {
    OrWord(phys, ToWord(flags));
    BitOr(phys, ToWord(flags))
  }

  /** Bit by bit: an entry has the bits of the address and those of the flags. */
  lemma MapEntryEachBit(phys: word, flags: int, k: nat)
    ensures Bit(MapEntry(phys, flags), k) <==> Bit(phys, k) || Bit(ToWord(flags), k)
  {
    EachBit(phys, ToWord(flags), k);
  }

  /** A pointer advanced by one page, wrapping at the end of the address space. */
  function NextPage(a: word): (r: word)
    ensures r % PAGE_SIZE == a % PAGE_SIZE
  {
    ToWord(a + PAGE_SIZE)
  }

  /** The entries for the pages of a range, in order. */
  function RangeEntries(phys: word, count: nat, flags: int): (r: seq<word>)
    ensures |r| == count
    decreases count
  {
    if count == 0 then [] else [MapEntry(phys, flags)] + RangeEntries(NextPage(phys), count - 1, flags)
  }

  /** The j-th page of a range goes to the frame j pages after the first. */
  lemma {:induction false} RangeEntryAt(phys: word, count: nat, flags: int, j: nat)
    requires j < count
    ensures RangeEntries(phys, count, flags)[j] == MapEntry(ToWord(phys + j * PAGE_SIZE), flags)
    decreases j
  {
    OnePageOnPhys(phys, j);
    if j != 0 {
      RangeEntryAt(NextPage(phys), count - 1, flags, j - 1);
    }
  }

  lemma OnePageOnPhys(phys: word, j: nat)
    ensures ToWord(phys) == phys
    ensures 0 < j ==> ToWord(NextPage(phys) + (j - 1) * PAGE_SIZE) == ToWord(phys + j * PAGE_SIZE)
  {
  }

  method Map(k: KernelMemory, directory: word, virt: word, phys: word, flags: int) returns (res: int)
    requires k.words.Length == WORDS && IsDirectory(directory)
    modifies k.words
    ensures res == if virt % PAGE_SIZE == 0 && phys % PAGE_SIZE == 0 then 0 else -EINVARG
    ensures k.words[..] ==
      if virt % PAGE_SIZE == 0 && phys % PAGE_SIZE == 0 then
        Update(old(k.words[..]), directory, virt, MapEntry(phys, flags))
      else old(k.words[..])
  {
    if virt % PAGE_SIZE != 0 || phys % PAGE_SIZE != 0 {
      return -EINVARG;
    }
    res := Set(k, directory, virt, MapEntry(phys, flags));
  }

  // ---------------------------------------------------------------- ranges

  /** As written, the loop leaves on the first success: a non-empty aligned range maps its first
      page only, and a misaligned one fails on every turn. */
  method MapRange(k: KernelMemory, directory: word, virt: word, phys: word, count: int, flags: int) returns (res: int)
    requires k.words.Length == WORDS && IsDirectory(directory)
    modifies k.words
    ensures res == if 0 < count && (virt % PAGE_SIZE != 0 || phys % PAGE_SIZE != 0) then -EINVARG else 0
    ensures k.words[..] ==
      if 0 < count && virt % PAGE_SIZE == 0 && phys % PAGE_SIZE == 0 then
        Update(old(k.words[..]), directory, virt, MapEntry(phys, flags))
      else old(k.words[..])
  {
    res := 0;
    var v: word, p: word := virt, phys;
    var i := 0;
    while i < count
      invariant i == 0 || 0 < i <= count
      invariant 0 < i ==> res == -EINVARG && (virt % PAGE_SIZE != 0 || phys % PAGE_SIZE != 0)
      invariant i == 0 ==> res == 0 && v == virt && p == phys
      invariant v % PAGE_SIZE == virt % PAGE_SIZE && p % PAGE_SIZE == phys % PAGE_SIZE
      invariant k.words[..] == old(k.words[..])
    {
      res := Map(k, directory, v, p, flags);
      if res == 0 {
        break;
      }
      v, p := NextPage(v), NextPage(p);
      i := i + 1;
    }
  }

  lemma WholePages(phys: word, physEnd: word)
    requires phys % PAGE_SIZE == 0 && physEnd % PAGE_SIZE == 0 && phys <= physEnd
    ensures 0 < ToWord(physEnd - phys) / PAGE_SIZE <==> phys < physEnd
    ensures ToWord(physEnd - phys) / PAGE_SIZE < 0x10_0000
  {
  }

  method MapTo(k: KernelMemory, directory: word, virt: word, phys: word, physEnd: word, flags: int) returns (res: int)
    requires k.words.Length == WORDS && IsDirectory(directory)
    modifies k.words
    ensures res == if virt % PAGE_SIZE == 0 && phys % PAGE_SIZE == 0 && physEnd % PAGE_SIZE == 0 && phys <= physEnd
                   then 0 else -EINVARG
    ensures k.words[..] ==
      if res == 0 && phys < physEnd then
        Update(old(k.words[..]), directory, virt, MapEntry(phys, flags))
      else old(k.words[..])
  {
    if virt % PAGE_SIZE != 0 {
      return -EINVARG;
    }
    if phys % PAGE_SIZE != 0 {
      return -EINVARG;
    }
    if physEnd % PAGE_SIZE != 0 {
      return -EINVARG;
    }
    if physEnd < phys {
      return -EINVARG;
    }
    var totalBytes := ToWord(physEnd - phys);
    var totalPages := totalBytes / PAGE_SIZE;
    WholePages(phys, physEnd);
    res := MapRange(k, directory, virt, phys, totalPages, flags);
  }

  /** The range loop that leaves on a failure instead, which is what the caller means. */
  method MapRangeThrough(k: KernelMemory, directory: word, virt: word, phys: word, count: nat, flags: int)
    returns (res: int)
    requires k.words.Length == WORDS && IsDirectory(directory)
    modifies k.words
    ensures res == if 0 < count && (virt % PAGE_SIZE != 0 || phys % PAGE_SIZE != 0) then -EINVARG else 0
    ensures k.words[..] ==
      if virt % PAGE_SIZE == 0 && phys % PAGE_SIZE == 0 then
        Mapped(old(k.words[..]), directory, virt, RangeEntries(phys, count, flags))
      else old(k.words[..])
  {
    res := 0;
    var v: word, p: word := virt, phys;
    ghost var before := k.words[..];
    var i := 0;
    while i < count
      invariant 0 <= i <= count && res == 0
      invariant 0 < i ==> virt % PAGE_SIZE == 0 && phys % PAGE_SIZE == 0
      invariant v % PAGE_SIZE == virt % PAGE_SIZE && p % PAGE_SIZE == phys % PAGE_SIZE
      invariant i == 0 ==> k.words[..] == before
      invariant Mapped(k.words[..], directory, v, RangeEntries(p, count - i, flags))
             == Mapped(before, directory, virt, RangeEntries(phys, count, flags))
    {
      ghost var vals := RangeEntries(p, count - i, flags);
      ghost var now := k.words[..];
      res := Map(k, directory, v, p, flags);
      if res < 0 {
        break;
      }
      assert vals[0] == MapEntry(p, flags) && vals[1..] == RangeEntries(NextPage(p), count - (i + 1), flags);
      assert k.words[..] == Update(now, directory, v, vals[0]);
      v, p := NextPage(v), NextPage(p);
      i := i + 1;
    }
  }

  /** Memory after the values are stored for the page of `virt` and the pages that follow it. */
  function Mapped(m: seq<word>, dir: word, virt: word, vals: seq<word>): (u: seq<word>)
    requires |m| == WORDS && IsDirectory(dir)
    ensures |u| == WORDS
    decreases |vals|
  {
    if vals == [] then m else Mapped(Update(m, dir, virt, vals[0]), dir, NextPage(virt), vals[1..])
  }

  /** How many pages after `virt` the page of `va` comes, going round the address space. */
  function PagesAfter(virt: word, va: word): (r: int)
    ensures 0 <= r < 0x10_0000
  {
    ToWord(PageOf(va) - virt) / PAGE_SIZE
  }

  /** The translation of `va` a range mapping is meant to give. */
  function RangeWalk(m: seq<word>, dir: word, virt: word, vals: seq<word>, va: word): word
    requires |m| == WORDS && IsDirectory(dir)
  {
    var j := PagesAfter(virt, va);
    if j < |vals| then vals[j] else Walk(m, dir, va)
  }

  /** The full loop gives the j-th page of the range the j-th entry, for every j, and keeps every
      other translation and the directory. */
  lemma {:induction false} RangeLaw(m: seq<word>, dir: word, virt: word, vals: seq<word>)
    requires |m| == WORDS && IsDirectory(dir) && AliasFree(m, dir)
    requires virt % PAGE_SIZE == 0 && |vals| <= 0x10_0000
    ensures AliasFree(Mapped(m, dir, virt, vals), dir)
    ensures forall i :: 0 <= i < ENTRIES ==> Directory(Mapped(m, dir, virt, vals), dir, i) == Directory(m, dir, i)
    ensures forall va: word :: Walk(Mapped(m, dir, virt, vals), dir, va) == RangeWalk(m, dir, virt, vals, va)
    decreases |vals|
  {
    if vals != [] {
      var u := Update(m, dir, virt, vals[0]);
      SingleUpdate(m, dir, virt, vals[0]);
      RangeLaw(u, dir, NextPage(virt), vals[1..]);
      forall va: word
        ensures RangeWalk(u, dir, NextPage(virt), vals[1..], va) == RangeWalk(m, dir, virt, vals, va)
      {
        OnePageOn(virt, va);
      }
    }
  }

  lemma OnePageOn(virt: word, va: word)
    requires virt % PAGE_SIZE == 0
    ensures PagesAfter(virt, va) == 0 <==> PageOf(va) == PageOf(virt)
    ensures PagesAfter(NextPage(virt), va) ==
      if PagesAfter(virt, va) == 0 then 0x10_0000 - 1 else PagesAfter(virt, va) - 1
  {
    var p, q := va / PAGE_SIZE, virt / PAGE_SIZE;
    assert PageOf(va) == p * PAGE_SIZE && virt == q * PAGE_SIZE;
    assert PagesAfter(virt, va) == if p < q then p - q + 0x10_0000 else p - q;
    var r := if q == 0x10_0000 - 1 then 0 else q + 1;
    assert NextPage(virt) == r * PAGE_SIZE;
  }

  /** The loop as written reaches the intended translations exactly when every page of the range
      after the first already had its translation. */
  lemma WrittenRangeExact(m: seq<word>, dir: word, virt: word, vals: seq<word>)
    requires |m| == WORDS && IsDirectory(dir) && AliasFree(m, dir)
    requires virt % PAGE_SIZE == 0 && 1 <= |vals| <= 0x10_0000
    ensures (forall va: word ::
               Walk(Update(m, dir, virt, vals[0]), dir, va) == RangeWalk(m, dir, virt, vals, va))
      <==> (forall va: word :: 1 <= PagesAfter(virt, va) < |vals| ==> Walk(m, dir, va) == vals[PagesAfter(virt, va)])
  {
    var u := Update(m, dir, virt, vals[0]);
    SingleUpdate(m, dir, virt, vals[0]);
    forall va: word
      ensures Walk(u, dir, va) == if PagesAfter(virt, va) == 0 then vals[0] else Walk(m, dir, va)
    {
      OnePageOn(virt, va);
    }
  }
}
