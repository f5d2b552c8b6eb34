/** FAT directories: counting entries on the disk, rendering 8.3 names, and looking a name up. */
module FatDirectory {
  import opened MachineWords
  import opened DiskStream
  import opened FatChain
  import opened FatTable
  import opened KernelConfig

  const ITEM_SIZE := 32
  const DELETED: byte := 0xe5
  const SPACE: byte := 0x20
  const DOT: byte := 0x2e

  const NAME_LENGTH := 8
  const EXT := 8
  const ATTRIBUTE := 11

  // ---------------------------------------------------------------- counting

  /** The first byte of the i-th directory slot on the disk. */
  function FirstByte(disk: Disk, pos: int, i: nat): byte {
    disk(pos + ITEM_SIZE * i)
  }

  /** The terminator is the n-th slot. */
  ghost predicate EndsAt(disk: Disk, pos: int, n: nat) {
    FirstByte(disk, pos, n) == 0 && forall i :: 0 <= i < n ==> FirstByte(disk, pos, i) != 0
  }

  /** How many of the first n slots are not deleted. */
  function LiveCount(disk: Disk, pos: int, n: nat): (c: nat)
    ensures c <= n
  {
    if n == 0 then 0
    else LiveCount(disk, pos, n - 1) + if FirstByte(disk, pos, n - 1) == DELETED then 0 else 1
  }

  /** Sixteen slots fill a sector exactly, so no slot straddles two. */
  lemma SlotInSector(pos: nat, i: nat)
    requires pos % SECTOR_SIZE == 0
    ensures InsideSector(pos + ITEM_SIZE * i, ITEM_SIZE)
  {
    var a, b, c := pos / SECTOR_SIZE, i / 16, i % 16;
    assert pos + ITEM_SIZE * i == (a + b) * SECTOR_SIZE + ITEM_SIZE * c;
    assert TruncMod(ITEM_SIZE * c, SECTOR_SIZE) == ITEM_SIZE * c;
    hide TruncMod;
    SectorOffset(a + b, ITEM_SIZE * c);
  }

  /** The slots up to the terminator lie at positions an `int` can hold. */
  predicate SlotsInRange(pos: int, n: nat) {
    0 <= pos && pos % SECTOR_SIZE == 0 && pos + ITEM_SIZE * (n + 1) <= POSITION_LIMIT
  }

  /** Reads slot after slot up to the terminator. */
  method GetTotalItems(stream: DiskStreamer, startPos: int32, ghost n: nat) returns (res: int)
    requires SlotsInRange(startPos, n) && EndsAt(stream.disk, startPos, n)
    modifies stream
    ensures res == LiveCount(stream.disk, startPos, n)
  {
    hide InsideSector;
    var item := new byte[ITEM_SIZE];
    var i := 0;
    var seek := stream.Seek(startPos);
    ghost var k: nat := 0;
    while true
      invariant k <= n && i == LiveCount(stream.disk, startPos, k)
      invariant stream.pos == NextPos(startPos, k)
      decreases n - k
    {
      SlotInSector(startPos, k);
      PosInRange(startPos, k, n);
      GuardedRead(stream.disk, stream.around, stream.pos, ITEM_SIZE, 0);
      var read := stream.Read(item, 0, ITEM_SIZE);
      assert item[0] == FirstByte(stream.disk, startPos, k);
      if item[0] == 0 {
        break;
      }
      k := k + 1;
      if item[0] == DELETED {
        continue;
      }
      i := i + 1;
    }
    res := i;
  }

  /** The stream's position before the k-th slot. */
  function NextPos(pos: int, k: nat): int32 {
    ToInt32(pos + ITEM_SIZE * k)
  }

  lemma PosInRange(pos: int, k: nat, n: nat)
    requires k <= n && SlotsInRange(pos, n)
    ensures NextPos(pos, k) == pos + ITEM_SIZE * k && ToInt32(NextPos(pos, k) + ITEM_SIZE) == NextPos(pos, k + 1)
  {
  }

  ghost function LiveSlots(disk: Disk, pos: int, n: nat): set<nat> {
    set i: nat | i < n && FirstByte(disk, pos, i) != DELETED
  }

  /** The count is the number of slots that are not deleted. */
  lemma {:induction false} CountIsNumber(disk: Disk, pos: int, n: nat)
    ensures LiveCount(disk, pos, n) == |LiveSlots(disk, pos, n)|
  {
    if n != 0 {
      CountIsNumber(disk, pos, n - 1);
      OneMoreSlot(disk, pos, n - 1);
      hide LiveSlots;
    }
  }

  lemma OneMoreSlot(disk: Disk, pos: int, n: nat)
    ensures n !in LiveSlots(disk, pos, n)
    ensures LiveSlots(disk, pos, n + 1)
         == LiveSlots(disk, pos, n) + if FirstByte(disk, pos, n) == DELETED then {} else {n}
  {
  }

  /** The count is the terminator's index exactly when no slot before it is deleted. */
  lemma {:induction false} CountExact(disk: Disk, pos: int, n: nat)
    ensures LiveCount(disk, pos, n) == n <==> forall i :: 0 <= i < n ==> FirstByte(disk, pos, i) != DELETED
  {
    if n != 0 {
      CountExact(disk, pos, n - 1);
    }
  }

  lemma {:induction false} CountSplit(disk: Disk, pos: int, i: nat, n: nat)
    requires i <= n
    ensures LiveCount(disk, pos, i) <= LiveCount(disk, pos, n) <= LiveCount(disk, pos, i) + (n - i)
  {
    if i < n {
      CountSplit(disk, pos, i, n - 1);
    }
  }

  /** The last slot below n that is not deleted, if there is one. */
  lemma {:induction false} LastLive(disk: Disk, pos: int, n: nat, i: nat) returns (last: nat)
    requires i < n && FirstByte(disk, pos, i) != DELETED
    ensures i <= last < n && FirstByte(disk, pos, last) != DELETED
    ensures forall j :: last < j < n ==> FirstByte(disk, pos, j) == DELETED
    ensures LiveCount(disk, pos, n) == LiveCount(disk, pos, last + 1)
  {
    if FirstByte(disk, pos, n - 1) != DELETED {
      last := n - 1;
    } else {
      last := LastLive(disk, pos, n - 1, i);
    }
  }

  /** The lookup searches as many slots as were counted. It sees every entry exactly when no deleted
      slot comes before an entry. */
  lemma SearchComplete(disk: Disk, pos: int, n: nat)
    ensures
      (forall i :: 0 <= i < n && FirstByte(disk, pos, i) != DELETED ==> i < LiveCount(disk, pos, n))
      <==>
      (forall d, i :: 0 <= d < i < n && FirstByte(disk, pos, d) == DELETED ==> FirstByte(disk, pos, i) == DELETED)
  {
    if i :| 0 <= i < n && FirstByte(disk, pos, i) != DELETED {
      var last := LastLive(disk, pos, n, i);
      CountExact(disk, pos, last + 1);
      CountExact(disk, pos, last);
    }
  }

  /** A deleted slot before an entry: the entry is not searched. */
  lemma DeletedSlotHidesEntry(disk: Disk, pos: int)
    requires FirstByte(disk, pos, 0) == DELETED && FirstByte(disk, pos, 1) == 65 && FirstByte(disk, pos, 2) == 0
    ensures EndsAt(disk, pos, 2) && LiveCount(disk, pos, 2) == 1 && FirstByte(disk, pos, 1) != DELETED
  {
    assert LiveCount(disk, pos, 1) == 0;
  }

  // ---------------------------------------------------------------- names

  predicate EndsName(c: byte) {
    c == 0 || c == SPACE
  }

  /** Where the copying of a name from index p stops: at the first zero or space, wherever that is. */
  function NameEnd(item: seq<byte>, p: nat): (q: nat)
    requires p <= |item|
    ensures p <= q <= |item|
    ensures forall i :: p <= i < q ==> !EndsName(item[i])
    ensures q < |item| ==> EndsName(item[q])
    decreases |item| - p
  {
    if p < |item| && !EndsName(item[p]) then NameEnd(item, p + 1) else p
  }

  /** A directory item whose names stop inside the item, at the latest in the bytes after the
      extension. */
  ghost predicate NamesStop(item: seq<byte>) {
    |item| == ITEM_SIZE && exists i :: ATTRIBUTE <= i < ITEM_SIZE && EndsName(item[i])
  }

  /** The name as the code renders it. */
  function Rendered(item: seq<byte>): seq<byte>
    requires |item| == ITEM_SIZE
  {
    item[..NameEnd(item, 0)] + if EndsName(item[EXT]) then [] else [DOT] + item[EXT..NameEnd(item, EXT)]
  }

  function Min(a: nat, b: nat): nat {
    if a < b then a else b
  }

  function BaseName(item: seq<byte>): seq<byte>
    requires |item| == ITEM_SIZE
  {
    item[..Min(NameEnd(item, 0), NAME_LENGTH)]
  }

  function Extension(item: seq<byte>): seq<byte>
    requires |item| == ITEM_SIZE
  {
    item[EXT..Min(NameEnd(item, EXT), ATTRIBUTE)]
  }

  /** The name the two fields of 8 and 3 bytes mean. */
  function Intended(item: seq<byte>): seq<byte>
    requires |item| == ITEM_SIZE
  {
    BaseName(item) + if Extension(item) == [] then [] else [DOT] + Extension(item)
  }

  /** What a caller can check on the raw item: a full name field needs an empty extension, and a full
      extension field needs a zero or a space in the attribute byte behind it. */
  predicate FieldsPadded(item: seq<byte>)
    requires |item| == ITEM_SIZE
  {
    || EndsName(item[EXT])
    || ((exists i :: 0 <= i < NAME_LENGTH && EndsName(item[i])) && (exists i :: EXT <= i <= ATTRIBUTE && EndsName(item[i])))
  }

  /** The rendering is the intended name exactly for padded fields; otherwise the copying runs on into
      the next field. */
  lemma RenderingExact(item: seq<byte>)
    requires NamesStop(item)
    ensures Rendered(item) == Intended(item) <==> FieldsPadded(item)
  {
    var a, b := NameEnd(item, 0), NameEnd(item, EXT);
    assert a < ITEM_SIZE && b < ITEM_SIZE by {
      var i :| ATTRIBUTE <= i < ITEM_SIZE && EndsName(item[i]);
      assert a <= i && b <= i;
    }
    if EndsName(item[EXT]) {
      assert a <= EXT && b == EXT;
    } else {
      assert b > EXT;
      if exists i :: 0 <= i < NAME_LENGTH && EndsName(item[i]) {
        assert a < NAME_LENGTH;
        if exists i :: EXT <= i <= ATTRIBUTE && EndsName(item[i]) {
          assert b <= ATTRIBUTE;
        } else {
          assert b > ATTRIBUTE;
          assert |Rendered(item)| > |Intended(item)|;
        }
      } else {
        assert a > EXT && a == b;
        assert |Rendered(item)| == a + 1 + (a - EXT);
        assert |Intended(item)| == NAME_LENGTH + 1 + (Min(a, ATTRIBUTE) - EXT);
      }
    }
  }

  lemma NameEndAt(item: seq<byte>, p: nat, q: nat)
    requires p <= q < |item| && EndsName(item[q]) && forall i :: p <= i < q ==> !EndsName(item[i])
    ensures NameEnd(item, p) == q
  {
  }

  /** A full name field with an extension, ABCDEFGH.TXT of an archive, is rendered as ABCDEFGHTXT.TXT. */
  lemma FullNameRunsOn(item: seq<byte>)
    requires |item| == ITEM_SIZE && item[..ATTRIBUTE] == [65, 66, 67, 68, 69, 70, 71, 72, 84, 88, 84]
    requires item[ATTRIBUTE] == 0x20
    ensures NamesStop(item)
    ensures Rendered(item) == [65, 66, 67, 68, 69, 70, 71, 72, 84, 88, 84, DOT, 84, 88, 84]
    ensures Intended(item) == [65, 66, 67, 68, 69, 70, 71, 72, DOT, 84, 88, 84]
  {
    var letters := item[..ATTRIBUTE];
    assert forall i :: 0 <= i < ATTRIBUTE ==> item[i] == letters[i];
    assert EndsName(item[ATTRIBUTE]);
    NameEndAt(item, 0, ATTRIBUTE);
    NameEndAt(item, EXT, ATTRIBUTE);
    hide NameEnd, NamesStop;
    assert item[..NAME_LENGTH] == letters[..NAME_LENGTH] && item[EXT..ATTRIBUTE] == letters[EXT..];
  }

  /** A field whose bytes behind the name are all spaces. */
  ghost predicate SpacePadded(item: seq<byte>)
    requires |item| == ITEM_SIZE
  {
    && (forall i :: |BaseName(item)| <= i < NAME_LENGTH ==> item[i] == SPACE)
    && (forall i :: EXT + |Extension(item)| <= i < ATTRIBUTE ==> item[i] == SPACE)
  }

  /** Names without a dot in the name field are told apart by their rendering: equal names mean equal
      fields, byte for byte when they are padded with spaces. */
  lemma RenderingInjective(x: seq<byte>, y: seq<byte>)
    requires NamesStop(x) && NamesStop(y) && FieldsPadded(x) && FieldsPadded(y)
    requires DOT !in BaseName(x) && DOT !in BaseName(y) && Rendered(x) == Rendered(y)
    ensures BaseName(x) == BaseName(y) && Extension(x) == Extension(y)
    ensures SpacePadded(x) && SpacePadded(y) ==> x[..ATTRIBUTE] == y[..ATTRIBUTE]
  {
    RenderingExact(x);
    RenderingExact(y);
    SplitAtDot(BaseName(x), Extension(x), BaseName(y), Extension(y));
    if SpacePadded(x) && SpacePadded(y) {
      var n, e := |BaseName(x)|, |Extension(x)|;
      forall i | 0 <= i < ATTRIBUTE
        ensures x[i] == y[i]
      {
        if i < n {
          assert x[i] == BaseName(x)[i] && y[i] == BaseName(y)[i];
        } else if EXT <= i < EXT + e {
          assert x[i] == Extension(x)[i - EXT] && y[i] == Extension(y)[i - EXT];
        }
      }
    }
  }

  ghost predicate Padded(item: seq<byte>) {
    NamesStop(item) && FieldsPadded(item)
  }

  /** A name can be read as b bytes of base name: without an extension, or with a dot and one behind them. */
  predicate ReadsAs(text: seq<byte>, b: nat) {
    || (b == |text| && b <= NAME_LENGTH)
    || (b < |text| && b < NAME_LENGTH && text[b] == DOT && 1 <= |text| - b - 1 <= ATTRIBUTE - EXT)
  }

  /** The rendering of a padded item can be read as its own fields. */
  lemma OwnReading(x: seq<byte>)
    requires Padded(x)
    ensures Rendered(x) == Intended(x) && ReadsAs(Rendered(x), |BaseName(x)|)
    ensures BaseName(x) == Rendered(x)[..|BaseName(x)|]
    ensures Extension(x) == if |BaseName(x)| == |Rendered(x)| then [] else Rendered(x)[|BaseName(x)| + 1..]
    ensures forall i :: 0 <= i < |Rendered(x)| ==> !EndsName(Rendered(x)[i])
  {
    RenderingExact(x);
    hide NamesStop, Rendered;
    assert forall i :: 0 <= i < |BaseName(x)| ==> !EndsName(BaseName(x)[i]);
    assert forall i :: 0 <= i < |Extension(x)| ==> !EndsName(Extension(x)[i]);
  }

  /** Padded items with equal renderings have equal fields exactly when their base names are equally long. */
  lemma FieldsOfReading(x: seq<byte>, y: seq<byte>)
    requires Padded(x) && Padded(y) && Rendered(x) == Rendered(y)
    ensures BaseName(x) == BaseName(y) && Extension(x) == Extension(y) <==> |BaseName(x)| == |BaseName(y)|
  {
    OwnReading(x);
    OwnReading(y);
    hide *;
  }

  /** An item with the given fields, padded with spaces. */
  function ItemOf(base: seq<byte>, ext: seq<byte>): (r: seq<byte>)
    requires |base| <= NAME_LENGTH && |ext| <= ATTRIBUTE - EXT
    ensures |r| == ITEM_SIZE
    ensures forall i :: 0 <= i < NAME_LENGTH ==> r[i] == if i < |base| then base[i] else SPACE
    ensures forall i :: EXT <= i < ATTRIBUTE ==> r[i] == if i - EXT < |ext| then ext[i - EXT] else SPACE
    ensures forall i :: ATTRIBUTE <= i < ITEM_SIZE ==> r[i] == SPACE
  {
    base + Spaces(NAME_LENGTH - |base|) + ext + Spaces(ITEM_SIZE - EXT - |ext|)
  }

  lemma ItemOfRenders(base: seq<byte>, ext: seq<byte>)
    requires |base| <= NAME_LENGTH && |ext| <= ATTRIBUTE - EXT && (ext != [] ==> |base| < NAME_LENGTH)
    requires forall i :: 0 <= i < |base| ==> !EndsName(base[i])
    requires forall i :: 0 <= i < |ext| ==> !EndsName(ext[i])
    ensures
      var y := ItemOf(base, ext);
      Padded(y) && BaseName(y) == base && Extension(y) == ext
  {
    var y := ItemOf(base, ext);
    assert EndsName(y[ATTRIBUTE]);
    assert ext == [] ==> EndsName(y[EXT]);
    assert ext != [] ==> EndsName(y[|base|]) && EndsName(y[EXT + |ext|]);
    NameEndAt(y, EXT, EXT + |ext|);
    NameEndAt(y, 0, |base|);
    hide NameEnd;
    assert y[..|base|] == base && y[EXT..EXT + |ext|] == ext;
  }

  /** A padded item is told apart by its rendering from every other padded item exactly when its rendering
      can be read in no other way. */
  lemma InjectiveExact(x: seq<byte>)
    requires Padded(x)
    ensures
      (forall y :: Padded(y) && Rendered(y) == Rendered(x) ==> BaseName(y) == BaseName(x) && Extension(y) == Extension(x))
      <==> (forall b: nat :: ReadsAs(Rendered(x), b) ==> b == |BaseName(x)|)
  {
    var text := Rendered(x);
    OwnReading(x);
    hide Padded, Rendered, BaseName, Extension, Intended, ItemOf;
    forall b: nat | ReadsAs(text, b)
      ensures exists y :: Padded(y) && Rendered(y) == text && |BaseName(y)| == b
    {
      var y := OtherReading(text, b);
    }
    forall y | Padded(y) && Rendered(y) == text
      ensures ReadsAs(text, |BaseName(y)|)
      ensures BaseName(y) == BaseName(x) && Extension(y) == Extension(x) <==> |BaseName(y)| == |BaseName(x)|
    {
      OwnReading(y);
      FieldsOfReading(y, x);
    }
  }

  lemma Reassembled(text: seq<byte>, b: nat) returns (base: seq<byte>, ext: seq<byte>)
    requires ReadsAs(text, b) && forall i :: 0 <= i < |text| ==> !EndsName(text[i])
    ensures |base| == b <= NAME_LENGTH && |ext| <= ATTRIBUTE - EXT && (ext != [] ==> b < NAME_LENGTH)
    ensures forall i :: 0 <= i < |base| ==> !EndsName(base[i])
    ensures forall i :: 0 <= i < |ext| ==> !EndsName(ext[i])
    ensures text == base + if ext == [] then [] else [DOT] + ext
  {
    hide EndsName;
    base, ext := text[..b], if b == |text| then [] else text[b + 1..];
  }

  lemma OtherReading(text: seq<byte>, b: nat) returns (y: seq<byte>)
    requires ReadsAs(text, b) && forall i :: 0 <= i < |text| ==> !EndsName(text[i])
    ensures Padded(y) && Rendered(y) == text && |BaseName(y)| == b
  {
    hide Padded, Rendered, BaseName, Extension, ItemOf, EndsName, ReadsAs;
    var base, ext := Reassembled(text, b);
    y := ItemOf(base, ext);
    ItemOfRenders(base, ext);
    OwnReading(y);
  }

  /** A dot inside the name field: A.B without extension and A with the extension B are rendered alike. */
  lemma DottedNamesClash(x: seq<byte>, y: seq<byte>)
    requires |x| == ITEM_SIZE == |y| && x[..ATTRIBUTE] == [65, DOT, 66] + Spaces(8) && x[ATTRIBUTE] == 0
    requires y[..ATTRIBUTE] == [65] + Spaces(7) + [66] + Spaces(2) && y[ATTRIBUTE] == 0
    ensures NamesStop(x) && NamesStop(y) && FieldsPadded(x) && FieldsPadded(y)
    ensures Rendered(x) == Rendered(y) && BaseName(x) != BaseName(y)
  {
    var u, w := [65, DOT, 66] + Spaces(8), [65] + Spaces(7) + [66] + Spaces(2);
    forall i | 0 <= i < ATTRIBUTE
      ensures x[i] == u[i] && y[i] == w[i]
    {
      assert x[i] == x[..ATTRIBUTE][i] && y[i] == y[..ATTRIBUTE][i];
    }
    assert EndsName(x[ATTRIBUTE]) && EndsName(y[ATTRIBUTE]);
    assert x[0] == u[0] && x[1] == u[1] && x[2] == u[2] && x[3] == u[3] && x[EXT] == u[EXT];
    assert y[0] == w[0] && y[1] == w[1] && y[EXT] == w[EXT] && y[9] == w[9];
    assert NameEnd(x, 0) == 3 && NameEnd(y, 0) == 1 && NameEnd(y, EXT) == 9;
    assert Rendered(x) == [65, DOT, 66] == Rendered(y);
  }

  function Spaces(n: nat): (r: seq<byte>)
    ensures |r| == n && forall i :: 0 <= i < n ==> r[i] == SPACE
  {
    seq(n, i => SPACE)
  }

  function FirstDot(s: seq<byte>): nat {
    if s == [] || s[0] == DOT then 0 else FirstDot(s[1..]) + 1
  }

  lemma {:induction false} FirstDotAfter(a: seq<byte>, rest: seq<byte>)
    requires DOT !in a && (rest == [] || rest[0] == DOT)
    ensures FirstDot(a + rest) == |a|
  {
    if a == [] {
      assert a + rest == rest;
    } else {
      assert a[0] in a;
      assert (a + rest)[1..] == a[1..] + rest;
      FirstDotAfter(a[1..], rest);
    }
  }

  /** The first dot of a name separates base and extension. */
  lemma SplitAtDot(a: seq<byte>, e: seq<byte>, b: seq<byte>, f: seq<byte>)
    requires DOT !in a && DOT !in b
    requires a + (if e == [] then [] else [DOT] + e) == b + (if f == [] then [] else [DOT] + f)
    ensures a == b && e == f
  {
    var u, v := (if e == [] then [] else [DOT] + e), (if f == [] then [] else [DOT] + f);
    FirstDotAfter(a, u);
    FirstDotAfter(b, v);
    assert a == (a + u)[..|a|] && b == (b + v)[..|b|];
    assert u == (a + u)[|a|..] && v == (b + v)[|b|..];
    assert e == (if u == [] then [] else u[1..]) && f == (if v == [] then [] else v[1..]);
  }

  // ---------------------------------------------------------------- the code

  /** `fat16_to_proper_string`: copies the name at index p of the item to `out` from index `at` on. */
  method ToProperString(item: seq<byte>, p: nat, out: array<byte>, at: nat) returns (next: nat)
    requires NamesStop(item) && p <= ATTRIBUTE && at + (ITEM_SIZE - p) <= out.Length
    requires forall i :: at <= i < out.Length ==> out[i] == 0
    modifies out
    ensures next == at + (NameEnd(item, p) - p) && next < out.Length
    ensures out[..next] == old(out[..at]) + item[p..NameEnd(item, p)]
    ensures forall i :: next <= i < out.Length ==> out[i] == 0
  {
    hide NamesStop;
    var q := p;
    next := at;
    EndInside(item, p);
    ghost var first := out[..at];
    while item[q] != 0 && item[q] != SPACE
      invariant p <= q < ITEM_SIZE && next == at + (q - p) && NameEnd(item, q) == NameEnd(item, p)
      invariant out[..next] == first + item[p..q]
      invariant forall i :: next <= i < out.Length ==> out[i] == 0
      decreases ITEM_SIZE - q
    {
      ghost var done := out[..next];
      out[next] := item[q];
      assert out[..next + 1] == done + [item[q]];
      assert item[p..q + 1] == item[p..q] + [item[q]];
      next, q := next + 1, q + 1;
    }
    if item[q] == SPACE {
      out[next] := 0;
    }
  }

  lemma EndInside(item: seq<byte>, p: nat)
    requires NamesStop(item) && p <= ATTRIBUTE
    ensures |item| == ITEM_SIZE && NameEnd(item, p) < ITEM_SIZE
  {
    var i :| ATTRIBUTE <= i < ITEM_SIZE && EndsName(item[i]);
    assert NameEnd(item, p) <= i;
  }

  /** Renders an item's name into a cleared buffer. */
  method GetFullRelativeFilename(item: seq<byte>, out: array<byte>)
    requires NamesStop(item) && out.Length == MAX_PATH
    modifies out
    ensures |Rendered(item)| < MAX_PATH && out[..|Rendered(item)|] == Rendered(item)
    ensures forall i :: |Rendered(item)| <= i < MAX_PATH ==> out[i] == 0
  {
    hide NameEnd;
    hide NamesStop;
    Clear(out);
    EndInside(item, 0);
    EndInside(item, EXT);
    var next := ToProperString(item, 0, out, 0);
    ghost var base := out[..next];
    assert base == item[..NameEnd(item, 0)];
    if item[EXT] != 0 && item[EXT] != SPACE {
      next := AddExtension(item, out, next);
    }
  }

  /** The dot and the extension. */
  method AddExtension(item: seq<byte>, out: array<byte>, at: nat) returns (next: nat)
    requires NamesStop(item) && at + 1 + (ITEM_SIZE - EXT) <= out.Length
    requires forall i :: at <= i < out.Length ==> out[i] == 0
    modifies out
    ensures next == at + 1 + (NameEnd(item, EXT) - EXT) && next < out.Length
    ensures out[..next] == old(out[..at]) + ([DOT] + item[EXT..NameEnd(item, EXT)])
    ensures forall i :: next <= i < out.Length ==> out[i] == 0
  {
    hide NameEnd;
    hide NamesStop;
    ghost var base := out[..at];
    out[at] := DOT;
    assert out[..at + 1] == base + [DOT];
    next := ToProperString(item, EXT, out, at + 1);
    assert out[..next] == base + ([DOT] + item[EXT..NameEnd(item, EXT)]);
  }

  /** The `memset` of the name buffer. */
  method Clear(out: array<byte>)
    modifies out
    ensures forall i :: 0 <= i < out.Length ==> out[i] == 0
  {
    var i := 0;
    while i < out.Length
      invariant 0 <= i <= out.Length
      invariant forall j :: 0 <= j < i ==> out[j] == 0
    {
      out[i] := 0;
      i := i + 1;
    }
  }

  /** `tolower` on a `char`: only the ASCII capitals change. */
  function Lower(c: byte): byte {
    if 65 <= c <= 90 then c + 32 else c
  }

  /** The same byte, or a capital A to Z and the small letter 32 above it. */
  predicate SameLetter(a: int, b: int) {
    a == b || (65 <= a <= 90 && b == a + 32) || (65 <= b <= 90 && a == b + 32)
  }

  /** One text is the other in some spelling with capital and small letters. */
  predicate SameIgnoringCase(a: seq<byte>, b: seq<byte>) {
    |a| == |b| && forall i :: 0 <= i < |a| ==> SameLetter(a[i], b[i])
  }

  /** Lowering tells apart exactly the bytes that are not the same letter. */
  lemma LowerExact(a: byte, b: byte)
    ensures Lower(a) == Lower(b) <==> SameLetter(a, b)
  {
  }

  lemma SameTransitive(a: seq<byte>, b: seq<byte>, c: seq<byte>)
    requires SameIgnoringCase(b, c)
    ensures SameIgnoringCase(a, b) <==> SameIgnoringCase(a, c)
  {
  }

  /** The buffer holds the text and a terminator behind it. */
  ghost predicate HoldsText(s: seq<byte>, text: seq<byte>) {
    0 !in text && |text| < |s| && s[..|text|] == text && s[|text|] == 0
  }

  lemma TextByte(s: seq<byte>, text: seq<byte>, i: nat)
    requires HoldsText(s, text) && i <= |text|
    ensures i < |text| ==> s[i] == text[i] != 0
    ensures i == |text| ==> s[i] == 0
  {
    if i < |text| {
      assert s[i] == s[..|text|][i];
      assert text[i] in text;
    }
  }

  function First(n: nat, text: seq<byte>): seq<byte> {
    if |text| < n then text else text[..n]
  }

  /** `istrncmp` of two zero-terminated strings: at most n bytes of each count. */
  method IStrNCmp(s1: seq<byte>, s2: seq<byte>, n: nat, ghost a: seq<byte>, ghost b: seq<byte>) returns (res: int)
    requires HoldsText(s1, a) && HoldsText(s2, b)
    ensures res == 0 <==> SameIgnoringCase(First(n, a), First(n, b))
    ensures |a| < n ==> (res == 0 <==> SameIgnoringCase(a, b))
  {
    var i := 0;
    while i < n
      invariant 0 <= i <= |a| && i <= |b| && i <= n
      invariant forall j :: 0 <= j < i ==> SameLetter(a[j], b[j])
    {
      TextByte(s1, a, i);
      TextByte(s2, b, i);
      LowerExact(s1[i], s2[i]);
      var u1: int, u2: int := s1[i], s2[i];
      if u1 != u2 && Lower(s1[i]) != Lower(s2[i]) {
        return u1 - u2;
      }
      if u1 == 0 {
        return 0;
      }
      i := i + 1;
    }
    return 0;
  }

  ghost predicate Matches(item: seq<byte>, text: seq<byte>) {
    NamesStop(item) && SameIgnoringCase(Rendered(item), text)
  }

  /** The slot of BOOT.INI, an archive, answers to boot.ini. */
  lemma BootIniMatches(item: seq<byte>)
    requires |item| == ITEM_SIZE && item[..ATTRIBUTE] == [66, 79, 79, 84, 0x20, 0x20, 0x20, 0x20, 73, 78, 73]
    requires item[ATTRIBUTE] == 0x20
    ensures Rendered(item) == [66, 79, 79, 84, DOT, 73, 78, 73]
    ensures Matches(item, [98, 111, 111, 116, DOT, 105, 110, 105])
  {
    var letters := item[..ATTRIBUTE];
    assert forall i :: 0 <= i < ATTRIBUTE ==> item[i] == letters[i];
    assert EndsName(item[ATTRIBUTE]) && EndsName(item[4]);
    NameEndAt(item, 0, 4);
    NameEndAt(item, EXT, ATTRIBUTE);
    hide NameEnd;
    assert item[..4] == letters[..4] && item[EXT..ATTRIBUTE] == letters[EXT..];
  }

  datatype Found = None | Some(index: nat, item: seq<byte>)

  /** The last of the first `total` items whose name is the text ignoring case. */
  ghost function LastMatch(items: seq<seq<byte>>, total: nat, text: seq<byte>): Found
    requires total <= |items|
  {
    if total == 0 then None
    else if Matches(items[total - 1], text) then Some(total - 1, items[total - 1])
    else LastMatch(items, total - 1, text)
  }

  lemma {:induction false} LastMatchExact(items: seq<seq<byte>>, total: nat, text: seq<byte>, i: nat)
    requires i < total <= |items| && Matches(items[i], text)
    requires forall j :: i < j < total ==> !Matches(items[j], text)
    ensures LastMatch(items, total, text) == Some(i, items[i])
  {
    if i < total - 1 {
      LastMatchExact(items, total - 1, text, i);
    }
  }

  /** Every spelling of a name finds the same. */
  lemma {:induction false} AnyCase(items: seq<seq<byte>>, total: nat, text: seq<byte>, name: seq<byte>)
    requires total <= |items| && SameIgnoringCase(text, name)
    ensures LastMatch(items, total, text) == LastMatch(items, total, name)
  {
    if total != 0 {
      if NamesStop(items[total - 1]) {
        hide SameIgnoringCase, Rendered;
        SameTransitive(Rendered(items[total - 1]), text, name);
      }
      AnyCase(items, total - 1, text, name);
    }
  }

  lemma {:induction false} LastMatchMeans(items: seq<seq<byte>>, total: nat, text: seq<byte>)
    requires total <= |items|
    ensures
      var found := LastMatch(items, total, text);
      && (found.None? <==> forall i :: 0 <= i < total ==> !Matches(items[i], text))
      && (found.Some? ==>
            && found.index < total && found.item == items[found.index] && Matches(found.item, text)
            && forall i :: found.index < i < total ==> !Matches(items[i], text))
  {
    hide Matches;
    if total != 0 {
      LastMatchMeans(items, total - 1, text);
    }
  }

  /** The lookup: a copy of the last of the searched items whose rendered name is the argument ignoring
      case, none exactly when there is no such item. */
  method FindItemInDirectory(items: seq<seq<byte>>, total: nat, name: seq<byte>, ghost text: seq<byte>) returns (found: Found)
    requires total <= |items| && HoldsText(name, text)
    requires forall i :: 0 <= i < total ==> NamesStop(items[i])
    ensures found == LastMatch(items, total, text)
    ensures found.None? <==> forall i :: 0 <= i < total ==> !Matches(items[i], text)
    ensures found.Some? ==>
      && found.index < total && found.item == items[found.index] && Matches(found.item, text)
      && forall i :: found.index < i < total ==> !Matches(items[i], text)
  {
    found := None;
    var tmp := new byte[MAX_PATH];
    var i := 0;
    while i < total
      invariant 0 <= i <= total && found == LastMatch(items, i, text)
    {
      hide Matches, NamesStop, HoldsText;
      var same := CompareName(items[i], tmp, name, text);
      if same {
        found := Some(i, items[i]);
      }
      i := i + 1;
    }
    hide Matches;
    LastMatchMeans(items, total, text);
  }

  /** Renders an item's name and compares it with the one looked for. */
  method CompareName(item: seq<byte>, tmp: array<byte>, name: seq<byte>, ghost text: seq<byte>) returns (same: bool)
    requires NamesStop(item) && tmp.Length == MAX_PATH && HoldsText(name, text)
    modifies tmp
    ensures same <==> Matches(item, text)
  {
    assert |item| == ITEM_SIZE;
    hide NamesStop, Rendered, HoldsText, SameIgnoringCase;
    GetFullRelativeFilename(item, tmp);
    RenderedInBuffer(item, tmp[..]);
    var cmp := IStrNCmp(tmp[..], name, MAX_PATH, Rendered(item), text);
    same := cmp == 0;
  }

  lemma RenderedInBuffer(item: seq<byte>, buf: seq<byte>)
    requires NamesStop(item) && |buf| == MAX_PATH && |Rendered(item)| < MAX_PATH
    requires buf[..|Rendered(item)|] == Rendered(item) && buf[|Rendered(item)|] == 0
    ensures HoldsText(buf, Rendered(item))
  {
    RenderedIsText(item);
  }

  lemma RenderedIsText(item: seq<byte>)
    requires NamesStop(item)
    ensures 0 !in Rendered(item)
  {
  }

  // ---------------------------------------------------------------- the root directory

  /** The fields of the volume's header that place the root directory and the data. */
  datatype Header = Header(fatCopies: byte, sectorsPerFat: half, reservedSectors: half, rootDirEntries: half,
                           sectorsPerCluster: byte)
  {
    function RootSector(): SectorNumber {
      FatSectors(fatCopies, sectorsPerFat);
      fatCopies * sectorsPerFat + reservedSectors
    }

    function RootSize(): nat {
      rootDirEntries * ITEM_SIZE
    }

    function RootPos(): int32 {
      ToInt32(RootSector() * SECTOR_SIZE)
    }

    /** The first sector behind the root directory by the layout, which gives it whole sectors. */
    function DataSector(): nat {
      RootSector() + (RootSize() + SECTOR_SIZE - 1) / SECTOR_SIZE
    }

    /** The same as the code counts it: a partly filled last sector is left out. */
    function EndingSectorPos(): SectorNumber {
      FatSectors(fatCopies, sectorsPerFat);
      RootSector() + RootSize() / SECTOR_SIZE
    }

    /** The volume whose files are read. */
    function VolumeOf(disk: Disk, around: Surroundings): Volume {
      Volume(disk, around, reservedSectors, sectorsPerCluster, EndingSectorPos())
    }
  }

  /** Where the k-th copy of the table starts: behind the reserved sectors and the copies before it. */
  function CopySector(h: Header, k: nat): nat {
    if k == 0 then h.reservedSectors else CopySector(h, k - 1) + h.sectorsPerFat
  }

  /** The root directory starts where the last copy of the table ends, and the data in the first sector
      that starts behind the directory's last slot. */
  lemma RootBehindTables(h: Header)
    ensures h.RootSector() == CopySector(h, h.fatCopies)
    ensures h.RootSector() * SECTOR_SIZE + 32 * h.rootDirEntries <= h.DataSector() * SECTOR_SIZE
    ensures forall s: nat :: h.RootSector() * SECTOR_SIZE + 32 * h.rootDirEntries <= s * SECTOR_SIZE ==> h.DataSector() <= s
  {
    CopySectorAt(h, h.fatCopies);
    var size, end := h.RootSize(), (h.RootSize() + SECTOR_SIZE - 1) / SECTOR_SIZE;
    assert (end - 1) * SECTOR_SIZE < size <= end * SECTOR_SIZE;
  }

  lemma {:induction false} CopySectorAt(h: Header, k: nat)
    ensures CopySector(h, k) == k * h.sectorsPerFat + h.reservedSectors
  {
    if k != 0 {
      CopySectorAt(h, k - 1);
      assert k * h.sectorsPerFat == (k - 1) * h.sectorsPerFat + h.sectorsPerFat;
    }
  }

  /** The shipped volume: its data starts at sector 716, in clusters of 64 KB. */
  lemma ShippedLayout(disk: Disk, around: Surroundings)
    ensures
      var v := Header(2, 0x100, 200, 0x40, 0x80).VolumeOf(disk, around);
      v.endingSectorPos == 716 && v.sectorsPerCluster == 128 && v.ClusterSize() == 0x1_0000
  {
  }

  lemma FatSectors(copies: byte, sectors: half)
    ensures 0 <= copies * sectors <= 0xff * 0xffff
  {
    assert (0xff - copies) * sectors >= 0 && 0xff * (0xffff - sectors) >= 0;
  }

  /** Position of a cluster by the layout. */
  function DataPos(h: Header, cluster: int): int {
    (h.DataSector() + (cluster - 2) * h.sectorsPerCluster) * SECTOR_SIZE
  }

  /** The clusters follow each other, the second one first, from where the data starts. */
  lemma ClustersInOrder(h: Header, cluster: int)
    ensures DataPos(h, 2) == h.DataSector() * 512
    ensures DataPos(h, cluster + 1) == DataPos(h, cluster) + h.sectorsPerCluster * 512
  {
    assert (cluster - 1) * h.sectorsPerCluster == (cluster - 2) * h.sectorsPerCluster + h.sectorsPerCluster;
  }

  /** The code takes the clusters, and so the file its reads are about, from where the layout has them
      exactly when the root directory fills whole sectors; otherwise everything lies one sector before. */
  lemma DataPlaceExact(h: Header, disk: Disk, around: Surroundings, cluster: int)
    ensures h.EndingSectorPos() == h.DataSector() <==> h.rootDirEntries % 16 == 0
    ensures ClusterPos(h.VolumeOf(disk, around), cluster)
         == DataPos(h, cluster) - if h.rootDirEntries % 16 == 0 then 0 else SECTOR_SIZE
  {
    RootSectors(h.rootDirEntries);
  }

  lemma RootSectors(entries: half)
    ensures (entries * ITEM_SIZE + SECTOR_SIZE - 1) / SECTOR_SIZE
         == entries * ITEM_SIZE / SECTOR_SIZE + if entries % 16 == 0 then 0 else 1
  {
    var q, r := entries / 16, entries % 16;
    assert entries * ITEM_SIZE == q * SECTOR_SIZE + r * ITEM_SIZE;
  }

  /** With 49 root entries the shipped volume's data would be looked for in sector 715 instead of 716. */
  lemma PartialRootSector()
    ensures
      var h := Header(2, 0x100, 200, 49, 0x80);
      h.EndingSectorPos() == 715 && h.DataSector() == 716
  {
  }

  /** The i-th slot on the disk. */
  function SlotBytes(disk: Disk, pos: int, i: nat): (r: seq<byte>)
    ensures |r| == ITEM_SIZE && forall j :: 0 <= j < ITEM_SIZE ==> r[j] == disk(pos + ITEM_SIZE * i + j)
  {
    seq(ITEM_SIZE, j => disk(pos + ITEM_SIZE * i + j))
  }

  function DiskItems(disk: Disk, pos: int, entries: nat): (r: seq<seq<byte>>)
    ensures |r| == entries && forall i :: 0 <= i < entries ==> r[i] == SlotBytes(disk, pos, i)
  {
    seq(entries, i requires 0 <= i < entries => SlotBytes(disk, pos, i))
  }

  /** The items of a buffer. */
  function ItemsOf(dir: seq<byte>, entries: nat): (r: seq<seq<byte>>)
    requires |dir| == entries * ITEM_SIZE
    ensures |r| == entries
    ensures forall i :: 0 <= i < entries ==> r[i] == dir[i * ITEM_SIZE..(i + 1) * ITEM_SIZE]
  {
    seq(entries, i requires 0 <= i < entries => dir[i * ITEM_SIZE..(i + 1) * ITEM_SIZE])
  }

  /** The root directory lies at positions an `int` can hold, up to its terminator and its last slot. */
  ghost predicate RootInRange(h: Header, n: nat) {
    SlotsInRange(h.RootSector() * SECTOR_SIZE, n) && h.RootSector() * SECTOR_SIZE + h.RootSize() <= POSITION_LIMIT
  }

  /** Counts and loads the root directory. */
  method GetRootDirectory(stream: DiskStreamer, h: Header, ghost n: nat)
    returns (items: seq<seq<byte>>, total: int, endingSectorPos: int)
    requires RootInRange(h, n) && EndsAt(stream.disk, h.RootPos(), n)
    modifies stream
    ensures items == DiskItems(stream.disk, h.RootPos(), h.rootDirEntries)
    ensures total == LiveCount(stream.disk, h.RootPos(), n)
    ensures endingSectorPos == h.EndingSectorPos()
  {
    var rootPos := h.RootPos();
    assert rootPos == h.RootSector() * SECTOR_SIZE;
    RootAligned(h);
    hide InsideSector, EndsAt;
    total := GetTotalItems(stream, rootPos, n);
    items := LoadSlots(stream, rootPos, h.rootDirEntries);
    endingSectorPos := h.EndingSectorPos();
  }

  /** Reads a number of slots. */
  method LoadSlots(stream: DiskStreamer, pos: int32, entries: half) returns (items: seq<seq<byte>>)
    requires InsideSector(pos, entries * ITEM_SIZE) && InRange(pos, entries * ITEM_SIZE)
    modifies stream
    ensures items == DiskItems(stream.disk, pos, entries)
  {
    hide InsideSector, RawSource, Fetch, DiskItems, ItemsOf;
    var size := entries * ITEM_SIZE;
    var dir := new byte[size];
    var res := stream.Seek(pos);
    res := stream.Read(dir, 0, size);
    forall x | 0 <= x < size
      ensures dir[x] == stream.disk(pos + x)
    {
      GuardedRead(stream.disk, stream.around, pos, size, x);
    }
    SlotsOf(stream.disk, pos, dir[..], entries);
    items := ItemsOf(dir[..], entries);
  }

  lemma RootAligned(h: Header)
    ensures InsideSector(h.RootSector() * SECTOR_SIZE, h.RootSize())
  {
    SectorMultiple(h.RootSector());
  }

  lemma SlotsOf(disk: Disk, pos: int, dir: seq<byte>, entries: nat)
    requires |dir| == entries * ITEM_SIZE && forall x :: 0 <= x < |dir| ==> dir[x] == disk(pos + x)
    ensures ItemsOf(dir, entries) == DiskItems(disk, pos, entries)
  {
    forall i | 0 <= i < entries
      ensures ItemsOf(dir, entries)[i] == SlotBytes(disk, pos, i)
    {
      assert forall j :: 0 <= j < ITEM_SIZE ==> ItemsOf(dir, entries)[i][j] == dir[i * ITEM_SIZE + j];
    }
  }

  /** What a lookup in the directory of a disk finds: its terminator is the n-th slot, and `entries` slots
      are loaded. */
  ghost function Answer(disk: Disk, pos: int, n: nat, entries: nat, text: seq<byte>): Found
    requires n <= entries
  {
    LastMatch(DiskItems(disk, pos, entries), LiveCount(disk, pos, n), text)
  }

  /** Looks a name up in the root directory of a disk. */
  method FindInRoot(stream: DiskStreamer, h: Header, name: seq<byte>, ghost text: seq<byte>, ghost n: nat)
    returns (found: Found)
    requires RootInRange(h, n) && EndsAt(stream.disk, h.RootPos(), n) && n <= h.rootDirEntries
    requires HoldsText(name, text)
    requires forall i :: 0 <= i < n ==> NamesStop(SlotBytes(stream.disk, h.RootPos(), i))
    modifies stream
    ensures found == Answer(stream.disk, h.RootPos(), n, h.rootDirEntries, text)
  {
    hide NamesStop;
    var items, total, ending := GetRootDirectory(stream, h, n);
    found := FindItemInDirectory(items, total, name, text);
  }

  /** An entry: a slot before the terminator that is not deleted. */
  ghost predicate IsEntry(disk: Disk, pos: int, n: nat, i: nat) {
    i < n && FirstByte(disk, pos, i) != DELETED
  }

  /** The lookup of an entry's own name finds that entry, in whatever spelling with capital and small
      letters. */
  ghost predicate IsFound(disk: Disk, pos: int, n: nat, entries: nat, i: nat)
    requires n <= entries
  {
    forall text :: SameIgnoringCase(text, Rendered(SlotBytes(disk, pos, i))) ==>
      Answer(disk, pos, n, entries, text) == Some(i, SlotBytes(disk, pos, i))
  }

  ghost predicate NamesDiffer(disk: Disk, pos: int, n: nat) {
    forall i: nat, j: nat :: i < j && IsEntry(disk, pos, n, i) && IsEntry(disk, pos, n, j) ==>
      !SameIgnoringCase(Rendered(SlotBytes(disk, pos, i)), Rendered(SlotBytes(disk, pos, j)))
  }

  /** When no two entries have the same name, every entry is found under its name exactly when no deleted
      slot comes before an entry. */
  lemma EntriesFound(disk: Disk, pos: int, n: nat, entries: nat)
    requires EndsAt(disk, pos, n) && NamesDiffer(disk, pos, n) && n <= entries
    requires forall i :: 0 <= i < n ==> NamesStop(SlotBytes(disk, pos, i))
    ensures
      (forall i: nat :: IsEntry(disk, pos, n, i) ==> IsFound(disk, pos, n, entries, i))
      <==>
      (forall d, i :: 0 <= d < i < n && FirstByte(disk, pos, d) == DELETED ==> FirstByte(disk, pos, i) == DELETED)
  {
    hide NamesStop, Rendered;
    SearchComplete(disk, pos, n);
    var live := LiveCount(disk, pos, n);
    forall i: nat | IsEntry(disk, pos, n, i)
      ensures IsFound(disk, pos, n, entries, i) <==> i < live
    {
      if i < live {
        EntryFound(disk, pos, n, entries, i);
      } else {
        NotFound(disk, pos, n, entries, i);
      }
    }
    if forall i: nat :: IsEntry(disk, pos, n, i) ==> i < live {
      forall i | 0 <= i < n && FirstByte(disk, pos, i) != DELETED
        ensures i < live
      {
        assert IsEntry(disk, pos, n, i);
      }
    }
  }

  lemma EntryFound(disk: Disk, pos: int, n: nat, entries: nat, i: nat)
    requires n <= entries && NamesDiffer(disk, pos, n) && IsEntry(disk, pos, n, i) && i < LiveCount(disk, pos, n)
    requires FirstByte(disk, pos, i) != 0 && forall j :: 0 <= j < n ==> NamesStop(SlotBytes(disk, pos, j))
    ensures IsFound(disk, pos, n, entries, i)
  {
    hide NamesStop, Rendered;
    var items, live, text := DiskItems(disk, pos, entries), LiveCount(disk, pos, n), Rendered(SlotBytes(disk, pos, i));
    forall j | i < j < live
      ensures !Matches(items[j], text)
    {
      OthersDiffer(disk, pos, n, i, j);
    }
    LastMatchExact(items, live, text, i);
    forall name | SameIgnoringCase(name, text)
      ensures Answer(disk, pos, n, entries, name) == Some(i, SlotBytes(disk, pos, i))
    {
      AnyCase(items, live, name, text);
    }
  }

  lemma NotFound(disk: Disk, pos: int, n: nat, entries: nat, i: nat)
    requires n <= entries && LiveCount(disk, pos, n) <= i
    ensures !IsFound(disk, pos, n, entries, i)
  {
    hide Matches;
    LastMatchMeans(DiskItems(disk, pos, entries), LiveCount(disk, pos, n), Rendered(SlotBytes(disk, pos, i)));
    assert SameIgnoringCase(Rendered(SlotBytes(disk, pos, i)), Rendered(SlotBytes(disk, pos, i)));
  }

  lemma OthersDiffer(disk: Disk, pos: int, n: nat, i: nat, j: nat)
    requires NamesDiffer(disk, pos, n) && IsEntry(disk, pos, n, i) && i < j < n
    ensures !Matches(SlotBytes(disk, pos, j), Rendered(SlotBytes(disk, pos, i)))
  {
    var x, y := SlotBytes(disk, pos, i), SlotBytes(disk, pos, j);
    if IsEntry(disk, pos, n, j) {
      hide Rendered;
      SameCommutes(Rendered(x), Rendered(y));
    } else {
      assert y[0] == DELETED && x[0] != DELETED;
      FirstLetters(x, y);
    }
  }

  lemma SameCommutes(a: seq<byte>, b: seq<byte>)
    ensures SameIgnoringCase(a, b) <==> SameIgnoringCase(b, a)
  {
  }

  /** The mark of deleted slots is a letter of its own. */
  lemma FirstLetters(x: seq<byte>, y: seq<byte>)
    requires |x| == ITEM_SIZE == |y| && y[0] == DELETED && x[0] != DELETED
    ensures !SameIgnoringCase(Rendered(y), Rendered(x))
  {
    assert Rendered(y)[0] == DELETED;
    assert Rendered(x) != [] ==> Rendered(x)[0] != DELETED;
  }
}
