/** Mapping a PE file: sections are copied into a buffer, then the base relocation table, which lies
    in that same buffer, tells which fields of the buffer to patch. */
module PeLoader {
  import opened MachineWords

  const REL_HIGH := 1
  const REL_LOW := 2
  const REL_HIGHLOW := 3
  const REL_DIR32 := 6

  const BLOCK_HEADER := 8

  type Image = seq<byte>

  // ---------------------------------------------------------------- little-endian fields

  /** Number of values of a field of w bytes. */
  function Limit(w: nat): (r: nat)
    ensures 1 <= r
  {
    if w == 0 then 1 else 0x100 * Limit(w - 1)
  }

  function Field(m: Image, a: nat, w: nat): (v: nat)
    requires a + w <= |m|
    ensures v < Limit(w)
    decreases w
  {
    if w == 0 then 0 else m[a] + 0x100 * Field(m, a + 1, w - 1)
  }

  function PutField(m: Image, a: nat, w: nat, v: nat): (u: Image)
    requires a + w <= |m|
    ensures |u| == |m|
    ensures forall x :: 0 <= x < |m| && !(a <= x < a + w) ==> u[x] == m[x]
    decreases w
  {
    if w == 0 then m else PutField(m[a := v % 0x100], a + 1, w - 1, v / 0x100)
  }

  lemma {:induction false} FieldSame(m: Image, u: Image, a: nat, w: nat)
    requires a + w <= |m| && a + w <= |u|
    requires forall x :: a <= x < a + w ==> m[x] == u[x]
    ensures Field(m, a, w) == Field(u, a, w)
    decreases w
  {
    if w != 0 {
      FieldSame(m, u, a + 1, w - 1);
    }
  }

  /** Equal fields have equal bytes. */
  lemma {:induction false} FieldInjective(m: Image, u: Image, a: nat, w: nat)
    requires a + w <= |m| && a + w <= |u| && Field(m, a, w) == Field(u, a, w)
    ensures forall x :: a <= x < a + w ==> m[x] == u[x]
    decreases w
  {
    if w != 0 {
      FieldInjective(m, u, a + 1, w - 1);
    }
  }

  lemma {:induction false} FieldOfPut(m: Image, a: nat, w: nat, v: nat)
    requires a + w <= |m| && v < Limit(w)
    ensures Field(PutField(m, a, w, v), a, w) == v
    decreases w
  {
    if w != 0 {
      FieldOfPut(m[a := v % 0x100], a + 1, w - 1, v / 0x100);
    }
  }

  /** Bytes with their places' values, lowest first. */
  function FromBytes(a: int, b: int, c: int, d: int): int {
    a + 0x100 * b + 0x1_0000 * c + 0x100_0000 * d
  }

  /** Fields of two and four bytes hold their low byte first. */
  lemma FieldBytes(m: Image, a: nat)
    ensures a + 2 <= |m| ==> Field(m, a, 2) == FromBytes(m[a], m[a + 1], 0, 0)
    ensures a + 4 <= |m| ==> Field(m, a, 4) == FromBytes(m[a], m[a + 1], m[a + 2], m[a + 3])
  {
    if a + 4 <= |m| {
      assert Field(m, a + 2, 2) == FromBytes(m[a + 2], m[a + 3], 0, 0);
      assert Field(m, a + 1, 3) == m[a + 1] + 0x100 * Field(m, a + 2, 2);
    }
  }

  // ---------------------------------------------------------------- patches

  /** One relocation entry: where it points and its type. */
  datatype Patch = Patch(at: nat, kind: int)

  /** Bytes the entry patches: 16-bit fields for HIGH and LOW, 32-bit ones for HIGHLOW and for the type
      whose field is an `unsigned long`; all other types are skipped. */
  function Width(kind: int): nat {
    if kind == REL_HIGH || kind == REL_LOW then 2
    else if kind == REL_HIGHLOW || kind == REL_DIR32 then 4
    else 0
  }

  function Addend(kind: int, delta: word): word {
    if kind == REL_HIGH then delta / 0x1_0000
    else if kind == REL_LOW then delta % 0x1_0000
    else delta
  }

  predicate Fits(m: Image, p: Patch) {
    p.at + Width(p.kind) <= |m|
  }

  ghost predicate AllFit(m: Image, ps: seq<Patch>) {
    forall i :: 0 <= i < |ps| ==> Fits(m, ps[i])
  }

  predicate InSlot(p: Patch, x: int) {
    p.at <= x < p.at + Width(p.kind)
  }

  /** The value of a patched field: the sum in the field's own width. */
  function Sum(kind: int, value: nat, delta: word): (r: nat)
    ensures r < Limit(Width(kind))
  {
    Limits();
    if Width(kind) == 2 then (value + Addend(kind, delta)) % 0x1_0000
    else if Width(kind) == 4 then (value + Addend(kind, delta)) % TWO_TO_THE_32
    else 0
  }

  lemma Limits()
    ensures Limit(2) == 0x1_0000 && Limit(4) == 0x1_0000_0000 && Limit(0) == 1
  {
    assert Limit(1) == 0x100 && Limit(3) == 0x100_0000;
  }

  function Patched(m: Image, p: Patch, delta: word): (u: Image)
    requires Fits(m, p)
    ensures |u| == |m|
    ensures forall x :: 0 <= x < |m| && !InSlot(p, x) ==> u[x] == m[x]
  {
    var w := Width(p.kind);
    PutField(m, p.at, w, Sum(p.kind, Field(m, p.at, w), delta))
  }

  function Relocated(m: Image, ps: seq<Patch>, delta: word): (u: Image)
    requires AllFit(m, ps)
    ensures |u| == |m|
    decreases |ps|
  {
    if ps == [] then m
    else
      var n := Patched(m, ps[0], delta);
      assert AllFit(n, ps[1..]) by { FitsTail(m, n, ps); }
      Relocated(n, ps[1..], delta)
  }

  lemma FitsTail(m: Image, n: Image, ps: seq<Patch>)
    requires AllFit(m, ps) && ps != [] && |m| == |n|
    ensures AllFit(n, ps[1..])
  {
    forall i | 0 <= i < |ps[1..]|
      ensures Fits(n, ps[1..][i])
    {
      assert Fits(m, ps[i + 1]);
    }
  }

  /** The patched fields do not overlap. */
  ghost predicate Disjoint(ps: seq<Patch>) {
    forall i, j, x :: 0 <= i < j < |ps| && InSlot(ps[i], x) ==> !InSlot(ps[j], x)
  }

  /** Bytes outside every slot are kept. */
  lemma {:induction false} OutsideKept(m: Image, ps: seq<Patch>, delta: word, x: nat)
    requires AllFit(m, ps) && x < |m| && forall i :: 0 <= i < |ps| ==> !InSlot(ps[i], x)
    ensures Relocated(m, ps, delta)[x] == m[x]
    decreases |ps|
  {
    if ps != [] {
      var n := Patched(m, ps[0], delta);
      FitsTail(m, n, ps);
      OutsideKept(n, ps[1..], delta, x);
    }
  }

  /** What an entry does to the field it points at, by the number of its type: HIGH (1) and LOW (2) add
      the half of that name to a 16-bit field, 3 and 6 add all of it to a 32-bit field. */
  ghost predicate Adds(m: Image, u: Image, a: nat, kind: int, delta: word) {
    && (kind == 1 || kind == 2 ==>
          && a + 2 <= |m| == |u|
          && FromBytes(u[a], u[a + 1], 0, 0) ==
             (FromBytes(m[a], m[a + 1], 0, 0) + if kind == 1 then delta / 0x1_0000 else delta % 0x1_0000) % 0x1_0000)
    && (kind == 3 || kind == 6 ==>
          && a + 4 <= |m| == |u|
          && FromBytes(u[a], u[a + 1], u[a + 2], u[a + 3]) ==
             (FromBytes(m[a], m[a + 1], m[a + 2], m[a + 3]) + delta) % 0x1_0000_0000)
  }

  lemma SlotAdds(m: Image, u: Image, p: Patch, delta: word)
    requires Fits(m, p) && |u| == |m|
    requires Field(u, p.at, Width(p.kind)) == Sum(p.kind, Field(m, p.at, Width(p.kind)), delta)
    ensures Adds(m, u, p.at, p.kind, delta)
  {
    hide Field, FromBytes;
    FieldBytes(m, p.at);
    FieldBytes(u, p.at);
  }

  /** One entry changes its field as its type says, and no other byte; all types but those four change
      nothing. */
  lemma PatchedBytes(m: Image, p: Patch, delta: word)
    requires Fits(m, p)
    ensures Adds(m, Patched(m, p, delta), p.at, p.kind, delta)
    ensures p.kind == 1 || p.kind == 2 ==>
      forall x :: 0 <= x < |m| && !(p.at <= x < p.at + 2) ==> Patched(m, p, delta)[x] == m[x]
    ensures p.kind == 3 || p.kind == 6 ==>
      forall x :: 0 <= x < |m| && !(p.at <= x < p.at + 4) ==> Patched(m, p, delta)[x] == m[x]
    ensures !(1 <= p.kind <= 3) && p.kind != 6 ==> Patched(m, p, delta) == m
  {
    var w := Width(p.kind);
    FieldOfPut(m, p.at, w, Sum(p.kind, Field(m, p.at, w), delta));
    SlotAdds(m, Patched(m, p, delta), p, delta);
    hide Field, Adds, Sum;
  }

  lemma DisjointTail(ps: seq<Patch>)
    requires Disjoint(ps) && ps != []
    ensures Disjoint(ps[1..])
    ensures forall j, x :: 0 <= j < |ps| - 1 && InSlot(ps[0], x) ==> !InSlot(ps[1..][j], x)
  {
    var rest := ps[1..];
    forall j, l, x | 0 <= j < l < |rest| && InSlot(rest[j], x)
      ensures !InSlot(rest[l], x)
    {
      assert InSlot(ps[j + 1], x) && !InSlot(ps[l + 1], x);
    }
    forall j, x | 0 <= j < |ps| - 1 && InSlot(ps[0], x)
      ensures !InSlot(rest[j], x)
    {
      assert !InSlot(ps[j + 1], x);
    }
  }

  /** A field that no entry touches keeps its value. */
  lemma FieldKept(m: Image, ps: seq<Patch>, delta: word, p: Patch)
    requires AllFit(m, ps) && Fits(m, p)
    requires forall i, x :: 0 <= i < |ps| && InSlot(p, x) ==> !InSlot(ps[i], x)
    ensures Field(Relocated(m, ps, delta), p.at, Width(p.kind)) == Field(m, p.at, Width(p.kind))
  {
    var u := Relocated(m, ps, delta);
    forall x | p.at <= x < p.at + Width(p.kind)
      ensures u[x] == m[x]
    {
      assert InSlot(p, x);
      OutsideKept(m, ps, delta, x);
    }
    FieldSame(u, m, p.at, Width(p.kind));
  }

  /** Each listed field gets its addend exactly once. */
  lemma {:induction false} SlotPatchedOnce(m: Image, ps: seq<Patch>, delta: word, i: nat)
    requires AllFit(m, ps) && Disjoint(ps) && i < |ps|
    ensures
      var w := Width(ps[i].kind);
      && Fits(m, ps[i])
      && Field(Relocated(m, ps, delta), ps[i].at, w) == Sum(ps[i].kind, Field(m, ps[i].at, w), delta)
    decreases |ps|
  {
    hide Sum;
    var p, w := ps[i], Width(ps[i].kind);
    assert Fits(m, p);
    var n := Patched(m, ps[0], delta);
    FitsTail(m, n, ps);
    DisjointTail(ps);
    if i == 0 {
      FieldOfPut(m, p.at, w, Sum(p.kind, Field(m, p.at, w), delta));
      FieldKept(n, ps[1..], delta, p);
    } else {
      SlotPatchedOnce(n, ps[1..], delta, i - 1);
      forall x | p.at <= x < p.at + w
        ensures n[x] == m[x]
      {
        assert InSlot(ps[i], x);
      }
      FieldSame(m, n, p.at, w);
    }
  }

  /** Two images that agree outside the slots and in every slot's field are the same. */
  lemma SlotsDetermine(m: Image, u: Image, ps: seq<Patch>)
    requires |m| == |u| && AllFit(m, ps)
    requires forall x :: 0 <= x < |m| && (forall i :: 0 <= i < |ps| ==> !InSlot(ps[i], x)) ==> m[x] == u[x]
    requires forall i :: 0 <= i < |ps| ==>
      Fits(m, ps[i]) && Field(m, ps[i].at, Width(ps[i].kind)) == Field(u, ps[i].at, Width(ps[i].kind))
    ensures m == u
  {
    forall x | 0 <= x < |m|
      ensures m[x] == u[x]
    {
      if i :| 0 <= i < |ps| && InSlot(ps[i], x) {
        FieldInjective(m, u, ps[i].at, Width(ps[i].kind));
      }
    }
  }

  // ---------------------------------------------------------------- laws of relocation

  /** A load at the preferred base changes nothing, whatever the table lists. */
  lemma {:induction false} ZeroDelta(m: Image, ps: seq<Patch>)
    requires AllFit(m, ps)
    ensures Relocated(m, ps, 0) == m
    decreases |ps|
  {
    if ps != [] {
      var p, w := ps[0], Width(ps[0].kind);
      SumOfZero(p.kind, Field(m, p.at, w));
      PutSame(m, p.at, w);
      FitsTail(m, m, ps);
      ZeroDelta(m, ps[1..]);
    }
  }

  lemma SumOfZero(kind: int, value: nat)
    requires value < Limit(Width(kind))
    ensures Sum(kind, value, 0) == value
  {
    Limits();
  }

  lemma FieldParts(low: byte, rest: nat)
    ensures (low + 0x100 * rest) % 0x100 == low && (low + 0x100 * rest) / 0x100 == rest
  {
  }

  lemma {:induction false} PutSame(m: Image, a: nat, w: nat)
    requires a + w <= |m|
    ensures PutField(m, a, w, Field(m, a, w)) == m
    decreases w
  {
    if w != 0 {
      var rest := Field(m, a + 1, w - 1);
      FieldParts(m[a], rest);
      assert m[a := m[a]] == m;
      PutSame(m, a + 1, w - 1);
    }
  }

  predicate NoCarry(d: word, e: word) {
    d % 0x1_0000 + e % 0x1_0000 < 0x1_0000
  }

  /** Adding twice is adding the sum; for the upper half only if the lower halves do not carry. */
  lemma SumComposes(kind: int, value: nat, d: word, e: word)
    requires value < Limit(Width(kind))
    ensures Sum(kind, Sum(kind, value, d), e) == Sum(kind, value, ToWord(d + e))
      <==> kind != REL_HIGH || NoCarry(d, e)
  {
    hide Limit;
    Limits();
    if kind == REL_HIGH {
      UpperHalves(value, d, e);
    } else if kind == REL_LOW {
      LowerHalves(value, d, e);
    } else if Width(kind) == 4 {
      WholeWords(value, d, e);
    }
  }

  /** Whole multiples of 2^16 do not matter in 16 bits. */
  lemma HalfShift(x: int, n: int)
    ensures (x + n * 0x1_0000) % 0x1_0000 == x % 0x1_0000
  {
  }

  lemma HalfSum(a: int, b: int)
    ensures (a % 0x1_0000 + b) % 0x1_0000 == (a + b) % 0x1_0000 == (a + b % 0x1_0000) % 0x1_0000
  {
    HalfShift(a % 0x1_0000 + b, a / 0x1_0000);
    HalfShift(a + b % 0x1_0000, b / 0x1_0000);
  }

  /** The sum of two words, taken apart into its halves. */
  lemma SumHalves(d: word, e: word)
    ensures
      var dh, dl, eh, el := d / 0x1_0000, d % 0x1_0000, e / 0x1_0000, e % 0x1_0000;
      var carry := if NoCarry(d, e) then 0 else 1;
      var s := dh + eh + carry;
      && ToWord(d + e) / 0x1_0000 == (if s < 0x1_0000 then s else s - 0x1_0000)
      && ToWord(d + e) % 0x1_0000 == dl + el - carry * 0x1_0000
  {
    var dh, dl, eh, el := d / 0x1_0000, d % 0x1_0000, e / 0x1_0000, e % 0x1_0000;
    var carry := if NoCarry(d, e) then 0 else 1;
    var s, low := dh + eh + carry, dl + el - carry * 0x1_0000;
    var high := if s < 0x1_0000 then s else s - 0x1_0000;
    assert d + e == s * 0x1_0000 + low;
    assert ToWord(d + e) == high * 0x1_0000 + low;
    hide ToWord;
    Apart(high, low);
  }

  lemma Apart(high: int, low: int)
    requires 0 <= low < 0x1_0000
    ensures (high * 0x1_0000 + low) / 0x1_0000 == high && (high * 0x1_0000 + low) % 0x1_0000 == low
  {
  }

  lemma LowerHalves(value: nat, d: word, e: word)
    ensures ((value + d % 0x1_0000) % 0x1_0000 + e % 0x1_0000) % 0x1_0000
         == (value + ToWord(d + e) % 0x1_0000) % 0x1_0000
  {
    var dl, el := d % 0x1_0000, e % 0x1_0000;
    SumHalves(d, e);
    hide ToWord;
    HalfSum(value + dl, el);
    HalfShift(value + (dl + el), if NoCarry(d, e) then 0 else -1);
  }

  lemma WholeWords(value: nat, d: word, e: word)
    ensures ((value + d) % TWO_TO_THE_32 + e) % TWO_TO_THE_32 == (value + ToWord(d + e)) % TWO_TO_THE_32
  {
  }

  lemma UpperHalves(value: nat, d: word, e: word)
    requires value < 0x1_0000
    ensures ((value + d / 0x1_0000) % 0x1_0000 + e / 0x1_0000) % 0x1_0000
         == (value + ToWord(d + e) / 0x1_0000) % 0x1_0000
      <==> NoCarry(d, e)
  {
    var dh, eh := d / 0x1_0000, e / 0x1_0000;
    var carry := if NoCarry(d, e) then 0 else 1;
    var s := dh + eh + carry;
    SumHalves(d, e);
    hide ToWord, NoCarry;
    HalfSum(value + dh, eh);
    HalfShift(value + s, if s < 0x1_0000 then 0 else -1);
    OneApart(value + dh + eh);
  }

  lemma OneApart(x: int)
    ensures (x + 1) % 0x1_0000 != x % 0x1_0000
  {
  }

  /** Relocating twice is relocating by the sum of the differences, exactly when no HIGH entry sees a
      carry out of the lower halves. */
  lemma RelocationComposes(m: Image, ps: seq<Patch>, d: word, e: word)
    requires AllFit(m, ps) && Disjoint(ps)
    ensures AllFit(Relocated(m, ps, d), ps)
    ensures Relocated(Relocated(m, ps, d), ps, e) == Relocated(m, ps, ToWord(d + e))
      <==> NoCarry(d, e) || forall i :: 0 <= i < |ps| ==> ps[i].kind != REL_HIGH
  {
    hide Sum;
    hide Relocated;
    var n := Relocated(m, ps, d);
    FitsSameSize(m, n, ps);
    var twice, once := Relocated(n, ps, e), Relocated(m, ps, ToWord(d + e));
    forall x | 0 <= x < |m| && forall i :: 0 <= i < |ps| ==> !InSlot(ps[i], x)
      ensures twice[x] == once[x]
    {
      OutsideKept(m, ps, d, x);
      OutsideKept(n, ps, e, x);
      OutsideKept(m, ps, ToWord(d + e), x);
    }
    forall i | 0 <= i < |ps|
      ensures Fits(twice, ps[i])
      ensures Field(twice, ps[i].at, Width(ps[i].kind)) == Field(once, ps[i].at, Width(ps[i].kind))
        <==> ps[i].kind != REL_HIGH || NoCarry(d, e)
    {
      SlotPatchedOnce(m, ps, d, i);
      SlotPatchedOnce(n, ps, e, i);
      SlotPatchedOnce(m, ps, ToWord(d + e), i);
      SumComposes(ps[i].kind, Field(m, ps[i].at, Width(ps[i].kind)), d, e);
    }
    if NoCarry(d, e) || forall i :: 0 <= i < |ps| ==> ps[i].kind != REL_HIGH {
      FitsSameSize(m, twice, ps);
      SlotsDetermine(twice, once, ps);
    }
  }

  /** Two moves by 0x8000 carry once, which a HIGH field does not see; one move by 0x10000 adds one. */
  lemma HighLosesCarry()
    ensures
      var image, table := [0, 0], [Patch(0, REL_HIGH)];
      && AllFit(image, table)
      && Relocated(Relocated(image, table, 0x8000), table, 0x8000) == [0, 0]
      && Relocated(image, table, 0x1_0000) == [1, 0]
  {
    var image: Image, table := [0, 0], [Patch(0, REL_HIGH)];
    Limits();
    assert Field(image, 0, 2) == 0;
    assert PutField(image, 0, 2, 0) == [0, 0];
    assert PutField(image, 0, 2, 1) == [1, 0];
    assert Patched(image, table[0], 0x8000) == [0, 0];
    assert Patched(image, table[0], 0x1_0000) == [1, 0];
    assert table[1..] == [];
  }

  lemma FitsSameSize(m: Image, n: Image, ps: seq<Patch>)
    requires AllFit(m, ps) && |m| == |n|
    ensures AllFit(n, ps)
  {
    forall i | 0 <= i < |ps|
      ensures Fits(n, ps[i])
    {
      assert Fits(m, ps[i]);
    }
  }

  /** A 32-bit slot of images loaded at two bases differs by the difference of the bases. */
  lemma SlotDifference(m: Image, ps: seq<Patch>, imageBase: word, base: word, other: word, i: nat)
    requires AllFit(m, ps) && Disjoint(ps) && i < |ps| && Width(ps[i].kind) == 4
    ensures Fits(m, ps[i])
    ensures Field(Relocated(m, ps, ToWord(other - imageBase)), ps[i].at, 4)
         == ToWord(Field(Relocated(m, ps, ToWord(base - imageBase)), ps[i].at, 4) + (other - base))
  {
    hide Relocated;
    hide Field;
    var value := (assert Fits(m, ps[i]); Field(m, ps[i].at, 4));
    SlotPatchedOnce(m, ps, ToWord(base - imageBase), i);
    SlotPatchedOnce(m, ps, ToWord(other - imageBase), i);
    BaseDifference(value, imageBase, base, other);
  }

  /** Two images agree on every byte that lies in no slot. */
  ghost predicate SameOutsideSlots(m: Image, u: Image, ps: seq<Patch>) {
    |m| == |u| && forall x :: 0 <= x < |m| && (forall i :: 0 <= i < |ps| ==> !InSlot(ps[i], x)) ==> u[x] == m[x]
  }

  lemma AllOutsideKept(m: Image, ps: seq<Patch>, delta: word)
    requires AllFit(m, ps)
    ensures SameOutsideSlots(m, Relocated(m, ps, delta), ps)
  {
    hide Relocated;
    forall x | 0 <= x < |m| && forall i :: 0 <= i < |ps| ==> !InSlot(ps[i], x)
      ensures Relocated(m, ps, delta)[x] == m[x]
    {
      OutsideKept(m, ps, delta, x);
    }
  }

  /** Every 32-bit slot of v is that of u shifted by the same amount. */
  ghost predicate SlotsShifted(u: Image, v: Image, ps: seq<Patch>, shift: int) {
    forall i :: 0 <= i < |ps| && Width(ps[i].kind) == 4 ==>
      Fits(u, ps[i]) && Fits(v, ps[i]) && Field(v, ps[i].at, 4) == ToWord(Field(u, ps[i].at, 4) + shift)
  }

  /** Images loaded at two bases agree outside the slots, where both keep the mapped bytes; each
      32-bit slot differs by the difference of the bases. */
  lemma TwoBases(m: Image, ps: seq<Patch>, imageBase: word, base: word, other: word)
    requires AllFit(m, ps) && Disjoint(ps)
    ensures
      var u, v := Relocated(m, ps, ToWord(base - imageBase)), Relocated(m, ps, ToWord(other - imageBase));
      && SameOutsideSlots(m, u, ps) && SameOutsideSlots(m, v, ps)
      && SlotsShifted(u, v, ps, other - base)
  {
    hide Relocated;
    hide SameOutsideSlots;
    var d, e := ToWord(base - imageBase), ToWord(other - imageBase);
    AllOutsideKept(m, ps, d);
    AllOutsideKept(m, ps, e);
    var u, v := Relocated(m, ps, d), Relocated(m, ps, e);
    FitsSameSize(m, u, ps);
    FitsSameSize(m, v, ps);
    forall i | 0 <= i < |ps| && Width(ps[i].kind) == 4
      ensures Fits(u, ps[i]) && Fits(v, ps[i])
      ensures Field(v, ps[i].at, 4) == ToWord(Field(u, ps[i].at, 4) + (other - base))
    {
      hide ToWord;
      hide Field;
      SlotDifference(m, ps, imageBase, base, other, i);
    }
  }

  lemma BaseDifference(value: nat, imageBase: word, base: word, other: word)
    ensures (value + ToWord(other - imageBase)) % TWO_TO_THE_32
         == ToWord((value + ToWord(base - imageBase)) % TWO_TO_THE_32 + (other - base))
  {
  }

  // ---------------------------------------------------------------- the relocation table

  /** From p on the buffer holds whole relocation blocks, each at least as long as its header, up to
      one whose address is zero. */
  predicate TableOk(m: Image, p: nat)
    decreases |m| - p
  {
    && p + 4 <= |m|
    && (Field(m, p, 4) != 0 ==>
          && p + BLOCK_HEADER <= |m|
          && BLOCK_HEADER <= Field(m, p + 4, 4) <= |m| - p
          && TableOk(m, p + Field(m, p + 4, 4)))
  }

  /** The byte after the table's terminating address. */
  function TableEnd(m: Image, p: nat): (end: nat)
    requires TableOk(m, p)
    ensures p + 4 <= end <= |m|
    decreases |m| - p
  {
    if Field(m, p, 4) == 0 then p + 4 else TableEnd(m, p + Field(m, p + 4, 4))
  }

  /** An entry: the lower 12 bits are the offset in the block's page, the upper four the type. */
  function EntryPatch(m: Image, va: word, q: nat): Patch
    requires q + 2 <= |m|
  {
    Patch(ToWord(va + Field(m, q, 2) % 0x1000), Field(m, q, 2) / 0x1000)
  }

  function BlockPatches(m: Image, va: word, q: nat, n: nat): (ps: seq<Patch>)
    requires q + 2 * n <= |m|
    decreases n
  {
    if n == 0 then [] else [EntryPatch(m, va, q)] + BlockPatches(m, va, q + 2, n - 1)
  }

  /** All entries of the table, in the order the walk meets them. */
  function TablePatches(m: Image, p: nat): seq<Patch>
    requires TableOk(m, p)
    decreases |m| - p
  {
    if Field(m, p, 4) == 0 then []
    else
      var va, size := Field(m, p, 4), Field(m, p + 4, 4);
      Limits();
      BlockPatches(m, va, p + BLOCK_HEADER, (size - BLOCK_HEADER) / 2) + TablePatches(m, p + size)
  }

  // ---------------------------------------------------------------- the table's layout

  /** What an entry means: an offset in the block's page and a type. */
  datatype Entry = Entry(offset: int, kind: int)

  /** A block: its page, its entries, and what its size counts beyond them. */
  datatype Block = Block(page: word, entries: seq<Entry>, odd: seq<byte>)

  ghost predicate BlockFits(b: Block) {
    && b.page != 0 && |b.odd| <= 1 && BLOCK_HEADER + 2 * |b.entries| + |b.odd| < TWO_TO_THE_32
    && forall i :: 0 <= i < |b.entries| ==> 0 <= b.entries[i].offset < 0x1000 && 0 <= b.entries[i].kind < 16
  }

  ghost predicate BlocksFit(bs: seq<Block>) {
    forall i :: 0 <= i < |bs| ==> BlockFits(bs[i])
  }

  /** The bytes of a word, low byte first. */
  function WordBytes(w: word): (bytes: seq<byte>)
    ensures |bytes| == 4
  {
    [w % 0x100, w / 0x100 % 0x100, w / 0x1_0000 % 0x100, w / 0x100_0000]
  }

  /** Two bytes an entry: the low eight bits of the offset, then the other four below the type. */
  ghost function EntryBytes(es: seq<Entry>): (bytes: seq<byte>)
    requires forall i :: 0 <= i < |es| ==> 0 <= es[i].offset < 0x1000 && 0 <= es[i].kind < 16
    ensures |bytes| == 2 * |es|
  {
    if es == [] then [] else [es[0].offset % 0x100, es[0].offset / 0x100 + 0x10 * es[0].kind] + EntryBytes(es[1..])
  }

  ghost function BlockBytes(b: Block): (bytes: seq<byte>)
    requires BlockFits(b)
    ensures |bytes| == BLOCK_HEADER + 2 * |b.entries| + |b.odd|
  {
    WordBytes(b.page) + WordBytes(BLOCK_HEADER + 2 * |b.entries| + |b.odd|) + EntryBytes(b.entries) + b.odd
  }

  /** A table in bytes: its blocks and a zero address. */
  ghost function TableBytes(bs: seq<Block>): (bytes: seq<byte>)
    requires BlocksFit(bs)
  {
    if bs == [] then WordBytes(0) else BlockBytes(bs[0]) + TableBytes(bs[1..])
  }

  /** What the entries of a page ask for. */
  ghost function EntriesMeant(page: word, es: seq<Entry>): (ps: seq<Patch>)
    requires forall i :: 0 <= i < |es| ==> 0 <= es[i].kind
    ensures |ps| == |es|
    ensures forall i :: 0 <= i < |es| ==> ps[i] == Patch(ToWord(page + es[i].offset), es[i].kind)
  {
    seq(|es|, i requires 0 <= i < |es| => Patch(ToWord(page + es[i].offset), es[i].kind))
  }

  /** What the blocks ask for, in order. */
  ghost function PatchesMeant(bs: seq<Block>): seq<Patch>
    requires BlocksFit(bs)
  {
    if bs == [] then [] else EntriesMeant(bs[0].page, bs[0].entries) + PatchesMeant(bs[1..])
  }

  /** The bytes lie in the buffer from a on. */
  ghost predicate LiesAt(m: Image, a: nat, bytes: seq<byte>) {
    a + |bytes| <= |m| && m[a..a + |bytes|] == bytes
  }

  lemma LiesSplit(m: Image, a: nat, one: seq<byte>, two: seq<byte>)
    ensures LiesAt(m, a, one + two) <==> LiesAt(m, a, one) && LiesAt(m, a + |one|, two)
  {
    if a + |one + two| <= |m| {
      var mine, both := m[a..a + |one + two|], one + two;
      assert mine[..|one|] == m[a..a + |one|] && mine[|one|..] == m[a + |one|..a + |one| + |two|];
      assert both[..|one|] == one && both[|one|..] == two;
      assert mine == mine[..|one|] + mine[|one|..];
    }
  }

  lemma WordAt(m: Image, a: nat, w: word)
    ensures LiesAt(m, a, WordBytes(w)) <==> a + 4 <= |m| && Field(m, a, 4) == w
  {
    FieldBytes(m, a);
    WordFromBytes(w);
    if a + 4 <= |m| {
      var mine := m[a..a + 4];
      assert mine == [m[a], m[a + 1], m[a + 2], m[a + 3]];
      WordToBytes(m[a], m[a + 1], m[a + 2], m[a + 3]);
    }
  }

  lemma WordFromBytes(w: word)
    ensures FromBytes(w % 0x100, w / 0x100 % 0x100, w / 0x1_0000 % 0x100, w / 0x100_0000) == w
  {
    var b := w / 0x100;
    var c := b / 0x100;
    assert w / 0x1_0000 == c && w / 0x100_0000 == c / 0x100;
  }

  lemma WordToBytes(a: byte, b: byte, c: byte, d: byte)
    ensures 0 <= FromBytes(a, b, c, d) < TWO_TO_THE_32 && WordBytes(FromBytes(a, b, c, d)) == [a, b, c, d]
  {
    var w := FromBytes(a, b, c, d);
    assert w / 0x100 == b + 0x100 * c + 0x1_0000 * d;
    assert w / 0x1_0000 == c + 0x100 * d;
  }

  /** The entry at q: its two bytes are those of an offset in the page and a type, which the patch has. */
  lemma EntryBits(m: Image, va: word, q: nat)
    requires q + 2 <= |m|
    ensures 0 <= EntryPatch(m, va, q).kind < 16
    ensures var offset := FromBytes(m[q], m[q + 1], 0, 0) - 0x1000 * EntryPatch(m, va, q).kind;
      0 <= offset < 0x1000 && EntryPatch(m, va, q).at == ToWord(va + offset)
  {
    FieldBytes(m, q);
  }

  lemma EntryAt(m: Image, va: word, q: nat, e: Entry)
    requires 0 <= e.offset < 0x1000 && 0 <= e.kind < 16
    requires LiesAt(m, q, [e.offset % 0x100, e.offset / 0x100 + 0x10 * e.kind])
    ensures EntryPatch(m, va, q) == Patch(ToWord(va + e.offset), e.kind)
  {
    var mine := m[q..q + 2];
    assert mine[0] == m[q] && mine[1] == m[q + 1];
    hide ToWord, EntryPatch;
    EntryBits(m, va, q);
    var kind := EntryPatch(m, va, q).kind;
    TwoBytes(m[q], m[q + 1], e, FromBytes(m[q], m[q + 1], 0, 0) - 0x1000 * kind, kind);
  }

  lemma TwoBytes(low: int, high: int, e: Entry, offset: int, kind: int)
    requires 0 <= e.offset < 0x1000 && 0 <= e.kind < 16 && 0 <= offset < 0x1000 && 0 <= kind < 16
    requires low == e.offset % 0x100 && high == e.offset / 0x100 + 0x10 * e.kind
    requires offset == low + 0x100 * high - 0x1000 * kind
    ensures offset == e.offset && kind == e.kind
  {
    assert low + 0x100 * high == e.offset + 0x1000 * e.kind;
  }

  lemma {:induction false} EntriesAt(m: Image, va: word, q: nat, es: seq<Entry>)
    requires forall i :: 0 <= i < |es| ==> 0 <= es[i].offset < 0x1000 && 0 <= es[i].kind < 16
    requires LiesAt(m, q, EntryBytes(es))
    ensures BlockPatches(m, va, q, |es|) == EntriesMeant(va, es)
    decreases |es|
  {
    hide EntryPatch, ToWord;
    if es != [] {
      var first := [es[0].offset % 0x100, es[0].offset / 0x100 + 0x10 * es[0].kind];
      LiesSplit(m, q, first, EntryBytes(es[1..]));
      hide LiesAt;
      EntryAt(m, va, q, es[0]);
      EntriesAt(m, va, q + 2, es[1..]);
    }
  }

  /** The walk over the bytes of a table finds exactly what its blocks ask for, in order, and ends behind
      the zero address. */
  lemma {:induction false} TableListed(m: Image, p: nat, bs: seq<Block>)
    requires BlocksFit(bs) && LiesAt(m, p, TableBytes(bs))
    ensures TableOk(m, p) && TablePatches(m, p) == PatchesMeant(bs)
    ensures TableEnd(m, p) == p + |TableBytes(bs)|
    decreases |bs|
  {
    hide *;
    if bs == [] {
      TableNone(m, p);
    } else {
      TableSplit(m, p, bs);
      BlockAt(m, p, bs[0]);
      TableListed(m, p + |BlockBytes(bs[0])|, bs[1..]);
      TableUnfold(m, p, bs[0].page, |bs[0].entries|, |bs[0].odd|);
      PatchesUnfold(bs);
    }
  }

  lemma TableNone(m: Image, p: nat)
    requires LiesAt(m, p, TableBytes([]))
    ensures TableOk(m, p) && TablePatches(m, p) == PatchesMeant([])
    ensures TableEnd(m, p) == p + |TableBytes([])|
  {
    WordAt(m, p, 0);
  }

  lemma TableSplit(m: Image, p: nat, bs: seq<Block>)
    requires bs != [] && BlocksFit(bs) && LiesAt(m, p, TableBytes(bs))
    ensures BlockFits(bs[0]) && BlocksFit(bs[1..])
    ensures LiesAt(m, p, BlockBytes(bs[0])) && LiesAt(m, p + |BlockBytes(bs[0])|, TableBytes(bs[1..]))
    ensures |TableBytes(bs)| == |BlockBytes(bs[0])| + |TableBytes(bs[1..])|
  {
    hide BlockFits, LiesAt;
    LiesSplit(m, p, BlockBytes(bs[0]), TableBytes(bs[1..]));
  }

  lemma PatchesUnfold(bs: seq<Block>)
    requires bs != [] && BlocksFit(bs)
    ensures BlockFits(bs[0]) && BlocksFit(bs[1..])
    ensures PatchesMeant(bs) == EntriesMeant(bs[0].page, bs[0].entries) + PatchesMeant(bs[1..])
  {
  }

  /** One block of a table: the walk counts its entries by halving what is behind the header. */
  lemma TableUnfold(m: Image, p: nat, page: word, n: nat, odd: nat)
    requires odd <= 1 && p + BLOCK_HEADER + 2 * n + odd <= |m|
    requires Field(m, p, 4) == page != 0 && Field(m, p + 4, 4) == BLOCK_HEADER + 2 * n + odd
    requires TableOk(m, p + BLOCK_HEADER + 2 * n + odd)
    ensures TableOk(m, p) && TableEnd(m, p) == TableEnd(m, p + BLOCK_HEADER + 2 * n + odd)
    ensures TablePatches(m, p) ==
      BlockPatches(m, page, p + BLOCK_HEADER, n) + TablePatches(m, p + BLOCK_HEADER + 2 * n + odd)
  {
    hide Field, BlockPatches;
    assert (2 * n + odd) / 2 == n;
  }

  lemma BlockAt(m: Image, p: nat, b: Block)
    requires BlockFits(b) && LiesAt(m, p, BlockBytes(b))
    ensures |b.odd| <= 1 && p + BLOCK_HEADER + 2 * |b.entries| + |b.odd| <= |m|
    ensures Field(m, p, 4) == b.page != 0
    ensures Field(m, p + 4, 4) == BLOCK_HEADER + 2 * |b.entries| + |b.odd|
    ensures BlockPatches(m, b.page, p + BLOCK_HEADER, |b.entries|) == EntriesMeant(b.page, b.entries)
  {
    hide EntriesMeant, BlockPatches, Field;
    var page, size, entries := WordBytes(b.page), WordBytes(BLOCK_HEADER + 2 * |b.entries| + |b.odd|), EntryBytes(b.entries);
    hide EntryBytes, WordBytes;
    LiesSplit(m, p, page + size + entries, b.odd);
    LiesSplit(m, p, page + size, entries);
    LiesSplit(m, p, page, size);
    hide LiesAt;
    WordAt(m, p, b.page);
    WordAt(m, p + 4, BLOCK_HEADER + 2 * |b.entries| + |b.odd|);
    EntriesAt(m, b.page, p + BLOCK_HEADER, b.entries);
  }

  /** Every table the walk accepts is that of some blocks. */
  lemma {:induction false} TableHasBlocks(m: Image, p: nat) returns (bs: seq<Block>)
    requires TableOk(m, p)
    ensures BlocksFit(bs) && LiesAt(m, p, TableBytes(bs))
    decreases |m| - p
  {
    hide BlockBytes, WordBytes, LiesAt;
    if Field(m, p, 4) == 0 {
      bs := [];
      WordAt(m, p, 0);
    } else {
      Limits();
      var size := Field(m, p + 4, 4);
      var b := BlockFound(m, p, Field(m, p, 4), size);
      var rest := TableHasBlocks(m, p + size);
      LiesSplit(m, p, BlockBytes(b), TableBytes(rest));
      bs := [b] + rest;
      assert bs[1..] == rest;
    }
  }

  lemma BlockFound(m: Image, p: nat, page: word, size: word) returns (b: Block)
    requires BLOCK_HEADER <= size <= |m| - p
    requires Field(m, p, 4) == page != 0 && Field(m, p + 4, 4) == size
    ensures BlockFits(b) && LiesAt(m, p, BlockBytes(b)) && |BlockBytes(b)| == size
  {
    hide Field, WordBytes;
    var n := (size - BLOCK_HEADER) / 2;
    var es := EntriesFound(m, p + BLOCK_HEADER, n);
    hide EntryBytes;
    b := Block(page, es, m[p + BLOCK_HEADER + 2 * n..p + size]);
    WordAt(m, p, page);
    WordAt(m, p + 4, size);
    assert LiesAt(m, p + BLOCK_HEADER + 2 * n, b.odd);
    hide LiesAt;
    LiesSplit(m, p, WordBytes(page), WordBytes(size));
    LiesSplit(m, p, WordBytes(page) + WordBytes(size), EntryBytes(es));
    LiesSplit(m, p, WordBytes(page) + WordBytes(size) + EntryBytes(es), b.odd);
  }

  lemma {:induction false} EntriesFound(m: Image, q: nat, n: nat) returns (es: seq<Entry>)
    requires q + 2 * n <= |m|
    ensures |es| == n && forall i :: 0 <= i < n ==> 0 <= es[i].offset < 0x1000 && 0 <= es[i].kind < 16
    ensures LiesAt(m, q, EntryBytes(es))
    decreases n
  {
    if n == 0 {
      es := [];
    } else {
      var rest := EntriesFound(m, q + 2, n - 1);
      var low: int, high: int := m[q], m[q + 1];
      var first := Entry(low + 0x100 * (high % 0x10), high / 0x10);
      es := [first] + rest;
      assert es[1..] == rest;
      assert m[q..q + 2] == [m[q], m[q + 1]];
      LiesSplit(m, q, [first.offset % 0x100, first.offset / 0x100 + 0x10 * first.kind], EntryBytes(rest));
    }
  }

  /** Relocating for a table of blocks: the field of each entry, at its page plus its offset, gets what
      the number of its type says. */
  lemma TableRelocates(m: Image, p: nat, bs: seq<Block>, i: nat, delta: word)
    requires BlocksFit(bs) && LiesAt(m, p, TableBytes(bs))
    requires AllFit(m, PatchesMeant(bs)) && Disjoint(PatchesMeant(bs)) && i < |PatchesMeant(bs)|
    ensures TableOk(m, p) && AllFit(m, TablePatches(m, p))
    ensures Adds(m, Relocated(m, TablePatches(m, p), delta), PatchesMeant(bs)[i].at, PatchesMeant(bs)[i].kind, delta)
  {
    TableListed(m, p, bs);
    hide TableOk, TablePatches, LiesAt, BlocksFit, PatchesMeant, TableBytes, Disjoint, TableEnd;
    hide Relocated, Patched, Field, Adds, Sum;
    var ps := PatchesMeant(bs);
    SlotPatchedOnce(m, ps, delta, i);
    SlotAdds(m, Relocated(m, ps, delta), ps[i], delta);
  }

  /** No entry points into the bytes from..to. */
  ghost predicate Avoids(ps: seq<Patch>, from: nat, to: nat) {
    forall i, x :: 0 <= i < |ps| && from <= x < to ==> !InSlot(ps[i], x)
  }

  ghost predicate Agree(m: Image, u: Image, from: nat, to: nat) {
    |m| == |u| && to <= |m| && forall x :: from <= x < to ==> m[x] == u[x]
  }

  /** What the loader relies on: a terminated table whose entries stay in the buffer and off the table
      itself. */
  ghost predicate WellFormed(m: Image, p: nat) {
    && TableOk(m, p)
    && AllFit(m, TablePatches(m, p))
    && Avoids(TablePatches(m, p), p, TableEnd(m, p))
  }

  // ---------------------------------------------------------------- the code

  method StoreField(img: array<byte>, at: nat, w: nat, v: nat)
    requires at + w <= img.Length
    modifies img
    ensures img[..] == PutField(old(img[..]), at, w, v)
  {
    var i, rest := 0, v;
    while i < w
      invariant 0 <= i <= w && 0 <= rest
      invariant PutField(img[..], at + i, w - i, rest) == PutField(old(img[..]), at, w, v)
    {
      ghost var before := img[..];
      img[at + i] := rest % 0x100;
      assert img[..] == before[at + i := rest % 0x100];
      i, rest := i + 1, rest / 0x100;
    }
  }

  /** One entry: the addition the type asks for. */
  method ApplyEntry(img: array<byte>, p: Patch, relocOffset: word)
    requires Fits(img[..], p)
    modifies img
    ensures img[..] == Patched(old(img[..]), p, relocOffset)
  {
    hide Field;
    var at := p.at;
    if p.kind == REL_HIGH {
      StoreField(img, at, 2, (Field(img[..], at, 2) + relocOffset / 0x1_0000) % 0x1_0000);
    } else if p.kind == REL_LOW {
      StoreField(img, at, 2, (Field(img[..], at, 2) + relocOffset % 0x1_0000) % 0x1_0000);
    } else if p.kind == REL_HIGHLOW {
      StoreField(img, at, 4, (Field(img[..], at, 4) + relocOffset) % TWO_TO_THE_32);
    } else if p.kind == REL_DIR32 {
      StoreField(img, at, 4, (Field(img[..], at, 4) + relocOffset) % TWO_TO_THE_32);
    }
  }

  /** The rest of the walk is safe in the current image m: its entries fit and stay off the table. */
  ghost predicate RestOk(m: Image, original: Image, ps: seq<Patch>, from: nat, to: nat) {
    Agree(original, m, from, to) && AllFit(m, ps) && Avoids(ps, from, to)
  }

  lemma RestAfterEntry(m: Image, original: Image, ps: seq<Patch>, from: nat, to: nat, delta: word)
    requires RestOk(m, original, ps, from, to) && ps != []
    ensures Fits(m, ps[0]) && RestOk(Patched(m, ps[0], delta), original, ps[1..], from, to)
    ensures Relocated(m, ps, delta) == Relocated(Patched(m, ps[0], delta), ps[1..], delta)
  {
    assert Fits(m, ps[0]);
    var n := Patched(m, ps[0], delta);
    FitsTail(m, n, ps);
    forall i, x | 0 <= i < |ps[1..]| && from <= x < to
      ensures !InSlot(ps[1..][i], x)
    {
      assert !InSlot(ps[i + 1], x);
    }
    forall x | from <= x < to
      ensures n[x] == original[x]
    {
      assert !InSlot(ps[0], x);
    }
  }

  /** The next entry of a block reads the same from the patched image, and applying it leaves the
      rest of the walk safe and the outcome the same. */
  lemma NextEntry(m: Image, original: Image, va: word, q: nat, n: nat, after: seq<Patch>,
                  from: nat, to: nat, delta: word)
    requires 1 <= n && from <= q && q + 2 * n <= to <= |original|
    requires RestOk(m, original, BlockPatches(original, va, q, n) + after, from, to)
    ensures |m| == |original| && Fits(m, EntryPatch(m, va, q))
    ensures
      var u, later := Patched(m, EntryPatch(m, va, q), delta), BlockPatches(original, va, q + 2, n - 1) + after;
      && RestOk(u, original, later, from, to)
      && Relocated(u, later, delta) == Relocated(m, BlockPatches(original, va, q, n) + after, delta)
  {
    hide Patched;
    hide Relocated;
    hide RestOk;
    assert |m| == |original| && AllFit(m, BlockPatches(original, va, q, n) + after)
      && forall x :: from <= x < to ==> original[x] == m[x] by {
      RestMeans(m, original, BlockPatches(original, va, q, n) + after, from, to);
    }
    FieldSame(original, m, q, 2);
    var ps, later := BlockPatches(original, va, q, n) + after, BlockPatches(original, va, q + 2, n - 1) + after;
    assert ps == [EntryPatch(original, va, q)] + later;
    assert ps[1..] == later;
    RestAfterEntry(m, original, ps, from, to, delta);
  }

  lemma RestMeans(m: Image, original: Image, ps: seq<Patch>, from: nat, to: nat)
    requires RestOk(m, original, ps, from, to)
    ensures |m| == |original| && to <= |m| && AllFit(m, ps)
    ensures forall x :: from <= x < to ==> original[x] == m[x]
  {
  }

  /** The inner loop over the entries of one block; `after` are the entries of the blocks behind it. */
  method RelocBlock(img: array<byte>, va: word, entries: nat, count: nat, relocOffset: word,
                    ghost original: Image, ghost after: seq<Patch>, ghost from: nat, ghost to: nat)
    requires from <= entries && entries + 2 * count <= to <= |original|
    requires RestOk(img[..], original, BlockPatches(original, va, entries, count) + after, from, to)
    modifies img
    ensures RestOk(img[..], original, after, from, to)
    ensures Relocated(img[..], after, relocOffset)
         == Relocated(old(img[..]), BlockPatches(original, va, entries, count) + after, relocOffset)
  {
    hide Relocated;
    hide Patched;
    hide EntryPatch;
    hide AllFit;
    hide Avoids;
    hide Agree;
    ghost var goal := Relocated(img[..], BlockPatches(original, va, entries, count) + after, relocOffset);
    var q: nat := entries;
    var i := 0;
    while i < count
      invariant 0 <= i <= count && q == entries + 2 * i
      invariant RestOk(img[..], original, BlockPatches(original, va, q, count - i) + after, from, to)
      invariant Relocated(img[..], BlockPatches(original, va, q, count - i) + after, relocOffset) == goal
    {
      hide BlockPatches;
      NextEntry(img[..], original, va, q, count - i, after, from, to, relocOffset);
      ApplyEntry(img, EntryPatch(img[..], va, q), relocOffset);
      q := q + 2;
      i := i + 1;
    }
    assert BlockPatches(original, va, q, count - i) + after == after;
  }

  /** Reading the next block's header from the patched image. */
  lemma NextHeader(m: Image, original: Image, p: nat, from: nat, to: nat)
    requires from <= p && TableOk(original, p) && TableEnd(original, p) == to
    requires RestOk(m, original, TablePatches(original, p), from, to)
    ensures |m| == |original| && p + 4 <= to <= |m|
    ensures Field(m, p, 4) == Field(original, p, 4) < TWO_TO_THE_32
    ensures Field(m, p, 4) == 0 ==> TablePatches(original, p) == []
    ensures Field(m, p, 4) != 0 ==>
      var va, size := Field(m, p, 4), Field(original, p + 4, 4);
      && p + BLOCK_HEADER <= |m| && size == Field(m, p + 4, 4) && BLOCK_HEADER <= size
      && p + size <= to && TableOk(original, p + size) && TableEnd(original, p + size) == to
      && TablePatches(original, p) ==
         BlockPatches(original, va, p + BLOCK_HEADER, (size - BLOCK_HEADER) / 2) + TablePatches(original, p + size)
  {
    Limits();
    FieldSame(original, m, p, 4);
    if Field(original, p, 4) != 0 {
      FieldSame(original, m, p + 4, 4);
    }
  }

  /** Walks the relocation table at `relocVa` in the buffer and patches the buffer for the address it
      was loaded at. */
  method RelocMemory(img: array<byte>, base: word, imageBase: word, relocVa: word)
    requires WellFormed(img[..], relocVa)
    modifies img
    ensures img[..] == Relocated(old(img[..]), TablePatches(old(img[..]), relocVa), ToWord(base - imageBase))
  {
    hide Field;
    hide AllFit;
    hide Avoids;
    hide TableOk;
    hide TableEnd;
    hide TablePatches;
    hide BlockPatches;
    var relocOffset := ToWord(base - imageBase);
    ghost var original, to := img[..], TableEnd(img[..], relocVa);
    ghost var goal := Relocated(original, TablePatches(original, relocVa), relocOffset);
    var p: nat := relocVa;
    NextHeader(img[..], original, p, relocVa, to);
    while Field(img[..], p, 4) != 0
      invariant relocVa <= p && p + 4 <= img.Length && TableOk(original, p) && TableEnd(original, p) == to
      invariant RestOk(img[..], original, TablePatches(original, p), relocVa, to)
      invariant Relocated(img[..], TablePatches(original, p), relocOffset) == goal
      invariant Field(img[..], p, 4) == 0 ==> TablePatches(original, p) == []
      decreases img.Length - p
    {
      hide Relocated;
      hide Agree;
      NextHeader(img[..], original, p, relocVa, to);
      var va := Field(img[..], p, 4);
      var size := Field(img[..], p + 4, 4);
      var count := (size - BLOCK_HEADER) / 2;
      RelocBlock(img, va, p + BLOCK_HEADER, count, relocOffset, original, TablePatches(original, p + size), relocVa, to);
      p := p + size;
      NextHeader(img[..], original, p, relocVa, to);
    }
  }

  // ---------------------------------------------------------------- sections

  datatype Section = Section(virtualAddress: word, sizeOfRawData: word, pointerToRawData: word)

  predicate SectionFits(m: Image, file: seq<byte>, s: Section) {
    && s.virtualAddress + s.sizeOfRawData <= |m|
    && s.pointerToRawData + s.sizeOfRawData <= |file|
  }

  ghost predicate SectionsFit(m: Image, file: seq<byte>, sections: seq<Section>) {
    forall i :: 0 <= i < |sections| ==> SectionFits(m, file, sections[i])
  }

  predicate Holds(s: Section, x: int) {
    s.virtualAddress <= x < s.virtualAddress + s.sizeOfRawData
  }

  function Copied(m: Image, file: seq<byte>, s: Section): (u: Image)
    requires SectionFits(m, file, s)
    ensures |u| == |m|
    ensures forall x :: 0 <= x < |m| ==>
      u[x] == if Holds(s, x) then file[s.pointerToRawData + (x - s.virtualAddress)] else m[x]
  {
    m[..s.virtualAddress] + file[s.pointerToRawData..s.pointerToRawData + s.sizeOfRawData]
      + m[s.virtualAddress + s.sizeOfRawData..]
  }

  /** The buffer after the sections are copied one after the other. */
  function Mapped(m: Image, file: seq<byte>, sections: seq<Section>): (u: Image)
    requires SectionsFit(m, file, sections)
    ensures |u| == |m|
    decreases |sections|
  {
    if sections == [] then m
    else
      assert SectionFits(m, file, sections[|sections| - 1]);
      Copied(Mapped(m, file, sections[..|sections| - 1]), file, sections[|sections| - 1])
  }

  /** A mapped byte comes from the last section that holds its address, and stays what it was where no
      section does. */
  lemma {:induction false} MappedByte(m: Image, file: seq<byte>, sections: seq<Section>, x: nat, k: int)
    requires SectionsFit(m, file, sections) && x < |m| && -1 <= k < |sections|
    requires forall j :: k < j < |sections| ==> !Holds(sections[j], x)
    requires 0 <= k ==> Holds(sections[k], x)
    ensures 0 <= k ==> SectionFits(m, file, sections[k])
    ensures Mapped(m, file, sections)[x] ==
      if 0 <= k then file[sections[k].pointerToRawData + (x - sections[k].virtualAddress)] else m[x]
    decreases |sections|
  {
    if sections != [] && k < |sections| - 1 {
      MappedByte(m, file, sections[..|sections| - 1], x, k);
    }
  }

  method MemCpy(dest: array<byte>, at: nat, src: seq<byte>, from: nat, len: nat)
    requires at + len <= dest.Length && from + len <= |src|
    modifies dest
    ensures forall x :: 0 <= x < dest.Length ==>
      dest[x] == if at <= x < at + len then src[from + (x - at)] else old(dest[x])
  {
    var i := 0;
    while i < len
      invariant 0 <= i <= len
      invariant forall x :: 0 <= x < dest.Length ==>
        dest[x] == if at <= x < at + i then src[from + (x - at)] else old(dest[x])
    {
      dest[at + i] := src[from + i];
      i := i + 1;
    }
  }

  /** One turn of the copying loop. */
  method CpySection(img: array<byte>, file: seq<byte>, s: Section)
    requires SectionFits(img[..], file, s)
    modifies img
    ensures img[..] == Copied(old(img[..]), file, s)
  {
    ghost var goal := Copied(img[..], file, s);
    hide Copied;
    MemCpy(img, s.virtualAddress, file, s.pointerToRawData, s.sizeOfRawData);
    assert forall x :: 0 <= x < img.Length ==> img[x] == goal[x];
  }

  method CpySections(img: array<byte>, file: seq<byte>, sections: seq<Section>)
    requires SectionsFit(img[..], file, sections)
    modifies img
    ensures img[..] == Mapped(old(img[..]), file, sections)
  {
    var i := 0;
    while i < |sections|
      invariant 0 <= i <= |sections|
      invariant img[..] == Mapped(old(img[..]), file, sections[..i])
    {
      hide Copied;
      assert SectionFits(old(img[..]), file, sections[i]);
      assert sections[..i + 1][..i] == sections[..i];
      CpySection(img, file, sections[i]);
      i := i + 1;
    }
    assert sections[..i] == sections;
  }

  // ---------------------------------------------------------------- loading

  /** The buffer after mapping the sections and relocating for `base`. */
  ghost function Loaded(m: Image, file: seq<byte>, sections: seq<Section>, relocVa: word, imageBase: word, base: word): (u: Image)
    requires SectionsFit(m, file, sections) && WellFormed(Mapped(m, file, sections), relocVa)
  {
    var mapped := Mapped(m, file, sections);
    Relocated(mapped, TablePatches(mapped, relocVa), ToWord(base - imageBase))
  }

  /** The two steps of loading, in the loader's order. */
  method LoadAt(img: array<byte>, file: seq<byte>, sections: seq<Section>, relocVa: word, imageBase: word, base: word)
    requires SectionsFit(img[..], file, sections) && WellFormed(Mapped(img[..], file, sections), relocVa)
    modifies img
    ensures img[..] == Loaded(old(img[..]), file, sections, relocVa, imageBase, base)
  {
    CpySections(img, file, sections);
    RelocMemory(img, base, imageBase, relocVa);
  }

  /** Position independence. A load at the preferred base is the mapped file; loads at two bases agree
      with the mapped file outside the listed slots, and their 32-bit slots differ by the difference
      of the bases; without HIGH entries one load relocates into the other. */
  lemma PositionIndependent(m: Image, file: seq<byte>, sections: seq<Section>, relocVa: word,
                            imageBase: word, base: word, other: word)
    requires SectionsFit(m, file, sections) && WellFormed(Mapped(m, file, sections), relocVa)
    requires Disjoint(TablePatches(Mapped(m, file, sections), relocVa))
    ensures
      var mapped := Mapped(m, file, sections);
      var ps := TablePatches(mapped, relocVa);
      var u, v := Loaded(m, file, sections, relocVa, imageBase, base), Loaded(m, file, sections, relocVa, imageBase, other);
      && (base == imageBase ==> u == mapped)
      && SameOutsideSlots(mapped, u, ps) && SameOutsideSlots(mapped, v, ps)
      && SlotsShifted(u, v, ps, other - base)
      && AllFit(u, ps)
      && ((forall i :: 0 <= i < |ps| ==> ps[i].kind != REL_HIGH) ==> Relocated(u, ps, ToWord(other - base)) == v)
  {
    hide Relocated;
    hide SameOutsideSlots;
    hide SlotsShifted;
    hide TablePatches;
    hide TableOk;
    hide TableEnd;
    hide Mapped;
    hide Avoids;
    hide Disjoint;
    var mapped := Mapped(m, file, sections);
    var ps := TablePatches(mapped, relocVa);
    ZeroDelta(mapped, ps);
    TwoBases(mapped, ps, imageBase, base, other);
    RelocationComposes(mapped, ps, ToWord(base - imageBase), ToWord(other - base));
    RebaseSum(imageBase, base, other);
  }

  lemma RebaseSum(imageBase: word, base: word, other: word)
    ensures ToWord(ToWord(base - imageBase) + ToWord(other - base)) == ToWord(other - imageBase)
  {
  }
}
