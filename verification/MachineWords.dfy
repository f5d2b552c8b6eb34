/** Fixed-width integers of the 32-bit kernel: wrap-around, truncating division, and the
    bitwise operators of C on unsigned words, written out over the unbounded integers. */
module MachineWords {

  const TWO_TO_THE_32 := 0x1_0000_0000

  type byte = x: int | 0 <= x < 0x100
  type half = x: int | 0 <= x < 0x1_0000
  type word = x: int | 0 <= x < 0x1_0000_0000
  type int32 = x: int | -0x8000_0000 <= x < 0x8000_0000

  /** Conversion to `uint32_t`. */
  function ToWord(x: int): word {
    x % TWO_TO_THE_32
  }

  /** Conversion to `int` (two's complement). */
  function ToInt32(x: int): int32 {
    var w := x % TWO_TO_THE_32;
    if w < 0x8000_0000 then w else w - TWO_TO_THE_32
  }

  /** Conversion to `int` subtracts a multiple of 2^32. */
  lemma WrapWitness(x: int) returns (m: int)
    ensures ToInt32(x) == x - m * TWO_TO_THE_32
  {
    m := if x % TWO_TO_THE_32 < 0x8000_0000 then x / TWO_TO_THE_32 else x / TWO_TO_THE_32 + 1;
  }

  lemma InPlace(x: int32)
    ensures ToInt32(x) == x
  {
  }

  lemma WrapShift(x: int, n: int)
    ensures ToInt32(x - n * TWO_TO_THE_32) == ToInt32(x)
  {
    assert (x - n * TWO_TO_THE_32) % TWO_TO_THE_32 == x % TWO_TO_THE_32;
  }

  /** Wrapping an operand before a product or a sum does not change the wrapped result. */
  lemma WrapTimesPlus(a: int, k: int, d: int)
    ensures ToInt32(ToInt32(a) * k + d) == ToInt32(a * k + d)
  {
    hide ToInt32;
    var m := WrapWitness(a);
    assert (a - m * TWO_TO_THE_32) * k == a * k - (m * k) * TWO_TO_THE_32;
    WrapShift(a * k + d, m * k);
  }

  lemma WrapPlus(a: int, d: int)
    ensures ToInt32(ToInt32(a) + d) == ToInt32(a + d)
  {
    hide ToInt32;
    WrapTimesPlus(a, 1, d);
  }

  /** C's `/` on signed operands, which truncates toward zero. */
  function TruncDiv(a: int, b: int): int
    requires 0 < b
  {
    if 0 <= a then a / b else -(-a / b)
  }

  /** C's `%` on signed operands, whose sign follows the dividend. */
  function TruncMod(a: int, b: int): int
    requires 0 < b
  {
    if 0 <= a then a % b else -(-a % b)
  }

  /** x shifted left by k bits. */
  function Shl(x: nat, k: nat): nat {
    if k == 0 then x else 2 * Shl(x, k - 1)
  }

  /** C's `|` on unsigned operands. */
  function BitOr(a: nat, b: nat): nat {
    if a == 0 && b == 0 then 0
    else 2 * BitOr(a / 2, b / 2) + (if a % 2 == 1 || b % 2 == 1 then 1 else 0)
  }

  /** C's `&` on unsigned operands. */
  function BitAnd(a: nat, b: nat): nat {
    if a == 0 && b == 0 then 0
    else 2 * BitAnd(a / 2, b / 2) + (if a % 2 == 1 && b % 2 == 1 then 1 else 0)
  }

  /** Bit k of a number. */
  predicate Bit(x: nat, k: nat) {
    if k == 0 then x % 2 == 1 else Bit(x / 2, k - 1)
  }

  /** `|` and `&` join every bit by itself. */
  lemma {:induction false} EachBit(a: nat, b: nat, k: nat)
    ensures Bit(BitOr(a, b), k) <==> Bit(a, k) || Bit(b, k)
    ensures Bit(BitAnd(a, b), k) <==> Bit(a, k) && Bit(b, k)
  {
    BitStep(a / 2, b / 2, a % 2, b % 2);
    if k != 0 {
      EachBit(a / 2, b / 2, k - 1);
    }
  }

  lemma {:induction false} OrZero(x: nat)
    ensures BitOr(x, 0) == x && BitOr(0, x) == x
  {
    if x != 0 {
      OrZero(x / 2);
    }
  }

  lemma {:induction false} AndZero(x: nat)
    ensures BitAnd(x, 0) == 0
  {
    if x != 0 {
      AndZero(x / 2);
    }
  }

  lemma {:induction false} OrOnes(k: nat, x: nat)
    requires x < Shl(1, k)
    ensures BitOr(x, Shl(1, k) - 1) == Shl(1, k) - 1
  {
    if k != 0 {
      OrOnes(k - 1, x / 2);
      BitStep(x / 2, Shl(1, k - 1) - 1, x % 2, 1);
    }
  }

  lemma {:induction false} AndOnes(k: nat, x: nat)
    requires x < Shl(1, k)
    ensures BitAnd(x, Shl(1, k) - 1) == x
  {
    if k != 0 {
      AndOnes(k - 1, x / 2);
      BitStep(x / 2, Shl(1, k - 1) - 1, x % 2, 1);
    }
  }

  /** One step of `|` and `&`: the operands are split off their lowest bits. */
  lemma BitStep(a: nat, b: nat, i: nat, j: nat)
    requires i < 2 && j < 2
    ensures BitOr(2 * a + i, 2 * b + j) == 2 * BitOr(a, b) + (if i == 1 || j == 1 then 1 else 0)
    ensures BitAnd(2 * a + i, 2 * b + j) == 2 * BitAnd(a, b) + (if i == 1 && j == 1 then 1 else 0)
  {
    assert (2 * a + i) / 2 == a && (2 * b + j) / 2 == b;
    assert (2 * a + i) % 2 == i && (2 * b + j) % 2 == j;
  }

  /** Adding a lowest bit below operands that are already split. */
  lemma OrJoin(s: nat, p: nat, q: nat, r: nat, f: nat, g: nat)
    requires BitOr(f / 2, g / 2) < s && BitOr(p + f / 2, q + g / 2) == r + BitOr(f / 2, g / 2)
    ensures BitOr(f, g) < 2 * s
    ensures BitOr(2 * p + f, 2 * q + g) == 2 * r + BitOr(f, g)
  {
    hide *;
    var a, i, b, j := f / 2, f % 2, g / 2, g % 2;
    assert 2 * a + i == f && 2 * b + j == g;
    assert 2 * (p + a) + i == 2 * p + f && 2 * (q + b) + j == 2 * q + g;
    BitStep(a, b, i, j);
    BitStep(p + a, q + b, i, j);
  }

  lemma AndJoin(s: nat, p: nat, q: nat, r: nat, f: nat, g: nat)
    requires BitAnd(f / 2, g / 2) < s && BitAnd(p + f / 2, q + g / 2) == r + BitAnd(f / 2, g / 2)
    ensures BitAnd(f, g) < 2 * s
    ensures BitAnd(2 * p + f, 2 * q + g) == 2 * r + BitAnd(f, g)
  {
    hide *;
    var a, i, b, j := f / 2, f % 2, g / 2, g % 2;
    assert 2 * a + i == f && 2 * b + j == g;
    assert 2 * (p + a) + i == 2 * p + f && 2 * (q + b) + j == 2 * q + g;
    BitStep(a, b, i, j);
    BitStep(p + a, q + b, i, j);
  }

  lemma NoLowBits(x: nat, y: nat)
    ensures Shl(1, 0) == 1 && BitOr(0, 0) == 0 == BitAnd(0, 0) && Shl(x, 0) == x && Shl(y, 0) == y
    ensures Shl(BitOr(x, y), 0) == BitOr(x, y) && Shl(BitAnd(x, y), 0) == BitAnd(x, y)
  {
  }

  lemma ShlStep(x: nat, k: nat)
    requires 1 <= k
    ensures Shl(x, k) == 2 * Shl(x, k - 1)
  {
  }

  /** `|` and `&` work on the low k bits and on the rest separately. */
  lemma {:induction false} OrSplit(k: nat, x: nat, f: nat, y: nat, g: nat)
    requires f < Shl(1, k) && g < Shl(1, k)
    ensures BitOr(f, g) < Shl(1, k)
    ensures BitOr(Shl(x, k) + f, Shl(y, k) + g) == Shl(BitOr(x, y), k) + BitOr(f, g)
  {
    hide *;
    if k == 0 {
      NoLowBits(x, y);
    } else {
      ShlStep(x, k);
      ShlStep(y, k);
      ShlStep(1, k);
      ShlStep(BitOr(x, y), k);
      OrSplit(k - 1, x, f / 2, y, g / 2);
      OrJoin(Shl(1, k - 1), Shl(x, k - 1), Shl(y, k - 1), Shl(BitOr(x, y), k - 1), f, g);
    }
  }

  lemma {:induction false} AndSplit(k: nat, x: nat, f: nat, y: nat, g: nat)
    requires f < Shl(1, k) && g < Shl(1, k)
    ensures BitAnd(f, g) < Shl(1, k)
    ensures BitAnd(Shl(x, k) + f, Shl(y, k) + g) == Shl(BitAnd(x, y), k) + BitAnd(f, g)
  {
    hide *;
    if k == 0 {
      NoLowBits(x, y);
    } else {
      ShlStep(x, k);
      ShlStep(y, k);
      ShlStep(1, k);
      ShlStep(BitAnd(x, y), k);
      AndSplit(k - 1, x, f / 2, y, g / 2);
      AndJoin(Shl(1, k - 1), Shl(x, k - 1), Shl(y, k - 1), Shl(BitAnd(x, y), k - 1), f, g);
    }
  }

  lemma {:induction false} ShlIsProduct(x: nat, k: nat)
    ensures Shl(x, k) == x * Shl(1, k)
  {
    if k != 0 {
      ShlIsProduct(x, k - 1);
      assert 2 * (x * Shl(1, k - 1)) == x * (2 * Shl(1, k - 1));
    }
  }

  lemma PageShift(x: nat)
    ensures Shl(x, 12) == x * 4096 && Shl(1, 12) == 4096 && Shl(1, 20) == 0x10_0000
  {
    assert Shl(1, 2) == 4;
    assert Shl(1, 4) == 16;
    assert Shl(1, 6) == 64;
    assert Shl(1, 8) == 256;
    assert Shl(1, 10) == 1024;
    assert Shl(1, 12) == 4096;
    assert Shl(1, 14) == 16384;
    assert Shl(1, 16) == 65536;
    assert Shl(1, 18) == 262144;
    assert Shl(1, 20) == 1048576;
    ShlIsProduct(x, 12);
  }

  /** Or-ing flags into the low 12 bits leaves the page frame alone. */
  lemma OrFlags(frame: nat, low: nat, flags: nat)
    requires low < 4096 && flags < 4096
    ensures BitOr(low, flags) < 4096
    ensures BitOr(frame * 4096 + low, flags) == frame * 4096 + BitOr(low, flags)
  {
    hide BitOr;
    PageShift(frame);
    PageShift(0);
    OrSplit(12, frame, low, 0, flags);
    OrZero(frame);
  }

  /** Masking with 0xfffff000 clears the low 12 bits of a word. */
  lemma MaskFrame(frame: nat, low: nat)
    requires frame < 0x10_0000 && low < 4096
    ensures BitAnd(frame * 4096 + low, 0xffff_f000) == frame * 4096
  {
    hide BitAnd;
    var ones := 0xf_ffff;
    PageShift(frame);
    PageShift(ones);
    AndSplit(12, frame, low, ones, 0);
    AndOnes(20, frame);
    AndZero(low);
    assert Shl(ones, 12) + 0 == 0xffff_f000;
    assert BitAnd(frame, ones) == frame;
  }

  /** `|` of two words is a word. */
  lemma OrWord(x: word, y: word)
    ensures BitOr(x, y) < TWO_TO_THE_32
  {
    assert Shl(1, 32) == TWO_TO_THE_32 by {
      PageShift(Shl(1, 20));
      ShlIsProduct(1, 32);
      assert Shl(1, 22) == 4194304;
      assert Shl(1, 24) == 16777216;
      assert Shl(1, 26) == 67108864;
      assert Shl(1, 28) == 268435456;
      assert Shl(1, 30) == 1073741824;
    }
    OrSplit(32, 0, x, 0, y);
  }
}
