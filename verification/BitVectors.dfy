/** Natural numbers modulo 2^32 as bit-vectors: sums and products carry over, so that an equation modulo
    2^32 can be decided on bit-vectors. */
module BitVectors {
  import opened MachineWords

  // ---------------------------------------------------------------- laws of bit-vectors

  function Plus(x: bv32, y: bv32): bv32 {
    x + y
  }

  function Times(x: bv32, y: bv32): bv32 {
    x * y
  }

  function Double(x: bv32, bit: bool): bv32 {
    x + x + if bit then 1 else 0
  }

  lemma Carry(x: bv32)
    ensures Double(Plus(1, x), false) == Plus(1, Double(x, true))
    ensures Double(x, true) == Plus(1, Double(x, false)) && Double(0, false) == 0
  {
  }

  lemma Zeros(x: bv32)
    ensures Plus(x, 0) == x && Times(x, 0) == 0
  {
  }

  lemma PlusOne(x: bv32, y: bv32)
    ensures Plus(x, y) == x + y && Plus(1, y) == 1 + y
    ensures Plus(1, x + y) == 1 + (x + y) == Plus(x, 1 + y)
  {
  }

  lemma ProductPlusOne(x: bv32, y: bv32)
    ensures Times(x, y) == x * y && Plus(x, x * y) == Times(x, 1 + y)
  {
  }

  lemma PlusNext(x: bv32, y: bv32)
    ensures Plus(1, Plus(x, y)) == Plus(x, Plus(1, y))
  {
    hide *;
    PlusOne(x, y);
  }

  lemma TimesNext(x: bv32, y: bv32)
    ensures Plus(x, Times(x, y)) == Times(x, Plus(1, y))
  {
    hide *;
    PlusOne(x, y);
    ProductPlusOne(x, y);
  }

  lemma DoubleBelow(x: bv32, t: bv32, bit: bool)
    requires x < t <= 0x8000
    ensures Double(x, bit) < 2 * t && (Double(x, bit) == 0 <==> x == 0 && !bit)
  {
  }

  // ---------------------------------------------------------------- numbers carried over

  /** A 32-bit register. */
  datatype Register = Register(bits: bv32)

  const ZERO := Register(0)
  const ONE := Register(1)

  function Sum(x: Register, y: Register): Register {
    Register(Plus(x.bits, y.bits))
  }

  function Product(x: Register, y: Register): Register {
    Register(Times(x.bits, y.bits))
  }

  function Shifted(x: Register, bit: bool): Register {
    Register(Double(x.bits, bit))
  }

  /** The register that holds the low 32 bits of a number. */
  function Low(n: nat): Register {
    if n == 0 then ZERO else Shifted(Low(n / 2), n % 2 == 1)
  }

  lemma Laws(x: Register, y: Register)
    ensures Sum(ONE, Sum(x, y)) == Sum(x, Sum(ONE, y)) && Sum(x, ZERO) == x
    ensures Sum(x, Product(x, y)) == Product(x, Sum(ONE, y)) && Product(x, ZERO) == ZERO
    ensures Shifted(Sum(ONE, x), false) == Sum(ONE, Shifted(x, true))
    ensures Shifted(x, true) == Sum(ONE, Shifted(x, false)) && Shifted(ZERO, false) == ZERO
  {
    hide Plus, Times, Double;
    PlusNext(x.bits, y.bits);
    TimesNext(x.bits, y.bits);
    Carry(x.bits);
    Zeros(x.bits);
  }

  lemma {:induction false} LowNext(n: nat)
    ensures Low(n + 1) == Sum(ONE, Low(n))
  {
    Laws(Low(n / 2), ZERO);
    hide Sum, Shifted, ZERO, ONE;
    if n % 2 == 1 {
      LowNext(n / 2);
      assert (n + 1) / 2 == n / 2 + 1;
    } else {
      assert (n + 1) / 2 == n / 2;
    }
  }

  lemma {:induction false} LowSum(a: nat, b: nat, sum: nat)
    requires sum == a + b
    ensures Low(sum) == Sum(Low(a), Low(b))
    decreases b
  {
    hide Sum, ZERO, ONE;
    Laws(Low(a), if b == 0 then ZERO else Low(b - 1));
    if b != 0 {
      LowSum(a, b - 1, sum - 1);
      LowNext(sum - 1);
      LowNext(b - 1);
    }
  }

  lemma {:induction false} LowProduct(a: nat, b: nat, product: nat)
    requires product == a * b
    ensures Low(product) == Product(Low(a), Low(b))
    decreases b
  {
    hide Sum, Product, ZERO, ONE;
    Laws(Low(a), if b == 0 then ZERO else Low(b - 1));
    if b != 0 {
      hide Low;
      assert product - a == a * (b - 1);
      LowProduct(a, b - 1, product - a);
      LowSum(a, product - a, product);
      LowNext(b - 1);
    }
  }

  lemma LowSumOfThree(a: nat, b: nat, c: nat, sum: nat)
    requires sum == a + b + c
    ensures Low(sum) == Sum(Sum(Low(a), Low(b)), Low(c))
  {
    hide *;
    LowSum(a, b, a + b);
    LowSum(a + b, c, sum);
  }

  // ---------------------------------------------------------------- sizes

  ghost predicate Below(x: Register, t: bv32) {
    x.bits < t
  }

  lemma ShiftedBelow(x: Register, t: bv32, bit: bool)
    requires Below(x, t) && t <= 0x8000
    ensures Below(Shifted(x, bit), 2 * t) && (Shifted(x, bit) == ZERO <==> x == ZERO && !bit)
  {
    DoubleBelow(x.bits, t, bit);
    hide Double;
  }

  /** One more bit doubles the bound, and zero still comes from zero only. */
  lemma LowBelow(n: nat, h: nat, t: bv32)
    requires n / 2 == h && Below(Low(h), t) && (Low(h) == ZERO <==> h == 0) && t <= 0x8000
    ensures Below(Low(n), 2 * t) && (Low(n) == ZERO <==> n == 0)
  {
    Laws(ZERO, ZERO);
    hide Shifted, Below, ZERO;
    ShiftedBelow(Low(h), t, n % 2 == 1);
  }

  lemma PairBelow(n: nat, h: nat, t: bv32)
    requires n / 4 == h && Below(Low(h), t) && (Low(h) == ZERO <==> h == 0) && t <= 0x4000
    ensures Below(Low(n), 4 * t) && (Low(n) == ZERO <==> n == 0)
  {
    assert n / 2 / 2 == h;
    hide *;
    LowBelow(n / 2, h, t);
    LowBelow(n, n / 2, 2 * t);
  }

  lemma ByteBelow(n: byte)
    ensures Below(Low(n), 0x100) && (Low(n) == ZERO <==> n == 0)
  {
    assert Below(Low(0), 1) && Low(0) == ZERO;
    hide *;
    PairBelow(n / 64, 0, 1);
    PairBelow(n / 16, n / 64, 4);
    PairBelow(n / 4, n / 16, 16);
    PairBelow(n, n / 4, 64);
  }

  /** Numbers of 16 bits keep their bound, and only zero becomes zero. */
  lemma HalfBelow(n: half)
    ensures Below(Low(n), 0x1_0000) && (Low(n) == ZERO <==> n == 0)
  {
    hide *;
    ByteBelow(n / 256);
    PairBelow(n / 64, n / 256, 0x100);
    PairBelow(n / 16, n / 64, 0x400);
    PairBelow(n / 4, n / 16, 0x1000);
    PairBelow(n, n / 4, 0x4000);
  }

  lemma SmallPowers()
    ensures Low(2) == Register(2) && Low(16) == Register(16) && Low(32) == Register(32)
  {
  }

  lemma Powers()
    ensures Low(2) == Register(2) && Low(512) == Register(512) && Low(1024) == Register(1024)
    ensures Low(TWO_TO_THE_32) == ZERO
  {
    SmallPowers();
    hide Low;
    LowProduct(2, 2, 4);
    LowProduct(16, 32, 512);
    LowProduct(32, 32, 1024);
    LowProduct(1024, 1024, 0x10_0000);
    LowProduct(0x10_0000, 1024, 0x4000_0000);
    LowProduct(0x4000_0000, 4, TWO_TO_THE_32);
  }
}
