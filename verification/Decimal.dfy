/** Decimal numbers: the printer that writes digits backwards and reverses them in place, and the
    reader of `<width>x<height>`. */
module Decimal {
  import opened MachineWords

  const ZERO: byte := 48
  const LETTER_X: byte := 120
  const NEWLINE: byte := 10

  predicate IsDigit(c: byte) {
    ZERO <= c <= ZERO + 9
  }

  /** The usual decimal notation. */
  function Notation(value: nat): (s: seq<byte>)
    ensures s != [] && forall i :: 0 <= i < |s| ==> IsDigit(s[i])
    ensures s[0] == ZERO ==> value == 0
  {
    if value < 10 then [ZERO + value] else Notation(value / 10) + [ZERO + value % 10]
  }

  /** The number a string of digits denotes. */
  function Value(s: seq<byte>): int {
    if s == [] then 0 else Value(s[..|s| - 1]) * 10 + (s[|s| - 1] - ZERO)
  }

  lemma {:induction false} NotationValue(value: nat)
    ensures Value(Notation(value)) == value
  {
    if 10 <= value {
      NotationValue(value / 10);
      var s := Notation(value);
      assert s[..|s| - 1] == Notation(value / 10);
    } else {
      assert Notation(value)[..0] == [];
    }
  }

  /** A 32-bit number has at most ten digits. */
  lemma NotationLength(value: word)
    ensures |Notation(value)| <= 10
  {
    ShortNotation(value, 10, 10000000000);
  }

  lemma {:induction false} ShortNotation(value: nat, n: nat, limit: nat)
    requires 1 <= n && value < limit && limit == TenTo(n)
    ensures |Notation(value)| <= n
    decreases n
  {
    if 10 <= value {
      ShortNotation(value / 10, n - 1, limit / 10);
    }
  }

  function TenTo(n: nat): nat {
    if n == 0 then 1 else 10 * TenTo(n - 1)
  }

  // ---------------------------------------------------------------- the printer

  /** The digits of a positive number, last one first. */
  function Backwards(value: nat): seq<byte> {
    if value == 0 then [] else [ZERO + value % 10] + Backwards(value / 10)
  }

  function Reversed(s: seq<byte>): (r: seq<byte>)
    ensures |r| == |s|
    ensures forall i :: 0 <= i < |s| ==> r[i] == s[|s| - 1 - i]
  {
    if s == [] then [] else Reversed(s[1..]) + [s[0]]
  }

  lemma {:induction false} BackwardsReversed(value: nat)
    requires 0 < value
    ensures Reversed(Backwards(value)) == Notation(value)
  {
    var s := Backwards(value);
    assert s[1..] == Backwards(value / 10) && s[0] == ZERO + value % 10;
    if 10 <= value {
      BackwardsReversed(value / 10);
    } else {
      assert Reversed([]) == [];
    }
  }

  method ReverseInPlace(str: array<byte>, n: nat)
    requires n <= str.Length
    modifies str
    ensures str[..n] == Reversed(old(str[..n])) && str[n..] == old(str[n..])
  {
    SwapEnds(str, n);
    assert forall k :: 0 <= k < n ==> str[..n][k] == old(str[..n])[n - 1 - k];
    ReversedBy(old(str[..n]), str[..n]);
  }

  lemma ReversedBy(s: seq<byte>, r: seq<byte>)
    requires |r| == |s| && forall k :: 0 <= k < |s| ==> r[k] == s[|s| - 1 - k]
    ensures r == Reversed(s)
  {
  }

  /** The loop of swaps. */
  method SwapEnds(str: array<byte>, n: nat)
    requires n <= str.Length
    modifies str
    ensures forall k :: 0 <= k < n ==> str[k] == old(str[n - 1 - k])
    ensures str[n..] == old(str[n..])
  {
    var i, j := 0, n - 1;
    while i < j
      invariant 0 <= i <= n && j == n - 1 - i && i <= j + 2
      invariant forall k :: 0 <= k < n ==> str[k] == if i <= k <= j then old(str[k]) else old(str[n - 1 - k])
      invariant forall k :: n <= k < str.Length ==> str[k] == old(str[k])
    {
      str[i], str[j] := str[j], str[i];
      i, j := i + 1, j - 1;
    }
  }

  lemma NextBackwards(rest: nat, done: seq<byte>)
    requires 0 < rest
    ensures |Backwards(rest)| == |Backwards(rest / 10)| + 1
    ensures done + Backwards(rest) == done + [ZERO + rest % 10] + Backwards(rest / 10)
  {
  }

  /** The digit loop. */
  method WriteDigits(value: nat, str: array<byte>) returns (index: nat)
    requires |Backwards(value)| <= str.Length
    modifies str
    ensures index == |Backwards(value)| && str[..index] == Backwards(value)
    ensures str[index..] == old(str[index..])
  {
    ghost var all := Backwards(value);
    var rest := value;
    index := 0;
    assert Backwards(0) == [];
    while rest > 0
      invariant index + |Backwards(rest)| == |all|
      invariant str[..index] + Backwards(rest) == all
      invariant str[index..] == old(str[index..])
    {
      hide Backwards;
      ghost var done, after := str[..index], str[index..];
      NextBackwards(rest, done);
      str[index] := ZERO + rest % 10;
      assert str[..index + 1] == done + [ZERO + rest % 10];
      assert str[index + 1..] == after[1..];
      assert old(str[index..])[1..] == old(str[index + 1..]);
      rest, index := rest / 10, index + 1;
    }
    hide Backwards;
    assert str[..index] == all;
  }

  /** Writes the number and a terminator; `length` is where the terminator stands. */
  method CreateStringFromUint(value: word, str: array<byte>) returns (ghost length: nat)
    requires |Notation(value)| < str.Length
    modifies str
    ensures length == |Notation(value)| <= 10
    ensures str[..length] == Notation(value) && str[length] == 0
    ensures str[length + 1..] == old(str[length + 1..])
  {
    NotationLength(value);
    if value == 0 {
      str[0] := ZERO;
      str[1] := 0;
      return 1;
    }
    BackwardsReversed(value);
    var index := Terminated(value, str);
    hide Notation, Backwards, Reversed;
    ReverseDigits(str, index);
    length := index;
  }

  /** The digits and the terminator behind them. */
  method Terminated(value: word, str: array<byte>) returns (index: nat)
    requires |Backwards(value)| < str.Length
    modifies str
    ensures index == |Backwards(value)| && str[..index] == Backwards(value) && str[index] == 0
    ensures str[index + 1..] == old(str[index + 1..])
  {
    hide Backwards;
    index := WriteDigits(value, str);
    ghost var digits, after := str[..index], str[index..];
    str[index] := 0;
    assert str[..index] == digits && str[index + 1..] == after[1..];
  }

  method ReverseDigits(str: array<byte>, n: nat)
    requires n < str.Length && str[n] == 0
    modifies str
    ensures str[..n] == Reversed(old(str[..n])) && str[n] == 0 && str[n + 1..] == old(str[n + 1..])
  {
    hide Reversed;
    ghost var after := str[n..];
    ReverseInPlace(str, n);
    assert str[n] == str[n..][0] && str[n + 1..] == str[n..][1..] && after[1..] == old(str[n + 1..]);
  }

  // ---------------------------------------------------------------- the reader

  /** Where the digits from p on end; the string is terminated. */
  function DigitsEnd(s: seq<byte>, p: nat): (q: nat)
    requires p < |s| && s[|s| - 1] == 0
    ensures p <= q < |s| && !IsDigit(s[q])
    ensures forall i :: p <= i < q ==> IsDigit(s[i])
    decreases |s| - p
  {
    if IsDigit(s[p]) then DigitsEnd(s, p + 1) else p
  }

  /** The number accumulated in an `int`, digit by digit. */
  function Accumulated(s: seq<byte>): int32 {
    if s == [] then 0 else ToInt32(Accumulated(s[..|s| - 1]) * 10 + (s[|s| - 1] - ZERO))
  }

  /** Accumulation wraps like the value itself. */
  lemma {:induction false} AccumulatedWraps(s: seq<byte>)
    ensures Accumulated(s) == ToInt32(Value(s))
  {
    if s != [] {
      AccumulatedWraps(s[..|s| - 1]);
      WrapTimesPlus(Value(s[..|s| - 1]), 10, s[|s| - 1] - ZERO);
    }
  }

  datatype Size = Size(res: int, width: int, height: int)

  /** What the reader makes of a terminated string. */
  function Fetched(s: seq<byte>): Size
    requires s != [] && s[|s| - 1] == 0
  {
    var p := DigitsEnd(s, 0);
    var width := Accumulated(s[..p]);
    if s[p] != LETTER_X then Size(0, width, 0)
    else
      var q := DigitsEnd(s, p + 1);
      Size(if s[q] == 0 || s[q] == NEWLINE then 2 else 0, width, Accumulated(s[p + 1..q]))
  }

  lemma NoDigits()
    ensures Accumulated([]) == 0
  {
  }

  lemma NextDigit(s: seq<byte>, from: nat, p: nat)
    requires from <= p < |s|
    ensures Accumulated(s[from..p + 1]) == ToInt32(Accumulated(s[from..p]) * 10 + (s[p] - ZERO))
  {
    hide ToInt32;
    var longer := s[from..p + 1];
    assert longer[..|longer| - 1] == s[from..p] && longer[|longer| - 1] == s[p];
  }

  /** The two digit loops. */
  method ReadInt(s: seq<byte>, from: nat) returns (value: int, p: nat)
    requires from < |s| && s[|s| - 1] == 0
    ensures p == DigitsEnd(s, from) && value == Accumulated(s[from..p])
  {
    hide ToInt32;
    hide Accumulated;
    assert s[from..from] == [] && Accumulated([]) == 0 by {
      NoDigits();
    }
    value, p := 0, from;
    while ZERO <= s[p] <= ZERO + 9
      invariant from <= p < |s| && DigitsEnd(s, p) == DigitsEnd(s, from)
      invariant value == Accumulated(s[from..p])
      decreases |s| - p
    {
      NextDigit(s, from, p);
      value := ToInt32(value * 10 + (s[p] - ZERO));
      p := p + 1;
    }
  }

  lemma {:induction false} DigitsEndAt(s: seq<byte>, p: nat, q: nat)
    requires p <= q < |s| && s[|s| - 1] == 0 && !IsDigit(s[q])
    requires forall i :: p <= i < q ==> IsDigit(s[i])
    ensures DigitsEnd(s, p) == q
    decreases q - p
  {
    if p < q {
      DigitsEndAt(s, p + 1, q);
    }
  }

  ghost predicate Digits(s: seq<byte>) {
    forall i :: 0 <= i < |s| ==> 48 <= s[i] <= 57
  }

  /** Two runs of digits with an x between them, whatever follows: its first byte is not a digit, and its
      last is zero. */
  ghost predicate SizeText(s: seq<byte>, a: seq<byte>, b: seq<byte>, c: byte, rest: seq<byte>) {
    && Digits(a) && Digits(b) && !(48 <= c <= 57) && s == a + [120] + b + [c] + rest && s[|s| - 1] == 0
  }

  /** A run of digits with no x behind it. */
  ghost predicate NoSizeText(s: seq<byte>, a: seq<byte>, c: byte, rest: seq<byte>) {
    && Digits(a) && !(48 <= c <= 57) && c != 120 && s == a + [c] + rest && s[|s| - 1] == 0
  }

  /** What is read of either text: a size counts when a zero or a newline ends it. */
  lemma FetchedSize(s: seq<byte>, a: seq<byte>, b: seq<byte>, c: byte, rest: seq<byte>)
    requires SizeText(s, a, b, c, rest)
    ensures Fetched(s) == Size(if c == 0 || c == 10 then 2 else 0, ToInt32(Value(a)), ToInt32(Value(b)))
  {
    hide Accumulated, DigitsEnd, ToInt32, Value;
    AccumulatedWraps(a);
    AccumulatedWraps(b);
    var p, q := |a|, |a| + 1 + |b|;
    assert s[p] == LETTER_X && s[q] == c && s[..p] == a && s[p + 1..q] == b;
    forall i | 0 <= i < p
      ensures IsDigit(s[i])
    {
      assert s[i] == a[i];
    }
    forall i | p + 1 <= i < q
      ensures IsDigit(s[i])
    {
      assert s[i] == b[i - (p + 1)];
    }
    DigitsEndAt(s, 0, p);
    DigitsEndAt(s, p + 1, q);
  }

  lemma FetchedNoSize(s: seq<byte>, a: seq<byte>, c: byte, rest: seq<byte>)
    requires NoSizeText(s, a, c, rest)
    ensures Fetched(s) == Size(0, ToInt32(Value(a)), 0)
  {
    hide Accumulated, DigitsEnd, ToInt32, Value;
    AccumulatedWraps(a);
    var p := |a|;
    assert s[p] == c && s[..p] == a;
    forall i | 0 <= i < p
      ensures IsDigit(s[i])
    {
      assert s[i] == a[i];
    }
    DigitsEndAt(s, 0, p);
  }

  /** Every terminated string is one of the two texts. */
  lemma EitherText(s: seq<byte>)
    requires s != [] && s[|s| - 1] == 0
    ensures (exists a, b, c, rest :: SizeText(s, a, b, c, rest)) || (exists a, c, rest :: NoSizeText(s, a, c, rest))
  {
    hide DigitsEnd;
    var p := DigitsEnd(s, 0);
    if s[p] == LETTER_X {
      var q := DigitsEnd(s, p + 1);
      assert SizeText(s, s[..p], s[p + 1..q], s[q], s[q + 1..]);
    } else {
      assert NoSizeText(s, s[..p], s[p], s[p + 1..]);
    }
  }

  /** Reads a size. All three answers are fixed by the text. */
  method FetchWH(str: seq<byte>) returns (res: int, width: int, height: int)
    requires str != [] && str[|str| - 1] == 0
    ensures Size(res, width, height) == Fetched(str)
    ensures forall a, b, c, rest :: SizeText(str, a, b, c, rest) ==>
      (res, width, height) == (if c == 0 || c == 10 then 2 else 0, ToInt32(Value(a)), ToInt32(Value(b)))
    ensures forall a, c, rest :: NoSizeText(str, a, c, rest) ==> (res, width, height) == (0, ToInt32(Value(a)), 0)
  {
    FetchedTexts(str);
    hide SizeText, NoSizeText, ToInt32, Value;
    height := 0;
    var p: nat;
    width, p := ReadInt(str, 0);
    if str[p] != LETTER_X {
      return 0, width, height;
    }
    height, p := ReadInt(str, p + 1);
    res := if str[p] == 0 || str[p] == NEWLINE then 2 else 0;
  }

  lemma FetchedTexts(s: seq<byte>)
    requires s != [] && s[|s| - 1] == 0
    ensures forall a, b, c, rest :: SizeText(s, a, b, c, rest) ==>
      Fetched(s) == Size(if c == 0 || c == 10 then 2 else 0, ToInt32(Value(a)), ToInt32(Value(b)))
    ensures forall a, c, rest :: NoSizeText(s, a, c, rest) ==> Fetched(s) == Size(0, ToInt32(Value(a)), 0)
  {
    hide Fetched, SizeText, NoSizeText, ToInt32, Value;
    forall a, b, c, rest | SizeText(s, a, b, c, rest)
      ensures Fetched(s) == Size(if c == 0 || c == 10 then 2 else 0, ToInt32(Value(a)), ToInt32(Value(b)))
    {
      FetchedSize(s, a, b, c, rest);
    }
    forall a, c, rest | NoSizeText(s, a, c, rest)
      ensures Fetched(s) == Size(0, ToInt32(Value(a)), 0)
    {
      FetchedNoSize(s, a, c, rest);
    }
  }

  /** What the reader makes of `<w>x<h>` as the printer writes the numbers, ended by a zero or by a
      newline before any other text, and of the same with another ending. */
  lemma PrintedIsFetched(w: word, h: word, c: byte, rest: seq<byte>)
    requires !(48 <= c <= 57) && ([c] + rest)[|rest|] == 0
    ensures Fetched(Notation(w) + [LETTER_X] + Notation(h) + [c] + rest) ==
      Size(if c == 0 || c == 10 then 2 else 0, ToInt32(w), ToInt32(h))
  {
    var a, b := Notation(w), Notation(h);
    hide Notation, Value, ToInt32, Fetched;
    NotationValue(w);
    NotationValue(h);
    var s := a + [LETTER_X] + b + [c] + rest;
    assert s[|s| - 1] == ([c] + rest)[|rest|];
    FetchedSize(s, a, b, c, rest);
  }

  /** The numbers are read back as they were exactly when both lie below 2^31. */
  lemma RoundTripExact(w: word, h: word)
    ensures Fetched(Notation(w) + [LETTER_X] + Notation(h) + [0]) == Size(2, w, h)
      <==> w < 0x8000_0000 && h < 0x8000_0000
  {
    hide Fetched;
    hide Notation;
    PrintedIsFetched(w, h, 0, []);
    assert Notation(w) + [LETTER_X] + Notation(h) + [0] + [] == Notation(w) + [LETTER_X] + Notation(h) + [0];
  }

  /** The size of the shipped settings, 1024x768 and a newline. */
  lemma ShippedSize()
    ensures Fetched([49, 48, 50, 52, 120, 55, 54, 56, 10, 0]) == Size(2, 1024, 768)
  {
    var a, b := [49, 48, 50, 52], [55, 54, 56];
    assert Notation(1024) == a by {
      assert Notation(10) == [49, 48] && Notation(102) == [49, 48, 50];
    }
    assert Notation(768) == b by {
      assert Notation(76) == [55, 54];
    }
    hide Notation, Fetched;
    PrintedIsFetched(1024, 768, 10, [0]);
    assert a + [LETTER_X] + b + [10] + [0] == [49, 48, 50, 52, 120, 55, 54, 56, 10, 0];
  }

  /** A width of 2^31 is read back as a negative number. */
  lemma WidthWraps(h: word)
    requires h < 0x8000_0000
    ensures Fetched(Notation(0x8000_0000) + [LETTER_X] + Notation(h) + [0]) == Size(2, -0x8000_0000, h)
  {
    hide Fetched, Notation;
    PrintedIsFetched(0x8000_0000, h, 0, []);
    assert Notation(0x8000_0000) + [LETTER_X] + Notation(h) + [0] + []
        == Notation(0x8000_0000) + [LETTER_X] + Notation(h) + [0];
  }
}
