/**
 * The arithmetic logic unit: addition of bit strings by repeated sum-and-carry, decoding of a
 * two's-complement bit string, and the 4-bit condition code register that add and subtract
 * report overflow in.
 */
module Alu {
  import opened Binary
  import opened JavaInt
  import opened Wrappers
  import opened Units

  // ---------------------------------------------------------------------------
  // addBinary

  /** The digit of the sum string: '0' when both digits are '1' or both are '0'. */
  function SumChar(x: char, y: char): char
  {
    if (x == '1' && y == '1') || (x == '0' && y == '0') then '0' else '1'
  }

  /** The digit of the carry string: '1' when both digits are '1'. */
  function CarryChar(x: char, y: char): char
  {
    if x == '1' && y == '1' then '1' else '0'
  }

  function SumText(a: string, b: string): (s: string)
    requires |a| == |b|
    ensures |s| == |a|
  {
    seq(|a|, i requires 0 <= i < |a| => SumChar(a[i], b[i]))
  }

  function CarryText(a: string, b: string): (s: string)
    requires |a| == |b|
    ensures |s| == |a|
  {
    seq(|a|, i requires 0 <= i < |a| => CarryChar(a[i], b[i]))
  }

  /** One round of addBinary keeps the total: sum + 2 * carry == a + b. */
  lemma {:induction false} SumCarryValue(a: string, b: string)
    requires |a| == |b| && IsBinary(a) && IsBinary(b)
    ensures IsBinary(SumText(a, b)) && IsBinary(CarryText(a, b))
    ensures Unsigned(SumText(a, b)) + 2 * Unsigned(CarryText(a, b)) == Unsigned(a) + Unsigned(b)
  {
    var n := |a|;
    if n > 0 {
      var a', b' := a[..n - 1], b[..n - 1];
      assert SumText(a, b)[..n - 1] == SumText(a', b');
      assert CarryText(a, b)[..n - 1] == CarryText(a', b');
      SumCarryValue(a', b');
    }
  }

  /** The value of the lowest set bit of v (0 when v is 0). */
  function LowBitOf(v: nat): nat
  {
    if v == 0 then 0 else if v % 2 == 1 then 1 else 2 * LowBitOf(v / 2)
  }

  lemma {:induction false} LowBitBounds(v: nat)
    ensures v > 0 ==> 1 <= LowBitOf(v) <= v
  {
    if v > 0 && v % 2 == 0 {
      LowBitBounds(v / 2);
    }
  }

  lemma {:induction false} LowBitDouble(v: nat)
    ensures LowBitOf(2 * v) == 2 * LowBitOf(v)
  {
    if v > 0 {
      DivModUnique(2 * v, 2, v, 0);
    }
  }

  /** The carry's lowest set bit is no lower than b's. */
  lemma {:induction false} CarryLowBit(a: string, b: string)
    requires |a| == |b| && IsBinary(a) && IsBinary(b)
    requires Unsigned(CarryText(a, b)) > 0
    ensures LowBitOf(Unsigned(CarryText(a, b))) >= LowBitOf(Unsigned(b))
  {
    var n := |a|;
    var c := CarryText(a, b);
    var a', b' := a[..n - 1], b[..n - 1];
    assert c[..n - 1] == CarryText(a', b');
    if b[n - 1] == '1' {
      LowBitBounds(Unsigned(c));
      DivModUnique(Unsigned(b), 2, Unsigned(b'), 1);
    } else {
      assert c[n - 1] == '0';
      var u, w := Unsigned(CarryText(a', b')), Unsigned(b');
      LowBitDouble(u);
      LowBitDouble(w);
      CarryLowBit(a', b');
    }
  }

  /** A bit string contains a '1' exactly when its unsigned reading is positive. */
  lemma {:induction false} OneIffPositive(s: string)
    ensures '1' in s <==> Unsigned(s) > 0
  {
    if s != [] {
      var p := s[..|s| - 1];
      OneIffPositive(p);
      assert s == p + [s[|s| - 1]];
    }
  }

  /** A bit string that starts with '1' is the minimal rendering of its value. */
  lemma {:induction false} Canonical(s: string)
    requires IsBinary(s) && |s| > 0 && s[0] == '1'
    ensures NatToBinary(Unsigned(s)) == s
  {
    if |s| == 1 {
      assert s == "1";
    } else {
      var p := s[..|s| - 1];
      Canonical(p);
      var v := Unsigned(s);
      OneIffPositive(p);
      DivModUnique(v, 2, Unsigned(p), BitValue(s[|s| - 1]));
      assert s == p + [s[|s| - 1]];
    }
  }

  /** `s.indexOf('1')`. */
  function IndexOfOne(s: string): (i: int)
    ensures -1 <= i < |s|
    ensures i == -1 <==> '1' !in s
    ensures i >= 0 ==> s[i] == '1' && '1' !in s[..i]
  {
    if s == [] then -1
    else
      var n := |s| - 1;
      var j := IndexOfOne(s[..n]);
      assert s == s[..n] + [s[n]];
      if j >= 0 then
        assert s[..n][..j] == s[..j];
        j
      else if s[n] == '1' then n
      else -1
  }

  /** What addBinary returns: the minimal bit string of value(a) + value(b); when both are 0,
      a itself (a string of zeros). */
  function BinarySum(a: string, b: string): (r: string)
    ensures Unsigned(a) + Unsigned(b) > 0 ==>
      IsBinary(r) && Unsigned(r) == Unsigned(a) + Unsigned(b) && r[0] == '1'
    ensures Unsigned(a) + Unsigned(b) == 0 ==> r == a
  {
    var v := Unsigned(a) + Unsigned(b);
    if v == 0 then a else NatToBinary(v)
  }

  /** Dropping the zeros before the first '1' keeps the value and leaves the minimal rendering. */
  lemma {:induction false} StripLeadingZeros(a: string, k: nat)
    requires IsBinary(a) && k < |a| && a[k] == '1' && '1' !in a[..k]
    ensures Unsigned(a) == Unsigned(a[k..]) && NatToBinary(Unsigned(a)) == a[k..]
  {
    var p, q := a[..k], a[k..];
    OneIffPositive(p);
    UnsignedZeroPrefix(p, q);
    assert p + q == a;
    Canonical(q);
  }

  /** With no '1' in b, addBinary strips a's leading zeros, or returns a when it has no '1'. */
  lemma {:induction false} BinarySumOfZero(a: string, b: string)
    requires IsBinary(a) && '1' !in b
    ensures '1' !in a ==> BinarySum(a, b) == a
    ensures '1' in a ==> BinarySum(a, b) == a[IndexOfOne(a)..]
  {
    OneIffPositive(b);
    OneIffPositive(a);
    if '1' in a {
      var k := IndexOfOne(a);
      StripLeadingZeros(a, k);
      var v := Unsigned(a) + Unsigned(b);
      assert v == Unsigned(a) > 0;
      assert BinarySum(a, b) == NatToBinary(v);
    }
  }

  /** `addBinary(a, b)`: pad the shorter string with zeros, form the sum and carry strings
      digit by digit from the right, and add those two, until the second one has no '1'.
      The recursion ends because the carry's lowest set bit moves left every round while
      the total stays the same. */
  method AddBinary(a: string, b: string) returns (r: string)
    requires IsBinary(a) && IsBinary(b)
    ensures r == BinarySum(a, b)
    decreases (if '1' in b then 1 else 0), Unsigned(a) + Unsigned(b) - LowBitOf(Unsigned(b))
  {
    if IndexOfOne(b) == -1 {
      BinarySumOfZero(a, b);
      if IndexOfOne(a) == -1 {
        return a;
      }
      return a[IndexOfOne(a)..];
    }
    var a1, b1 := a, b;
    var diff := Abs(|a| - |b|);
    if |a1| > |b1| {
      b1 := PrependZeros(b1, diff);
    } else {
      a1 := PrependZeros(a1, diff);
    }
    UnsignedLeadingZeros(|a1| - |a|, a);
    UnsignedLeadingZeros(|b1| - |b|, b);
    var sum, carry := SumAndCarry(a1, b1);
    NextRound(a1, b1, a, b);
    r := AddBinary(sum, carry);
  }

  /** addBinary's padding loop: `count` times, put a '0' in front. */
  method PrependZeros(s: string, count: int) returns (t: string)
    ensures t == Replicate('0', if count > 0 then count else 0) + s
  {
    t := s;
    var i := 0;
    while i < count
      invariant 0 <= i && (count > 0 ==> i <= count) && (count <= 0 ==> i == 0)
      invariant t == Replicate('0', i) + s
    {
      t := "0" + t;
      i := i + 1;
    }
  }

  /** addBinary's digit loop, from the last digit to the first: the sum string, and the carry
      string followed by a '0' (the carry into the next place). */
  method SumAndCarry(a: string, b: string) returns (sum: string, carry: string)
    requires |a| == |b|
    ensures sum == SumText(a, b) && carry == CarryText(a, b) + "0"
  {
    sum := "";
    carry := "0";
    var i := |a| - 1;
    while i >= 0
      invariant -1 <= i < |a|
      invariant |sum| == |a| - 1 - i && |carry| == |sum| + 1 && carry[|sum|] == '0'
      invariant forall k :: 0 <= k < |sum| ==> sum[k] == SumChar(a[i + 1 + k], b[i + 1 + k])
      invariant forall k :: 0 <= k < |sum| ==> carry[k] == CarryChar(a[i + 1 + k], b[i + 1 + k])
    {
      if (a[i] == '1' && b[i] == '1') || (a[i] == '0' && b[i] == '0') {
        sum := "0" + sum;
      } else {
        sum := "1" + sum;
      }
      if a[i] == '1' && b[i] == '1' {
        carry := "1" + carry;
      } else {
        carry := "0" + carry;
      }
      i := i - 1;
    }
    assert carry == CarryText(a, b) + "0";
  }

  /** The round's sum and carry keep the total and raise the measure of addBinary's recursion. */
  lemma {:induction false} NextRound(a1: string, b1: string, a: string, b: string)
    requires |a1| == |b1| && IsBinary(a1) && IsBinary(b1) && '1' in b
    requires Unsigned(a1) == Unsigned(a) && Unsigned(b1) == Unsigned(b)
    ensures var sum, carry := SumText(a1, b1), CarryText(a1, b1) + "0";
      IsBinary(sum) && IsBinary(carry) &&
      BinarySum(sum, carry) == BinarySum(a, b) &&
      ('1' in carry ==> LowBitOf(Unsigned(carry)) > LowBitOf(Unsigned(b)) &&
                        0 <= Unsigned(a) + Unsigned(b) - LowBitOf(Unsigned(b)))
  {
    RoundTotal(a1, b1, a, b);
    var c := CarryText(a1, b1);
    if '1' in c + "0" {
      RoundMeasure(a1, b1, b);
    }
  }

  /** One round of addBinary leaves the same sum to compute. */
  lemma {:induction false} RoundTotal(a1: string, b1: string, a: string, b: string)
    requires |a1| == |b1| && IsBinary(a1) && IsBinary(b1) && '1' in b
    requires Unsigned(a1) == Unsigned(a) && Unsigned(b1) == Unsigned(b)
    ensures var sum, carry := SumText(a1, b1), CarryText(a1, b1) + "0";
      IsBinary(sum) && IsBinary(carry) && BinarySum(sum, carry) == BinarySum(a, b)
  {
    var s, c := SumText(a1, b1), CarryText(a1, b1);
    SumCarryValue(a1, b1);
    ShiftedCarry(c);
    OneIffPositive(b);
    SumOfTotal(s, c + "0", a, b);
  }

  /** Two pairs of bit strings with the same positive total have the same sum string. */
  lemma {:induction false} SumOfTotal(x: string, y: string, x': string, y': string)
    requires Unsigned(x) + Unsigned(y) == Unsigned(x') + Unsigned(y') > 0
    ensures BinarySum(x, y) == BinarySum(x', y')
  {
    var r := NatToBinary(Unsigned(x) + Unsigned(y));
    assert BinarySum(x, y) == r;
    assert BinarySum(x', y') == r;
  }

  /** One round of addBinary moves the carry's lowest set bit above b's. */
  lemma {:induction false} RoundMeasure(a1: string, b1: string, b: string)
    requires |a1| == |b1| && IsBinary(a1) && IsBinary(b1) && '1' in b
    requires Unsigned(b1) == Unsigned(b)
    requires '1' in CarryText(a1, b1) + "0"
    ensures LowBitOf(Unsigned(CarryText(a1, b1) + "0")) > LowBitOf(Unsigned(b))
    ensures LowBitOf(Unsigned(b)) <= Unsigned(b)
  {
    var c := CarryText(a1, b1);
    SumCarryValue(a1, b1);
    ShiftedCarry(c);
    OneIffPositive(c + "0");
    OneIffPositive(b);
    LowBitBounds(Unsigned(b));
    CarryLowBit(a1, b1);
    LowBitDouble(Unsigned(c));
  }

  /** The carry string followed by '0' is worth twice the carry string. */
  lemma {:induction false} ShiftedCarry(c: string)
    requires IsBinary(c)
    ensures IsBinary(c + "0") && Unsigned(c + "0") == 2 * Unsigned(c)
  {
    var s := c + "0";
    assert s[..|s| - 1] == c;
  }

  // ---------------------------------------------------------------------------
  // bTD and createOneBitString

  /** Java's `(int)` cast of a double that holds an exact integer: a value above the int
      maximum becomes the maximum, one below the minimum the minimum, and an int stays. */
  function Saturate(x: int): (r: int)
    ensures IsInt32(r)
    ensures IsInt32(x) ==> r == x
    ensures x > IntMax ==> r == IntMax
    ensures x < IntMin ==> r == IntMin
  {
    if x > IntMax then IntMax else if x < IntMin then IntMin else x
  }

  function MinInt(a: int, b: int): int { if a < b then a else b }

  /** What bTD returns: the two's-complement reading of the digits, where the running total of
      the non-sign digits saturates at the int maximum and the final subtraction at the minimum. */
  function SaturatedReading(s: string): (r: int)
    ensures IsInt32(r)
  {
    if |s| == 0 then 0
    else if s[0] == '1' then Saturate(MinInt(SuffixValue(s, 1), IntMax) - Pow2(|s| - 1))
    else MinInt(SuffixValue(s, 0), IntMax)
  }

  /** Up to 32 digits, bTD is the exact two's-complement reading. */
  lemma {:induction false} SaturatedReadingShort(s: string)
    requires IsBinary(s) && |s| <= 32
    ensures SaturatedReading(s) == Signed(s)
  {
    if |s| > 0 {
      SuffixValueUnsigned(s);
      Pow2Of32();
      Pow2Monotone(|s| - 1, 31);
      Pow2Monotone(|s|, 32);
      assert Pow2(|s|) == 2 * Pow2(|s| - 1);
    }
  }

  /** A 33-digit string with a leading '1' (a negative sum that carried out) decodes as the
      int minimum. */
  lemma {:induction false} SaturatedReadingCarryOut(s: string)
    requires IsBinary(s) && |s| == 33 && s[0] == '1'
    ensures SaturatedReading(s) == IntMin
  {
    Pow2Of32();
  }

  /** `bTD(bin)`: from the last digit to the first, add each digit times 2^j; the first
      digit, when '1', is subtracted instead. Each digit is read by Integer.parseInt in base
      ten; add and subtract only pass bit strings, so every digit is 0 or 1. Math.pow(2, j)
      is exact for j < 1024. */
  method BinaryToDecimal(bin: string) returns (dec: int)
    requires IsBinary(bin) && |bin| <= 1024
    ensures dec == SaturatedReading(bin)
  {
    dec := 0;
    var i, j := |bin| - 1, 0;
    while i >= 0
      invariant -1 <= i < |bin| && j == |bin| - 1 - i
      invariant i >= 0 ==> dec == MinInt(SuffixValue(bin, i + 1), IntMax)
      invariant i < 0 ==> dec == SaturatedReading(bin)
    {
      var curr := bin[i];
      var digit := if curr == '1' then 1 else 0;
      if i == 0 && curr == '1' {
        dec := Saturate(dec - digit * Pow2(j));
      } else {
        dec := Saturate(dec + digit * Pow2(j));
      }
      i, j := i - 1, j + 1;
    }
  }

  /** What createOneBitString(k) returns: k zeros then "1", or "" when k <= 0. */
  function OneBitText(k: int): (s: string)
    ensures k <= 0 ==> s == ""
    ensures k > 0 ==> |s| == k + 1 && IsBinary(s) && Unsigned(s) == 1 && s[k] == '1'
  {
    if k <= 0 then ""
    else
      var s := Replicate('0', k) + "1";
      UnsignedAppend(Replicate('0', k), "1");
      UnsignedZeros(k);
      s
  }

  /** `createOneBitString(size)`. */
  method CreateOneBitString(size: int) returns (str: string)
    ensures str == OneBitText(size)
  {
    str := "";
    var i := 0;
    while i < size
      invariant 0 <= i && (size > 0 ==> i <= size) && (size <= 0 ==> i == 0)
      invariant str == if i == size && size > 0 then Replicate('0', i) + "1" else Replicate('0', i)
    {
      str := str + "0";
      if i == size - 1 {
        str := str + "1";
      }
      i := i + 1;
    }
  }

  /** The bits inverted, as subtract's first loop leaves them. */
  function Complement(d: seq<int>): (c: seq<int>)
    ensures |c| == |d|
  {
    seq(|d|, i requires 0 <= i < |d| => 1 - d[i])
  }

  /** Inverting n bits gives 2^n - 1 - value: adding one then negates modulo 2^n. */
  lemma {:induction false} ComplementValue(d: seq<int>)
    requires IsDigits(d)
    ensures IsDigits(Complement(d)) && DigitsValue(Complement(d)) + DigitsValue(d) == Pow2(|d|) - 1
  {
    if d != [] {
      var n := |d|;
      assert Complement(d)[..n - 1] == Complement(d[..n - 1]);
      ComplementValue(d[..n - 1]);
    }
  }

  /** 1 + 1 in five bits: the sum string is "10", which bTD decodes as -2, where the low
      five digits "00010" read in two's complement are 2. */
  lemma {:induction false} OnePlusOneInFiveBits()
    ensures BinarySum("00001", "00001") == "10"
    ensures SaturatedReading("10") == -2
    ensures WrappedReading("10", 5) == 2
  {
    assert "00001" == Replicate('0', 4) + "1";
    UnsignedLeadingZeros(4, "1");
    assert Unsigned("1") == 1;
    assert NatToBinary(2) == NatToBinary(1) + "0";
    assert SuffixValue("10", 1) == 0;
    LowTwoInFiveDigits();
  }

  /** The low five digits of "10" and of "100010" are "00010", which reads 2. */
  lemma {:induction false} LowTwoInFiveDigits()
    ensures LowDigits("10", 5) == "00010" && LowDigits("100010", 5) == "00010"
    ensures Signed("00010") == 2
  {
    assert "00010" == Replicate('0', 3) + "10";
    UnsignedLeadingZeros(3, "10");
    assert "10"[..1] == "1";
    assert Unsigned("1") == 1;
  }

  /** -1 as a four-bit Unit plus 1 as an eight-bit Unit: the digits "1111" and "00000001"
      add to "10000", which bTD reads as -16, a value in the eight-bit range, where the
      intended sum is 0. The narrower operand is not sign-extended. */
  lemma {:induction false} MinusOnePlusOneMixedWidths()
    ensures BinarySum("1111", "00000001") == "10000"
    ensures SaturatedReading("10000") == -16 && InRange(8, -16)
  {
    MixedWidthOperands();
    SixteenText();
    SaturatedReadingShort("10000");
  }

  /** The digits of -1 in four bits and of 1 in eight bits read 15 and 1. */
  lemma {:induction false} MixedWidthOperands()
    ensures Unsigned("1111") == 15 && Unsigned("00000001") == 1
  {
    assert "1111" == Replicate('1', 4);
    UnsignedOnes(4);
    assert "00000001" == Replicate('0', 7) + "1";
    UnsignedLeadingZeros(7, "1");
    assert Unsigned("1") == 1;
  }

  /** The minimal bit string of 16, and its two's-complement reading. */
  lemma {:induction false} SixteenText()
    ensures NatToBinary(16) == "10000" && IsBinary("10000") && Signed("10000") == -16
  {
    assert NatToBinary(1) == "1";
    assert NatToBinary(2) == "10";
    assert NatToBinary(4) == "100";
    assert NatToBinary(8) == "1000";
  }

  /** The low `size` digits of a sum string; a shorter one is filled with zeros in front. */
  function LowDigits(s: string, size: nat): (t: string)
    ensures |t| == size
  {
    if |s| >= size then s[|s| - size..] else Replicate('0', size - |s|) + s
  }

  /** The two's-complement reading of the low `size` digits of a sum string: the carry out
      of the top digit is dropped. */
  function WrappedReading(s: string, size: nat): (r: int)
    requires size >= 1
    ensures InTwosRange(size, r)
  {
    SignedRange(LowDigits(s, size));
    Signed(LowDigits(s, size))
  }

  /** A string of n >= 1 digits reads, in two's complement, within the range of n digits. */
  lemma {:induction false} SignedRange(t: string)
    requires |t| >= 1
    ensures InTwosRange(|t|, Signed(t))
  {
    UnsignedFirst(t);
    assert Pow2(|t|) == 2 * Pow2(|t| - 1);
  }

  /** Dropping all but the low `size` digits of a bit string and reading them in two's
      complement moves its unsigned reading by a multiple of 2^size. */
  lemma {:induction false} WrappedReadingOffset(s: string, size: nat) returns (k: int)
    requires size >= 1
    ensures Unsigned(s) - WrappedReading(s, size) == k * Pow2(size)
  {
    var t, P := LowDigits(s, size), Pow2(size);
    var high: int;
    if |s| >= size {
      var h := s[..|s| - size];
      assert s == h + t;
      UnsignedAppend(h, t);
      high := Unsigned(h);
    } else {
      UnsignedLeadingZeros(size - |s|, s);
      high := 0;
    }
    k := LowOffset(Unsigned(s), high, Unsigned(t), Signed(t), P);
  }

  /** u = high * P + ut, and st is ut or ut - P: u and st differ by a multiple of P. */
  lemma {:induction false} LowOffset(u: int, high: int, ut: int, st: int, P: int) returns (k: int)
    requires u == high * P + ut && (st == ut || st == ut - P)
    ensures u - st == k * P
  {
    if st == ut {
      k := high;
    } else {
      k := high + 1;
      assert (high + 1) * P == high * P + P;
    }
  }

  /** Two values that both differ from u by multiples of P differ from each other by one. */
  lemma {:induction false} CommonOffset(u: int, w: int, x: int, a: int, b: int, P: int) returns (k: int)
    requires u - w == a * P && u - x == b * P
    ensures w - x == k * P
  {
    k := b - a;
    assert (b - a) * P == b * P - a * P;
  }

  /** The sum string of two bit strings sign-extended to `size` digits. */
  function ExtendedSum(t1: string, t2: string, size: nat): string
  {
    BinarySum(SignExtended(t1, size), SignExtended(t2, size))
  }

  /** The sum string of two bit strings sign-extended to `size` digits, the second negated in
      that width. */
  function ExtendedDifference(t1: string, t2: string, size: nat): string
  {
    BinarySum(Negated(SignExtended(t2, size)), SignExtended(t1, size))
  }

  /** The sum string of addBinary reads as the sum of the operands' readings. */
  lemma {:induction false} BinarySumValue(a: string, b: string)
    requires IsBinary(a) && IsBinary(b)
    ensures Unsigned(BinarySum(a, b)) == Unsigned(a) + Unsigned(b)
  {
    if Unsigned(a) + Unsigned(b) == 0 {
      assert BinarySum(a, b) == a;
    }
  }

  /** Sign-extended to a common width and added, two bit strings give a sum string whose low
      `size` digits, read in two's complement, are congruent modulo 2^size to the sum of the
      strings' own two's-complement readings (and lie in that width's range, by
      WrappedReading). */
  lemma {:induction false} WrappedSumOffset(t1: string, t2: string, size: nat) returns (k: int)
    requires IsBinary(t1) && IsBinary(t2) && 1 <= |t1| <= size && 1 <= |t2| <= size
    ensures WrappedReading(ExtendedSum(t1, t2, size), size) - (Signed(t1) + Signed(t2)) == k * Pow2(size)
  {
    var s := ExtendedSum(t1, t2, size);
    var a := WrappedReadingOffset(s, size);
    var b := ExtendedSumOffset(t1, t2, size);
    k := CommonOffset(Unsigned(s), WrappedReading(s, size), Signed(t1) + Signed(t2), a, b, Pow2(size));
  }

  /** The unsigned reading of the sum of the sign-extended strings exceeds the sum of their
      two's-complement readings by a multiple of 2^size. */
  lemma {:induction false} ExtendedSumOffset(t1: string, t2: string, size: nat) returns (k: int)
    requires IsBinary(t1) && IsBinary(t2) && 1 <= |t1| <= size && 1 <= |t2| <= size
    ensures Unsigned(ExtendedSum(t1, t2, size)) -
            (Signed(t1) + Signed(t2)) == k * Pow2(size)
  {
    var P, e1, e2 := Pow2(size), SignExtended(t1, size), SignExtended(t2, size);
    var o1 := ExtendedOffset(t1, size);
    var o2 := ExtendedOffset(t2, size);
    BinarySumValue(e1, e2);
    k := OffsetMultiple(Unsigned(BinarySum(e1, e2)) - (Signed(t1) + Signed(t2)), P, o1 + o2, 0);
  }

  /** Sign-extended to `size` digits, a bit string reads unsigned as its two's-complement
      reading plus 0 or 2^size. */
  lemma {:induction false} ExtendedOffset(t: string, size: nat) returns (o: int)
    requires IsBinary(t) && 1 <= |t| <= size
    ensures IsBinary(SignExtended(t, size)) && |SignExtended(t, size)| == size
    ensures (o == 0 || o == Pow2(size)) && Unsigned(SignExtended(t, size)) == Signed(t) + o
  {
    var e := SignExtended(t, size);
    SignExtendedValue(t, size);
    o := if e[0] == '1' then Pow2(size) else 0;
  }

  /** Two's-complement negation of a bit string in its own width: every digit turned over,
      plus one. */
  function Negated(e: string): (n: string)
    ensures IsBinary(n) && Unsigned(n) + Unsigned(e) == Pow2(|e|)
  {
    FlippedValue(e);
    assert Unsigned("1") == 1;
    BinarySum(Flipped(e), "1")
  }

  /** The sum of the turned-over digits and "1" is the negation. */
  lemma {:induction false} NegatedText(e: string, n: string)
    requires n == BinarySum(Flipped(e), "1")
    ensures n == Negated(e) && IsBinary(n)
  {
  }

  /** Sign-extended to a common width, the second negated in that width and the first added,
      two bit strings give a sum string whose low `size` digits, read in two's complement, are
      congruent modulo 2^size to the difference of their readings. */
  lemma {:induction false} WrappedDifferenceOffset(t1: string, t2: string, size: nat) returns (k: int)
    requires IsBinary(t1) && IsBinary(t2) && 1 <= |t1| <= size && 1 <= |t2| <= size
    ensures WrappedReading(ExtendedDifference(t1, t2, size), size) - (Signed(t1) - Signed(t2)) == k * Pow2(size)
  {
    var s := ExtendedDifference(t1, t2, size);
    var a := WrappedReadingOffset(s, size);
    var b := ExtendedDifferenceOffset(t1, t2, size);
    k := CommonOffset(Unsigned(s), WrappedReading(s, size), Signed(t1) - Signed(t2), a, b, Pow2(size));
  }

  /** The unsigned reading of the negated second string plus the first, both sign-extended,
      exceeds the difference of their two's-complement readings by a multiple of 2^size. */
  lemma {:induction false} ExtendedDifferenceOffset(t1: string, t2: string, size: nat) returns (k: int)
    requires IsBinary(t1) && IsBinary(t2) && 1 <= |t1| <= size && 1 <= |t2| <= size
    ensures Unsigned(ExtendedDifference(t1, t2, size)) -
            (Signed(t1) - Signed(t2)) == k * Pow2(size)
  {
    var P, e1, e2 := Pow2(size), SignExtended(t1, size), SignExtended(t2, size);
    var o1 := ExtendedOffset(t1, size);
    var o2 := ExtendedOffset(t2, size);
    var n := Negated(e2);
    BinarySumValue(n, e1);
    k := OffsetMultiple(Unsigned(BinarySum(n, e1)) - (Signed(t1) - Signed(t2)), P, P + o1, o2);
  }

  /** A difference of two sums of 0, P or 2P is a multiple of P. */
  lemma {:induction false} OffsetMultiple(d: int, P: int, a: int, b: int) returns (k: int)
    requires d == a - b
    requires a == 0 || a == P || a == 2 * P
    requires b == 0 || b == P
    ensures d == k * P
  {
    if a == 0 {
      k := if b == 0 then 0 else -1;
    } else if a == P {
      k := if b == 0 then 1 else 0;
    } else {
      k := if b == 0 then 2 else 1;
    }
  }

  /** 3 - 1 in five bits: subtract turns 00001 over to 11110 and adds the one-bit string
      00001, giving 11111; adding 00011 gives the sum string "100010", one digit wider than
      the operands. bTD decodes it as -30, outside the five-bit range, so subtract fails,
      where the low five digits "00010" read in two's complement are 2. */
  lemma {:induction false} ThreeMinusOneInFiveBits()
    ensures var negated := BinarySum(ElementsText(Complement(LowBits(1, 5))), OneBitText(4));
      var s := BinarySum(negated, ElementsText(LowBits(3, 5)));
      negated == "11111" && s == "100010" && SaturatedReading(s) == -30 && !InRange(5, -30) &&
      WrappedReading(s, 5) == 2
  {
    var inverted, three := ElementsText(Complement(LowBits(1, 5))), ElementsText(LowBits(3, 5));
    FiveBitTexts();
    var negated := BinarySum(inverted, OneBitText(4));
    assert Unsigned(negated) == 31;
    ThirtyOneThirtyFour();
    assert negated == "11111";
    var s := BinarySum(negated, three);
    assert Unsigned(s) == 34;
    assert s == "100010";
    SaturatedReadingShort(s);
    LowTwoInFiveDigits();
  }

  /** The five-bit texts of 3 and of 1 turned over read 3 and 30. */
  lemma {:induction false} FiveBitTexts()
    ensures IsBinary(ElementsText(Complement(LowBits(1, 5))))
    ensures Unsigned(ElementsText(Complement(LowBits(1, 5)))) == 30
    ensures IsBinary(ElementsText(LowBits(3, 5))) && Unsigned(ElementsText(LowBits(3, 5))) == 3
  {
    var one, three := LowBits(1, 5), LowBits(3, 5);
    LowBitsValue(1, 5);
    LowBitsValue(3, 5);
    assert Pow2(5) == 32;
    DivModUnique(1, 32, 0, 1);
    DivModUnique(3, 32, 0, 3);
    ComplementValue(one);
    ElementsTextOfDigits(Complement(one));
    ElementsTextOfDigits(three);
  }

  /** The minimal bit strings of 31 and 34. */
  lemma {:induction false} ThirtyOneThirtyFour()
    ensures NatToBinary(31) == "11111" && Signed("100010") == -30 && NatToBinary(34) == "100010"
  {
    assert NatToBinary(1) == "1";
    assert NatToBinary(3) == "11";
    assert NatToBinary(7) == "111";
    assert NatToBinary(15) == "1111";
    assert NatToBinary(31) == "11111";
    assert NatToBinary(2) == "10";
    assert NatToBinary(4) == "100";
    assert NatToBinary(8) == "1000";
    assert NatToBinary(17) == "10001";
    assert NatToBinary(34) == "100010";
  }

  /** A value in the two's-complement range of a width of at most 32 digits is an int. */
  lemma {:induction false} TwosRangeIsInt32(r: int, size: nat)
    requires 1 <= size <= 32 && InTwosRange(size, r)
    ensures IsInt32(r)
  {
    Pow2Of32();
    Pow2Monotone(size - 1, 31);
  }


  // ---------------------------------------------------------------------------
  // The unit and its condition code

  const ConditionOverflow: nat := 0
  const ConditionUnderflow: nat := 1
  const ConditionDivZero: nat := 2
  const ConditionEqualOrNot: nat := 3

  function MaxNat(a: nat, b: nat): nat { if a > b then a else b }

  class ArithmeticLogicUnit {
    var conditionCode: Unit

    ghost predicate Valid()
      reads this, conditionCode
    {
      conditionCode.Valid() && conditionCode.size == 4
    }

    /** A fresh ALU's condition code is a 4-bit Unit holding 0. */
    constructor()
      ensures Valid() && fresh(conditionCode) && conditionCode.Value() == 0
    {
      conditionCode := new Unit.Make(4, 0);
    }

    /** `setCondition(i)`: digit i of the condition code becomes 1, the rest stay. */
    method SetCondition(register: nat)
      requires Valid() && register < 4
      modifies conditionCode
      ensures Valid()
      ensures conditionCode.Digits() == old(conditionCode.Digits())[register := 1]
    {
      var raw := conditionCode.GetBinaryArray();
      raw[register] := 1;
      var _ := conditionCode.SetValueBinaryArray(raw);
    }

    /** `unsetCondition(i)`: digit i of the condition code becomes 0, the rest stay. */
    method UnsetCondition(register: nat)
      requires Valid() && register < 4
      modifies conditionCode
      ensures Valid()
      ensures conditionCode.Digits() == old(conditionCode.Digits())[register := 0]
    {
      var raw := conditionCode.GetBinaryArray();
      raw[register] := 0;
      var _ := conditionCode.SetValueBinaryArray(raw);
    }

    /** `clearConditions`: the condition code reads "0000". */
    method ClearConditions()
      requires Valid()
      modifies conditionCode
      ensures Valid()
      ensures conditionCode.data == "0000" && conditionCode.Digits() == [0, 0, 0, 0]
    {
      var _ := conditionCode.SetValueBinary("0000");
      assert "0000" == Replicate('0', 4);
      UnsignedZeros(4);
    }

    /** The tail both add and subtract share: decode the sum string, flag overflow when it is
        longer than the wider operand, and build the result Unit of that width. */
    method Finish(final: string, size: nat) returns (r: Result<Unit>)
      requires Valid() && IsBinary(final) && |final| <= 1024
      modifies conditionCode
      ensures Valid()
      ensures conditionCode.Digits() ==
        if |final| > size then old(conditionCode.Digits())[ConditionOverflow := 1]
        else old(conditionCode.Digits())
      ensures r.Ok? <==> 1 <= size <= 32 && InRange(size, SaturatedReading(final))
      ensures r.Ok? ==> fresh(r.value) && r.value.Valid() && r.value.size == size &&
                        r.value.Value() == SaturatedReading(final)
    {
      var results := BinaryToDecimal(final);
      if |final| > size {
        SetCondition(ConditionOverflow);
      }
      r := Unit.Create(size, results);
    }

    /** `add(operand1, operand2)`: addBinary of the two bit strings, decoded by bTD, in a Unit
        as wide as the wider operand; overflow is flagged when the sum string is longer. */
    method Add(operand1: Unit, operand2: Unit) returns (r: Result<Unit>)
      requires Valid() && operand1.Valid() && operand2.Valid()
      modifies conditionCode
      ensures Valid()
      ensures var s := BinarySum(ElementsText(old(operand1.Digits())), ElementsText(old(operand2.Digits())));
        var size := MaxNat(operand1.size, operand2.size);
        (conditionCode.Digits() ==
          if |s| > size then old(conditionCode.Digits())[ConditionOverflow := 1]
          else old(conditionCode.Digits())) &&
        (r.Ok? <==> InRange(size, SaturatedReading(s))) &&
        (r.Ok? ==> fresh(r.value) && r.value.Valid() && r.value.size == size &&
                   r.value.Value() == SaturatedReading(s))
    {
      var op1Str := operand1.GetBinaryString();
      var op2Str := operand2.GetBinaryString();
      var finalResultStr := AddBinary(op1Str, op2Str);
      SumLength(op1Str, op2Str);
      var size := if operand1.size > operand2.size then operand1.size else operand2.size;
      r := Finish(finalResultStr, size);
    }

    /** `subtract(operand1, operand2)`: operand2's bits inverted plus the one-bit string of its
        width, plus operand1's bits, decoded by bTD, in a Unit as wide as the wider operand;
        overflow is flagged when the sum string is longer. */
    method Subtract(operand1: Unit, operand2: Unit) returns (r: Result<Unit>)
      requires Valid() && operand1.Valid() && operand2.Valid()
      modifies conditionCode
      ensures Valid()
      ensures var s := BinarySum(BinarySum(ElementsText(Complement(old(operand2.Digits()))),
                                           OneBitText(operand2.size - 1)),
                                 ElementsText(old(operand1.Digits())));
        var size := MaxNat(operand1.size, operand2.size);
        (conditionCode.Digits() ==
          if |s| > size then old(conditionCode.Digits())[ConditionOverflow := 1]
          else old(conditionCode.Digits())) &&
        (r.Ok? <==> InRange(size, SaturatedReading(s))) &&
        (r.Ok? ==> fresh(r.value) && r.value.Valid() && r.value.size == size &&
                   r.value.Value() == SaturatedReading(s))
    {
      var finalResultStr := SubtractionSum(operand1, operand2);
      var size := if operand1.size > operand2.size then operand1.size else operand2.size;
      r := Finish(finalResultStr, size);
    }

    /** add as its comment describes it, two's-complement addition: both operands' bit strings
        are sign-extended to the wider width before addBinary, and the result is the sum
        string's low digits read in two's complement, instead of bTD's reading of the whole
        string with the carry as a sign digit. The overflow flag rule is add's. */
    method AddWrapped(operand1: Unit, operand2: Unit) returns (r: Result<Unit>)
      requires Valid() && operand1.Valid() && operand2.Valid()
      modifies conditionCode
      ensures Valid()
      ensures var size := MaxNat(operand1.size, operand2.size);
        var s := ExtendedSum(ElementsText(old(operand1.Digits())), ElementsText(old(operand2.Digits())), size);
        (conditionCode.Digits() ==
          if |s| > size then old(conditionCode.Digits())[ConditionOverflow := 1]
          else old(conditionCode.Digits())) &&
        (r.Ok? <==> InRange(size, WrappedReading(s, size))) &&
        (r.Ok? ==> fresh(r.value) && r.value.Valid() && r.value.size == size &&
                   r.value.Value() == WrappedReading(s, size))
      ensures var v1, v2 := old(operand1.Value()), old(operand2.Value());
        var size := MaxNat(operand1.size, operand2.size);
        InTwosRange(operand1.size, v1) && InTwosRange(operand2.size, v2) &&
        InTwosRange(size, v1 + v2) ==>
          (r.Ok? <==> InRange(size, v1 + v2)) && (r.Ok? ==> r.value.Value() == v1 + v2)
    {
      var size := MaxNat(operand1.size, operand2.size);
      // before the condition code changes: an operand may be the condition code itself
      UnitsSum(operand1, operand2, size);
      var finalResultStr := WrappedSumText(operand1, operand2);
      r := FinishWrapped(finalResultStr, size);
    }

    /** subtract as its comment describes it, two's-complement subtraction: both operands'
        bit strings are sign-extended to the wider width, the second is negated in that
        width (its digits turned over, plus one) and the first is added, and the result is
        the sum string's low digits read in two's complement. The overflow flag rule is
        subtract's. */
    method SubtractWrapped(operand1: Unit, operand2: Unit) returns (r: Result<Unit>)
      requires Valid() && operand1.Valid() && operand2.Valid()
      modifies conditionCode
      ensures Valid()
      ensures var size := MaxNat(operand1.size, operand2.size);
        var s := ExtendedDifference(ElementsText(old(operand1.Digits())), ElementsText(old(operand2.Digits())), size);
        (conditionCode.Digits() ==
          if |s| > size then old(conditionCode.Digits())[ConditionOverflow := 1]
          else old(conditionCode.Digits())) &&
        (r.Ok? <==> InRange(size, WrappedReading(s, size))) &&
        (r.Ok? ==> fresh(r.value) && r.value.Valid() && r.value.size == size &&
                   r.value.Value() == WrappedReading(s, size))
      ensures var v1, v2 := old(operand1.Value()), old(operand2.Value());
        var size := MaxNat(operand1.size, operand2.size);
        InTwosRange(operand1.size, v1) && InTwosRange(operand2.size, v2) &&
        InTwosRange(size, v1 - v2) ==>
          (r.Ok? <==> InRange(size, v1 - v2)) && (r.Ok? ==> r.value.Value() == v1 - v2)
    {
      var size := MaxNat(operand1.size, operand2.size);
      // before the condition code changes: an operand may be the condition code itself
      UnitsDifference(operand1, operand2, size);
      var finalResultStr := WrappedDifferenceText(operand1, operand2);
      r := FinishWrapped(finalResultStr, size);
    }

    /** The tail of AddWrapped and SubtractWrapped: read the low digits of the sum string in
        two's complement, flag overflow when it is longer than the wider operand, and build
        the result Unit of that width. */
    method FinishWrapped(final: string, size: nat) returns (r: Result<Unit>)
      requires Valid() && 1 <= size <= 32
      modifies conditionCode
      ensures Valid()
      ensures conditionCode.Digits() ==
        if |final| > size then old(conditionCode.Digits())[ConditionOverflow := 1]
        else old(conditionCode.Digits())
      ensures r.Ok? <==> InRange(size, WrappedReading(final, size))
      ensures r.Ok? ==> fresh(r.value) && r.value.Valid() && r.value.size == size &&
                        r.value.Value() == WrappedReading(final, size)
    {
      var results := WrappedReading(final, size);
      TwosRangeIsInt32(results, size);
      if |final| > size {
        SetCondition(ConditionOverflow);
      }
      r := Unit.Create(size, results);
    }
  }

  /** The sum string of AddWrapped: both operands' bit strings sign-extended to the wider
      width, then added by addBinary. */
  method WrappedSumText(operand1: Unit, operand2: Unit) returns (s: string)
    requires operand1.Valid() && operand2.Valid()
    ensures var size := MaxNat(operand1.size, operand2.size);
      s == ExtendedSum(ElementsText(operand1.Digits()), ElementsText(operand2.Digits()), size)
  {
    var op1Str := operand1.GetBinaryString();
    var op2Str := operand2.GetBinaryString();
    var size := MaxNat(operand1.size, operand2.size);
    SignExtendedValue(op1Str, size);
    SignExtendedValue(op2Str, size);
    s := AddBinary(SignExtended(op1Str, size), SignExtended(op2Str, size));
  }

  /** The sum string of SubtractWrapped: both operands' bit strings sign-extended to the
      wider width, the second negated, then the first added by addBinary. */
  method WrappedDifferenceText(operand1: Unit, operand2: Unit) returns (s: string)
    requires operand1.Valid() && operand2.Valid()
    ensures var size := MaxNat(operand1.size, operand2.size);
      s == ExtendedDifference(ElementsText(operand1.Digits()), ElementsText(operand2.Digits()), size)
  {
    var op1Str := operand1.GetBinaryString();
    var op2Str := operand2.GetBinaryString();
    var size := MaxNat(operand1.size, operand2.size);
    var ext1, ext2 := SignExtended(op1Str, size), SignExtended(op2Str, size);
    SignExtendedValue(op1Str, size);
    var negativeOperand2 := AddBinary(Flipped(ext2), "1");
    NegatedText(ext2, negativeOperand2);
    s := AddBinary(negativeOperand2, ext1);
  }

  /** The sum string of two Units, wrapped to the wider width, is the sum of their
      values whenever both values and their sum lie in the two's-complement ranges of
      the widths. */
  lemma {:induction false} UnitsSum(u1: Unit, u2: Unit, size: nat)
    requires u1.Valid() && u2.Valid() && size == MaxNat(u1.size, u2.size)
    ensures InTwosRange(u1.size, u1.Value()) && InTwosRange(u2.size, u2.Value()) &&
            InTwosRange(size, u1.Value() + u2.Value()) ==>
            WrappedReading(ExtendedSum(ElementsText(u1.Digits()), ElementsText(u2.Digits()), size), size) ==
            u1.Value() + u2.Value()
  {
    u1.TwosReading();
    u2.TwosReading();
    WrappedSumExact(ElementsText(u1.Digits()), ElementsText(u2.Digits()), size, u1.Value(), u2.Value());
  }

  /** Two bit strings that read, in two's complement, as v1 and v2 whenever those lie in the
      ranges of their widths: their sum, wrapped to a width at least as wide, is v1 + v2 when
      that lies in range too. */
  lemma {:induction false} WrappedSumExact(t1: string, t2: string, size: nat, v1: int, v2: int)
    requires IsBinary(t1) && IsBinary(t2) && 1 <= |t1| <= size && 1 <= |t2| <= size
    requires InTwosRange(|t1|, v1) ==> Signed(t1) == v1
    requires InTwosRange(|t2|, v2) ==> Signed(t2) == v2
    ensures InTwosRange(|t1|, v1) && InTwosRange(|t2|, v2) && InTwosRange(size, v1 + v2) ==>
            WrappedReading(ExtendedSum(t1, t2, size), size) == v1 + v2
  {
    if InTwosRange(|t1|, v1) && InTwosRange(|t2|, v2) && InTwosRange(size, v1 + v2) {
      var k := WrappedSumOffset(t1, t2, size);
      assert Signed(t1) + Signed(t2) == v1 + v2;
      EqualInRange(WrappedReading(ExtendedSum(t1, t2, size), size), v1 + v2, size, k);
    }
  }

  /** The difference string of two Units, wrapped to the wider width, is the difference of their
      values whenever both values and their difference lie in the two's-complement ranges of
      the widths. */
  lemma {:induction false} UnitsDifference(u1: Unit, u2: Unit, size: nat)
    requires u1.Valid() && u2.Valid() && size == MaxNat(u1.size, u2.size)
    ensures InTwosRange(u1.size, u1.Value()) && InTwosRange(u2.size, u2.Value()) &&
            InTwosRange(size, u1.Value() - u2.Value()) ==>
            WrappedReading(ExtendedDifference(ElementsText(u1.Digits()), ElementsText(u2.Digits()), size), size) ==
            u1.Value() - u2.Value()
  {
    u1.TwosReading();
    u2.TwosReading();
    WrappedDifferenceExact(ElementsText(u1.Digits()), ElementsText(u2.Digits()), size, u1.Value(), u2.Value());
  }

  /** The same for the difference: wrapped to a width at least as wide, it is v1 - v2 when
      that lies in range. */
  lemma {:induction false} WrappedDifferenceExact(t1: string, t2: string, size: nat, v1: int, v2: int)
    requires IsBinary(t1) && IsBinary(t2) && 1 <= |t1| <= size && 1 <= |t2| <= size
    requires InTwosRange(|t1|, v1) ==> Signed(t1) == v1
    requires InTwosRange(|t2|, v2) ==> Signed(t2) == v2
    ensures InTwosRange(|t1|, v1) && InTwosRange(|t2|, v2) && InTwosRange(size, v1 - v2) ==>
            WrappedReading(ExtendedDifference(t1, t2, size), size) == v1 - v2
  {
    if InTwosRange(|t1|, v1) && InTwosRange(|t2|, v2) && InTwosRange(size, v1 - v2) {
      var k := WrappedDifferenceOffset(t1, t2, size);
      assert Signed(t1) - Signed(t2) == v1 - v2;
      EqualInRange(WrappedReading(ExtendedDifference(t1, t2, size), size), v1 - v2, size, k);
    }
  }

  /** The sum string subtract decodes: operand2 negated by NegativeOperand, plus operand1's bits. */
  method SubtractionSum(operand1: Unit, operand2: Unit) returns (s: string)
    requires operand1.Valid() && operand2.Valid()
    ensures s == BinarySum(BinarySum(ElementsText(Complement(operand2.Digits())), OneBitText(operand2.size - 1)),
                           ElementsText(operand1.Digits()))
    ensures IsBinary(s) && |s| <= 34
  {
    var negativeOperand2 := NegativeOperand(operand2);
    var op1Str := operand1.GetBinaryString();
    SumLength(negativeOperand2, op1Str);
    s := AddBinary(negativeOperand2, op1Str);
  }

  /** The first half of subtract: operand2's bits inverted, plus the one-bit string of its width. */
  method NegativeOperand(operand2: Unit) returns (neg: string)
    requires operand2.Valid()
    ensures neg == BinarySum(ElementsText(Complement(operand2.Digits())), OneBitText(operand2.size - 1))
    ensures IsBinary(neg) && |neg| <= operand2.size + 1
  {
    var op2Str := InvertedBits(operand2);
    var oneBitStr := CreateOneBitString(operand2.size - 1);
    NegatedLength(op2Str, operand2.size);
    neg := AddBinary(op2Str, oneBitStr);
  }

  /** subtract's first loop and the text of its result: operand2's bits, inverted. */
  method InvertedBits(operand2: Unit) returns (text: string)
    requires operand2.Valid()
    ensures text == ElementsText(Complement(operand2.Digits()))
    ensures IsBinary(text) && |text| == operand2.size
  {
    ghost var d := operand2.Digits();
    var op2Binary := operand2.GetBinaryArray();
    InvertedText(d);
    Invert(op2Binary);
    text := Unit.IntArrayToBinaryString(op2Binary);
    assert operand2.Digits() == d;
  }

  /** Adding the one-bit string of the width to an n-digit string gives at most n + 1 digits. */
  lemma {:induction false} NegatedLength(t: string, n: nat)
    requires IsBinary(t) && |t| == n
    ensures IsBinary(OneBitText(n - 1))
    ensures var s := BinarySum(t, OneBitText(n - 1)); IsBinary(s) && |s| <= n + 1
  {
    SumLength(t, OneBitText(n - 1));
  }

  /** The text of an inverted bit array is a bit string of the same width. */
  lemma {:induction false} InvertedText(d: seq<int>)
    requires IsDigits(d)
    ensures IsBinary(ElementsText(Complement(d))) && |ElementsText(Complement(d))| == |d|
  {
    ComplementValue(d);
    ElementsTextOfDigits(Complement(d));
  }

  /** subtract's first loop: every bit is replaced by 1 minus itself, in place. */
  method Invert(a: array<int>)
    modifies a
    ensures a[..] == Complement(old(a[..]))
  {
    var i := 0;
    while i < a.Length
      invariant 0 <= i <= a.Length
      invariant forall k :: 0 <= k < i ==> a[k] == 1 - old(a[k])
      invariant forall k :: i <= k < a.Length ==> a[k] == old(a[k])
    {
      a[i] := 1 - a[i];
      i := i + 1;
    }
  }

  /** The sum of two bit strings is a bit string at most one digit longer than the longer one. */
  lemma {:induction false} SumLength(a: string, b: string)
    requires IsBinary(a) && IsBinary(b)
    ensures IsBinary(BinarySum(a, b))
    ensures |BinarySum(a, b)| <= MaxNat(|a|, |b|) + 1
  {
    var v := Unsigned(a) + Unsigned(b);
    if v > 0 {
      var k := MaxNat(|a|, |b|);
      Pow2Monotone(|a|, k);
      Pow2Monotone(|b|, k);
      NatToBinaryLength(v, k + 1);
    }
  }
}
