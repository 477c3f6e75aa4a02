/**
 * The Java integer semantics the simulator relies on: 32-bit `int` narrowing, truncating
 * `/` and `%`, `Integer.parseInt`/`Long.parseLong` in radix 2 and `Integer.toBinaryString`.
 */
module JavaInt {
  import opened Binary
  import opened Wrappers

  const TwoTo32: int := 0x1_0000_0000
  const IntMin: int := -0x8000_0000
  const IntMax: int := 0x7FFF_FFFF
  const LongMin: int := -0x8000_0000_0000_0000
  const LongMax: int := 0x7FFF_FFFF_FFFF_FFFF

  predicate IsInt32(x: int) { IntMin <= x <= IntMax }

  lemma {:induction false} Pow2Of32()
    ensures Pow2(32) == TwoTo32 && Pow2(31) == IntMax + 1
  {
    assert Pow2(2) == 4;
    Pow2Add(2, 2);
    assert Pow2(4) == 16;
    Pow2Add(4, 4);
    assert Pow2(8) == 256;
    Pow2Add(8, 8);
    assert Pow2(16) == 65536;
    Pow2Add(16, 16);
    assert Pow2(32) == 0x1_0000_0000;
    assert Pow2(32) == 2 * Pow2(31);
  }

  /** Narrowing to int (`Long.intValue()`, an `(int)` cast of a long): keep the low 32 bits. */
  function ToInt32(x: int): (r: int)
    ensures IsInt32(r)
    ensures r == x % TwoTo32 || r == x % TwoTo32 - TwoTo32
    ensures IsInt32(x) ==> r == x
  {
    var m := x % TwoTo32;
    if m > IntMax then m - TwoTo32 else m
  }

  /** Narrowing keeps the low n bits for every n up to 32. */
  lemma {:induction false} ToInt32LowBits(x: int, n: nat)
    requires n <= 32
    ensures LowBits(ToInt32(x), n) == LowBits(x, n)
  {
    var r := ToInt32(x);
    var q := x / TwoTo32;
    var k := if r == x % TwoTo32 then -q else -q - 1;
    assert r == x + k * TwoTo32;
    Pow2Of32();
    Pow2Add(32 - n, n);
    var j := k * Pow2(32 - n);
    assert k * TwoTo32 == j * Pow2(n) by {
      MulAssoc(k, Pow2(32 - n), Pow2(n));
    }
    LowBitsShift(x, j, n);
  }

  lemma {:induction false} MulAssoc(a: int, b: int, c: int)
    ensures a * (b * c) == (a * b) * c
  {
  }

  function Abs(x: int): nat { if x < 0 then -x else x }

  /** Java's `a / b` on ints: the quotient truncated toward zero. */
  function Div(a: int, b: int): int
    requires b != 0
  {
    var q := Abs(a) / Abs(b);
    if (a < 0) != (b < 0) then -q else q
  }

  /** Java's `a % b` on ints: the remainder takes the sign of a. */
  function Rem(a: int, b: int): int
    requires b != 0
  {
    a - Div(a, b) * b
  }

  /** For a non-negative dividend and a positive divisor Java's operators agree with Dafny's. */
  lemma {:induction false} DivRemNonNegative(a: int, b: int)
    requires a >= 0 && b > 0
    ensures Div(a, b) == a / b && Rem(a, b) == a % b
  {
  }

  /** The digit syntax `parseInt`/`parseLong` accept in radix 2: an optional sign, then bits. */
  function ParseBinaryDigits(s: string): Option<int>
  {
    if |s| == 0 then None
    else if s[0] == '-' || s[0] == '+' then
      if |s| > 1 && IsBinary(s[1..]) then
        var u: int := Unsigned(s[1..]);
        Some(if s[0] == '-' then -u else u)
      else None
    else if IsBinary(s) then Some(Unsigned(s))
    else None
  }

  /** `Integer.parseInt(s, 2)`. */
  function ParseInt(s: string): (r: Result<int>)
    ensures r.Ok? ==> IsInt32(r.value)
    ensures IsBinary(s) && |s| > 0 ==> (r.Ok? <==> Unsigned(s) <= IntMax)
    ensures r.Ok? && IsBinary(s) ==> r.value == Unsigned(s)
  {
    match ParseBinaryDigits(s)
    case Some(v) => if IsInt32(v) then Ok(v) else Err(NumberFormatException)
    case None => Err(NumberFormatException)
  }

  /** `Long.parseLong(s, 2)`. */
  function ParseLong(s: string): (r: Result<int>)
    ensures r.Ok? ==> LongMin <= r.value <= LongMax
    ensures IsBinary(s) && |s| > 0 ==> (r.Ok? <==> Unsigned(s) <= LongMax)
    ensures r.Ok? && IsBinary(s) ==> r.value == Unsigned(s)
  {
    match ParseBinaryDigits(s)
    case Some(v) => if LongMin <= v <= LongMax then Ok(v) else Err(NumberFormatException)
    case None => Err(NumberFormatException)
  }

  /** `Integer.toBinaryString(x)`: a negative int is shown as its 32-bit two's complement. */
  function ToBinaryString(x: int): (s: string)
    requires IsInt32(x)
    ensures IsBinary(s) && 1 <= |s| <= 32
    ensures ToInt32(Unsigned(s)) == x
    ensures x < 0 ==> |s| == 32 && s[0] == '1'
    ensures x >= 0 ==> Unsigned(s) == x
  {
    if x >= 0 then
      NonNegativeBinary(x);
      NatToBinary(x)
    else
      NegativeBinary(x);
      NatToBinary(x + TwoTo32)
  }

  lemma {:induction false} NonNegativeBinary(x: int)
    requires 0 <= x <= IntMax
    ensures |NatToBinary(x)| <= 32 && ToInt32(Unsigned(NatToBinary(x))) == x
  {
    Pow2Of32();
    if x > 0 {
      NatToBinaryLength(x, 32);
    }
  }

  /** A negative int plus 2^32 has exactly 32 binary digits, and narrowing undoes the addition. */
  lemma {:induction false} NegativeBinary(x: int)
    requires IntMin <= x < 0
    ensures var s := NatToBinary(x + TwoTo32);
      |s| == 32 && s[0] == '1' && ToInt32(Unsigned(s)) == x
  {
    var u := x + TwoTo32;
    ThirtyTwoDigits(u);
    var s := NatToBinary(u);
    assert Unsigned(s) == u;
    NarrowHigh(u);
  }

  lemma {:induction false} NarrowHigh(u: int)
    requires IntMax < u < TwoTo32
    ensures ToInt32(u) == u - TwoTo32
  {
    assert u % TwoTo32 == u;
  }

  lemma {:induction false} ThirtyTwoDigits(u: nat)
    requires IntMax < u < TwoTo32
    ensures |NatToBinary(u)| == 32
  {
    Pow2Of32();
    NatToBinaryLength(u, 32);
    NatToBinaryLength(u, 31);
  }
}
