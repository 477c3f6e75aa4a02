/**
 * Binary and decimal digit strings as the simulator uses them: bit strings of '0'/'1'
 * (most significant digit first), bit arrays of 0/1 integers (`Integer[]` in the source),
 * decimal renderings and left padding.
 */
module Binary {

  function Pow2(n: nat): (r: nat)
    ensures r >= 1
  {
    if n == 0 then 1 else 2 * Pow2(n - 1)
  }

  lemma {:induction false} Pow2Add(a: nat, b: nat)
    ensures Pow2(a + b) == Pow2(a) * Pow2(b)
  {
    if a > 0 {
      Pow2Add(a - 1, b);
      assert Pow2(a + b) == 2 * Pow2(a - 1 + b);
    }
  }

  lemma {:induction false} Pow2Monotone(a: nat, b: nat)
    requires a <= b
    ensures Pow2(a) <= Pow2(b)
  {
    if a < b {
      Pow2Monotone(a, b - 1);
    }
  }

  /** Division of x by m leaves v exactly when x == k * m + v with v in [0, m). */
  lemma {:induction false} DivModUnique(x: int, m: int, k: int, v: int)
    requires m > 0 && 0 <= v < m && x == k * m + v
    ensures x / m == k && x % m == v
  {
    var q, r := x / m, x % m;
    assert x == q * m + r && 0 <= r < m;
    assert (q - k) * m == v - r by {
      assert (q - k) * m == q * m - k * m;
    }
    if q > k {
      MulAtLeast(q - k, m);
    } else if q < k {
      MulAtLeast(k - q, m);
    }
  }

  lemma {:induction false} MulAtLeast(d: int, m: int)
    requires d >= 1 && m > 0
    ensures d * m >= m
  {
    assert d * m == (d - 1) * m + m;
    assert (d - 1) * m >= 0;
  }

  function Replicate(c: char, n: nat): (r: string)
    ensures |r| == n && forall i :: 0 <= i < n ==> r[i] == c
  {
    seq(n, _ => c)
  }

  /** PHP's str_pad(s, width, c, STR_PAD_LEFT): pad on the left, never truncate. */
  function PadLeft(s: string, width: nat, c: char): (r: string)
    ensures |r| == if |s| < width then width else |s|
  {
    if |s| < width then Replicate(c, width - |s|) + s else s
  }

  /** The padded string ends with s and is c before it. */
  lemma {:induction false} PadLeftShape(s: string, width: nat, c: char)
    ensures var r := PadLeft(s, width, c);
      r[|r| - |s|..] == s && forall i :: 0 <= i < |r| - |s| ==> r[i] == c
  {
    var r := PadLeft(s, width, c);
    if |s| < width {
      assert r == Replicate(c, width - |s|) + s;
      assert r[|r| - |s|..] == s;
    }
  }

  // ---------------------------------------------------------------------------
  // Bit strings

  predicate IsBit(c: char) { c == '0' || c == '1' }

  predicate IsBinary(s: string) { forall i :: 0 <= i < |s| ==> IsBit(s[i]) }

  function BitValue(c: char): nat { if c == '1' then 1 else 0 }

  function BitChar(b: bool): char { if b then '1' else '0' }

  /** The unsigned base-2 reading of a bit string. */
  function Unsigned(s: string): (v: nat)
    ensures v < Pow2(|s|)
  {
    if s == [] then 0 else 2 * Unsigned(s[..|s| - 1]) + BitValue(s[|s| - 1])
  }

  /** The two's-complement reading of a bit string (its first digit weighs -2^(n-1)). */
  function Signed(s: string): int
  {
    if |s| > 0 && s[0] == '1' then Unsigned(s) - Pow2(|s|) else Unsigned(s)
  }

  lemma {:induction false} UnsignedAppend(a: string, b: string)
    ensures Unsigned(a + b) == Unsigned(a) * Pow2(|b|) + Unsigned(b)
    decreases |b|
  {
    if b == [] {
      assert a + b == a;
    } else {
      var b' := b[..|b| - 1];
      var c := BitValue(b[|b| - 1]);
      assert (a + b)[..|a + b| - 1] == a + b';
      assert (a + b)[|a + b| - 1] == b[|b| - 1];
      assert Unsigned(a + b) == 2 * Unsigned(a + b') + c;
      UnsignedAppend(a, b');
      var u, w, P := Unsigned(a), Unsigned(b'), Pow2(|b'|);
      assert Unsigned(b) == 2 * w + c;
      assert Pow2(|b|) == 2 * P;
      DoubleProduct(u, P);
    }
  }

  lemma {:induction false} DoubleProduct(u: int, p: int)
    ensures 2 * (u * p) == u * (2 * p)
  {
  }

  lemma {:induction false} UnsignedZeros(n: nat)
    ensures Unsigned(Replicate('0', n)) == 0
  {
    if n > 0 {
      assert Replicate('0', n)[..n - 1] == Replicate('0', n - 1);
      UnsignedZeros(n - 1);
    }
  }

  /** Leading zeros do not change the unsigned reading. */
  lemma {:induction false} UnsignedLeadingZeros(n: nat, s: string)
    ensures Unsigned(Replicate('0', n) + s) == Unsigned(s)
  {
    UnsignedZeros(n);
    UnsignedZeroPrefix(Replicate('0', n), s);
  }

  /** A prefix that reads 0 does not change the unsigned reading. */
  lemma {:induction false} UnsignedZeroPrefix(p: string, q: string)
    requires Unsigned(p) == 0
    ensures Unsigned(p + q) == Unsigned(q)
  {
    UnsignedAppend(p, q);
    ZeroProduct(Unsigned(p), Pow2(|q|));
  }

  lemma {:induction false} ZeroProduct(x: int, y: int)
    requires x == 0
    ensures x * y == 0
  {
  }

  /** The first digit of a bit string weighs 2^(n-1). */
  lemma {:induction false} UnsignedFirst(s: string)
    requires |s| > 0
    ensures Unsigned(s) == BitValue(s[0]) * Pow2(|s| - 1) + Unsigned(s[1..])
  {
    assert s == [s[0]] + s[1..];
    UnsignedAppend([s[0]], s[1..]);
    assert [s[0]][..0] == [];
    assert Unsigned([s[0]]) == BitValue(s[0]);
  }

  /** The unsigned reading of the digits from index k on, each weighed by its place in s. */
  function SuffixValue(s: string, k: nat): nat
    requires k <= |s|
    decreases |s| - k
  {
    if k == |s| then 0 else (if s[k] == '1' then Pow2(|s| - 1 - k) else 0) + SuffixValue(s, k + 1)
  }

  lemma {:induction false} SuffixValueOfSlice(s: string, k: nat)
    requires k <= |s|
    ensures SuffixValue(s, k) == Unsigned(s[k..]) && SuffixValue(s, k) < Pow2(|s| - k)
    decreases |s| - k
  {
    if k < |s| {
      SuffixValueOfSlice(s, k + 1);
      UnsignedFirst(s[k..]);
      assert s[k..][1..] == s[k + 1..];
    }
  }

  /** Read from the first digit on, the suffix value is the unsigned reading. */
  lemma {:induction false} SuffixValueUnsigned(s: string)
    ensures SuffixValue(s, 0) == Unsigned(s)
    ensures |s| > 0 ==> SuffixValue(s, 1) == Unsigned(s) - BitValue(s[0]) * Pow2(|s| - 1)
    ensures |s| > 0 ==> SuffixValue(s, 1) < Pow2(|s| - 1)
  {
    SuffixValueOfSlice(s, 0);
    assert s[0..] == s;
    if |s| > 0 {
      UnsignedFirst(s);
      SuffixValueOfSlice(s, 1);
    }
  }

  /** Minimal binary rendering of a natural number (PHP decbin, Java toBinaryString of a non-negative int). */
  function NatToBinary(n: nat): (s: string)
    ensures IsBinary(s) && |s| >= 1 && Unsigned(s) == n
    ensures n == 0 ==> s == "0"
    ensures n > 0 ==> s[0] == '1' && Pow2(|s| - 1) <= n
  {
    if n < 2 then [BitChar(n == 1)]
    else
      var m, odd := n / 2, n % 2 == 1;
      assert n == 2 * m + (if odd then 1 else 0);
      var p := NatToBinary(m);
      AppendBit(p, odd);
      p + [BitChar(odd)]
  }

  /** One more digit at the right doubles a bit string's value and adds the digit's. */
  lemma {:induction false} AppendBit(p: string, b: bool)
    requires IsBinary(p) && |p| >= 1 && p[0] == '1'
    ensures var s := p + [BitChar(b)];
      IsBinary(s) && s[0] == '1' && Unsigned(s) == 2 * Unsigned(p) + (if b then 1 else 0) &&
      Pow2(|s| - 1) == 2 * Pow2(|p| - 1)
  {
    var s := p + [BitChar(b)];
    assert s[..|s| - 1] == p;
  }

  /** A non-zero number has a minimal rendering of at most k digits exactly when it is below 2^k. */
  lemma {:induction false} NatToBinaryLength(n: nat, k: nat)
    requires n > 0
    ensures |NatToBinary(n)| <= k <==> n < Pow2(k)
  {
    var s := NatToBinary(n);
    if |s| <= k {
      Pow2Monotone(|s|, k);
    } else {
      Pow2Monotone(k, |s| - 1);
    }
  }

  // ---------------------------------------------------------------------------
  // Bit arrays (Integer[] of 0/1, most significant first)

  predicate IsDigits(d: seq<int>) { forall i :: 0 <= i < |d| ==> d[i] == 0 || d[i] == 1 }

  function DigitsValue(d: seq<int>): (v: int)
  {
    if d == [] then 0 else 2 * DigitsValue(d[..|d| - 1]) + d[|d| - 1]
  }

  /** The low n bits of x, most significant first (x & 1 then x >>= 1, n times). */
  function LowBits(x: int, n: nat): (d: seq<int>)
    ensures |d| == n && IsDigits(d)
    decreases n
  {
    if n == 0 then [] else LowBits(x / 2, n - 1) + [x % 2]
  }

  lemma {:induction false} DigitsValueBounds(d: seq<int>)
    requires IsDigits(d)
    ensures 0 <= DigitsValue(d) < Pow2(|d|)
  {
    if d != [] {
      DigitsValueBounds(d[..|d| - 1]);
    }
  }

  /** The last of the low m bits is x mod 2; the others are the low m - 1 bits of x / 2. */
  lemma {:induction false} LowBitsLast(x: int, m: nat)
    requires m >= 1
    ensures LowBits(x, m)[..m - 1] == LowBits(x / 2, m - 1) && LowBits(x, m)[m - 1] == x % 2
  {
    assert LowBits(x, m) == LowBits(x / 2, m - 1) + [x % 2];
  }

  lemma {:induction false} PrefixOfPrefix(d: seq<int>, m: nat)
    requires 1 <= m <= |d|
    ensures d[..m][..m - 1] == d[..m - 1] && d[..m][m - 1] == d[m - 1]
  {
  }

  lemma {:induction false} LowBitsValue(x: int, n: nat)
    ensures DigitsValue(LowBits(x, n)) == x % Pow2(n)
    decreases n
  {
    if n > 0 {
      var h, b := x / 2, x % 2;
      var d := LowBits(x, n);
      var p := LowBits(h, n - 1);
      assert d == p + [b];
      assert d[..n - 1] == p;
      assert DigitsValue(d) == 2 * DigitsValue(p) + b;
      LowBitsValue(h, n - 1);
      ModDouble(x, Pow2(n - 1));
    }
  }

  /** x mod 2m from the low bit of x and (x div 2) mod m. */
  lemma {:induction false} ModDouble(x: int, m: int)
    requires m > 0
    ensures x % (2 * m) == 2 * ((x / 2) % m) + x % 2
  {
    var h, b := x / 2, x % 2;
    var q, r := h / m, h % m;
    assert x == 2 * h + b;
    assert h == q * m + r;
    DoubleProduct(q, m);
    assert x == q * (2 * m) + (2 * r + b);
    DivModUnique(x, 2 * m, q, 2 * r + b);
  }

  /** Reading a bit array and taking its low |d| bits gives the array back. */
  lemma {:induction false} LowBitsOfDigits(d: seq<int>)
    requires IsDigits(d)
    ensures LowBits(DigitsValue(d), |d|) == d
  {
    if d != [] {
      var p := d[..|d| - 1];
      var v := DigitsValue(d);
      DivModUnique(v, 2, DigitsValue(p), d[|d| - 1]);
      LowBitsOfDigits(p);
      assert d == p + [d[|d| - 1]];
    }
  }

  /** The low n bits of x depend only on x modulo 2^n. */
  lemma {:induction false} LowBitsShift(x: int, k: int, n: nat)
    ensures LowBits(x + k * Pow2(n), n) == LowBits(x, n)
    decreases n
  {
    if n > 0 {
      var m := k * Pow2(n - 1);
      assert k * Pow2(n) == 2 * m;
      DivModUnique(x + 2 * m, 2, x / 2 + m, x % 2);
      LowBitsShift(x / 2, k, n - 1);
    }
  }

  lemma {:induction false} LowBitsMod(x: int, n: nat)
    ensures LowBits(x, n) == LowBits(x % Pow2(n), n)
  {
    var P := Pow2(n);
    var q, r := x / P, x % P;
    assert x == q * P + r;
    NegateProduct(q, P);
    assert r == x + (-q) * P;
    LowBitsShift(x, -q, n);
  }

  lemma {:induction false} NegateProduct(a: int, b: int)
    ensures (-a) * b == -(a * b)
  {
  }

  // ---------------------------------------------------------------------------
  // Decimal renderings

  predicate IsDecimal(s: string) { forall i :: 0 <= i < |s| ==> '0' <= s[i] <= '9' }

  function DecimalValue(s: string): int
  {
    if s == [] then 0 else 10 * DecimalValue(s[..|s| - 1]) + (s[|s| - 1] as int - '0' as int)
  }

  function DigitChar(d: nat): char
    requires d < 10
  {
    ('0' as int + d) as char
  }

  /** PHP strval / Java string conversion of a natural number. */
  function NatToDecimal(n: nat): string
  {
    if n < 10 then [DigitChar(n)] else NatToDecimal(n / 10) + [DigitChar(n % 10)]
  }

  /** The rendering is a string of decimal digits whose reading is n; one digit exactly
      below 10. */
  lemma {:induction false} NatToDecimalDigits(n: nat)
    ensures var s := NatToDecimal(n);
      IsDecimal(s) && |s| >= 1 && DecimalValue(s) == n && (n < 10 <==> |s| == 1)
  {
    if n >= 10 {
      NatToDecimalDigits(n / 10);
      var p := NatToDecimal(n / 10);
      var s := p + [DigitChar(n % 10)];
      assert s[..|s| - 1] == p;
    }
  }

  /** A number below 10000 renders in at most four decimal digits (fewer below 1000, 100
      and 10). */
  lemma {:induction false} NatToDecimalShort(n: nat)
    requires n < 10000
    ensures var k := |NatToDecimal(n)|;
      k <= 4 && (n < 1000 ==> k <= 3) && (n < 100 ==> k <= 2) && (n < 10 ==> k == 1)
  {
    if n >= 10 {
      NatToDecimalShort(n / 10);
    }
  }

  /** Integer.toString of an int, as StringBuilder.append(Integer) writes it. */
  function IntToDecimal(x: int): string
  {
    if x >= 0 then NatToDecimal(x) else "-" + NatToDecimal(-x)
  }

  /** A bit renders as one digit. */
  lemma {:induction false} BitText(x: int)
    requires x == 0 || x == 1
    ensures IntToDecimal(x) == [BitChar(x == 1)]
  {
  }

  /** The texts of d[lo], ..., d[hi - 1] appended one after the other to a StringBuilder. */
  function Joined(d: seq<int>, lo: nat, hi: nat): string
    requires lo <= hi <= |d|
  {
    JoinWith(IntToDecimal, d, lo, hi)
  }

  /** The texts f gives d[lo], ..., d[hi - 1], one after the other. */
  function JoinWith<T>(f: T -> string, d: seq<T>, lo: nat, hi: nat): string
    requires lo <= hi <= |d|
    decreases hi
  {
    if hi == lo then "" else JoinWith(f, d, lo, hi - 1) + f(d[hi - 1])
  }

  /** What appending every element of an Integer[] to a StringBuilder yields. */
  function ElementsText(d: seq<int>): string
  {
    Joined(d, 0, |d|)
  }

  /** Joining a range depends only on the elements inside it. */
  lemma {:induction false} JoinedAgree<T>(f: T -> string, d: seq<T>, e: seq<T>, lo: nat, hi: nat)
    requires lo <= hi <= |d| && hi <= |e|
    requires forall i :: lo <= i < hi ==> d[i] == e[i]
    ensures JoinWith(f, d, lo, hi) == JoinWith(f, e, lo, hi)
  {
    if hi > lo {
      JoinedAgree(f, d, e, lo, hi - 1);
    }
  }

  /** Joining the first n elements of e, where e holds d's elements from lo on, joins the
      range [lo, lo + n) of d. */
  lemma {:induction false} JoinedShift<T>(f: T -> string, d: seq<T>, e: seq<T>, lo: nat, n: nat)
    requires lo + n <= |d| && n <= |e|
    requires forall i :: 0 <= i < n ==> e[i] == d[lo + i]
    ensures JoinWith(f, e, 0, n) == JoinWith(f, d, lo, lo + n)
  {
    if n > 0 {
      JoinedShift(f, d, e, lo, n - 1);
    }
  }

  /** The text of a slice of the array is that range of its elements, joined. */
  lemma {:induction false} SliceText<T>(f: T -> string, d: seq<T>, lo: nat, hi: nat)
    requires lo <= hi <= |d|
    ensures JoinWith(f, d[lo..hi], 0, hi - lo) == JoinWith(f, d, lo, hi)
  {
    var e := d[lo..hi];
    assert forall i :: 0 <= i < hi - lo ==> e[i] == d[lo + i];
    JoinedShift(f, d, e, lo, hi - lo);
  }

  /** Appending one more element appends its text. */
  lemma {:induction false} ElementsTextSnoc(d: seq<int>, x: int)
    ensures ElementsText(d + [x]) == ElementsText(d) + IntToDecimal(x)
  {
    JoinedAgree(IntToDecimal, d + [x], d, 0, |d|);
  }

  /** Joining the texts of the first n bits of a bit array gives one bit character per bit. */
  lemma {:induction false} JoinedBits(d: seq<int>, n: nat)
    requires IsDigits(d) && n <= |d|
    ensures var t := Joined(d, 0, n);
      |t| == n && forall i :: 0 <= i < n ==> t[i] == BitChar(d[i] == 1)
  {
    if n > 0 {
      JoinedBits(d, n - 1);
      var tp := Joined(d, 0, n - 1);
      BitText(d[n - 1]);
      var t := tp + [BitChar(d[n - 1] == 1)];
      assert Joined(d, 0, n) == t;
      forall i | 0 <= i < n
        ensures t[i] == BitChar(d[i] == 1)
      {
        if i < n - 1 {
          assert t[i] == tp[i];
        }
      }
    }
  }

  /** A string holding the bit characters of the first n bits of a bit array is a bit string
      reading the value of those bits. */
  lemma {:induction false} BitCharsValue(t: string, d: seq<int>, n: nat)
    requires IsDigits(d) && n <= |d| && |t| == n
    requires forall i :: 0 <= i < n ==> t[i] == BitChar(d[i] == 1)
    ensures IsBinary(t) && Unsigned(t) == DigitsValue(d[..n])
  {
    if n > 0 {
      var tp := t[..n - 1];
      BitCharsValue(tp, d, n - 1);
      assert Unsigned(t) == 2 * Unsigned(tp) + BitValue(t[n - 1]);
      assert d[..n][..n - 1] == d[..n - 1];
      assert DigitsValue(d[..n]) == 2 * DigitsValue(d[..n - 1]) + d[n - 1];
    }
  }

  /** For a bit array the appended text is the bit string with the same digits. */
  lemma {:induction false} ElementsTextOfDigits(d: seq<int>)
    requires IsDigits(d)
    ensures |ElementsText(d)| == |d| && IsBinary(ElementsText(d))
    ensures forall i :: 0 <= i < |d| ==> ElementsText(d)[i] == BitChar(d[i] == 1)
    ensures Unsigned(ElementsText(d)) == DigitsValue(d)
  {
    JoinedBits(d, |d|);
    BitCharsValue(ElementsText(d), d, |d|);
    assert d[..|d|] == d;
  }

  // ---------------------------------------------------------------------------
  // Helpers shared by the string parsers

  /** Java's `s.replace(" ", "")`. */
  function RemoveSpaces(s: string): (r: string)
    ensures |r| <= |s|
    ensures forall i :: 0 <= i < |r| ==> r[i] != ' '
    ensures (forall i :: 0 <= i < |s| ==> s[i] != ' ') ==> r == s
  {
    if s == [] then []
    else (if s[0] == ' ' then [] else [s[0]]) + RemoveSpaces(s[1..])
  }

  /** Removing spaces keeps every other character, as often as it occurs, and no space. */
  lemma {:induction false} RemoveSpacesKeeps(s: string)
    ensures multiset(RemoveSpaces(s)) == multiset(s)[' ' := 0]
  {
    if s != [] {
      assert s == [s[0]] + s[1..];
      RemoveSpacesKeeps(s[1..]);
    }
  }

  /** Removing spaces distributes over concatenation. */
  lemma {:induction false} RemoveSpacesSplit(a: string, b: string)
    ensures RemoveSpaces(a + b) == RemoveSpaces(a) + RemoveSpaces(b)
  {
    if a != [] {
      var h := if a[0] == ' ' then [] else [a[0]];
      assert (a + b)[0] == a[0] && (a + b)[1..] == a[1..] + b;
      assert RemoveSpaces(a + b) == h + RemoveSpaces(a[1..] + b);
      RemoveSpacesSplit(a[1..], b);
      assert h + (RemoveSpaces(a[1..]) + RemoveSpaces(b)) == (h + RemoveSpaces(a[1..])) + RemoveSpaces(b);
    } else {
      assert a + b == b;
    }
  }

  /** An all-ones string of k digits reads 2^k - 1. */
  lemma {:induction false} UnsignedOnes(k: nat)
    ensures Unsigned(Replicate('1', k)) == Pow2(k) - 1
  {
    if k > 0 {
      assert Replicate('1', k)[..k - 1] == Replicate('1', k - 1);
      UnsignedOnes(k - 1);
    }
  }

  /** Sign extension (repeating the first digit on the left) keeps the two's-complement reading. */
  lemma {:induction false} SignedExtend(b: string, k: nat)
    requires |b| > 0 && IsBit(b[0])
    ensures Signed(Replicate(b[0], k) + b) == Signed(b)
  {
    var e := Replicate(b[0], k) + b;
    assert e[0] == b[0];
    UnsignedAppend(Replicate(b[0], k), b);
    Pow2Add(k, |b|);
    var P: int, Q: int, U: int := Pow2(k), Pow2(|b|), Unsigned(b);
    assert |e| == k + |b|;
    if b[0] == '1' {
      UnsignedOnes(k);
      var O: int := Unsigned(Replicate(b[0], k));
      assert O == P - 1;
      assert Unsigned(e) == O * Q + U;
      MulPredecessor(P, Q);
      assert Pow2(|e|) == P * Q;
      assert Signed(e) == Unsigned(e) - Pow2(|e|);
      assert Signed(b) == U - Q;
    } else {
      UnsignedZeros(k);
      assert Signed(e) == Unsigned(e);
    }
  }

  lemma {:induction false} MulPredecessor(p: int, q: int)
    ensures (p - 1) * q == p * q - q
  {
  }

  /** v lies in the two's-complement range of n digits, [-2^(n-1), 2^(n-1)). */
  predicate InTwosRange(n: nat, v: int)
    requires n >= 1
  {
    0 <= v + Pow2(n - 1) && v < Pow2(n - 1)
  }

  /** A bit string widened to `size` digits by repeating its first digit on the left; one that
      is empty or already that wide is left as it is. */
  function SignExtended(t: string, size: nat): (e: string)
    ensures 1 <= |t| <= size ==> |e| == size
    ensures |t| == 0 || |t| >= size ==> e == t
  {
    if |t| == 0 || |t| >= size then t else Replicate(t[0], size - |t|) + t
  }

  /** Sign extension to `size` digits keeps a bit string binary and keeps its
      two's-complement reading. */
  lemma {:induction false} SignExtendedValue(t: string, size: nat)
    requires IsBinary(t) && 1 <= |t| <= size
    ensures var e := SignExtended(t, size);
      IsBinary(e) && |e| == size && Signed(e) == Signed(t)
  {
    var e := SignExtended(t, size);
    if |t| < size {
      SignedExtend(t, size - |t|);
      assert forall i :: 0 <= i < size - |t| ==> e[i] == t[0];
      assert forall i :: size - |t| <= i < size ==> e[i] == t[i - (size - |t|)];
    }
  }

  /** Two values of the two's-complement range of n digits a multiple of 2^n apart are
      equal. */
  lemma {:induction false} EqualInRange(r: int, x: int, n: nat, q: int)
    requires n >= 1 && InTwosRange(n, r) && InTwosRange(n, x) && r - x == q * Pow2(n)
    ensures r == x
  {
    var P := Pow2(n);
    assert P == 2 * Pow2(n - 1);
    if q >= 1 {
      MulAtLeast(q, P);
    } else if q <= -1 {
      MulAtLeast(-q, P);
      NegateProduct(q, P);
    }
  }

  /** Every digit turned over: '1' becomes '0' and anything else '1'. */
  function Flipped(t: string): (f: string)
    ensures |f| == |t| && IsBinary(f)
  {
    seq(|t|, i requires 0 <= i < |t| => if t[i] == '1' then '0' else '1')
  }

  /** Turning over the n digits of a string gives 2^n - 1 minus its reading. */
  lemma {:induction false} FlippedValue(t: string)
    ensures Unsigned(Flipped(t)) + Unsigned(t) == Pow2(|t|) - 1
  {
    if t != [] {
      var n := |t|;
      assert Flipped(t)[..n - 1] == Flipped(t[..n - 1]);
      FlippedValue(t[..n - 1]);
    }
  }
}
