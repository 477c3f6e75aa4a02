/**
 * The fixed-width ripple-carry adder of the ArchitectureProg exercise class: both operands
 * are left-padded with zeros to the same length and added digit by digit from the right;
 * the result keeps that length and a final carry is reported as an overflow.
 */
module Ripple {
  import opened Binary
  import opened JavaInt
  import opened Wrappers

  predicate IsDigitChar(c: char) { '0' <= c <= '9' }

  /** Every character of x and y from index i on is a decimal digit. */
  predicate DigitsFrom(x: string, y: string, i: nat)
    requires |x| == |y|
  {
    forall k :: i <= k < |x| ==> IsDigitChar(x[k]) && IsDigitChar(y[k])
  }

  function DigitValue(c: char): int
    requires IsDigitChar(c)
  {
    c as int - '0' as int
  }

  /** The carry the loop holds once it has processed the positions i .. |x| - 1, from right
      to left. */
  function CarryFrom(x: string, y: string, i: nat): (c: int)
    requires |x| == |y| && i <= |x| && DigitsFrom(x, y, i)
    ensures c == 0 || c == 1
    decreases |x| - i
  {
    if i == |x| then 0
    else if DigitValue(x[i]) + DigitValue(y[i]) + CarryFrom(x, y, i + 1) >= 2 then 1 else 0
  }

  /** The column sum at position i: both digits and the carry coming in from the right. */
  function ColumnSum(x: string, y: string, i: nat): int
    requires |x| == |y| && i < |x| && DigitsFrom(x, y, i)
  {
    DigitValue(x[i]) + DigitValue(y[i]) + CarryFrom(x, y, i + 1)
  }

  /** The result digits the loop has written once it has processed the positions
      i .. |x| - 1: each column's sum modulo 2, in front of what came before. */
  function ResultFrom(x: string, y: string, i: nat): (r: string)
    requires |x| == |y| && i <= |x| && DigitsFrom(x, y, i)
    ensures |r| == |x| - i && IsBinary(r)
    decreases |x| - i
  {
    if i == |x| then "" else [BitChar(ColumnSum(x, y, i) % 2 == 1)] + ResultFrom(x, y, i + 1)
  }

  /** The value of the digits ResultFrom writes, summed column by column. */
  function ResultValue(x: string, y: string, i: nat): nat
    requires |x| == |y| && i <= |x| && DigitsFrom(x, y, i)
    decreases |x| - i
  {
    if i == |x| then 0
    else (if ColumnSum(x, y, i) % 2 == 1 then Pow2(|x| - i - 1) else 0) + ResultValue(x, y, i + 1)
  }

  /** ResultValue is the unsigned reading of the result digits. */
  lemma {:induction false} ResultValueUnsigned(x: string, y: string, i: nat)
    requires |x| == |y| && i <= |x| && DigitsFrom(x, y, i)
    ensures Unsigned(ResultFrom(x, y, i)) == ResultValue(x, y, i)
    decreases |x| - i
  {
    if i < |x| {
      ResultValueUnsigned(x, y, i + 1);
      var t := ResultFrom(x, y, i);
      UnsignedFirst(t);
      assert t[1..] == ResultFrom(x, y, i + 1);
    }
  }

  /** On bit strings the processed digits and the carry together hold the sum of the
      processed parts of the operands. */
  lemma {:induction false} RippleValue(x: string, y: string, i: nat)
    requires |x| == |y| && i <= |x| && IsBinary(x) && IsBinary(y)
    ensures DigitsFrom(x, y, i)
    ensures ResultValue(x, y, i) + (if CarryFrom(x, y, i) == 1 then Pow2(|x| - i) else 0) ==
            SuffixValue(x, i) + SuffixValue(y, i)
    decreases |x| - i
  {
    if i < |x| {
      RippleValue(x, y, i + 1);
      var dx := if x[i] == '1' then 1 else 0;
      var dy := if y[i] == '1' then 1 else 0;
      assert DigitValue(x[i]) == dx && DigitValue(y[i]) == dy;
      var P := Pow2(|x| - i - 1);
      assert Pow2(|x| - i) == 2 * P;
      ColumnArith(dx, dy, CarryFrom(x, y, i + 1), ColumnSum(x, y, i), P, ResultValue(x, y, i + 1),
                  SuffixValue(x, i + 1), SuffixValue(y, i + 1),
                  ResultValue(x, y, i), CarryFrom(x, y, i), SuffixValue(x, i), SuffixValue(y, i));
    }
  }

  /** One column of the adder, as arithmetic: the digit written and the carry passed on
      account for both operand digits and the incoming carry. */
  lemma {:induction false} ColumnArith(dx: int, dy: int, c: int, sum: int, P: int, u: int, sx1: int, sy1: int,
                                       ut: int, ct: int, sx: int, sy: int)
    requires 0 <= dx <= 1 && 0 <= dy <= 1 && 0 <= c <= 1 && sum == dx + dy + c
    requires u + (if c == 1 then P else 0) == sx1 + sy1
    requires ut == (if sum % 2 == 1 then P else 0) + u
    requires ct == if sum >= 2 then 1 else 0
    requires sx == (if dx == 1 then P else 0) + sx1 && sy == (if dy == 1 then P else 0) + sy1
    ensures ut + (if ct == 1 then 2 * P else 0) == sx + sy
  {
  }

  /** Adding two bit strings of length n gives their sum modulo 2^n, and the final carry is
      set exactly when the sum does not fit in n digits. */
  lemma {:induction false} RippleSum(x: string, y: string)
    requires |x| == |y| && IsBinary(x) && IsBinary(y)
    ensures DigitsFrom(x, y, 0)
    ensures var P, S := Pow2(|x|), Unsigned(x) + Unsigned(y);
      Unsigned(ResultFrom(x, y, 0)) == S % P && (CarryFrom(x, y, 0) == 1 <==> S >= P)
  {
    RippleValue(x, y, 0);
    ResultValueUnsigned(x, y, 0);
    SuffixValueUnsigned(x);
    SuffixValueUnsigned(y);
    assert Pow2(|x| - 0) == Pow2(|x|);
    CarryOut(Unsigned(ResultFrom(x, y, 0)), CarryFrom(x, y, 0), Pow2(|x|), Unsigned(x) + Unsigned(y));
  }

  /** A value below P plus a carry worth P, read back: the value is the remainder and the
      carry is set exactly when the total reaches P. */
  lemma {:induction false} CarryOut(v: int, c: int, P: int, s: int)
    requires 0 <= v < P && (c == 0 || c == 1) && v + (if c == 1 then P else 0) == s
    ensures v == s % P && (c == 1 <==> s >= P)
  {
    assert s == c * P + v by {
      if c == 1 { assert c * P == P; } else { assert c * P == 0; }
    }
    DivModUnique(s, P, c, v);
  }

  /** The length of the longer operand, which both padded operands and the result have. */
  function Width(operand1: string, operand2: string): nat
  {
    if |operand1| > |operand2| then |operand1| else |operand2|
  }

  /** An operand as the loop sees it: left-padded with zeros to the common width. */
  function Padded(operand: string, width: nat): (p: string)
    requires |operand| <= width
    ensures |p| == width
  {
    PadLeft(operand, width, '0')
  }

  /** Padding keeps a bit string a bit string and keeps its value. */
  lemma {:induction false} PaddedValue(operand: string, width: nat)
    requires |operand| <= width && IsBinary(operand)
    ensures IsBinary(Padded(operand, width)) && Unsigned(Padded(operand, width)) == Unsigned(operand)
  {
    UnsignedLeadingZeros(width - |operand|, operand);
    assert Padded(operand, width) == Replicate('0', width - |operand|) + operand;
  }

  /** The padded operands hold only digits exactly when the operands do. */
  lemma {:induction false} PaddedDigits(operand1: string, operand2: string)
    ensures var w := Width(operand1, operand2);
      DigitsFrom(Padded(operand1, w), Padded(operand2, w), 0) <==> (IsDecimal(operand1) && IsDecimal(operand2))
  {
    var w := Width(operand1, operand2);
    var x, y := Padded(operand1, w), Padded(operand2, w);
    assert forall k :: 0 <= k < |operand1| ==> x[w - |operand1| + k] == operand1[k];
    assert forall k :: 0 <= k < |operand2| ==> y[w - |operand2| + k] == operand2[k];
  }

  /** `addBinary(operand1, operand2)`: the digits of the sum in max(|operand1|, |operand2|)
      places and whether the last step carried out (the "overflow occured" message). A
      character that is not a decimal digit makes `Integer.parseInt` throw. */
  method AddBinary(operand1: string, operand2: string) returns (r: Result<string>, overflow: bool)
    ensures r.Err? ==> r.error == NumberFormatException
    ensures r.Ok? <==> IsDecimal(operand1) && IsDecimal(operand2)
    ensures r.Ok? ==>
      var w := Width(operand1, operand2);
      var x, y := Padded(operand1, w), Padded(operand2, w);
      DigitsFrom(x, y, 0) && r.value == ResultFrom(x, y, 0) && (overflow <==> CarryFrom(x, y, 0) == 1)
    ensures r.Ok? ==> IsBinary(r.value)
    ensures r.Ok? ==> |r.value| == Width(operand1, operand2)
  {
    var carry := 0;
    var res := "";
    var diff := Abs(|operand1| - |operand2|);
    var zeros := "";
    for i := 0 to diff
      invariant zeros == Replicate('0', i)
    {
      zeros := zeros + "0";
    }
    var op1, op2 := operand1, operand2;
    if |op1| > |op2| {
      op2 := zeros + op2;
    } else {
      op1 := zeros + op1;
    }
    var w := Width(operand1, operand2);
    assert op1 == Padded(operand1, w) && op2 == Padded(operand2, w);
    PaddedDigits(operand1, operand2);
    var i := |op2| - 1;
    while i >= 0
      invariant -1 <= i < |op2|
      invariant DigitsFrom(op1, op2, i + 1)
      invariant res == ResultFrom(op1, op2, i + 1) && carry == CarryFrom(op1, op2, i + 1)
    {
      if !IsDigitChar(op1[i]) || !IsDigitChar(op2[i]) {
        return Err(NumberFormatException), false;
      }
      ColumnStep(op1, op2, i);
      var sum := DigitValue(op1[i]) + DigitValue(op2[i]) + carry;
      assert sum == ColumnSum(op1, op2, i);
      carry := 0;
      res := [BitChar(sum % 2 == 1)] + res;
      if sum >= 2 {
        carry := 1;
      }
      assert res == ResultFrom(op1, op2, i) && carry == CarryFrom(op1, op2, i);
      i := i - 1;
    }
    overflow := carry == 1;
    r := Ok(res);
  }

  /** One pass of the loop body, once both digits at position i are known to be digits. */
  lemma {:induction false} ColumnStep(x: string, y: string, i: nat)
    requires |x| == |y| && i < |x| && DigitsFrom(x, y, i + 1) && IsDigitChar(x[i]) && IsDigitChar(y[i])
    ensures DigitsFrom(x, y, i)
    ensures ColumnSum(x, y, i) == DigitValue(x[i]) + DigitValue(y[i]) + CarryFrom(x, y, i + 1)
    ensures ResultFrom(x, y, i) == [BitChar(ColumnSum(x, y, i) % 2 == 1)] + ResultFrom(x, y, i + 1)
    ensures CarryFrom(x, y, i) == if ColumnSum(x, y, i) >= 2 then 1 else 0
  {
  }

  /** On bit strings, addBinary's digits are the sum modulo 2^n for n the longer operand's
      length, and it overflows exactly when the sum needs more than n digits. */
  lemma {:induction false} AddBinaryValue(operand1: string, operand2: string)
    requires IsBinary(operand1) && IsBinary(operand2)
    ensures var w := Width(operand1, operand2);
      var x, y := Padded(operand1, w), Padded(operand2, w);
      var P, S := Pow2(w), Unsigned(operand1) + Unsigned(operand2);
      DigitsFrom(x, y, 0) && Unsigned(ResultFrom(x, y, 0)) == S % P && (CarryFrom(x, y, 0) == 1 <==> S >= P)
  {
    var w := Width(operand1, operand2);
    var x, y := Padded(operand1, w), Padded(operand2, w);
    PaddedValue(operand1, w);
    PaddedValue(operand2, w);
    RippleSum(x, y);
    assert Unsigned(x) + Unsigned(y) == Unsigned(operand1) + Unsigned(operand2);
    assert Pow2(|x|) == Pow2(w);
  }

  /** n ones plus n ones: a run of ones, then a 0, with a carry out. */
  lemma {:induction false} OnesPlusOnes(x: string, i: nat)
    requires forall k :: 0 <= k < |x| ==> x[k] == '1'
    requires i < |x|
    ensures DigitsFrom(x, x, i)
    ensures ResultFrom(x, x, i) == Replicate('1', |x| - i - 1) + "0" && CarryFrom(x, x, i) == 1
    decreases |x| - i
  {
    if i + 1 < |x| {
      OnesPlusOnes(x, i + 1);
      ColumnStep(x, x, i);
      assert ColumnSum(x, x, i) == 3;
      var m := |x| - i - 2;
      assert Replicate('1', m + 1) == ['1'] + Replicate('1', m);
      assert ['1'] + (Replicate('1', m) + "0") == Replicate('1', m + 1) + "0";
    } else {
      assert DigitsFrom(x, x, i + 1);
      ColumnStep(x, x, i);
      assert ColumnSum(x, x, i) == 2;
      assert Replicate('1', 0) + "0" == "0";
    }
  }

  /** The example of the exercise's main method: nine ones plus nine ones is "111111110"
      with an overflow. */
  lemma {:induction false} NineOnes()
    ensures DigitsFrom("111111111", "111111111", 0)
    ensures ResultFrom("111111111", "111111111", 0) == "111111110"
    ensures CarryFrom("111111111", "111111111", 0) == 1
  {
    OnesPlusOnes("111111111", 0);
    assert Replicate('1', 8) + "0" == "111111110";
  }
}
