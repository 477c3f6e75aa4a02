/**
 * The N-bit register value of the simulator (`Unit`). Its only mutable state is the
 * string `data` holding a binary rendering; its value is that string read as a long
 * and narrowed to an int, and its bit array is the low `size` bits of that value.
 */
module Units {
  import opened Binary
  import opened JavaInt
  import opened Wrappers

  /** MAX_VALUE = max(2^(n-1) - 1, 1). */
  function UnitMax(size: nat): (m: int)
    requires 1 <= size <= 32
    ensures 1 <= m <= IntMax
    ensures size >= 2 ==> m == Pow2(size - 1) - 1
  {
    Pow2Monotone(size - 1, 31);
    Pow2Of32();
    if Pow2(size - 1) - 1 > 1 then Pow2(size - 1) - 1 else 1
  }

  /** MIN_VALUE = min(0, -MAX_VALUE). */
  function UnitMin(size: nat): (m: int)
    requires 1 <= size <= 32
    ensures m == -UnitMax(size)
  {
    if 0 < -UnitMax(size) then 0 else -UnitMax(size)
  }

  predicate InRange(size: nat, v: int)
    requires 1 <= size <= 32
  {
    UnitMin(size) <= v <= UnitMax(size)
  }

  // ---------------------------------------------------------------------------
  // One step of each shift and rotate loop, on the bit array (most significant first)

  datatype Move = ShiftLeft | ShiftRight(arithmetic: bool) | RotateLeft | RotateRight

  /** Digit i after one pass of the loop: every digit moves one place toward the front (left
      moves) or the back (right moves), and the vacated end takes 0, the old leading digit (an
      arithmetic right shift) or the digit that fell off the other end (a rotation). */
  function StepDigit(m: Move, d: seq<int>, i: nat): int
    requires i < |d|
  {
    var n := |d|;
    match m
    case ShiftLeft => if i + 1 < n then d[i + 1] else 0
    case ShiftRight(arithmetic) => if i > 0 then d[i - 1] else if arithmetic then d[0] else 0
    case RotateLeft => if i + 1 < n then d[i + 1] else d[0]
    case RotateRight => if i > 0 then d[i - 1] else d[n - 1]
  }

  /** The first k digits after one pass. */
  function StepPrefix(m: Move, d: seq<int>, k: nat): (r: seq<int>)
    requires k <= |d|
    ensures |r| == k
  {
    if k == 0 then [] else StepPrefix(m, d, k - 1) + [StepDigit(m, d, k - 1)]
  }

  /** One pass of a shift or rotate loop over the bit array. */
  function Step(m: Move, d: seq<int>): (r: seq<int>)
    requires |d| >= 1
    ensures |r| == |d|
  {
    StepPrefix(m, d, |d|)
  }

  lemma {:induction false} StepPrefixAt(m: Move, d: seq<int>, k: nat)
    requires k <= |d|
    ensures forall i :: 0 <= i < k ==> StepPrefix(m, d, k)[i] == StepDigit(m, d, i)
  {
    if k > 0 {
      StepPrefixAt(m, d, k - 1);
    }
  }

  /** Digit i of one pass is StepDigit(m, d, i). */
  lemma {:induction false} StepAt(m: Move, d: seq<int>)
    requires |d| >= 1
    ensures forall i :: 0 <= i < |d| ==> Step(m, d)[i] == StepDigit(m, d, i)
  {
    StepPrefixAt(m, d, |d|);
  }

  /** k steps of the same move. */
  function Repeat(m: Move, d: seq<int>, k: nat): (r: seq<int>)
    requires |d| >= 1
    ensures |r| == |d|
  {
    if k == 0 then d else Step(m, Repeat(m, d, k - 1))
  }

  /** After k left shifts, digit i is the old digit i + k, or 0 once that is past the end. */
  lemma {:induction false} ShiftLeftRepeat(d: seq<int>, k: nat)
    requires |d| >= 1
    ensures forall i :: 0 <= i < |d| ==>
      Repeat(ShiftLeft, d, k)[i] == if i + k < |d| then d[i + k] else 0
  {
    if k > 0 {
      ShiftLeftRepeat(d, k - 1);
      StepAt(ShiftLeft, Repeat(ShiftLeft, d, k - 1));
    }
  }

  /** After k right shifts, the first k digits are the fill digit (the old leading digit for
      an arithmetic shift, 0 for a logical one) and digit i >= k is the old digit i - k. */
  lemma {:induction false} ShiftRightRepeat(d: seq<int>, arithmetic: bool, k: nat)
    requires |d| >= 1
    ensures forall i :: 0 <= i < |d| ==>
      Repeat(ShiftRight(arithmetic), d, k)[i] ==
        if i >= k then d[i - k] else if arithmetic then d[0] else 0
  {
    if k > 0 {
      ShiftRightRepeat(d, arithmetic, k - 1);
      StepAt(ShiftRight(arithmetic), Repeat(ShiftRight(arithmetic), d, k - 1));
    }
  }

  /** Adding the modulus does not change a remainder. */
  lemma {:induction false} ModAddModulus(a: int, n: int)
    requires n > 0
    ensures (a + n) % n == a % n
  {
    DivModUnique(a + n, n, a / n + 1, a % n);
  }

  /** Rotating left k times moves digit (i + k) mod n to place i. */
  lemma {:induction false} RotateLeftRepeat(d: seq<int>, k: nat)
    requires |d| >= 1
    ensures forall i :: 0 <= i < |d| ==> Repeat(RotateLeft, d, k)[i] == d[(i + k) % |d|]
  {
    var n := |d|;
    if k == 0 {
      forall i | 0 <= i < n ensures i % n == i {
        DivModUnique(i, n, 0, i);
      }
    } else {
      RotateLeftRepeat(d, k - 1);
      StepAt(RotateLeft, Repeat(RotateLeft, d, k - 1));
      ModAddModulus(k - 1, n);
    }
  }

  /** Rotating right k times moves digit (i - k) mod n to place i. */
  lemma {:induction false} RotateRightRepeat(d: seq<int>, k: nat)
    requires |d| >= 1
    ensures forall i :: 0 <= i < |d| ==> Repeat(RotateRight, d, k)[i] == d[(i - k) % |d|]
  {
    var n := |d|;
    if k == 0 {
      forall i | 0 <= i < n ensures i % n == i {
        DivModUnique(i, n, 0, i);
      }
    } else {
      RotateRightRepeat(d, k - 1);
      StepAt(RotateRight, Repeat(RotateRight, d, k - 1));
      ModAddModulus(-(k as int), n);
    }
  }

  /** A rotation only permutes the digits, so it keeps the number of 1 bits. */
  lemma {:induction false} RotatePermutes(d: seq<int>, left: bool, k: nat)
    requires |d| >= 1
    ensures multiset(Repeat(if left then RotateLeft else RotateRight, d, k)) == multiset(d)
  {
    if k > 0 {
      var m := if left then RotateLeft else RotateRight;
      RotatePermutes(d, left, k - 1);
      RotateOncePermutes(Repeat(m, d, k - 1), left);
    }
  }

  lemma {:induction false} RotateOncePermutes(x: seq<int>, left: bool)
    requires |x| >= 1
    ensures multiset(Step(if left then RotateLeft else RotateRight, x)) == multiset(x)
  {
    var n := |x|;
    StepAt(if left then RotateLeft else RotateRight, x);
    if left {
      var y := Step(RotateLeft, x);
      assert y == x[1..] + [x[0]];
      assert x == [x[0]] + x[1..];
      assert multiset(y) == multiset(x[1..]) + multiset([x[0]]);
    } else {
      var y := Step(RotateRight, x);
      assert y == [x[n - 1]] + x[..n - 1];
      assert x == x[..n - 1] + [x[n - 1]];
      assert multiset(y) == multiset([x[n - 1]]) + multiset(x[..n - 1]);
    }
  }

  /** Going k places back after k places forward returns to the start, modulo n. */
  lemma {:induction false} ModUndo(i: int, k: int, n: int)
    requires 0 <= i < n
    ensures ((i - k) % n + k) % n == i
  {
    var q, r := (i - k) / n, (i - k) % n;
    DivModUnique(r + k, n, -q, i);
  }

  /** Rotating right k times undoes rotating left k times. */
  lemma {:induction false} RotateRightUndoesLeft(d: seq<int>, k: nat)
    requires |d| >= 1
    ensures Repeat(RotateRight, Repeat(RotateLeft, d, k), k) == d
  {
    var n := |d|;
    var l := Repeat(RotateLeft, d, k);
    var r := Repeat(RotateRight, l, k);
    RotateLeftRepeat(d, k);
    RotateRightRepeat(l, k);
    forall i | 0 <= i < n ensures r[i] == d[i] {
      ModUndo(i, k, n);
    }
  }

  /** Rotating by the width in either direction is the identity. */
  lemma {:induction false} RotateByWidth(d: seq<int>, left: bool)
    requires |d| >= 1
    ensures Repeat(if left then RotateLeft else RotateRight, d, |d|) == d
  {
    var n := |d|;
    var r := Repeat(if left then RotateLeft else RotateRight, d, n);
    if left {
      RotateLeftRepeat(d, n);
    } else {
      RotateRightRepeat(d, n);
    }
    forall i | 0 <= i < n ensures r[i] == d[i] {
      DivModUnique(i + n, n, 1, i);
      DivModUnique(i - n, n, -1, i);
    }
  }

  /** Storing the text of a bit array of the full width gives back that bit array. */
  lemma {:induction false} DigitsOfStoredText(bits: seq<int>)
    requires IsDigits(bits) && 1 <= |bits| <= 32
    ensures var t := ElementsText(bits);
      IsBinary(t) && |t| == |bits| && LowBits(ToInt32(Unsigned(t)), |bits|) == bits
  {
    ElementsTextOfDigits(bits);
    ToInt32LowBits(DigitsValue(bits), |bits|);
    LowBitsOfDigits(bits);
  }

  /** A 32-digit string narrowed to int is its two's-complement reading. */
  lemma {:induction false} ToInt32OfWidth32(s: string)
    requires IsBinary(s) && |s| == 32
    ensures ToInt32(Unsigned(s)) == Signed(s)
  {
    UnsignedFirst(s);
    Pow2Of32();
    assert Unsigned(s[1..]) < Pow2(31);
  }

  /** The text of a bit field: as many binary digits as bits, reading the field's value. */
  lemma {:induction false} FieldText(field: seq<int>)
    requires IsDigits(field)
    ensures var t := ElementsText(field);
      IsBinary(t) && |t| == |field| && Unsigned(t) == DigitsValue(field) && DigitsValue(field) >= 0
  {
    ElementsTextOfDigits(field);
    DigitsValueBounds(field);
  }

  class Unit {
    const size: nat
    const MaxValue: int
    const MinValue: int
    var data: string

    ghost predicate Valid()
      reads this
    {
      1 <= size <= 32 && MaxValue == UnitMax(size) && MinValue == UnitMin(size) &&
      IsBinary(data) && 1 <= |data| <= 32
    }

    /** getLongValue: `data` read in base 2. */
    function LongValue(): nat
      reads this
    {
      Unsigned(data)
    }

    /** getValue: the long reading narrowed to an int. */
    function Value(): (v: int)
      reads this
      requires Valid()
      ensures IsInt32(v)
    {
      ToInt32(Unsigned(data))
    }

    /** The bit array getBinaryArray returns: the low `size` bits of the value. */
    ghost function Digits(): (d: seq<int>)
      reads this
      requires Valid()
      ensures |d| == size && IsDigits(d)
    {
      LowBits(Value(), size)
    }

    /** `new Unit(size, value)` once its checks have passed. */
    constructor Make(size: nat, value: int)
      requires 1 <= size <= 32 && InRange(size, value)
      ensures Valid() && this.size == size
      ensures data == ToBinaryString(value) && Value() == value
    {
      this.size := size;
      MaxValue := UnitMax(size);
      MinValue := UnitMin(size);
      data := ToBinaryString(value);
    }

    /** `new Unit(size, value)`: throws an ArithmeticException unless 1 <= size <= 32 and
        MIN_VALUE <= value <= MAX_VALUE. `new Unit(size)` is `Create(size, 0)`. */
    static method Create(size: int, value: int) returns (r: Result<Unit>)
      requires IsInt32(value)
      ensures r.Ok? <==> 1 <= size <= 32 && InRange(size, value)
      ensures r.Err? ==> r.error == ArithmeticException
      ensures r.Ok? ==> fresh(r.value) && r.value.Valid() && r.value.size == size
      ensures r.Ok? ==> r.value.data == ToBinaryString(value) && r.value.Value() == value
    {
      if size > 32 || size < 1 {
        return Err(ArithmeticException);
      }
      if value <= UnitMax(size) && value >= UnitMin(size) {
        var u := new Unit.Make(size, value);
        r := Ok(u);
      } else {
        r := Err(ArithmeticException);
      }
    }

    /** The copy constructor. */
    constructor Copy(c: Unit)
      requires c.Valid()
      ensures Valid() && size == c.size && data == c.data
    {
      data := c.data;
      size := c.size;
      MinValue := c.MinValue;
      MaxValue := c.MaxValue;
    }

    /** setValue: stores Integer.toBinaryString(value) when the value is in range; otherwise
        throws (ok == false) and leaves the Unit as it was. */
    method SetValue(value: int) returns (ok: bool)
      requires Valid() && IsInt32(value)
      modifies this
      ensures Valid()
      ensures ok <==> MinValue <= value <= MaxValue
      ensures data == if ok then ToBinaryString(value) else old(data)
      ensures ok ==> Value() == value
    {
      if value <= MaxValue && value >= MinValue {
        data := ToBinaryString(value);
        ok := true;
      } else {
        ok := false;
      }
    }

    /** getBinaryArray: exactly `size` bits, most significant first, the low bits of the value. */
    method GetBinaryArray() returns (digits: array<int>)
      requires Valid()
      ensures fresh(digits) && digits[..] == Digits()
    {
      digits := LowBitsArray(Value(), size);
    }

    /** getBinaryArray's loop: `size` times, store x & 1 from the back and halve x. */
    static method LowBitsArray(x0: int, n: nat) returns (digits: array<int>)
      ensures fresh(digits) && digits[..] == LowBits(x0, n)
    {
      digits := new int[n];
      ghost var d := LowBits(x0, n);
      var x := x0;
      var i := 0;
      while i < n
        invariant 0 <= i <= n
        invariant LowBits(x, n - i) == d[..n - i]
        invariant forall k :: n - i <= k < n ==> digits[k] == d[k]
      {
        var m := n - i;
        LowBitsLast(x, m);
        PrefixOfPrefix(d, m);
        digits[m - 1] := x % 2;
        x := x / 2;
        i := i + 1;
      }
      assert digits[..] == d;
    }

    /** IntArrayToBinaryString: the elements' decimal texts, concatenated in order. */
    static method IntArrayToBinaryString(arr: array<int>) returns (s: string)
      ensures s == ElementsText(arr[..])
    {
      s := "";
      var i := 0;
      while i < arr.Length
        invariant 0 <= i <= arr.Length
        invariant s == Joined(arr[..], 0, i)
      {
        s := s + IntToDecimal(arr[i]);
        i := i + 1;
      }
    }

    /** getBinaryString: the bit array as text, `size` digits reading the value modulo 2^size. */
    method GetBinaryString() returns (s: string)
      requires Valid()
      ensures IsBinary(s) && |s| == size
      ensures Unsigned(s) == Value() % Pow2(size)
      ensures s == ElementsText(Digits())
    {
      var arr := GetBinaryArray();
      s := IntArrayToBinaryString(arr);
      ElementsTextOfDigits(arr[..]);
      LowBitsValue(Value(), size);
    }

    /** setValueBinary: a string of exactly `size` digits is stored as it is; a longer one
        keeps its last `size` digits; a shorter one is sign-extended into a local copy only,
        so `data` stays as it was (an empty string makes that extension throw, ok == false). */
    method SetValueBinary(binary: string) returns (ok: bool)
      requires Valid() && IsBinary(binary)
      modifies this
      ensures Valid()
      ensures ok <==> |binary| > 0
      ensures data == if |binary| == size then binary
                      else if |binary| > size then binary[|binary| - size..]
                      else old(data)
    {
      ok := true;
      if |binary| == size {
        data := binary;
      } else if |binary| < size {
        if |binary| == 0 {
          return false;
        }
        var extended := binary;
        extended := extended[..1] + extended;
        while |extended| < size
          invariant 0 < |extended| <= size
          decreases size - |extended|
        {
          extended := extended[..1] + extended;
        }
      } else {
        data := binary[|binary| - size..];
      }
    }

    /** setValueBinaryArray: the array's text handed to setValueBinary. */
    method SetValueBinaryArray(raw: array<int>) returns (ok: bool)
      requires Valid() && IsDigits(raw[..])
      modifies this
      ensures Valid()
      ensures ok <==> raw.Length > 0
      ensures raw.Length == size ==> data == ElementsText(raw[..]) && |data| == size && Digits() == raw[..]
    {
      var text := IntArrayToBinaryString(raw);
      ElementsTextOfDigits(raw[..]);
      ok := SetValueBinary(text);
      if raw.Length == size {
        DigitsOfStoredText(raw[..]);
      }
    }

    /** The inner loop of a left shift or rotation: every entry moves one place toward the
        front, then `last` goes into the final slot. */
    static method MoveTowardFront(a: array<int>, last: int)
      requires a.Length >= 1
      modifies a
      ensures forall k :: 0 <= k < a.Length ==> a[k] == if k + 1 < a.Length then old(a[k + 1]) else last
    {
      var i := 0;
      while i < a.Length - 1
        invariant 0 <= i <= a.Length - 1
        invariant forall k :: 0 <= k < i ==> a[k] == old(a[k + 1])
        invariant forall k :: i <= k < a.Length ==> a[k] == old(a[k])
      {
        a[i] := a[i + 1];
        i := i + 1;
      }
      a[a.Length - 1] := last;
    }

    /** The inner loop of a right shift or rotation: every entry moves one place toward the
        back, then `first` goes into slot 0. */
    static method MoveTowardBack(a: array<int>, first: int)
      requires a.Length >= 1
      modifies a
      ensures forall k :: 0 <= k < a.Length ==> a[k] == if k > 0 then old(a[k - 1]) else first
    {
      var i := a.Length - 1;
      while i > 0
        invariant 0 <= i <= a.Length - 1
        invariant forall k :: 0 <= k <= i ==> a[k] == old(a[k])
        invariant forall k :: i < k < a.Length ==> a[k] == old(a[k - 1])
      {
        a[i] := a[i - 1];
        i := i - 1;
      }
      a[0] := first;
    }

    /** One pass of a shift or rotate loop: read the bit array, move it, store it back. */
    method StepOnce(m: Move)
      requires Valid()
      modifies this
      ensures Valid()
      ensures Digits() == Step(m, old(Digits())) && |data| == size
    {
      ghost var d := Digits();
      var shiftTemp := GetBinaryArray();
      match m {
        case ShiftLeft =>
          MoveTowardFront(shiftTemp, 0);
        case ShiftRight(arithmetic) =>
          var shiftOn := if arithmetic then shiftTemp[0] else 0;
          MoveTowardBack(shiftTemp, shiftOn);
        case RotateLeft =>
          var shiftOff := shiftTemp[0];
          MoveTowardFront(shiftTemp, shiftOff);
        case RotateRight =>
          var shiftOff := shiftTemp[size - 1];
          MoveTowardBack(shiftTemp, shiftOff);
      }
      StepAt(m, d);
      assert shiftTemp[..] == Step(m, d);
      var _ := SetValueBinaryArray(shiftTemp);
    }

    /** Once `data` holds exactly `size` digits and the width is below 32, the value is the
        unsigned reading of the bit array: a shift or rotation drops the sign of a value. */
    lemma {:induction false} ExactWidthReading()
      requires Valid() && |data| == size
      ensures size < 32 ==> 0 <= Value() == DigitsValue(Digits())
    {
      if size < 32 {
        var u := Unsigned(data);
        Pow2Monotone(size, 31);
        Pow2Of32();
        assert 0 <= u < Pow2(size) <= IntMax + 1;
        assert Value() == u;
        LowBitsValue(u, size);
        DivModUnique(u, Pow2(size), 0, u);
      }
    }

    /** The bit array of a value in the two's-complement range of the width reads back, in
        two's complement, as that value. */
    lemma {:induction false} TwosReading()
      requires Valid()
      ensures IsBinary(ElementsText(Digits())) && |ElementsText(Digits())| == size
      ensures InTwosRange(size, Value()) ==> Signed(ElementsText(Digits())) == Value()
    {
      var v, P, h := Value(), Pow2(size), Pow2(size - 1);
      ElementsTextOfDigits(Digits());
      if InTwosRange(size, v) {
        var d := Digits();
        var t := ElementsText(d);
        assert P == 2 * h;
        LowBitsValue(v, size);
        ElementsTextOfDigits(d);
        UnsignedFirst(t);
        assert Unsigned(t[1..]) < h;
        if v >= 0 {
          DivModUnique(v, P, 0, v);
          assert t[0] == '0';
        } else {
          DivModUnique(v, P, -1, v + P);
          assert t[0] == '1';
        }
      }
    }

    /** shiftByCount: L/R = 1 shifts left, anything else right; A/L = 0 shifts right
        arithmetically, anything else logically. A count <= 0 changes nothing. */
    method ShiftByCount(leftRight: int, count: int, algorithmicLogical: int)
      requires Valid()
      modifies this
      ensures Valid()
      ensures count <= 0 ==> data == old(data)
      ensures count > 0 ==>
        var m := if leftRight == 1 then ShiftLeft else ShiftRight(algorithmicLogical == 0);
        Digits() == Repeat(m, old(Digits()), count) && |data| == size
      ensures count > 0 && size < 32 ==> 0 <= Value() == DigitsValue(Digits())
    {
      var m := if leftRight == 1 then ShiftLeft else ShiftRight(algorithmicLogical == 0);
      RepeatCount(m, count);
      if count > 0 {
        ExactWidthReading();
      }
    }

    /** rotateByCount: L/R = 1 rotates left, anything else right. A count <= 0 changes nothing. */
    method RotateByCount(leftRight: int, count: int)
      requires Valid()
      modifies this
      ensures Valid()
      ensures count <= 0 ==> data == old(data)
      ensures count > 0 ==>
        Digits() == Repeat(if leftRight == 1 then RotateLeft else RotateRight, old(Digits()), count) &&
        |data| == size
      ensures count > 0 && size < 32 ==> 0 <= Value() == DigitsValue(Digits())
    {
      RepeatCount(if leftRight == 1 then RotateLeft else RotateRight, count);
      if count > 0 {
        ExactWidthReading();
      }
    }

    /** The `while (count > 0) { ...; count--; }` loop both shiftByCount and rotateByCount run. */
    method RepeatCount(m: Move, count: int)
      requires Valid()
      modifies this
      ensures Valid()
      ensures count <= 0 ==> data == old(data)
      ensures count > 0 ==> Digits() == Repeat(m, old(Digits()), count) && |data| == size
    {
      if count <= 0 {
        return;
      }
      ghost var d0 := Digits();
      var c := count;
      while c > 0
        invariant Valid()
        invariant 0 <= c <= count
        invariant c < count ==> |data| == size
        invariant Digits() == Repeat(m, d0, count - c)
      {
        StepOnce(m);
        c := c - 1;
      }
    }

    /** The StringBuilder loop of decomposeByOffset: the texts of digits[start..stop] in order. */
    static method AppendRange(digits: array<int>, start: int, stop: int) returns (text: string)
      requires 0 <= start <= stop < digits.Length
      ensures text == ElementsText(digits[start..stop + 1])
    {
      text := "";
      ghost var ds := digits[..];
      var i := start;
      while i <= stop
        invariant start <= i <= stop + 1
        invariant text == Joined(ds, start, i)
      {
        assert ds[i] == digits[i];
        text := text + IntToDecimal(digits[i]);
        i := i + 1;
      }
      SliceText(IntToDecimal, ds, start, stop + 1);
      assert ds[start..stop + 1] == digits[start..stop + 1];
    }

    /** decomposeByOffset(start, stop): a new Unit of width stop-start+1 holding the bits
        digits[start..stop] read unsigned. Throws when an index is outside the array, when the
        field is empty (parseInt of ""), or when its value exceeds MAX_VALUE of the width. */
    method DecomposeByOffset(start: int, stop: int) returns (r: Result<Unit>)
      requires Valid()
      ensures r.Ok? <==> 0 <= start <= stop < size &&
                         DigitsValue(Digits()[start..stop + 1]) <= UnitMax(stop - start + 1)
      ensures start <= stop && (start < 0 || stop >= size) ==> r == Err(IndexOutOfBoundsException)
      ensures stop < start ==> r == Err(NumberFormatException)
      ensures r.Ok? ==> fresh(r.value) && r.value.Valid() && r.value.size == stop - start + 1 &&
                        r.value.Value() == DigitsValue(Digits()[start..stop + 1]) &&
                        r.value.Digits() == Digits()[start..stop + 1]
    {
      var digits := GetBinaryArray();
      if start <= stop && (start < 0 || stop >= size) {
        return Err(IndexOutOfBoundsException);
      }
      if stop < start {
        // the loop appends nothing and parseInt rejects the empty string
        return Err(NumberFormatException);
      }
      var text := AppendRange(digits, start, stop);
      ghost var field := Digits()[start..stop + 1];
      assert digits[start..stop + 1] == field;
      r := FieldUnit(field, text);
    }

    /** The tail of decomposeByOffset: parse the text of the field's bits and build a Unit of
        the field's width from it. */
    static method FieldUnit(ghost field: seq<int>, text: string) returns (r: Result<Unit>)
      requires IsDigits(field) && 1 <= |field| <= 32 && text == ElementsText(field)
      ensures r.Ok? <==> DigitsValue(field) <= UnitMax(|field|)
      ensures r.Ok? ==> fresh(r.value) && r.value.Valid() && r.value.size == |field| &&
                        r.value.Value() == DigitsValue(field) && r.value.Digits() == field
    {
      FieldText(field);
      var parsed := ParseInt(text);
      if parsed.Err? {
        return Err(NumberFormatException);
      }
      r := Create(|text|, parsed.value);
      if r.Ok? {
        LowBitsOfDigits(field);
      }
    }

    /** decomposeByIndex(index) (and its alias decomposeByOffset(index)): a one-bit Unit
        holding bit `index`; throws when the index is outside the array. */
    method DecomposeByIndex(index: int) returns (r: Result<Unit>)
      requires Valid()
      ensures r.Ok? <==> 0 <= index < size
      ensures r.Err? ==> r.error == IndexOutOfBoundsException
      ensures r.Ok? ==> fresh(r.value) && r.value.Valid() && r.value.size == 1 &&
                        r.value.Value() == Digits()[index]
    {
      var digits := GetBinaryArray();
      if index < 0 || index >= size {
        return Err(IndexOutOfBoundsException);
      }
      var text := IntToDecimal(digits[index]);
      var parsed := ParseInt(text);
      r := Create(1, parsed.value);
    }

    /** UnitFromBinaryString: drop the spaces, remember the digit count as the size, sign-extend
        to 32 digits by repeating the first one, parse as a long, narrow to an int and build a
        Unit of that size. For a string of bits this is the two's-complement reading. */
    static method UnitFromBinaryString(binaryReadable: string) returns (r: Result<Unit>)
      ensures var b := RemoveSpaces(binaryReadable);
        IsBinary(b) ==>
          (r.Ok? <==> 1 <= |b| <= 32 && InRange(|b|, Signed(b))) &&
          (r.Ok? ==> fresh(r.value) && r.value.Valid() && r.value.size == |b| && r.value.Value() == Signed(b))
    {
      var binary := RemoveSpaces(binaryReadable);
      var size := |binary|;
      if size == 0 {
        return Err(IndexOutOfBoundsException);
      }
      while |binary| < 32
        invariant |binary| >= size && binary[0] == RemoveSpaces(binaryReadable)[0]
        invariant size <= 32 ==> |binary| <= 32
        invariant binary == Replicate(binary[0], |binary| - size) + RemoveSpaces(binaryReadable)
        decreases 32 - |binary|
      {
        binary := binary[..1] + binary;
      }
      ghost var b := RemoveSpaces(binaryReadable);
      if IsBinary(b) && size <= 32 {
        assert IsBinary(binary) && |binary| == 32;
        Pow2Of32();
        SignedExtend(b, |binary| - size);
        ToInt32OfWidth32(binary);
      }
      var longValue := ParseLong(binary);
      if longValue.Err? {
        return Err(NumberFormatException);
      }
      var intValue := ToInt32(longValue.value);
      r := Create(size, intValue);
    }
  }
}
