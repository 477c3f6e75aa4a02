/**
 * The 20-bit machine word: a Unit whose size is always WORD_SIZE.
 */
module Words {
  import opened Binary
  import opened JavaInt
  import opened Wrappers
  import opened Units

  const WordSize: nat := 20

  /** The values `new Word(value)` accepts: -(2^19 - 1) .. 2^19 - 1. A Word can come to hold
      others (by setValueBinary or a shift), so the memories store any int. */
  predicate IsWordValue(v: int) { -0x7FFFF <= v <= 0x7FFFF }

  /** 2^19 - 1, the largest value a Word holds. */
  lemma {:induction false} WordMax()
    ensures UnitMax(WordSize) == 0x7FFFF && Pow2(19) == 0x80000
  {
    assert Pow2(3) == 8;
    Pow2Add(3, 3);
    Pow2Add(6, 6);
    Pow2Add(12, 7);
    assert Pow2(7) == 128;
  }

  /** `new Word(value)`: throws unless -(2^19 - 1) <= value <= 2^19 - 1. */
  method NewWord(value: int) returns (r: Result<Unit>)
    requires IsInt32(value)
    ensures r.Ok? <==> -0x7FFFF <= value <= 0x7FFFF
    ensures r.Err? ==> r.error == ArithmeticException
    ensures r.Ok? ==> fresh(r.value) && r.value.Valid() && r.value.size == WordSize &&
                      r.value.Value() == value
  {
    WordMax();
    r := Unit.Create(WordSize, value);
  }

  /** setValueBinary stores twenty digits as they are, so a Word holding "1" and nineteen
      zeros reads as 2^19, past the range the constructor accepts. */
  lemma {:induction false} WordAboveConstructorRange(w: Unit)
    requires w.Valid() && w.size == WordSize && w.data == "1" + Replicate('0', 19)
    ensures w.Value() == 0x80000 && !IsWordValue(w.Value())
  {
    WordMax();
    UnsignedAppend("1", Replicate('0', 19));
    UnsignedZeros(19);
    assert Unsigned("1") == 1;
    Pow2Of32();
    Pow2Monotone(19, 31);
  }

  /** `new Word()`: a 20-bit Unit holding 0. */
  method NewZeroWord() returns (w: Unit)
    ensures fresh(w) && w.Valid() && w.size == WordSize && w.Value() == 0 && w.data == "0"
  {
    WordMax();
    w := new Unit.Make(WordSize, 0);
  }

  /** `new Word(Integer.parseInt(binary, 2))` on space-free text: the value, or the exception. */
  function ParseWord(binary: string): (r: Result<int>)
    ensures IsBinary(binary) && |binary| > 0 ==>
      (r.Ok? <==> Unsigned(binary) <= 0x7FFFF) && (r.Ok? ==> r.value == Unsigned(binary))
    ensures r.Ok? ==> -0x7FFFF <= r.value <= 0x7FFFF
  {
    WordMax();
    match ParseInt(binary)
    case Err(e) => Err(e)
    case Ok(v) => if UnitMin(WordSize) <= v <= UnitMax(WordSize) then Ok(v) else Err(ArithmeticException)
  }

  /** The value WordFromBinaryString builds its Word from, or the exception it throws.
      The digit count check only builds and swallows an exception, so it has no effect. */
  function WordValue(binaryReadable: string): (r: Result<int>)
    ensures var b := RemoveSpaces(binaryReadable);
      IsBinary(b) && |b| > 0 ==> (r.Ok? <==> Unsigned(b) <= 0x7FFFF) && (r.Ok? ==> r.value == Unsigned(b))
  {
    ParseWord(RemoveSpaces(binaryReadable))
  }

  /** A 20-digit bit string makes a Word exactly when its leading digit is 0, and the word's
      value is the unsigned reading of the digits. */
  lemma {:induction false} TwentyDigits(b: string)
    requires IsBinary(b) && |b| == WordSize
    ensures WordValue(b).Ok? <==> b[0] == '0'
    ensures WordValue(b).Ok? ==> WordValue(b).value == Unsigned(b)
  {
    assert RemoveSpaces(b) == b;
    WordMax();
    UnsignedFirst(b);
  }

  /** Spaces anywhere in the text do not change the Word it denotes. */
  lemma {:induction false} SpacesIgnored(a: string, b: string)
    ensures WordValue(a + " " + b) == WordValue(a + b)
  {
    RemoveSpacesSplit(a + " ", b);
    RemoveSpacesSplit(a, " ");
    RemoveSpacesSplit(a, b);
    assert " "[1..] == [];
    assert RemoveSpaces(" ") == [];
    assert RemoveSpaces(a) + [] == RemoveSpaces(a);
    assert RemoveSpaces(a + " " + b) == RemoveSpaces(a + b);
  }

  /** `Word.WordFromBinaryString`. */
  method WordFromBinaryString(binaryReadable: string) returns (r: Result<Unit>)
    ensures r.Ok? <==> WordValue(binaryReadable).Ok?
    ensures r.Err? ==> r.error == WordValue(binaryReadable).error
    ensures r.Ok? ==> fresh(r.value) && r.value.Valid() && r.value.size == WordSize &&
                      r.value.Value() == WordValue(binaryReadable).value
  {
    var binary := RemoveSpaces(binaryReadable);
    var parsed := ParseInt(binary);
    if parsed.Err? {
      return Err(parsed.error);
    }
    WordMax();
    r := NewWord(parsed.value);
  }
}
