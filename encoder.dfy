/**
 * The card encoder script: every text line becomes a run of character codes ending in NUL
 * and padded to even length; the runs are read two codes at a time, and each pair becomes
 * one listing line whose first 20 characters are the pair's binary codes, the form the
 * card reader later parses into a Word.
 */
module Encoder {
  import opened Binary
  import opened Wrappers
  import opened Words

  const Nul: char := '\0'

  /** The characters PHP's trim strips: space, tab, newline, carriage return, NUL and
      vertical tab. */
  predicate IsTrimmed(c: char)
  {
    c == ' ' || c == '\t' || c == '\n' || c == '\r' || c == Nul || c as int == 11
  }

  /** Strip the leading trimmable characters. */
  function TrimLeft(s: string): string
  {
    if s != [] && IsTrimmed(s[0]) then TrimLeft(s[1..]) else s
  }

  /** Strip the trailing trimmable characters. */
  function TrimRight(s: string): string
  {
    if s != [] && IsTrimmed(s[|s| - 1]) then TrimRight(s[..|s| - 1]) else s
  }

  /** PHP trim: strip the trimmable characters at both ends. */
  function Trim(s: string): string
  {
    TrimRight(TrimLeft(s))
  }

  /** What TrimLeft cuts off is a run of trimmable characters, and what it keeps is the rest
      of s, starting with a character trim keeps. */
  lemma {:induction false} TrimLeftShape(s: string)
    ensures var r := TrimLeft(s);
      |r| <= |s| && r == s[|s| - |r|..] && (r != [] ==> !IsTrimmed(r[0])) &&
      forall k :: 0 <= k < |s| - |r| ==> IsTrimmed(s[k])
  {
    if s != [] && IsTrimmed(s[0]) {
      TrimLeftShape(s[1..]);
      var r := TrimLeft(s);
      assert r == TrimLeft(s[1..]);
      forall k | 0 <= k < |s| - |r|
        ensures IsTrimmed(s[k])
      {
        if k > 0 {
          assert s[k] == s[1..][k - 1];
        }
      }
    }
  }

  /** What TrimRight cuts off is a run of trimmable characters, and what it keeps is the
      front of s, ending with a character trim keeps. */
  lemma {:induction false} TrimRightShape(s: string)
    ensures var r := TrimRight(s);
      |r| <= |s| && r == s[..|r|] && (r != [] ==> !IsTrimmed(r[|r| - 1])) &&
      forall k :: |r| <= k < |s| ==> IsTrimmed(s[k])
  {
    if s != [] && IsTrimmed(s[|s| - 1]) {
      var p := s[..|s| - 1];
      TrimRightShape(p);
      var r := TrimRight(s);
      assert r == TrimRight(p);
      forall k | |r| <= k < |s|
        ensures IsTrimmed(s[k])
      {
        if k < |s| - 1 {
          assert s[k] == p[k];
        }
      }
    }
  }

  /** trim keeps a slice s[i..j] of s that neither starts nor ends with a trimmable
      character; everything before i and from j on is trimmable. */
  lemma {:induction false} TrimShape(s: string)
    ensures var r, i := Trim(s), |s| - |TrimLeft(s)|;
      |TrimLeft(s)| <= |s| && i + |r| <= |s| && r == s[i..i + |r|] &&
      (r != [] ==> !IsTrimmed(r[0]) && !IsTrimmed(r[|r| - 1])) &&
      (forall k :: 0 <= k < i ==> IsTrimmed(s[k])) &&
      (forall k :: i + |r| <= k < |s| ==> IsTrimmed(s[k]))
  {
    var left := TrimLeft(s);
    TrimLeftShape(s);
    TrimRightShape(left);
    var r, i := Trim(s), |s| - |left|;
    assert r == left[..|r|];
    forall k | i + |r| <= k < |s|
      ensures IsTrimmed(s[k])
    {
      assert s[k] == left[k - i];
    }
  }

  /** trim of a line with nothing to trim is the line itself. */
  lemma {:induction false} TrimNothing(s: string)
    requires forall k :: 0 <= k < |s| ==> !IsTrimmed(s[k])
    ensures Trim(s) == s
  {
    TrimShape(s);
    if s != [] {
      assert TrimLeft(s) == s;
    }
  }

  /** One line's run of codes: the trimmed line, a terminating NUL, and a second NUL when
      that leaves an odd length. */
  function Record(line: string): (r: string)
    ensures |r| % 2 == 0 && |r| >= 2
  {
    var t := Trim(line) + [Nul];
    if |t| % 2 == 1 then t + [Nul] else t
  }

  /** A record is the trimmed line followed by one or two NULs. */
  lemma {:induction false} RecordShape(line: string)
    ensures var t, r := Trim(line), Record(line);
      |t| + 1 <= |r| <= |t| + 2 && t == r[..|t|] && forall k :: |t| <= k < |r| ==> r[k] == Nul
  {
  }

  /** f applied to every element of s, in order. */
  function Map<A, B>(f: A -> B, s: seq<A>): (r: seq<B>)
    ensures |r| == |s| && forall k :: 0 <= k < |s| ==> r[k] == f(s[k])
  {
    seq(|s|, k requires 0 <= k < |s| => f(s[k]))
  }

  lemma {:induction false} MapAppend<A, B>(f: A -> B, s: seq<A>, t: seq<A>)
    ensures Map(f, s + t) == Map(f, s) + Map(f, t)
  {
    var l, r := Map(f, s + t), Map(f, s) + Map(f, t);
    forall k | 0 <= k < |s + t|
      ensures l[k] == r[k]
    {
      if k < |s| {
        assert (s + t)[k] == s[k];
      } else {
        assert (s + t)[k] == t[k - |s|];
      }
    }
  }

  /** The strings of rs, one after the other. */
  function Concat(rs: seq<string>): string
  {
    if rs == [] then [] else Concat(rs[..|rs| - 1]) + rs[|rs| - 1]
  }

  lemma {:induction false} ConcatAppend(r1: seq<string>, r2: seq<string>)
    ensures Concat(r1 + r2) == Concat(r1) + Concat(r2)
    decreases |r2|
  {
    if r2 == [] {
      assert r1 + r2 == r1;
    } else {
      var n := |r2| - 1;
      assert (r1 + r2)[..|r1 + r2| - 1] == r1 + r2[..n];
      assert (r1 + r2)[|r1 + r2| - 1] == r2[n];
      ConcatAppend(r1, r2[..n]);
    }
  }

  /** Strings of even length make an even-length concatenation. */
  lemma {:induction false} ConcatEven(rs: seq<string>)
    requires forall i :: 0 <= i < |rs| ==> |rs[i]| % 2 == 0
    ensures |Concat(rs)| % 2 == 0
  {
    if rs != [] {
      ConcatEven(rs[..|rs| - 1]);
      EvenSum(|Concat(rs[..|rs| - 1])|, |rs[|rs| - 1]|);
    }
  }

  lemma {:induction false} EvenSum(a: nat, b: nat)
    requires a % 2 == 0 && b % 2 == 0
    ensures (a + b) % 2 == 0
  {
    DivModUnique(a + b, 2, a / 2 + b / 2, 0);
  }

  /** The records of all lines, one after the other; its length is always even. */
  function Stream(data: seq<string>): (s: string)
    ensures |s| % 2 == 0
  {
    ConcatEven(Map(Record, data));
    Concat(Map(Record, data))
  }

  /** The entry the script keeps for one character: the character, its code, the code's
      binary digits, and those digits padded on the left to seven. */
  datatype Entry = Entry(ch: char, code: nat, bin: string, bin7: string)

  function MakeEntry(c: char): Entry
  {
    var bin := NatToBinary(c as int);
    Entry(c, c as int, bin, PadLeft(bin, 7, '0'))
  }

  /** The entry appended when the entry count is odd. */
  const PadEntry := Entry('0', 0, "0000000", "0000000")

  function EntriesOf(s: string): seq<Entry>
  {
    Map(MakeEntry, s)
  }

  function Padded(es: seq<Entry>): seq<Entry>
  {
    if |es| % 2 == 1 then es + [PadEntry] else es
  }

  /** The binary field of a line: both entries' seven-digit forms, first then second,
      padded on the left to 20 characters. */
  function Field(a: Entry, b: Entry): string
  {
    PadLeft(a.bin7 + b.bin7, 20, '0')
  }

  /** A character is shown when its code is above 20, a space otherwise. */
  function Shown(e: Entry): char
  {
    if e.code > 20 then e.ch else ' '
  }

  /** The sequence number n, zero-padded on the left to four digits. */
  function Number(n: nat): string
  {
    PadLeft(NatToDecimal(n), 4, '0')
  }

  /** What follows the number: a colon and a space, both characters as shown, a space,
      both codes in decimal each after a backslash, and the end of the line. */
  function Annotation(a: Entry, b: Entry): string
  {
    ": " + [Shown(a), Shown(b)] + " " + "\\" + NatToDecimal(a.code) + "\\" + NatToDecimal(b.code) + "\n"
  }

  /** The listing line of the pair (a, b) with sequence number n: the field, four spaces,
      the number and the annotation. */
  function Line(a: Entry, b: Entry, n: nat): string
  {
    Field(a, b) + ("    " + (Number(n) + Annotation(a, b)))
  }

  /** The listing of an entry list: one line per consecutive pair, numbered from 0; an odd
      last entry gets no line. */
  function Listing(es: seq<Entry>): seq<string>
  {
    Pairs(Line, es, |es| / 2)
  }

  /** f applied to each of the first n consecutive pairs of es and its number. */
  function Pairs<T, U>(f: (T, T, nat) -> U, es: seq<T>, n: nat): (r: seq<U>)
    requires 2 * n <= |es|
    ensures |r| == n
  {
    if n == 0 then [] else Pairs(f, es, n - 1) + [f(es[2 * n - 2], es[2 * n - 1], n - 1)]
  }

  // ---------------------------------------------------------------------------
  // The script's loops

  /** The record loop: for every line, append the entry of every code of its record. */
  method Collect(data: seq<string>) returns (outdata: seq<Entry>)
    ensures outdata == EntriesOf(Stream(data))
  {
    outdata := [];
    for k := 0 to |data|
      invariant outdata == EntriesOf(Stream(data[..k]))
    {
      var line := Trim(data[k]);
      line := line + [Nul];
      if |line| % 2 == 1 {
        line := line + [Nul];
      }
      outdata := AppendCodes(outdata, line);
      assert data[..k + 1] == data[..k] + [data[k]];
      StreamAppend(data[..k], [data[k]]);
      assert Stream([data[k]]) == Record(data[k]) by {
        assert Map(Record, [data[k]]) == [Record(data[k])];
        assert Concat([Record(data[k])]) == Concat([]) + Record(data[k]);
      }
      MapAppend(MakeEntry, Stream(data[..k]), Record(data[k]));
    }
    assert data[..|data|] == data;
  }

  /** The inner loop of the record loop: append the entry of every code of line. */
  method AppendCodes(outdata: seq<Entry>, line: string) returns (r: seq<Entry>)
    ensures r == outdata + EntriesOf(line)
  {
    r := outdata;
    for i := 0 to |line|
      invariant r == outdata + EntriesOf(line[..i])
    {
      var ch := line[i];
      var code := ch as int;
      var bin := NatToBinary(code);
      var bin7 := PadLeft(bin, 7, '0');
      r := r + [Entry(ch, code, bin, bin7)];
      EntriesOfSnoc(line, i);
    }
    assert line[..|line|] == line;
  }

  /** The drain loop: shift entries into a two-place buffer, writing out a line each time
      the buffer is full, then write out a full buffer left at the end. Shifting an empty
      list yields null. The loop does not look into a line, so the line format is a
      parameter: Encode passes Line. */
  method Drain<U>(line: (Entry, Entry, nat) -> U, entries: seq<Entry>) returns (final: seq<U>)
    ensures final == Pairs(line, entries, |entries| / 2)
  {
    var outdata := entries;
    assert Rest(outdata, entries, 0);
    final := [];
    var buffer: seq<Option<Entry>> := [];
    var finalC: nat := 0;
    while true
      invariant |outdata| <= |entries| && Rest(outdata, entries, |entries| - |outdata|)
      invariant outdata == [] ==> entries == []
      invariant |final| == finalC && |buffer| <= 2
      invariant 2 * finalC + |buffer| == |entries| - |outdata|
      invariant |buffer| >= 1 ==> buffer[0] == Some(entries[2 * finalC])
      invariant |buffer| == 2 ==> buffer[1] == Some(entries[2 * finalC + 1])
      invariant final == Pairs(line, entries, finalC)
      decreases |outdata|
    {
      if |buffer| == 2 {
        final := Emit(line, final, buffer[0].value, buffer[1].value, finalC, entries);
        finalC := finalC + 1;
        buffer := [];
      }
      var head;
      head, outdata := Shift(outdata, entries, |entries| - |outdata|);
      buffer := buffer + [head];
      if outdata == [] {
        break;
      }
    }
    if |buffer| == 2 {
      final := Emit(line, final, buffer[0].value, buffer[1].value, finalC, entries);
      finalC := finalC + 1;
      buffer := [];
    }
    assert 2 * finalC == |entries| || 2 * finalC + 1 == |entries|;
    DivModUnique(|entries|, 2, finalC, |entries| - 2 * finalC);
  }

  /** outdata holds the entries from k on. */
  ghost predicate Rest(outdata: seq<Entry>, entries: seq<Entry>, k: nat)
  {
    k + |outdata| == |entries| && forall i :: 0 <= i < |outdata| ==> outdata[i] == entries[k + i]
  }

  /** array_shift on the rest of the entries, which start at k: the first of them, or
      null when none is left, and the entries after it. */
  method Shift(outdata: seq<Entry>, ghost entries: seq<Entry>, ghost k: nat) returns (head: Option<Entry>, rest: seq<Entry>)
    requires k <= |entries| && Rest(outdata, entries, k)
    ensures outdata != [] ==> head == Some(entries[k]) && |rest| == |outdata| - 1 && Rest(rest, entries, k + 1)
    ensures outdata == [] ==> head == None && rest == []
  {
    if outdata != [] {
      head, rest := Some(outdata[0]), outdata[1..];
    } else {
      head, rest := None, [];
    }
  }

  /** Writing out a full buffer: the line of its pair, numbered n, goes at the end. */
  method Emit<U>(line: (Entry, Entry, nat) -> U, final: seq<U>, a: Entry, b: Entry, n: nat, ghost entries: seq<Entry>)
    returns (r: seq<U>)
    requires 2 * n + 2 <= |entries| && a == entries[2 * n] && b == entries[2 * n + 1]
    requires final == Pairs(line, entries, n)
    ensures r == Pairs(line, entries, n + 1)
  {
    r := final + [line(a, b, n)];
  }

  /** The whole transform from the lines read to the lines written: collect the entries,
      pad an odd count, and drain them into listing lines. The pad never fires, so the
      listing is that of the records' codes. */
  method Encode(data: seq<string>) returns (final: seq<string>)
    ensures final == Listing(EntriesOf(Stream(data)))
    ensures |final| == |Stream(data)| / 2
  {
    var outdata := Collect(data);
    if |outdata| % 2 == 1 {
      assert false;
      outdata := outdata + [PadEntry];
    }
    final := Drain(Line, outdata);
  }

  // ---------------------------------------------------------------------------
  // Properties

  lemma {:induction false} EntriesOfSnoc(s: string, i: nat)
    requires i < |s|
    ensures EntriesOf(s[..i + 1]) == EntriesOf(s[..i]) + [MakeEntry(s[i])]
  {
    assert s[..i + 1] == s[..i] + [s[i]];
    MapAppend(MakeEntry, s[..i], [s[i]]);
  }

  /** The records of a concatenation of inputs are the records of each in turn. */
  lemma {:induction false} StreamAppend(d1: seq<string>, d2: seq<string>)
    ensures Stream(d1 + d2) == Stream(d1) + Stream(d2)
  {
    MapAppend(Record, d1, d2);
    ConcatAppend(Map(Record, d1), Map(Record, d2));
  }

  /** Result i of Pairs is f of pair i. */
  lemma {:induction false} PairsIndex<T, U>(f: (T, T, nat) -> U, es: seq<T>, n: nat, i: nat)
    requires 2 * n <= |es| && i < n
    ensures Pairs(f, es, n)[i] == f(es[2 * i], es[2 * i + 1], i)
    decreases n
  {
    if i < n - 1 {
      PairsIndex(f, es, n - 1, i);
    }
  }

  /** The pairs of a prefix are the first pairs of the whole. */
  lemma {:induction false} PairsOfPrefix<T, U>(f: (T, T, nat) -> U, es1: seq<T>, es2: seq<T>, n: nat)
    requires 2 * n <= |es1|
    ensures Pairs(f, es1 + es2, n) == Pairs(f, es1, n)
    decreases n
  {
    if n > 0 {
      PairsOfPrefix(f, es1, es2, n - 1);
      assert (es1 + es2)[2 * n - 2] == es1[2 * n - 2] && (es1 + es2)[2 * n - 1] == es1[2 * n - 1];
    }
  }

  /** Asking for fewer pairs gives a prefix. */
  lemma {:induction false} PairsPrefix<T, U>(f: (T, T, nat) -> U, es: seq<T>, m: nat, n: nat)
    requires m <= n && 2 * n <= |es|
    ensures Pairs(f, es, n)[..m] == Pairs(f, es, m)
    decreases n
  {
    if m < n {
      PairsPrefix(f, es, m, n - 1);
      assert Pairs(f, es, n)[..n - 1] == Pairs(f, es, n - 1);
    }
  }

  /** Line i of a listing is the line of entries 2i and 2i + 1, numbered i; there is one
      line per whole pair. */
  lemma {:induction false} ListingIndex(es: seq<Entry>, i: nat)
    requires i < |es| / 2
    ensures |Listing(es)| == |es| / 2 && Listing(es)[i] == Line(es[2 * i], es[2 * i + 1], i)
  {
    PairsIndex(Line, es, |es| / 2, i);
  }

  /** The entry list of any input already has even length, so the pad is never added. */
  lemma {:induction false} PadNeverFires(data: seq<string>)
    ensures Padded(EntriesOf(Stream(data))) == EntriesOf(Stream(data))
  {
    assert |EntriesOf(Stream(data))| == |Stream(data)|;
  }

  /** Appending lines to the input only appends lines to the listing: no listing line mixes
      codes of two input lines, and existing lines keep their numbers. */
  lemma {:induction false} ListingPrefix(d1: seq<string>, d2: seq<string>)
    ensures var short := Listing(EntriesOf(Stream(d1)));
      var long := Listing(EntriesOf(Stream(d1 + d2)));
      |short| <= |long| && long[..|short|] == short
  {
    StreamAppend(d1, d2);
    MapAppend(MakeEntry, Stream(d1), Stream(d2));
    var e1, e2 := EntriesOf(Stream(d1)), EntriesOf(Stream(d2));
    PairsPrefix(Line, e1 + e2, |e1| / 2, |e1 + e2| / 2);
    PairsOfPrefix(Line, e1, e2, |e1| / 2);
  }

  /** A code below 128 renders as exactly seven binary digits reading the code; a code of
      128 or more keeps all its digits, the eight of a byte, since padding never truncates. */
  lemma {:induction false} Bin7Shape(c: char)
    ensures var e := MakeEntry(c);
      IsBinary(e.bin7) && Unsigned(e.bin7) == e.code &&
      (e.code < 128 ==> |e.bin7| == 7) &&
      (128 <= e.code < 256 ==> e.bin7 == e.bin && |e.bin7| == 8)
  {
    Bin7Of(c as int);
  }

  lemma {:induction false} Bin7Of(n: nat)
    ensures var b := NatToBinary(n);
      var p := PadLeft(b, 7, '0');
      IsBinary(p) && Unsigned(p) == n && (n < 128 ==> |p| == 7) && (128 <= n < 256 ==> p == b && |p| == 8)
  {
    ZeroPadded(NatToBinary(n), 7);
    Bin7Length(n);
  }

  /** Codes below 128 need at most seven binary digits, codes of a byte above that eight. */
  lemma {:induction false} Bin7Length(n: nat)
    ensures n < 128 ==> |NatToBinary(n)| <= 7
    ensures 128 <= n < 256 ==> |NatToBinary(n)| == 8
  {
    if n > 0 {
      NatToBinaryLength(n, 7);
      NatToBinaryLength(n, 8);
      assert Pow2(7) == 128 && Pow2(8) == 256;
    }
  }

  /** Padding with zeros keeps a binary string binary and keeps its value. */
  lemma {:induction false} ZeroPadded(b: string, w: nat)
    requires IsBinary(b)
    ensures IsBinary(PadLeft(b, w, '0')) && Unsigned(PadLeft(b, w, '0')) == Unsigned(b)
  {
    if |b| < w {
      var z := Replicate('0', w - |b|);
      assert PadLeft(b, w, '0') == z + b;
      UnsignedLeadingZeros(w - |b|, b);
      assert forall i :: 0 <= i < |z + b| ==> IsBit((z + b)[i]) by {
        forall i | 0 <= i < |z + b| ensures IsBit((z + b)[i]) {
          if i >= |z| { assert (z + b)[i] == b[i - |z|]; }
        }
      }
    }
  }

  /** Two seven-digit codes padded to 20 digits read as 128 * first + second. */
  lemma {:induction false} FieldDigits(x: string, y: string)
    requires IsBinary(x) && IsBinary(y) && |x| == 7 && |y| == 7
    ensures var f := PadLeft(x + y, 20, '0');
      |f| == 20 && IsBinary(f) && Unsigned(f) == 128 * Unsigned(x) + Unsigned(y)
  {
    var s := x + y;
    UnsignedAppend(x, y);
    assert Pow2(7) == 128;
    UnsignedLeadingZeros(6, s);
    assert PadLeft(s, 20, '0') == Replicate('0', 6) + s;
  }

  /** For two codes below 128 the field is exactly 20 binary digits reading
      128 * first + second: the first code sits in the high bits. */
  lemma {:induction false} FieldValue(a: char, b: char)
    requires a as int < 128 && b as int < 128
    ensures var f := Field(MakeEntry(a), MakeEntry(b));
      |f| == 20 && IsBinary(f) && Unsigned(f) == 128 * (a as int) + (b as int)
  {
    Bin7Shape(a);
    Bin7Shape(b);
    FieldDigits(MakeEntry(a).bin7, MakeEntry(b).bin7);
  }

  /** A line starts with its field. */
  lemma {:induction false} LineStart(a: Entry, b: Entry, n: nat)
    ensures var f := Field(a, b);
      |f| <= |Line(a, b, n)| && Line(a, b, n)[..|f|] == f
  {
    var f := Field(a, b);
    var rest := "    " + (Number(n) + Annotation(a, b));
    assert (f + rest)[..|f|] == f;
  }

  /** The card reader's view of a listing line: its first 20 characters make a Word whose
      value is 128 * first + second, from which both codes come back. */
  lemma {:induction false} CardReadBack(a: char, b: char, n: nat)
    requires a as int < 128 && b as int < 128
    ensures var v := WordValue(Line(MakeEntry(a), MakeEntry(b), n)[..20]);
      v.Ok? && v.value == 128 * (a as int) + (b as int) &&
      v.value / 128 == a as int && v.value % 128 == b as int
  {
    var f := Field(MakeEntry(a), MakeEntry(b));
    FieldValue(a, b);
    LineStart(MakeEntry(a), MakeEntry(b), n);
    WordMax();
    UnsignedFirst(f);
    TwentyDigits(f);
    DivModUnique(Unsigned(f), 128, a as int, b as int);
  }

  lemma {:induction false} DecimalLeadingZeros(n: nat, s: string)
    ensures DecimalValue(Replicate('0', n) + s) == DecimalValue(s)
    decreases |s|
  {
    if s == [] {
      DecimalZeros(n);
      assert Replicate('0', n) + s == Replicate('0', n);
    } else {
      var p := s[..|s| - 1];
      assert (Replicate('0', n) + s)[..|Replicate('0', n) + s| - 1] == Replicate('0', n) + p;
      DecimalLeadingZeros(n, p);
    }
  }

  lemma {:induction false} DecimalZeros(n: nat)
    ensures DecimalValue(Replicate('0', n)) == 0
  {
    if n > 0 {
      assert Replicate('0', n)[..n - 1] == Replicate('0', n - 1);
      DecimalZeros(n - 1);
    }
  }

  /** Below 10000 the sequence number is exactly four decimal digits reading n. */
  lemma {:induction false} NumberDigits(n: nat)
    requires n < 10000
    ensures |Number(n)| == 4 && IsDecimal(Number(n)) && DecimalValue(Number(n)) == n
  {
    var d := NatToDecimal(n);
    NatToDecimalDigits(n);
    NatToDecimalShort(n);
    assert Number(n) == Replicate('0', 4 - |d|) + d;
    DecimalLeadingZeros(4 - |d|, d);
  }

  /** After a 20-character field come four spaces and then, below 10000, the sequence
      number as four decimal digits. */
  lemma {:induction false} SequenceNumber(a: Entry, b: Entry, n: nat)
    requires n < 10000 && |Field(a, b)| == 20
    ensures var line := Line(a, b, n);
      |line| >= 28 && line[20..24] == "    " && IsDecimal(line[24..28]) && DecimalValue(line[24..28]) == n
  {
    NumberDigits(n);
    LineLayout(Field(a, b), "    ", Number(n), Annotation(a, b));
  }

  /** Where the pieces of a four-part line sit when the first is 20 long and the next two
      four long. */
  lemma {:induction false} LineLayout<T>(f: seq<T>, sp: seq<T>, num: seq<T>, ann: seq<T>)
    requires |f| == 20 && |sp| == 4 && |num| == 4
    ensures var line := f + (sp + (num + ann));
      |line| >= 28 && line[20..24] == sp && line[24..28] == num
  {
    var tail := sp + (num + ann);
    PrefixOfAppend(sp, num + ann);
    SliceOfAppend(sp, num + ann, 0, 4, 4);
    PrefixOfAppend(num, ann);
    SliceOfAppend(f, tail, 0, 4, 20);
    SliceOfAppend(f, tail, 4, 8, 20);
  }

  /** The last of four joined pieces is what follows the first three. */
  lemma {:induction false} LineSuffix<T>(f: seq<T>, sp: seq<T>, num: seq<T>, ann: seq<T>)
    ensures (f + (sp + (num + ann)))[|f| + |sp| + |num|..] == ann
  {
    assert f + (sp + (num + ann)) == (f + sp + num) + ann;
  }

  /** After the number come a colon, a space, both characters as shown (the character for a
      code above 20, a space otherwise), a space, a backslash and the first code in decimal,
      and the line ends in a newline. */
  lemma {:induction false} LineTail(a: Entry, b: Entry, n: nat)
    requires n < 10000 && |Field(a, b)| == 20
    ensures var line := Line(a, b, n);
      |line| >= 34 && line[28..34] == [':', ' ', Shown(a), Shown(b), ' ', '\\'] &&
      (a.code > 20 ==> line[30] == a.ch) && (a.code <= 20 ==> line[30] == ' ') &&
      (b.code > 20 ==> line[31] == b.ch) && (b.code <= 20 ==> line[31] == ' ') &&
      line[|line| - 1] == '\n'
  {
    NumberDigits(n);
    var ann := Annotation(a, b);
    LineSuffix(Field(a, b), "    ", Number(n), ann);
    assert ann[..6] == [':', ' ', Shown(a), Shown(b), ' ', '\\'];
    assert ann[|ann| - 1] == '\n';
  }

  lemma {:induction false} PrefixOfAppend<T>(x: seq<T>, y: seq<T>)
    ensures (x + y)[..|x|] == x && (x + y)[0..|x|] == x
  {
  }

  /** The slice of y that sits after x in x + y. */
  lemma {:induction false} SliceOfAppend<T>(x: seq<T>, y: seq<T>, i: nat, j: nat, n: nat)
    requires i <= j <= |y| && n == |x|
    ensures (x + y)[n + i..n + j] == y[i..j]
  {
    var l, r := (x + y)[|x| + i..|x| + j], y[i..j];
    forall k | 0 <= k < j - i
      ensures l[k] == r[k]
    {
      assert l[k] == (x + y)[|x| + i + k];
    }
  }
}
