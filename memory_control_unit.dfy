/**
 * MemoryControlUnit: a single-port memory of 8 banks of 256 words behind a memory address
 * register (MAR) and a memory buffer register (MBR), driven one clock cycle at a time.
 * Setting the MBR requests a store, setting the MAR requests a fetch; the request is
 * performed on the next cycle and the unit is busy for the cycle after that.
 */
module MemoryControl {
  import opened JavaInt
  import opened Wrappers
  import opened Words

  const BankCount: nat := 8    // BANK_SIZE: the number of banks
  const BankCells: nat := 256  // BANK_CELLS: the words in each bank

  datatype State = Idle | Storing | Fetching | PreStore | PreFetch

  /** The state fetchStoreController moves to from s. */
  function NextState(s: State): State
  {
    match s
    case Storing => Idle
    case Fetching => Idle
    case PreStore => Storing
    case PreFetch => Fetching
    case Idle => Idle
  }

  /** isBusy in state s. */
  predicate Busy(s: State)
  {
    s == Storing || s == Fetching
  }

  /** Every request is served in at most two cycles: two steps from any state end idle,
      and a busy state is left after one. */
  lemma {:induction false} TwoCyclesToIdle(s: State)
    ensures NextState(NextState(s)) == Idle
    ensures Busy(s) ==> NextState(s) == Idle
    ensures Busy(NextState(s)) <==> s == PreStore || s == PreFetch
  {
  }

  /** The bank and cell calculateMemoryAddressFromMAR computes for address a, with Java's
      `%` and `/`; None when it throws (bank above 8). */
  function DecodeAddress(a: int): Option<(int, int)>
  {
    var cell := Rem(a, BankCells as int);
    var bank := Div(a - cell, BankCount as int);
    if bank > BankCount as int then None else Some((bank, cell))
  }

  /** The memory cell a fetch or store at address a touches: None when the decode throws or
      the array access is out of bounds (the exception is caught and nothing happens). */
  function Locate(a: int): Option<(nat, nat)>
  {
    match DecodeAddress(a)
    case None => None
    case Some((bank, cell)) =>
      if 0 <= bank < BankCount && 0 <= cell < BankCells then Some((bank, cell)) else None
  }

  /** The cell `memory[bank][cell]` the engineer console reaches for address a (the same
      decode without the bank check); None when the array access throws. */
  function EngineerLocate(a: int): Option<(nat, nat)>
  {
    var cell := Rem(a, BankCells as int);
    var bank := Div(a - cell, BankCount as int);
    if 0 <= bank < BankCount && 0 <= cell < BankCells then Some((bank, cell)) else None
  }

  /** Of the addresses a MAR can hold only 0..255 reach memory, all in bank 0 at cell a:
      every address from 256 on decodes to a bank of at least 32 and throws, and a negative
      address yields a negative index. The engineer console reaches the same cells. */
  lemma {:induction false} LocateExactly(a: int)
    ensures Locate(a).Some? <==> 0 <= a < BankCells
    ensures Locate(a).Some? ==> Locate(a).value == (0, a)
    ensures EngineerLocate(a) == Locate(a)
    ensures a >= BankCells ==> DecodeAddress(a).None?
  {
    var cell := Rem(a, 256);
    if a >= 0 {
      DivRemNonNegative(a, 256);
      var q := a / 256;
      assert cell == a - q * 256;
      assert a - cell == q * 256;
      DivRemNonNegative(a - cell, 8);
      assert Div(a - cell, 8) == q * 32;
    } else {
      assert Div(a, 256) <= 0;
      assert cell <= 0;
      if cell == 0 {
        assert a - cell < 0;
        assert Div(a - cell, 8) < 0;
      }
    }
  }

  class MemoryControlUnit {
    var memory: array2<int>
    var mar: int    // the value of the memory address register
    var mbr: int    // the value of the memory buffer register
    var state: State

    ghost predicate Valid()
      reads this, memory
    {
      memory.Length0 == BankCount && memory.Length1 == BankCells &&
      IsInt32(mar) && IsInt32(mbr) &&
      forall b, c :: 0 <= b < BankCount && 0 <= c < BankCells ==> IsInt32(memory[b, c])
    }

    /** Power-up: every cell holds zero, the MAR is a 13-bit zero, the MBR a zero Word and
        no operation is pending. */
    constructor ()
      ensures Valid() && fresh(memory)
      ensures forall b, c :: 0 <= b < BankCount && 0 <= c < BankCells ==> memory[b, c] == 0
      ensures mar == 0 && mbr == 0 && state == Idle
    {
      memory := new int[BankCount, BankCells];
      mar := 0;
      mbr := 0;
      state := Idle;
      new;
      InitializeMemoryToZero();
    }

    /** initializeMemoryToZero: a zero Word in every cell of every bank. */
    method InitializeMemoryToZero()
      requires memory.Length0 == BankCount && memory.Length1 == BankCells
      modifies memory
      ensures forall b, c :: 0 <= b < BankCount && 0 <= c < BankCells ==> memory[b, c] == 0
    {
      var b := 0;
      while b < BankCount
        invariant 0 <= b <= BankCount
        invariant forall b', c :: 0 <= b' < b && 0 <= c < BankCells ==> memory[b', c] == 0
      {
        var i := 0;
        while i < BankCells
          invariant 0 <= i <= BankCells
          invariant forall b', c :: 0 <= b' < b && 0 <= c < BankCells ==> memory[b', c] == 0
          invariant forall c :: 0 <= c < i ==> memory[b, c] == 0
        {
          memory[b, i] := 0;
          i := i + 1;
        }
        b := b + 1;
      }
    }

    predicate IsBusy()
      reads this
    {
      Busy(state)
    }

    /** setMBR(Word): refused while busy; otherwise the MBR takes the word and a store is
        pending. */
    method SetMBR(word: int) returns (ok: bool)
      requires Valid() && IsInt32(word)
      modifies this
      ensures Valid() && mar == old(mar) && memory == old(memory)
      ensures ok <==> !Busy(old(state))
      ensures ok ==> mbr == word && state == PreStore
      ensures !ok ==> mbr == old(mbr) && state == old(state)
    {
      if state == Fetching || state == Storing {
        return false;
      }
      mbr := word;
      state := PreStore;
      return true;
    }

    /** setMBR(Unit): the Unit's value is made a Word first, which throws outside the Word
        range before anything changes. */
    method SetMBRFromUnit(value: int) returns (r: Result<bool>)
      requires Valid() && IsInt32(value)
      modifies this
      ensures Valid() && mar == old(mar) && memory == old(memory)
      ensures r.Err? <==> !IsWordValue(value)
      ensures r.Err? ==> r.error == ArithmeticException && mbr == old(mbr) && state == old(state)
      ensures r.Ok? ==> (r.value <==> !Busy(old(state)))
      ensures r == Ok(true) ==> mbr == value && state == PreStore
      ensures r == Ok(false) ==> mbr == old(mbr) && state == old(state)
    {
      var w := NewWord(value);
      if w.Err? {
        return Err(w.error);
      }
      var ok := SetMBR(value);
      return Ok(ok);
    }

    /** setMAR: refused while busy; otherwise the MAR takes the address and a fetch is
        pending (replacing a pending store). */
    method SetMAR(address: int) returns (ok: bool)
      requires Valid() && IsInt32(address)
      modifies this
      ensures Valid() && mbr == old(mbr) && memory == old(memory)
      ensures ok <==> !Busy(old(state))
      ensures ok ==> mar == address && state == PreFetch
      ensures !ok ==> mar == old(mar) && state == old(state)
    {
      if state == Fetching || state == Storing {
        return false;
      }
      state := PreFetch;
      mar := address;
      return true;
    }

    /** clockCycle / fetchStoreController: a pending store or fetch is performed and the
        unit becomes busy; a busy unit becomes idle; an idle one does nothing. */
    method ClockCycle()
      requires Valid()
      modifies this, memory
      ensures Valid() && mar == old(mar) && memory == old(memory) && state == NextState(old(state))
      ensures old(state) == PreStore && Locate(mar).Some? ==>
        var (b, c) := Locate(mar).value;
        memory[b, c] == mbr &&
        forall b', c' :: 0 <= b' < BankCount && 0 <= c' < BankCells && (b', c') != (b, c) ==>
          memory[b', c'] == old(memory[b', c'])
      ensures old(state) != PreStore || Locate(mar).None? ==>
        forall b', c' :: 0 <= b' < BankCount && 0 <= c' < BankCells ==> memory[b', c'] == old(memory[b', c'])
      ensures old(state) == PreFetch && Locate(mar).Some? ==>
        var (b, c) := Locate(mar).value;
        mbr == old(memory[b, c])
      ensures old(state) != PreFetch || Locate(mar).None? ==> mbr == old(mbr)
    {
      match state
      case Fetching =>
        state := Idle;
      case Storing =>
        state := Idle;
      case PreStore =>
        state := Storing;
        StoreAddressInMemoryOperation();
      case PreFetch =>
        state := Fetching;
        FetchAddressOperation();
      case Idle =>
    }

    /** fetchAddressOperation: copy the cell the MAR names into the MBR; a bad address is
        caught and changes nothing. */
    method FetchAddressOperation()
      requires Valid()
      modifies this
      ensures Valid() && mar == old(mar) && memory == old(memory) && state == old(state)
      ensures Locate(mar).Some? ==> var (b, c) := Locate(mar).value; mbr == memory[b, c]
      ensures Locate(mar).None? ==> mbr == old(mbr)
    {
      var loc := Locate(mar);
      if loc.Some? {
        var (b, c) := loc.value;
        mbr := memory[b, c];
      }
    }

    /** storeAddressInMemoryOperation: copy the MBR into the cell the MAR names; a bad
        address is caught and changes nothing. */
    method StoreAddressInMemoryOperation()
      requires Valid()
      modifies memory
      ensures Valid()
      ensures Locate(mar).Some? ==>
        var (b, c) := Locate(mar).value;
        memory[b, c] == mbr &&
        forall b', c' :: 0 <= b' < BankCount && 0 <= c' < BankCells && (b', c') != (b, c) ==>
          memory[b', c'] == old(memory[b', c'])
      ensures Locate(mar).None? ==>
        forall b', c' :: 0 <= b' < BankCount && 0 <= c' < BankCells ==> memory[b', c'] == old(memory[b', c'])
    {
      var loc := Locate(mar);
      if loc.Some? {
        var (b, c) := loc.value;
        memory[b, c] := mbr;
      }
    }

    /** engineerFetchByMemoryLocation: read a cell directly, without the bank check; an
        address outside the array throws. */
    method EngineerFetchByMemoryLocation(address: int) returns (r: Result<int>)
      requires Valid()
      ensures r.Ok? <==> EngineerLocate(address).Some?
      ensures r.Err? ==> r.error == IndexOutOfBoundsException
      ensures r.Ok? ==> var (b, c) := EngineerLocate(address).value; r.value == memory[b, c]
    {
      var loc := EngineerLocate(address);
      if loc.None? {
        return Err(IndexOutOfBoundsException);
      }
      var (b, c) := loc.value;
      r := Ok(memory[b, c]);
    }

    /** engineerSetMemoryLocation: write one cell directly; an address outside the array
        throws and changes nothing. */
    method EngineerSetMemoryLocation(address: int, value: int) returns (r: Result<()>)
      requires Valid() && IsInt32(value)
      modifies memory
      ensures Valid()
      ensures r.Ok? <==> EngineerLocate(address).Some?
      ensures r.Err? ==> r.error == IndexOutOfBoundsException
      ensures r.Err? ==>
        forall b', c' :: 0 <= b' < BankCount && 0 <= c' < BankCells ==> memory[b', c'] == old(memory[b', c'])
      ensures r.Ok? ==>
        var (b, c) := EngineerLocate(address).value;
        memory[b, c] == value &&
        forall b', c' :: 0 <= b' < BankCount && 0 <= c' < BankCells && (b', c') != (b, c) ==>
          memory[b', c'] == old(memory[b', c'])
    {
      var loc := EngineerLocate(address);
      if loc.None? {
        return Err(IndexOutOfBoundsException);
      }
      var (b, c) := loc.value;
      memory[b, c] := value;
      r := Ok(());
    }

    /** The store protocol followed by a fetch: set the MAR, then the MBR (the later setter
        makes the request a store), run the store and its busy cycle, set the MAR again and
        run the fetch. The fetched word is the stored one. */
    method StoreThenFetch(address: int, word: int) returns (fetched: int)
      requires Valid() && !IsBusy() && 0 <= address < BankCells && IsInt32(word)
      modifies this, memory
      ensures Valid() && fetched == word && mbr == word && state == Fetching
      ensures memory[0, address] == word
      ensures forall b', c' :: 0 <= b' < BankCount && 0 <= c' < BankCells && (b', c') != (0, address) ==>
        memory[b', c'] == old(memory[b', c'])
    {
      LocateExactly(address);
      var ok := SetMAR(address);
      ok := SetMBR(word);
      ClockCycle();
      ClockCycle();
      ok := SetMAR(address);
      ClockCycle();
      fetched := mbr;
    }
  }
}
