/**
 * MemoryUnit: the earlier single-port memory. Its MAR and MBR may be null; in an idle
 * cycle with an address present, an empty MBR asks for a fetch and a full one for a store.
 */
module Memory {
  import opened JavaInt
  import opened Wrappers
  import opened Words

  const BankCount: nat := 8    // BANK_SIZE
  const BankCells: nat := 256  // BANK_CELLS

  datatype State = Idle | Storing | Fetching

  /** calculateMemoryAddressFromMAR: bank = a / 8 and cell = a % 256, in Java arithmetic. */
  function Decode(a: int): (int, int)
  {
    (Div(a, BankCount as int), Rem(a, BankCells as int))
  }

  /** The cell `memory[bank][cell]` reaches for address a, or None when the access is out
      of bounds (the exception is caught and nothing happens). */
  function Locate(a: int): Option<(nat, nat)>
  {
    var (bank, cell) := Decode(a);
    if 0 <= bank < BankCount && 0 <= cell < BankCells then Some((bank, cell)) else None
  }

  /** Only the addresses 0..63 reach memory; address a lands in bank a / 8 at cell a, so
      distinct addresses never share a cell. */
  lemma {:induction false} LocateExactly(a: int)
    ensures Locate(a).Some? <==> 0 <= a < 64
    ensures Locate(a).Some? ==> Locate(a).value == (a / 8, a)
  {
    if a >= 0 {
      DivRemNonNegative(a, 8);
      DivRemNonNegative(a, 256);
    } else {
      assert Rem(a, 256) <= 0;
      if Rem(a, 256) == 0 {
        assert Div(a, 8) < 0 by {
          assert a <= -256;
        }
      }
    }
  }

  /** Two addresses that reach memory share a cell only when they are equal. */
  lemma {:induction false} LocateInjective(a: int, a': int)
    requires Locate(a).Some? && Locate(a') == Locate(a)
    ensures a == a'
  {
    LocateExactly(a);
    LocateExactly(a');
  }

  class MemoryUnit {
    var memory: array2<int>
    var mar: Option<int>   // the MAR's value, None for null
    var mbr: Option<int>   // the MBR's value, None for null
    var state: State

    ghost predicate Valid()
      reads this, memory
    {
      memory.Length0 == BankCount && memory.Length1 == BankCells &&
      (mar.Some? ==> IsInt32(mar.value)) && (mbr.Some? ==> IsInt32(mbr.value)) &&
      forall b, c :: 0 <= b < BankCount && 0 <= c < BankCells ==> IsInt32(memory[b, c])
    }

    /** Power-up: zero in every cell, both registers null (resetRegisters), idle. */
    constructor ()
      ensures Valid() && fresh(memory)
      ensures forall b, c :: 0 <= b < BankCount && 0 <= c < BankCells ==> memory[b, c] == 0
      ensures mar.None? && mbr.None? && state == Idle
    {
      memory := new int[BankCount, BankCells];
      mar := None;
      mbr := None;
      state := Idle;
      new;
      InitializeMemoryToZero();
    }

    /** initializeMemoryToZero. */
    method InitializeMemoryToZero()
      requires memory.Length0 == BankCount && memory.Length1 == BankCells
      modifies memory
      ensures forall b, c :: 0 <= b < BankCount && 0 <= c < BankCells ==> memory[b, c] == 0
    {
      var b := 0;
      while b < BankCount
        invariant 0 <= b <= BankCount
        invariant forall b', c :: 0 <= b' < b && 0 <= c < BankCells ==> memory[b', c] == 0
      {
        var i := 0;
        while i < BankCells
          invariant 0 <= i <= BankCells
          invariant forall b', c :: 0 <= b' < b && 0 <= c < BankCells ==> memory[b', c] == 0
          invariant forall c :: 0 <= c < i ==> memory[b, c] == 0
        {
          memory[b, i] := 0;
          i := i + 1;
        }
        b := b + 1;
      }
    }

    predicate IsBusy()
      reads this
    {
      state == Storing || state == Fetching
    }

    /** setMBR: refused while busy; otherwise the MBR takes the word (null included). */
    method SetMBR(word: Option<int>) returns (ok: bool)
      requires Valid() && (word.Some? ==> IsInt32(word.value))
      modifies this
      ensures Valid() && mar == old(mar) && memory == old(memory) && state == old(state)
      ensures ok <==> !old(IsBusy())
      ensures mbr == if ok then word else old(mbr)
    {
      if state == Fetching || state == Storing {
        return false;
      }
      mbr := word;
      return true;
    }

    /** clearMBR: empties the MBR whatever the state, so the next idle cycle fetches. */
    method ClearMBR()
      modifies this
      ensures mbr.None? && mar == old(mar) && state == old(state) && memory == old(memory)
    {
      mbr := None;
    }

    /** setMAR: refused while busy; otherwise the MAR takes the address (null included). */
    method SetMAR(address: Option<int>) returns (ok: bool)
      requires Valid() && (address.Some? ==> IsInt32(address.value))
      modifies this
      ensures Valid() && mbr == old(mbr) && memory == old(memory) && state == old(state)
      ensures ok <==> !old(IsBusy())
      ensures mar == if ok then address else old(mar)
    {
      if state == Fetching || state == Storing {
        return false;
      }
      mar := address;
      return true;
    }

    /** clockCycle / fetchStoreController: a busy unit becomes idle; an idle unit with an
        address fetches into an empty MBR or stores a full one; without an address it waits. */
    method ClockCycle()
      requires Valid()
      modifies this, memory
      ensures Valid() && mar == old(mar) && memory == old(memory)
      ensures old(IsBusy()) ==> state == Idle
      ensures old(state) == Idle && mar.None? ==> state == Idle
      ensures old(state) == Idle && mar.Some? ==> state == if old(mbr).None? then Fetching else Storing
      ensures var isFetch := old(state) == Idle && mar.Some? && old(mbr).None? && Locate(mar.value).Some?;
        mbr == if isFetch then var (b, c) := Locate(mar.value).value; Some(old(memory[b, c])) else old(mbr)
      ensures old(state) == Idle && mar.Some? && old(mbr).Some? && Locate(mar.value).Some? ==>
        var (b, c) := Locate(mar.value).value;
        memory[b, c] == old(mbr).value &&
        forall b', c' :: 0 <= b' < BankCount && 0 <= c' < BankCells && (b', c') != (b, c) ==>
          memory[b', c'] == old(memory[b', c'])
      ensures !(old(state) == Idle && mar.Some? && old(mbr).Some? && Locate(mar.value).Some?) ==>
        forall b', c' :: 0 <= b' < BankCount && 0 <= c' < BankCells ==> memory[b', c'] == old(memory[b', c'])
    {
      match state
      case Fetching =>
        state := Idle;
      case Storing =>
        state := Idle;
      case Idle =>
        if mar.Some? {
          if mbr.None? {
            state := Fetching;
            FetchAddressOperation();
          } else {
            state := Storing;
            StoreAddressInMemoryOperation();
          }
        }
    }

    /** fetchAddressOperation: copy the addressed cell into the MBR; a bad address is caught
        and changes nothing. */
    method FetchAddressOperation()
      requires Valid() && mar.Some?
      modifies this
      ensures Valid() && mar == old(mar) && memory == old(memory) && state == old(state)
      ensures mbr == match Locate(mar.value)
        case Some((b, c)) => Some(memory[b, c])
        case None => old(mbr)
    {
      var loc := Locate(mar.value);
      if loc.Some? {
        var (b, c) := loc.value;
        mbr := Some(memory[b, c]);
      }
    }

    /** storeAddressInMemoryOperation: copy the MBR into the addressed cell; a bad address
        is caught and changes nothing. */
    method StoreAddressInMemoryOperation()
      requires Valid() && mar.Some? && mbr.Some?
      modifies memory
      ensures Valid()
      ensures Locate(mar.value).Some? ==>
        var (b, c) := Locate(mar.value).value;
        memory[b, c] == mbr.value &&
        forall b', c' :: 0 <= b' < BankCount && 0 <= c' < BankCells && (b', c') != (b, c) ==>
          memory[b', c'] == old(memory[b', c'])
      ensures Locate(mar.value).None? ==>
        forall b', c' :: 0 <= b' < BankCount && 0 <= c' < BankCells ==> memory[b', c'] == old(memory[b', c'])
    {
      var loc := Locate(mar.value);
      if loc.Some? {
        var (b, c) := loc.value;
        memory[b, c] := mbr.value;
      }
    }

    /** A fetch as the processor drives it: set the MAR, clear the MBR, run the fetch and
        its busy cycle. The MBR then holds the cell. Because the MBR is now full, the next
        idle cycle stores that same word back, so memory keeps its contents. */
    method FetchThenIdle(address: int) returns (fetched: int)
      requires Valid() && !IsBusy() && 0 <= address < 64
      modifies this, memory
      ensures Valid() && fetched == old(memory[address / 8, address]) && mbr == Some(fetched)
      ensures state == Storing
      ensures forall b', c' :: 0 <= b' < BankCount && 0 <= c' < BankCells ==> memory[b', c'] == old(memory[b', c'])
    {
      LocateExactly(address);
      var ok := SetMAR(Some(address));
      ClearMBR();
      ClockCycle();
      fetched := mbr.value;
      ClockCycle();
      ClockCycle();
    }

    /** A store as the processor drives it: set the MAR and the MBR, run the store and its
        busy cycle; then clear the MBR and fetch the same address back. */
    method StoreThenFetch(address: int, word: int) returns (fetched: int)
      requires Valid() && !IsBusy() && 0 <= address < 64 && IsInt32(word)
      modifies this, memory
      ensures Valid() && fetched == word && state == Fetching
      ensures memory[address / 8, address] == word
      ensures forall b', c' :: 0 <= b' < BankCount && 0 <= c' < BankCells && (b', c') != (address / 8, address) ==>
        memory[b', c'] == old(memory[b', c'])
    {
      LocateExactly(address);
      var ok := SetMAR(Some(address));
      ok := SetMBR(Some(word));
      ClockCycle();
      ClockCycle();
      ClearMBR();
      ClockCycle();
      fetched := mbr.value;
    }
  }
}
