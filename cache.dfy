/**
 * Cache: the fully associative, write-back cache of eight 32-word slots in front of main
 * memory. Each slot has a tag ("bank,start" of the block it holds), a dirty bit and the
 * time it was last used; a miss loads the block into the first empty slot or, when every
 * slot is taken, into the least recently used one after writing it back if it is dirty.
 */
module Caching {
  import opened Binary
  import opened Wrappers

  const BlockSize: nat := 32  // BLOCK_SIZE
  const CacheSize: nat := 8   // CACHE_SIZE

  /** The Integer[] pair that names a block of main memory: its bank and first cell. */
  datatype BlockId = BlockId(bank: int, start: int)

  /** calculateTagFromBlockID: the two numbers joined by a comma. */
  function Tag(b: BlockId): string
  {
    IntToDecimal(b.bank) + "," + IntToDecimal(b.start)
  }

  predicate NoComma(s: string) { forall i :: 0 <= i < |s| ==> s[i] != ',' }

  /** A decimal rendering has no comma and at least one character. */
  lemma {:induction false} DecimalNoComma(x: int)
    ensures NoComma(IntToDecimal(x)) && |IntToDecimal(x)| >= 1
  {
    if x >= 0 {
      NatToDecimalDigits(x);
    } else {
      NatToDecimalDigits(-x);
      assert IntToDecimal(x) == "-" + NatToDecimal(-x);
    }
  }

  /** Two comma-free heads followed by a comma split the same way. */
  lemma {:induction false} SplitAtComma(a: string, b: string, c: string, d: string)
    requires NoComma(a) && NoComma(c) && a + "," + b == c + "," + d
    ensures a == c && b == d
  {
    var s := a + "," + b;
    assert |a| == |c| by {
      assert s[|a|] == ',' && s[|c|] == ',';
    }
    assert a == s[..|a|] && c == s[..|c|];
    assert b == s[|a| + 1..] && d == s[|c| + 1..];
  }

  /** A decimal rendering starts with a minus sign exactly for a negative number, and the
      rest is the rendering of the magnitude. */
  lemma {:induction false} DecimalHead(x: int)
    ensures var s := IntToDecimal(x);
      |s| >= 1 && (s[0] == '-' <==> x < 0) &&
      (x >= 0 ==> s == NatToDecimal(x)) && (x < 0 ==> s[1..] == NatToDecimal(-x))
  {
    if x >= 0 {
      NatToDecimalDigits(x);
    } else {
      NatToDecimalDigits(-x);
      assert IntToDecimal(x)[1..] == NatToDecimal(-x);
    }
  }

  /** Different numbers have different decimal renderings. */
  lemma {:induction false} IntToDecimalInjective(x: int, y: int)
    requires IntToDecimal(x) == IntToDecimal(y)
    ensures x == y
  {
    DecimalHead(x);
    DecimalHead(y);
    if x >= 0 {
      NatToDecimalDigits(x);
      NatToDecimalDigits(y);
    } else {
      NatToDecimalDigits(-x);
      NatToDecimalDigits(-y);
    }
  }

  /** No two blocks share a tag, so a tag match is a block match. */
  lemma {:induction false} TagInjective(b: BlockId, b': BlockId)
    requires Tag(b) == Tag(b')
    ensures b == b'
  {
    DecimalNoComma(b.bank);
    DecimalNoComma(b'.bank);
    SplitAtComma(IntToDecimal(b.bank), IntToDecimal(b.start), IntToDecimal(b'.bank), IntToDecimal(b'.start));
    IntToDecimalInjective(b.bank, b'.bank);
    IntToDecimalInjective(b.start, b'.start);
  }

  /** What getBlockLocation answers for the tag table ts: the last slot holding t. */
  function LastMatch(ts: seq<Option<string>>, t: string): (r: Option<nat>)
    ensures r.Some? ==> r.value < |ts| && ts[r.value] == Some(t)
  {
    if ts == [] then None
    else if ts[|ts| - 1] == Some(t) then Some(|ts| - 1)
    else LastMatch(ts[..|ts| - 1], t)
  }

  /** LastMatch finds a slot exactly when some slot holds the tag, and none after it does. */
  lemma {:induction false} LastMatchExactly(ts: seq<Option<string>>, t: string)
    ensures LastMatch(ts, t).None? <==> forall i :: 0 <= i < |ts| ==> ts[i] != Some(t)
    ensures LastMatch(ts, t).Some? ==> forall j :: LastMatch(ts, t).value < j < |ts| ==> ts[j] != Some(t)
  {
    if ts != [] && ts[|ts| - 1] != Some(t) {
      var p := ts[..|ts| - 1];
      LastMatchExactly(p, t);
      assert forall i :: 0 <= i < |p| ==> p[i] == ts[i];
    }
  }

  /** The slot getFreeBlock's first loop returns: the first one never (or no longer) used. */
  function FirstEmpty(ls: seq<Option<int>>): (r: Option<nat>)
    ensures r.Some? ==> r.value < |ls| && ls[r.value].None?
    ensures r.Some? ==> forall i :: 0 <= i < r.value ==> ls[i].Some?
    ensures r.None? <==> forall i :: 0 <= i < |ls| ==> ls[i].Some?
  {
    if ls == [] then None
    else if ls[0].None? then Some(0)
    else
      var r := FirstEmpty(ls[1..]);
      assert forall i :: 1 <= i < |ls| ==> ls[i] == ls[1..][i - 1];
      if r.None? then None else Some(r.value + 1)
  }

  /** The slot getFreeBlock's second loop settles on among the first n: the one used
      longest ago, the lowest index on ties. */
  function Oldest(ls: seq<Option<int>>, n: nat): (o: nat)
    requires 1 <= n <= |ls| && forall i :: 0 <= i < |ls| ==> ls[i].Some?
    ensures o < n
  {
    if n == 1 then 0
    else
      var o := Oldest(ls, n - 1);
      if ls[n - 1].value < ls[o].value then n - 1 else o
  }

  /** Oldest is a least recently used slot, and no earlier slot is as old. */
  lemma {:induction false} OldestIsLeastRecent(ls: seq<Option<int>>, n: nat)
    requires 1 <= n <= |ls| && forall i :: 0 <= i < |ls| ==> ls[i].Some?
    ensures var o := Oldest(ls, n);
      (forall k :: 0 <= k < n ==> ls[o].value <= ls[k].value) &&
      (forall k :: 0 <= k < o ==> ls[o].value < ls[k].value)
  {
    if n > 1 {
      OldestIsLeastRecent(ls, n - 1);
    }
  }

  /** The slot getFreeBlock hands out for the stamp table ls: the first empty slot, else
      the least recently used one. */
  function Victim(ls: seq<Option<int>>): (k: nat)
    requires |ls| == CacheSize
    ensures k < CacheSize
  {
    match FirstEmpty(ls)
    case Some(i) => i
    case None => Oldest(ls, CacheSize)
  }

  /** A second write to the same index undoes the first. */
  lemma {:induction false} UpdateTwice<T>(s: seq<T>, k: nat, a: T, b: T)
    requires k < |s|
    ensures s[k := a][k := b] == s[k := b]
  {
  }

  /** The words of a block that main memory has never been given: zeros. */
  function ZeroBlock(): (z: seq<int>)
    ensures |z| == BlockSize && forall i :: 0 <= i < |z| ==> z[i] == 0
  {
    seq(BlockSize, _ => 0)
  }

  /** The block b as main memory holds it. */
  function Read(mem: map<BlockId, seq<int>>, b: BlockId): seq<int>
  {
    if b in mem then mem[b] else ZeroBlock()
  }

  /** One slot's row of the tables: a slot is empty (no tag, never stamped, clean) or holds
      a full block whose tag the location table maps back to that block, stamped before the
      current time; a clean resident block agrees with main memory. */
  ghost predicate SlotOk(t: Option<string>, d: bool, l: Option<int>, row: seq<int>,
                         loc: map<string, Option<BlockId>>, mem: map<BlockId, seq<int>>, clock: int)
  {
    (t.None? <==> l.None?) && (l.Some? ==> l.value < clock) && (t.None? ==> !d) &&
    (t.Some? ==>
      t.value in loc && loc[t.value].Some? && Tag(loc[t.value].value) == t.value && |row| == BlockSize &&
      (!d ==> row == Read(mem, loc[t.value].value)))
  }

  /** Main memory after slot k is freed: a dirty slot's words are written back to the block
      its tag maps to; otherwise memory is as it was. */
  function WrittenBack(ts: seq<Option<string>>, ds: seq<bool>, rows: seq<seq<int>>,
                       loc: map<string, Option<BlockId>>, mem: map<BlockId, seq<int>>, k: nat): map<BlockId, seq<int>>
    requires k < |ts| && k < |ds| && k < |rows|
  {
    if ds[k] && ts[k].Some? && ts[k].value in loc && loc[ts[k].value].Some? then mem[loc[ts[k].value].value := rows[k]]
    else mem
  }

  /** The location table after a slot holding tag t is freed: t maps to null. */
  function Evicted(loc: map<string, Option<BlockId>>, t: Option<string>): map<string, Option<BlockId>>
  {
    if t.Some? then loc[t.value := None] else loc
  }

  /** The cache's tables, as values: eight slots, each well formed, no tag resident twice,
      and every block of main memory 32 words long. */
  ghost predicate Tables(ts: seq<Option<string>>, ds: seq<bool>, ls: seq<Option<int>>, rows: seq<seq<int>>,
                         loc: map<string, Option<BlockId>>, mem: map<BlockId, seq<int>>, clock: int)
  {
    |ts| == CacheSize && |ds| == CacheSize && |ls| == CacheSize && |rows| == CacheSize &&
    (forall b :: b in mem ==> |mem[b]| == BlockSize) &&
    (forall i, j :: 0 <= i < j < CacheSize && ts[i].Some? ==> ts[i] != ts[j]) &&
    (forall i :: 0 <= i < CacheSize ==> SlotOk(ts[i], ds[i], ls[i], rows[i], loc, mem, clock))
  }

  /** What a reader of block b sees through the cache: the resident copy if there is one,
      main memory otherwise. */
  function ViewOf(ts: seq<Option<string>>, rows: seq<seq<int>>, mem: map<BlockId, seq<int>>, b: BlockId): seq<int>
    requires |rows| == |ts|
  {
    match LastMatch(ts, Tag(b))
    case Some(i) => rows[i]
    case None => Read(mem, b)
  }

  /** Through well-formed tables every block reads as 32 words. */
  lemma {:induction false} ViewLength(ts: seq<Option<string>>, ds: seq<bool>, ls: seq<Option<int>>,
                                      rows: seq<seq<int>>, loc: map<string, Option<BlockId>>,
                                      mem: map<BlockId, seq<int>>, clock: int, b: BlockId)
    requires Tables(ts, ds, ls, rows, loc, mem, clock)
    ensures |ViewOf(ts, rows, mem, b)| == BlockSize
  {
    var r := LastMatch(ts, Tag(b));
    if r.Some? {
      LastMatchExactly(ts, Tag(b));
      assert SlotOk(ts[r.value], ds[r.value], ls[r.value], rows[r.value], loc, mem, clock);
    }
  }

  /** With distinct tags, the slot holding a tag is the one LastMatch finds. */
  lemma {:induction false} LastMatchUnique(ts: seq<Option<string>>, k: nat, t: string)
    requires k < |ts| && ts[k] == Some(t)
    requires forall j :: 0 <= j < |ts| && j != k ==> ts[j] != Some(t)
    ensures LastMatch(ts, t) == Some(k)
  {
    LastMatchExactly(ts, t);
  }

  /** Rewriting a slot that neither held nor now holds t leaves LastMatch for t alone. */
  lemma {:induction false} LastMatchUpdate(ts: seq<Option<string>>, k: nat, v: Option<string>, t: string)
    requires k < |ts| && ts[k] != Some(t) && v != Some(t)
    ensures LastMatch(ts[k := v], t) == LastMatch(ts, t)
  {
    var n := |ts| - 1;
    if k == n {
      assert ts[k := v][..n] == ts[..n];
    } else if ts[n] != Some(t) {
      LastMatchUpdate(ts[..n], k, v, t);
      assert ts[k := v][..n] == ts[..n][k := v];
    }
  }

  /** Emptying a slot never makes a missing tag appear. */
  lemma {:induction false} LastMatchClear(ts: seq<Option<string>>, k: nat, t: string)
    requires k < |ts| && LastMatch(ts, t).None?
    ensures LastMatch(ts[k := None], t).None?
  {
    LastMatchExactly(ts, t);
    LastMatchExactly(ts[k := None], t);
  }

  /** cleanBlock on the tables: emptying a resident slot, after writing it back when it is
      dirty, keeps the tables well formed and changes no reader's view of any block. */
  lemma {:induction false} CleanPreserves(ts: seq<Option<string>>, ds: seq<bool>, ls: seq<Option<int>>,
                                          rows: seq<seq<int>>, loc: map<string, Option<BlockId>>,
                                          mem: map<BlockId, seq<int>>, clock: int, k: nat)
    requires Tables(ts, ds, ls, rows, loc, mem, clock) && k < CacheSize && ts[k].Some?
    ensures var t := ts[k].value;
      var mem' := if ds[k] then mem[loc[t].value := rows[k]] else mem;
      Tables(ts[k := None], ds[k := false], ls[k := None], rows, loc[t := None], mem', clock) &&
      forall b :: ViewOf(ts[k := None], rows, mem', b) == ViewOf(ts, rows, mem, b)
  {
    var t := ts[k].value;
    var mem' := if ds[k] then mem[loc[t].value := rows[k]] else mem;
    assert SlotOk(ts[k], ds[k], ls[k], rows[k], loc, mem, clock);
    CleanSlots(ts, ds, ls, rows, loc, mem, clock, k, mem');
    CleanViews(ts, rows, mem, k, loc[t].value, mem');
  }

  /** The slot half of CleanPreserves. */
  lemma {:induction false} CleanSlots(ts: seq<Option<string>>, ds: seq<bool>, ls: seq<Option<int>>,
                                      rows: seq<seq<int>>, loc: map<string, Option<BlockId>>,
                                      mem: map<BlockId, seq<int>>, clock: int, k: nat, mem': map<BlockId, seq<int>>)
    requires Tables(ts, ds, ls, rows, loc, mem, clock) && k < CacheSize && ts[k].Some?
    requires var home := loc[ts[k].value].value;
      mem' == if ds[k] then mem[home := rows[k]] else mem
    ensures Tables(ts[k := None], ds[k := false], ls[k := None], rows, loc[ts[k].value := None], mem', clock)
  {
    var t := ts[k].value;
    var home := loc[t].value;
    var ts', ds', ls', loc' := ts[k := None], ds[k := false], ls[k := None], loc[t := None];
    assert SlotOk(ts[k], ds[k], ls[k], rows[k], loc, mem, clock);
    forall i | 0 <= i < CacheSize
      ensures SlotOk(ts'[i], ds'[i], ls'[i], rows[i], loc', mem', clock)
    {
      assert SlotOk(ts[i], ds[i], ls[i], rows[i], loc, mem, clock);
      if i != k && ts[i].Some? {
        assert ts[i] != ts[k];
        assert Tag(loc[ts[i].value].value) != Tag(home);
      }
    }
  }

  /** The view half of CleanPreserves: the slot k held home, and home's words now come from
      mem', which holds them. */
  lemma {:induction false} CleanViews(ts: seq<Option<string>>, rows: seq<seq<int>>, mem: map<BlockId, seq<int>>,
                                      k: nat, home: BlockId, mem': map<BlockId, seq<int>>)
    requires |rows| == |ts| && k < |ts| && ts[k] == Some(Tag(home))
    requires forall j :: 0 <= j < |ts| && j != k ==> ts[j] != ts[k]
    requires Read(mem', home) == rows[k]
    requires forall b :: b != home ==> Read(mem', b) == Read(mem, b)
    ensures forall b :: ViewOf(ts[k := None], rows, mem', b) == ViewOf(ts, rows, mem, b)
  {
    var ts' := ts[k := None];
    forall b
      ensures ViewOf(ts', rows, mem', b) == ViewOf(ts, rows, mem, b)
    {
      if Tag(b) == Tag(home) {
        TagInjective(b, home);
        LastMatchUnique(ts, k, Tag(home));
        LastMatchExactly(ts', Tag(home));
      } else {
        LastMatchUpdate(ts, k, None, Tag(b));
      }
    }
  }

  /** fetchBlock on the tables: loading a block that is not resident into an empty slot,
      clean and stamped now, keeps the tables well formed, makes that slot the one its tag
      is found in, and changes no reader's view of any block. */
  lemma {:induction false} InstallPreserves(ts: seq<Option<string>>, ds: seq<bool>, ls: seq<Option<int>>,
                                            rows: seq<seq<int>>, loc: map<string, Option<BlockId>>,
                                            mem: map<BlockId, seq<int>>, clock: int, k: nat, blk: BlockId)
    requires Tables(ts, ds, ls, rows, loc, mem, clock) && k < CacheSize && ts[k].None?
    requires LastMatch(ts, Tag(blk)).None?
    ensures var t := Tag(blk);
      var ts', rows' := ts[k := Some(t)], rows[k := Read(mem, blk)];
      Tables(ts', ds[k := false], ls[k := Some(clock)], rows', loc[t := Some(blk)], mem, clock + 1) &&
      LastMatch(ts', t) == Some(k) && Read(mem, blk) == ViewOf(ts, rows, mem, blk) &&
      forall b :: ViewOf(ts', rows', mem, b) == ViewOf(ts, rows, mem, b)
  {
    var t := Tag(blk);
    var ts', ds', ls', rows', loc' := ts[k := Some(t)], ds[k := false], ls[k := Some(clock)], rows[k := Read(mem, blk)], loc[t := Some(blk)];
    LastMatchExactly(ts, t);
    forall i | 0 <= i < CacheSize
      ensures SlotOk(ts'[i], ds'[i], ls'[i], rows'[i], loc', mem, clock + 1)
    {
      assert SlotOk(ts[i], ds[i], ls[i], rows[i], loc, mem, clock);
    }
    LastMatchUnique(ts', k, t);
    forall b
      ensures ViewOf(ts', rows', mem, b) == ViewOf(ts, rows, mem, b)
    {
      if Tag(b) == t {
        TagInjective(b, blk);
      } else {
        LastMatchUpdate(ts, k, Some(t), Tag(b));
      }
    }
  }

  /** Stamping a resident slot with the current time keeps the tables well formed. */
  lemma {:induction false} TouchPreserves(ts: seq<Option<string>>, ds: seq<bool>, ls: seq<Option<int>>,
                                          rows: seq<seq<int>>, loc: map<string, Option<BlockId>>,
                                          mem: map<BlockId, seq<int>>, clock: int, k: nat)
    requires Tables(ts, ds, ls, rows, loc, mem, clock) && k < CacheSize && ts[k].Some?
    ensures Tables(ts, ds, ls[k := Some(clock)], rows, loc, mem, clock + 1)
  {
    var ls' := ls[k := Some(clock)];
    forall i | 0 <= i < CacheSize
      ensures SlotOk(ts[i], ds[i], ls'[i], rows[i], loc, mem, clock + 1)
    {
      assert SlotOk(ts[i], ds[i], ls[i], rows[i], loc, mem, clock);
    }
  }

  /** storeWord's hit on the tables: writing word v at offset off of the slot that holds
      blk, marking it dirty and stamping it, keeps the tables well formed; a reader then
      sees v at that offset of blk and every other block as before. */
  lemma {:induction false} StorePreserves(ts: seq<Option<string>>, ds: seq<bool>, ls: seq<Option<int>>,
                                          rows: seq<seq<int>>, loc: map<string, Option<BlockId>>,
                                          mem: map<BlockId, seq<int>>, clock: int, blk: BlockId,
                                          off: nat, v: int)
    requires Tables(ts, ds, ls, rows, loc, mem, clock) && LastMatch(ts, Tag(blk)).Some? && off < BlockSize
    ensures var k := LastMatch(ts, Tag(blk)).value;
      var rows' := rows[k := rows[k][off := v]];
      Tables(ts, ds[k := true], ls[k := Some(clock)], rows', loc, mem, clock + 1) &&
      ViewOf(ts, rows', mem, blk) == ViewOf(ts, rows, mem, blk)[off := v] &&
      forall b :: b != blk ==> ViewOf(ts, rows', mem, b) == ViewOf(ts, rows, mem, b)
  {
    var k := LastMatch(ts, Tag(blk)).value;
    var ds', ls', rows' := ds[k := true], ls[k := Some(clock)], rows[k := rows[k][off := v]];
    forall i | 0 <= i < CacheSize
      ensures SlotOk(ts[i], ds'[i], ls'[i], rows'[i], loc, mem, clock + 1)
    {
      assert SlotOk(ts[i], ds[i], ls[i], rows[i], loc, mem, clock);
    }
    forall b | b != blk
      ensures ViewOf(ts, rows', mem, b) == ViewOf(ts, rows, mem, b)
    {
      var r := LastMatch(ts, Tag(b));
      if r == Some(k) {
        TagInjective(b, blk);
      }
    }
  }

  /** Tables with every slot empty are well formed, and through them every block reads as
      main memory holds it. */
  lemma {:induction false} EmptyTables(ts: seq<Option<string>>, ds: seq<bool>, ls: seq<Option<int>>,
                                       rows: seq<seq<int>>, mem: map<BlockId, seq<int>>)
    requires |ts| == CacheSize && |ds| == CacheSize && |ls| == CacheSize && |rows| == CacheSize
    requires forall i :: 0 <= i < CacheSize ==> ts[i].None? && !ds[i] && ls[i].None?
    requires forall b :: b in mem ==> |mem[b]| == BlockSize
    ensures Tables(ts, ds, ls, rows, map[], mem, 0)
    ensures forall b :: ViewOf(ts, rows, mem, b) == Read(mem, b)
  {
    forall i | 0 <= i < CacheSize
      ensures SlotOk(ts[i], ds[i], ls[i], rows[i], map[], mem, 0)
    {
    }
    forall b
      ensures ViewOf(ts, rows, mem, b) == Read(mem, b)
    {
      LastMatchExactly(ts, Tag(b));
    }
  }

  class Cache {
    const cache: array<seq<int>>            // the words of each slot's block
    const tags: array<Option<string>>       // null for an empty slot
    const dirty: array<bool>
    const lastUsed: array<Option<int>>      // null for an empty slot
    var location: map<string, Option<BlockId>>
    var memory: map<BlockId, seq<int>>      // main memory, block by block
    var clock: int                          // the time stamps come from here

    ghost predicate Valid()
      reads this, cache, tags, dirty, lastUsed
    {
      cache.Length == CacheSize && tags.Length == CacheSize && dirty.Length == CacheSize &&
      lastUsed.Length == CacheSize &&
      Tables(tags[..], dirty[..], lastUsed[..], cache[..], location, memory, clock)
    }

    /** The words of block b as a reader of the cache sees them. */
    ghost function View(b: BlockId): (v: seq<int>)
      requires Valid()
      reads this, cache, tags, dirty, lastUsed
      ensures |v| == BlockSize
    {
      ViewLength(tags[..], dirty[..], lastUsed[..], cache[..], location, memory, clock, b);
      ViewOf(tags[..], cache[..], memory, b)
    }

    /** A new cache in front of main memory mem: every slot empty, clean and never used. */
    constructor (mem: map<BlockId, seq<int>>)
      requires forall b :: b in mem ==> |mem[b]| == BlockSize
      ensures Valid() && memory == mem && location == map[]
      ensures forall i :: 0 <= i < CacheSize ==> tags[i].None? && !dirty[i] && lastUsed[i].None?
      ensures forall b :: View(b) == Read(mem, b)
    {
      cache := new seq<int>[CacheSize];
      tags := new Option<string>[CacheSize];
      dirty := new bool[CacheSize];
      lastUsed := new Option<int>[CacheSize];
      location := map[];
      memory := mem;
      clock := 0;
      new;
      for i := 0 to CacheSize
        invariant memory == mem && location == map[] && clock == 0
        invariant forall j :: 0 <= j < i ==> tags[j].None? && !dirty[j] && lastUsed[j].None?
      {
        tags[i] := None;
        dirty[i] := false;
        lastUsed[i] := None;
      }
      EmptyTables(tags[..], dirty[..], lastUsed[..], cache[..], mem);
    }

    /** getBlockLocation: the last slot whose tag is t, or null. */
    method GetBlockLocation(t: string) returns (loc: Option<nat>)
      requires tags.Length == CacheSize
      ensures loc == LastMatch(tags[..], t)
    {
      loc := None;
      for i := 0 to CacheSize
        invariant loc == LastMatch(tags[..i], t)
      {
        if tags[i].Some? && tags[i].value == t {
          loc := Some(i);
        }
        assert tags[..i + 1][..i] == tags[..i];
      }
      assert tags[..CacheSize] == tags[..];
    }

    /** isBlockAvailable: some slot holds the tag t. */
    method IsBlockAvailable(t: string) returns (r: bool)
      requires tags.Length == CacheSize
      ensures r <==> exists i :: 0 <= i < CacheSize && tags[i] == Some(t)
    {
      var loc := GetBlockLocation(t);
      LastMatchExactly(tags[..], t);
      r := loc.Some?;
    }

    /** testWord / isWordAvailable: whether the block holding the word is resident; no state
        changes. */
    method TestWord(block: BlockId) returns (r: bool)
      requires tags.Length == CacheSize
      ensures r <==> exists i :: 0 <= i < CacheSize && tags[i] == Some(Tag(block))
    {
      r := IsBlockAvailable(Tag(block));
    }

    /** cleanBlock: write a dirty slot back to its block of main memory, then empty the slot
        (no tag, clean, unused) and forget where its tag lives. */
    method CleanBlock(slot: nat)
      requires Valid() && slot < CacheSize && tags[slot].Some?
      modifies this, tags, dirty, lastUsed
      ensures Valid() && clock == old(clock)
      ensures tags[..] == old(tags[..])[slot := None] && dirty[..] == old(dirty[..])[slot := false]
      ensures lastUsed[..] == old(lastUsed[..])[slot := None]
      ensures location == old(location)[old(tags[slot].value) := None]
      ensures memory == if old(dirty[slot]) then old(memory)[old(location[tags[slot].value].value) := cache[slot]]
                        else old(memory)
      ensures forall b :: View(b) == old(View(b))
    {
      ghost var ts, ds, ls, loc, mem := tags[..], dirty[..], lastUsed[..], location, memory;
      var t := tags[slot].value;
      if dirty[slot] {
        memory := memory[location[t].value := cache[slot]];
        dirty[slot] := false;
      }
      lastUsed[slot] := None;
      location := location[t := None];
      tags[slot] := None;
      CleanPreserves(ts, ds, ls, cache[..], loc, mem, clock, slot);
      assert tags[..] == ts[slot := None] && dirty[..] == ds[slot := false] && lastUsed[..] == ls[slot := None];
    }
  
    /** getFreeBlock: the first slot never (or no longer) used; when every slot is in use,
        the least recently used one (the lowest index on ties), cleaned first. */
    method GetFreeBlock() returns (slot: nat)
      requires Valid()
      modifies this, tags, dirty, lastUsed
      ensures Valid() && clock == old(clock) && slot == Victim(old(lastUsed[..]))
      ensures tags[slot].None? && !dirty[slot] && lastUsed[slot].None?
      ensures tags[..] == old(tags[..])[slot := None] && dirty[..] == old(dirty[..])[slot := false]
      ensures lastUsed[..] == old(lastUsed[..])[slot := None]
      ensures location == Evicted(old(location), old(tags[slot]))
      ensures memory == WrittenBack(old(tags[..]), old(dirty[..]), old(cache[..]), old(location), old(memory), slot)
      ensures FirstEmpty(old(lastUsed[..])).Some? ==>
        slot == FirstEmpty(old(lastUsed[..])).value &&
        tags[..] == old(tags[..]) && dirty[..] == old(dirty[..]) && lastUsed[..] == old(lastUsed[..]) &&
        location == old(location) && memory == old(memory)
      ensures FirstEmpty(old(lastUsed[..])).None? ==> slot == Oldest(old(lastUsed[..]), CacheSize)
      ensures forall b :: View(b) == old(View(b))
    {
      for i := 0 to CacheSize
        invariant forall j :: 0 <= j < i ==> lastUsed[j].Some?
      {
        if lastUsed[i].None? {
          assert SlotOk(tags[..][i], dirty[..][i], lastUsed[..][i], cache[..][i], location, memory, clock);
          assert tags[..] == tags[..][i := None];
          assert dirty[..] == dirty[..][i := false];
          assert lastUsed[..] == lastUsed[..][i := None];
          return i;
        }
      }
      var oldest := 0;
      for j := 1 to CacheSize
        invariant oldest == Oldest(lastUsed[..], j)
      {
        if lastUsed[j].value < lastUsed[oldest].value {
          oldest := j;
        }
      }
      assert SlotOk(tags[..][oldest], dirty[..][oldest], lastUsed[..][oldest], cache[..][oldest], location, memory, clock);
      CleanBlock(oldest);
      slot := oldest;
    }

    /** fetchBlock: load a block that is not resident into the slot getFreeBlock gives (the
        first empty one, else the least recently used, written back first if dirty), clean
        and stamped now, and record where its tag lives. Every other slot keeps its tag, stamp,
        dirty bit and words. No reader's view changes; the slot holds what a reader saw of
        the block. */
    method FetchBlock(block: BlockId)
      requires Valid() && LastMatch(tags[..], Tag(block)).None?
      modifies this, tags, dirty, lastUsed, cache
      ensures Valid() && clock == old(clock) + 1
      ensures LastMatch(tags[..], Tag(block)) == Some(Victim(old(lastUsed[..])))
      ensures var k := Victim(old(lastUsed[..]));
        tags[..] == old(tags[..])[k := Some(Tag(block))] && dirty[..] == old(dirty[..])[k := false] &&
        lastUsed[..] == old(lastUsed[..])[k := Some(old(clock))] &&
        cache[..] == old(cache[..])[k := old(View(block))] &&
        location == Evicted(old(location), old(tags[k]))[Tag(block) := Some(block)] &&
        memory == WrittenBack(old(tags[..]), old(dirty[..]), old(cache[..]), old(location), old(memory), k)
      ensures forall b :: View(b) == old(View(b))
    {
      ghost var ts0, ds0, ls0, seen := tags[..], dirty[..], lastUsed[..], View(block);
      var free := GetFreeBlock();
      LastMatchClear(ts0, free, Tag(block));
      ghost var ts, ds, ls, rows, loc, mem, now := tags[..], dirty[..], lastUsed[..], cache[..], location, memory, clock;
      InstallPreserves(ts, ds, ls, rows, loc, mem, now, free, block);
      var newBlock := Read(memory, block);
      assert newBlock == seen;
      Install(free, block, newBlock);
      UpdateTwice(ts0, free, None, Some(Tag(block)));
      UpdateTwice(ds0, free, false, false);
      UpdateTwice(ls0, free, None, Some(now));
    }

    /** The table writes of fetchBlock: the block's words, the time stamp (which moves the
        clock on), a clean dirty bit and the tag, all in slot k, and where the tag now lives. */
    method Install(k: nat, blk: BlockId, row: seq<int>)
      requires tags.Length == CacheSize && dirty.Length == CacheSize && lastUsed.Length == CacheSize
      requires cache.Length == CacheSize && k < CacheSize
      modifies this, tags, dirty, lastUsed, cache
      ensures location == old(location)[Tag(blk) := Some(blk)] && memory == old(memory) && clock == old(clock) + 1
      ensures tags[..] == old(tags[..])[k := Some(Tag(blk))] && dirty[..] == old(dirty[..])[k := false]
      ensures lastUsed[..] == old(lastUsed[..])[k := Some(old(clock))] && cache[..] == old(cache[..])[k := row]
    {
      cache[k] := row;
      lastUsed[k] := Some(clock);
      clock := clock + 1;
      dirty[k] := false;
      tags[k] := Some(Tag(blk));
      location := location[Tag(blk) := Some(blk)];
    }

    /** fetchWord: on a hit, stamp the slot holding the block and return the word at offset
        cell % 32 of it, changing nothing else; on a miss, fetch the block for the next try
        (as FetchBlock does) and return null. Either way no reader's view of any block changes
        and the block is resident afterwards. */
    method FetchWord(block: BlockId, cell: nat) returns (w: Option<int>)
      requires Valid()
      modifies this, tags, dirty, lastUsed, cache
      ensures Valid() && clock == old(clock) + 1
      ensures w.Some? <==> old(LastMatch(tags[..], Tag(block))).Some?
      ensures w.Some? ==> w.value == old(View(block))[cell % BlockSize] && tags[..] == old(tags[..])
      ensures w.Some? ==> var k := old(LastMatch(tags[..], Tag(block))).value;
        dirty[..] == old(dirty[..]) && cache[..] == old(cache[..]) &&
        lastUsed[..] == old(lastUsed[..])[k := Some(old(clock))] &&
        location == old(location) && memory == old(memory)
      ensures w.None? ==> var k := Victim(old(lastUsed[..]));
        tags[..] == old(tags[..])[k := Some(Tag(block))] && dirty[..] == old(dirty[..])[k := false] &&
        lastUsed[..] == old(lastUsed[..])[k := Some(old(clock))] &&
        cache[..] == old(cache[..])[k := old(View(block))] &&
        location == Evicted(old(location), old(tags[k]))[Tag(block) := Some(block)] &&
        memory == WrittenBack(old(tags[..]), old(dirty[..]), old(cache[..]), old(location), old(memory), k)
      ensures LastMatch(tags[..], Tag(block)).Some?
      ensures forall b :: View(b) == old(View(b))
    {
      var hit := IsBlockAvailable(Tag(block));
      LastMatchExactly(tags[..], Tag(block));
      if hit {
        var word := ReadHit(block, cell);
        w := Some(word);
      } else {
        FetchBlock(block);
        w := None;
      }
    }

    /** engineerFetchWord: like fetchWord, but a miss fetches the block at once (as
        FetchBlock does), so the slot is stamped a second time and the word is always
        returned. */
    method EngineerFetchWord(block: BlockId, cell: nat) returns (w: int)
      requires Valid()
      modifies this, tags, dirty, lastUsed, cache
      ensures Valid() && w == old(View(block))[cell % BlockSize]
      ensures clock == old(clock) + if old(LastMatch(tags[..], Tag(block))).Some? then 1 else 2
      ensures old(LastMatch(tags[..], Tag(block))).Some? ==>
        var k := old(LastMatch(tags[..], Tag(block))).value;
        tags[..] == old(tags[..]) && dirty[..] == old(dirty[..]) && cache[..] == old(cache[..]) &&
        lastUsed[..] == old(lastUsed[..])[k := Some(old(clock))] &&
        location == old(location) && memory == old(memory)
      ensures old(LastMatch(tags[..], Tag(block))).None? ==> var k := Victim(old(lastUsed[..]));
        tags[..] == old(tags[..])[k := Some(Tag(block))] && dirty[..] == old(dirty[..])[k := false] &&
        lastUsed[..] == old(lastUsed[..])[k := Some(old(clock) + 1)] &&
        cache[..] == old(cache[..])[k := old(View(block))] &&
        location == Evicted(old(location), old(tags[k]))[Tag(block) := Some(block)] &&
        memory == WrittenBack(old(tags[..]), old(dirty[..]), old(cache[..]), old(location), old(memory), k)
      ensures LastMatch(tags[..], Tag(block)).Some?
      ensures forall b :: View(b) == old(View(b))
    {
      var hit := IsBlockAvailable(Tag(block));
      LastMatchExactly(tags[..], Tag(block));
      if hit {
        w := ReadHit(block, cell);
      } else {
        w := FetchThenRead(block, cell);
      }
    }

    /** The miss path of engineerFetchWord: fetchBlock, then the hit path. */
    method FetchThenRead(block: BlockId, cell: nat) returns (w: int)
      requires Valid() && LastMatch(tags[..], Tag(block)).None?
      modifies this, tags, dirty, lastUsed, cache
      ensures Valid() && w == old(View(block))[cell % BlockSize] && clock == old(clock) + 2
      ensures var k := Victim(old(lastUsed[..]));
        tags[..] == old(tags[..])[k := Some(Tag(block))] && dirty[..] == old(dirty[..])[k := false] &&
        lastUsed[..] == old(lastUsed[..])[k := Some(old(clock) + 1)] &&
        cache[..] == old(cache[..])[k := old(View(block))] &&
        location == Evicted(old(location), old(tags[k]))[Tag(block) := Some(block)] &&
        memory == WrittenBack(old(tags[..]), old(dirty[..]), old(cache[..]), old(location), old(memory), k)
      ensures LastMatch(tags[..], Tag(block)).Some?
      ensures forall b :: View(b) == old(View(b))
    {
      ghost var ls0, now := lastUsed[..], clock;
      FetchBlock(block);
      w := ReadHit(block, cell);
      UpdateTwice(ls0, Victim(ls0), Some(now), Some(now + 1));
    }

    /** storeWord: on a hit, stamp the slot, mark it dirty and write the word at offset
        cell % 32, changing nothing else; on a miss, fetch the block for the next try (as
        FetchBlock does) and report failure. A reader then sees the new word in that block,
        and every other word as before. */
    method StoreWord(block: BlockId, cell: nat, value: int) returns (ok: bool)
      requires Valid()
      modifies this, tags, dirty, lastUsed, cache
      ensures Valid() && clock == old(clock) + 1
      ensures ok <==> old(LastMatch(tags[..], Tag(block))).Some?
      ensures ok ==> var k := old(LastMatch(tags[..], Tag(block))).value;
        tags[..] == old(tags[..]) && dirty[..] == old(dirty[..])[k := true] &&
        lastUsed[..] == old(lastUsed[..])[k := Some(old(clock))] &&
        cache[..] == old(cache[..])[k := old(cache[k])[cell % BlockSize := value]] &&
        location == old(location) && memory == old(memory)
      ensures !ok ==> var k := Victim(old(lastUsed[..]));
        tags[..] == old(tags[..])[k := Some(Tag(block))] && dirty[..] == old(dirty[..])[k := false] &&
        lastUsed[..] == old(lastUsed[..])[k := Some(old(clock))] &&
        cache[..] == old(cache[..])[k := old(View(block))] &&
        location == Evicted(old(location), old(tags[k]))[Tag(block) := Some(block)] &&
        memory == WrittenBack(old(tags[..]), old(dirty[..]), old(cache[..]), old(location), old(memory), k)
      ensures LastMatch(tags[..], Tag(block)).Some?
      ensures ok ==> View(block) == old(View(block))[cell % BlockSize := value] && tags[..] == old(tags[..])
      ensures ok ==> forall b :: b != block ==> View(b) == old(View(b))
      ensures !ok ==> forall b :: View(b) == old(View(b))
    {
      var hit := IsBlockAvailable(Tag(block));
      LastMatchExactly(tags[..], Tag(block));
      if hit {
        WriteHit(block, cell, value);
        ok := true;
      } else {
        FetchBlock(block);
        ok := false;
      }
    }

    /** engineerStoreWord: like storeWord, but a miss fetches the block at once (as
        FetchBlock does), so the word is always written: the slot is stamped, marked dirty
        and given the word at offset cell % 32. */
    method EngineerStoreWord(block: BlockId, cell: nat, value: int)
      requires Valid()
      modifies this, tags, dirty, lastUsed, cache
      ensures Valid()
      ensures clock == old(clock) + if old(LastMatch(tags[..], Tag(block))).Some? then 1 else 2
      ensures old(LastMatch(tags[..], Tag(block))).Some? ==>
        var k := old(LastMatch(tags[..], Tag(block))).value;
        tags[..] == old(tags[..]) && dirty[..] == old(dirty[..])[k := true] &&
        lastUsed[..] == old(lastUsed[..])[k := Some(old(clock))] &&
        cache[..] == old(cache[..])[k := old(cache[k])[cell % BlockSize := value]] &&
        location == old(location) && memory == old(memory)
      ensures old(LastMatch(tags[..], Tag(block))).None? ==> var k := Victim(old(lastUsed[..]));
        tags[..] == old(tags[..])[k := Some(Tag(block))] && dirty[..] == old(dirty[..])[k := true] &&
        lastUsed[..] == old(lastUsed[..])[k := Some(old(clock) + 1)] &&
        cache[..] == old(cache[..])[k := old(View(block))[cell % BlockSize := value]] &&
        location == Evicted(old(location), old(tags[k]))[Tag(block) := Some(block)] &&
        memory == WrittenBack(old(tags[..]), old(dirty[..]), old(cache[..]), old(location), old(memory), k)
      ensures LastMatch(tags[..], Tag(block)).Some?
      ensures View(block) == old(View(block))[cell % BlockSize := value]
      ensures forall b :: b != block ==> View(b) == old(View(b))
    {
      var hit := IsBlockAvailable(Tag(block));
      LastMatchExactly(tags[..], Tag(block));
      if hit {
        WriteHit(block, cell, value);
      } else {
        FetchThenWrite(block, cell, value);
      }
    }

    /** The miss path of engineerStoreWord: fetchBlock, then the hit path. */
    method FetchThenWrite(block: BlockId, cell: nat, value: int)
      requires Valid() && LastMatch(tags[..], Tag(block)).None?
      modifies this, tags, dirty, lastUsed, cache
      ensures Valid() && clock == old(clock) + 2
      ensures var k := Victim(old(lastUsed[..]));
        tags[..] == old(tags[..])[k := Some(Tag(block))] && dirty[..] == old(dirty[..])[k := true] &&
        lastUsed[..] == old(lastUsed[..])[k := Some(old(clock) + 1)] &&
        cache[..] == old(cache[..])[k := old(View(block))[cell % BlockSize := value]] &&
        location == Evicted(old(location), old(tags[k]))[Tag(block) := Some(block)] &&
        memory == WrittenBack(old(tags[..]), old(dirty[..]), old(cache[..]), old(location), old(memory), k)
      ensures LastMatch(tags[..], Tag(block)).Some?
      ensures View(block) == old(View(block))[cell % BlockSize := value]
      ensures forall b :: b != block ==> View(b) == old(View(b))
    {
      ghost var ls0, ds0, rows0, now, seen := lastUsed[..], dirty[..], cache[..], clock, View(block);
      ghost var k := Victim(ls0);
      FetchBlock(block);
      WriteHit(block, cell, value);
      UpdateTwice(ls0, k, Some(now), Some(now + 1));
      UpdateTwice(ds0, k, false, true);
      UpdateTwice(rows0, k, seen, seen[cell % BlockSize := value]);
    }

    /** The hit path of the fetches: find the slot holding the block, stamp it and read the
        word at offset cell % 32. */
    method ReadHit(block: BlockId, cell: nat) returns (w: int)
      requires Valid() && LastMatch(tags[..], Tag(block)).Some?
      modifies this, lastUsed
      ensures Valid() && clock == old(clock) + 1
      ensures location == old(location) && memory == old(memory)
      ensures lastUsed[..] == old(lastUsed[..])[LastMatch(tags[..], Tag(block)).value := Some(old(clock))]
      ensures w == old(View(block))[cell % BlockSize]
      ensures forall b :: View(b) == old(View(b))
    {
      var loc := GetBlockLocation(Tag(block));
      var k := loc.value;
      ViewLength(tags[..], dirty[..], lastUsed[..], cache[..], location, memory, clock, block);
      TouchPreserves(tags[..], dirty[..], lastUsed[..], cache[..], location, memory, clock, k);
      Touch(k);
      w := cache[k][cell % BlockSize];
    }

    /** The hit path of the stores: find the slot holding the block, stamp it, mark it dirty
        and write the word at offset cell % 32. */
    method WriteHit(block: BlockId, cell: nat, value: int)
      requires Valid() && LastMatch(tags[..], Tag(block)).Some?
      modifies this, lastUsed, dirty, cache
      ensures Valid() && clock == old(clock) + 1
      ensures location == old(location) && memory == old(memory)
      ensures var k := LastMatch(tags[..], Tag(block)).value;
        lastUsed[..] == old(lastUsed[..])[k := Some(old(clock))] && dirty[..] == old(dirty[..])[k := true] &&
        cache[..] == old(cache[..])[k := old(cache[k])[cell % BlockSize := value]]
      ensures View(block) == old(View(block))[cell % BlockSize := value]
      ensures forall b :: b != block ==> View(b) == old(View(b))
    {
      var loc := GetBlockLocation(Tag(block));
      var k := loc.value;
      var off := cell % BlockSize;
      StorePreserves(tags[..], dirty[..], lastUsed[..], cache[..], location, memory, clock, block, off, value);
      Write(k, off, value);
    }

    /** The time stamp of a hit: slot k is stamped now and the clock moves on. */
    method Touch(k: nat)
      requires lastUsed.Length == CacheSize && k < CacheSize
      modifies this, lastUsed
      ensures location == old(location) && memory == old(memory) && clock == old(clock) + 1
      ensures lastUsed[..] == old(lastUsed[..])[k := Some(old(clock))]
    {
      lastUsed[k] := Some(clock);
      clock := clock + 1;
    }

    /** The table writes of a store hit: the stamp, the dirty bit and the word at offset off
        of slot k. */
    method Write(k: nat, off: nat, value: int)
      requires lastUsed.Length == CacheSize && dirty.Length == CacheSize && cache.Length == CacheSize
      requires k < CacheSize && off < |cache[k]|
      modifies this, lastUsed, dirty, cache
      ensures location == old(location) && memory == old(memory) && clock == old(clock) + 1
      ensures lastUsed[..] == old(lastUsed[..])[k := Some(old(clock))] && dirty[..] == old(dirty[..])[k := true]
      ensures cache[..] == old(cache[..])[k := old(cache[k])[off := value]]
    {
      lastUsed[k] := Some(clock);
      clock := clock + 1;
      dirty[k] := true;
      cache[k] := cache[k][off := value];
    }
  }
}
