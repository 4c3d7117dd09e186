/**
 * Checking that a range of addresses is backed by memory blocks, and writing only to ranges
 * that are. Addresses are offsets in one address space that ends at `last`.
 */
module MemoryRange {
  import opened Wrappers

  /** A Python function that returns nothing. */
  datatype Done = Done

  type Byte = b: int | 0 <= b < 256

  /** Both ends belong to the block. */
  datatype Block = Block(start: nat, end: nat, initialized: bool) {
    predicate Contains(a: int) {
      start <= a <= end
    }
  }

  datatype Memory = Memory(blocks: seq<Block>, last: nat) {
    ghost predicate Valid() {
      && (forall i :: 0 <= i < |blocks| ==> blocks[i].start <= blocks[i].end <= last)
      && (forall i, j, a ::
            0 <= i < |blocks| && 0 <= j < |blocks| && blocks[i].Contains(a) && blocks[j].Contains(a) ==> i == j)
    }

    /** `a` lies in a block, and in an initialized one if that is asked for. */
    predicate Backed(a: int, initialized: bool) {
      exists i :: 0 <= i < |blocks| && blocks[i].Contains(a) && (initialized ==> blocks[i].initialized)
    }

    /** `getBlock`. */
    function BlockAt(a: int): (r: Option<Block>)
      ensures r.Some? ==> r.value in blocks && r.value.Contains(a)
      ensures r.None? ==> forall i :: 0 <= i < |blocks| ==> !blocks[i].Contains(a)
    {
      FindBlock(blocks, a)
    }
  }

  function FindBlock(blocks: seq<Block>, a: int): (r: Option<Block>)
    ensures r.Some? ==> r.value in blocks && r.value.Contains(a)
    ensures r.None? ==> forall i :: 0 <= i < |blocks| ==> !blocks[i].Contains(a)
  {
    if blocks == [] then None
    else if blocks[0].Contains(a) then Some(blocks[0])
    else FindBlock(blocks[1..], a)
  }

  datatype RangeError =
    | InvalidSize
    | InvalidRange
    | NotInMemory(at: int)
    | Uninitialized(at: int)

  /** Every address from `addr` to `addr + size - 1` is backed. */
  predicate AllBacked(m: Memory, addr: int, size: int, initialized: bool) {
    forall a :: addr <= a < addr + size ==> m.Backed(a, initialized)
  }

  /** `a` is the first address of the range that is not backed as asked. */
  predicate FirstBad(m: Memory, addr: int, size: int, initialized: bool, a: int) {
    && addr <= a < addr + size
    && !m.Backed(a, initialized)
    && (forall b :: addr <= b < a ==> m.Backed(b, initialized))
  }

  /** What the check has to answer. */
  predicate Verdict(m: Memory, addr: int, size: int, initialized: bool, r: Result<Done, RangeError>) {
    if size <= 0 then r == Err(InvalidSize)
    else if addr + size - 1 > m.last then r == Err(InvalidRange)
    else match r
      case Ok(_) => AllBacked(m, addr, size, initialized)
      case Err(NotInMemory(a)) => FirstBad(m, addr, size, initialized, a) && !m.Backed(a, false)
      case Err(Uninitialized(a)) => FirstBad(m, addr, size, initialized, a) && m.Backed(a, false)
      case _ => false
  }

  /** The verdict leaves one answer. */
  lemma VerdictIsUnique(m: Memory, addr: int, size: int, initialized: bool,
                        r: Result<Done, RangeError>, r': Result<Done, RangeError>)
    requires Verdict(m, addr, size, initialized, r) && Verdict(m, addr, size, initialized, r')
    ensures r == r'
  {
    if size > 0 && addr + size - 1 <= m.last {
      if r.Err? {
        ErrorNamesFirstBad(m, addr, size, initialized, r);
      }
      if r'.Err? {
        ErrorNamesFirstBad(m, addr, size, initialized, r');
      }
      if r.Err? && r'.Err? {
        var a, b := r.error.at, r'.error.at;
        assert FirstBad(m, addr, size, initialized, a) && FirstBad(m, addr, size, initialized, b);
        assert a == b;
        assert r.error.NotInMemory? <==> r'.error.NotInMemory?;
      } else if r.Ok? && r'.Ok? {
        assert r.value.Done? && r'.value.Done?;
      }
    }
  }

  lemma ErrorNamesFirstBad(m: Memory, addr: int, size: int, initialized: bool, r: Result<Done, RangeError>)
    requires size > 0 && addr + size - 1 <= m.last && r.Err? && Verdict(m, addr, size, initialized, r)
    ensures !AllBacked(m, addr, size, initialized)
    ensures r.error.NotInMemory? || r.error.Uninitialized?
    ensures FirstBad(m, addr, size, initialized, r.error.at)
    ensures r.error.NotInMemory? <==> !m.Backed(r.error.at, false)
  {
    assert !m.Backed(r.error.at, initialized);
  }

  /** The whole of a block is backed, and nothing else decides for its addresses. */
  lemma BlockDecides(m: Memory, block: Block, a: int, initialized: bool)
    requires m.Valid() && block in m.blocks && block.Contains(a)
    ensures m.Backed(a, initialized) <==> (initialized ==> block.initialized)
  {
    var i :| 0 <= i < |m.blocks| && m.blocks[i] == block;
    assert m.blocks[i].Contains(a);
  }

  /** `check_range_in_memory`. */
  method CheckRangeInMemory(m: Memory, addr: nat, size: int, initialized: bool) returns (r: Result<Done, RangeError>)
    requires m.Valid() && addr <= m.last
    ensures Verdict(m, addr, size, initialized, r)
    ensures r.Ok? <==> size > 0 && AllBacked(m, addr, size, initialized)
  {
    if size <= 0 {
      return Err(InvalidSize);
    }
    if addr + size - 1 > m.last {
      BackedIsBelow(m, addr + size - 1, initialized);
      return Err(InvalidRange);
    }
    var end := addr + size - 1;
    var cur := addr;
    while true
      invariant addr <= cur <= end
      invariant forall a :: addr <= a < cur ==> m.Backed(a, initialized)
      decreases end - cur
    {
      var found := m.BlockAt(cur);
      if found.None? {
        return Err(NotInMemory(cur));
      }
      var block := found.value;
      BlockDecides(m, block, cur, initialized);
      BlockDecides(m, block, cur, false);
      if initialized && !block.initialized {
        return Err(Uninitialized(cur));
      }
      forall a | cur <= a <= block.end
        ensures m.Backed(a, initialized)
      {
        BlockDecides(m, block, a, initialized);
      }
      if block.Contains(end) {
        return Ok(Done);
      }
      cur := block.end + 1;
    }
  }

  lemma BackedIsBelow(m: Memory, a: int, initialized: bool)
    requires m.Valid()
    ensures m.Backed(a, initialized) ==> a <= m.last
  {
  }

  // ---- Writing ---------------------------------------------------------------------------------

  /** An instruction or data item laid over the bytes from `start` to `end`. */
  datatype CodeUnit = CodeUnit(start: nat, end: nat)

  datatype WriteError = EmptyData | BadRange(e: RangeError) | PatchFailed

  /** What goes wrong inside the transaction: clearing part of the range, or after `written` bytes. */
  datatype Fault = NoFault | ClearFails(cleared: nat) | SetFails(written: nat)

  datatype Contents = Contents(bytes: map<nat, Byte>, units: set<CodeUnit>)

  class Program {
    const memory: Memory
    var bytes: map<nat, Byte>
    var units: set<CodeUnit>
    var saved: Option<Contents>

    function View(): Contents
      reads this
    {
      Contents(bytes, units)
    }

    constructor (memory: Memory, bytes: map<nat, Byte>, units: set<CodeUnit>)
      ensures View() == Contents(bytes, units) && this.memory == memory && saved.None?
    {
      this.memory, this.bytes, this.units, this.saved := memory, bytes, units, None;
    }

    method StartTransaction()
      modifies this`saved
      ensures saved == Some(View())
    {
      saved := Some(View());
    }

    /** Rolls back unless told to commit. */
    method EndTransaction(commit: bool)
      requires saved.Some?
      modifies this
      ensures saved.None? && View() == if commit then old(View()) else old(saved).value
    {
      if !commit {
        bytes, units := saved.value.bytes, saved.value.units;
      }
      saved := None;
    }

    /** Drops every code unit that touches the range. */
    method ClearCodeUnits(start: nat, end: nat)
      modifies this`units
      ensures forall u :: u in units <==> u in old(units) && (u.end < start || end < u.start)
    {
      units := set u | u in units && (u.end < start || end < u.start);
    }

    /** Writes the first `n` bytes. */
    method SetBytes(addr: nat, data: seq<Byte>, n: nat)
      requires n <= |data|
      modifies this`bytes
      ensures Overwritten(old(bytes), bytes, addr, data[..n])
    {
      var i := 0;
      while i < n
        invariant 0 <= i <= n
        invariant Overwritten(old(bytes), bytes, addr, data[..i])
      {
        bytes := bytes[addr + i := data[i]];
        i := i + 1;
      }
    }

    /** `write_memory`. Bad input and failed writes leave the program as it was. */
    method WriteMemory(addr: nat, data: seq<Byte>, fault: Fault) returns (r: Result<Done, WriteError>)
      requires memory.Valid() && addr <= memory.last && saved.None?
      requires fault.ClearFails? ==> fault.cleared <= |data|
      requires fault.SetFails? ==> fault.written <= |data|
      modifies this
      ensures saved.None?
      ensures r.Ok? <==> data != [] && fault.NoFault? && AllBacked(memory, addr, |data|, true)
      ensures data == [] ==> r == Err(EmptyData)
      ensures data != [] && AllBacked(memory, addr, |data|, true) && !fault.NoFault? ==> r == Err(PatchFailed)
      ensures data != [] && !AllBacked(memory, addr, |data|, true) ==>
                r.Err? && r.error.BadRange? && Verdict(memory, addr, |data|, true, Err(r.error.e))
      ensures r.Err? ==> View() == old(View())
      ensures r.Ok? ==>
        && Overwritten(old(bytes), bytes, addr, data)
        && forall u :: u in units <==> u in old(units) && (u.end < addr || addr + |data| <= u.start)
    {
      if data == [] {
        return Err(EmptyData);
      }
      var check := CheckRangeInMemory(memory, addr, |data|, true);
      if check.Err? {
        return Err(BadRange(check.error));
      }
      StartTransaction();
      if fault.ClearFails? {
        if fault.cleared > 0 {
          ClearCodeUnits(addr, addr + fault.cleared - 1);
        }
        EndTransaction(false);
        return Err(PatchFailed);
      }
      ClearCodeUnits(addr, addr + |data| - 1);
      if fault.SetFails? {
        SetBytes(addr, data, fault.written);
        EndTransaction(false);
        return Err(PatchFailed);
      }
      SetBytes(addr, data, |data|);
      assert data[..|data|] == data;
      EndTransaction(true);
      return Ok(Done);
    }
  }

  /** `after` holds `data` from `addr` on, and what `before` held everywhere else. */
  ghost predicate Overwritten(before: map<nat, Byte>, after: map<nat, Byte>, addr: nat, data: seq<Byte>) {
    && (forall a :: addr <= a < addr + |data| ==> a in after && after[a] == data[a - addr])
    && (forall a :: a < addr || addr + |data| <= a ==> (a in before <==> a in after))
    && (forall a :: a in before && a in after && (a < addr || addr + |data| <= a) ==> after[a] == before[a])
  }

  /** A successful write determines every byte that memory holds afterwards. */
  lemma OverwriteIsUnique(before: map<nat, Byte>, after: map<nat, Byte>, after': map<nat, Byte>,
                          addr: nat, data: seq<Byte>)
    requires Overwritten(before, after, addr, data) && Overwritten(before, after', addr, data)
    ensures after == after'
  {
    assert forall a :: a in after <==> a in after';
  }
}
