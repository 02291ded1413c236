/** The recorder itself: a mapped log that doubles when full, and the pending-change table. */
module RecorderBuffer {
  import opened Prelude
  import opened TraceLog
  import opened Coalescing
  import opened Recorder

  class LogBuffer {
    var buffer: array<Change>    // record 0 holds the log's own header
    var changeCount: nat
    var changelistNumber: nat
    var isFiltered: bool
    const pending: array<Change>

    ghost predicate Valid()
      reads this, buffer, pending
    {
      && 1 <= changeCount <= buffer.Length
      && pending.Length == SLOTS && pending != buffer
      // what has not been written yet is zero
      && (forall i :: changeCount <= i < buffer.Length ==> buffer[i] == BLANK)
    }

    /** The recorder state of the specification. */
    ghost function State(): Rec
      reads this, buffer, pending
      requires Valid()
    {
      Rec(buffer[1..changeCount], changelistNumber, isFiltered, pending[..])
    }

    constructor (start: nat)
      requires start > 0
      ensures Valid() && fresh(buffer) && fresh(pending) && State() == Fresh(start)
    {
      buffer := new Change[1](_ => BLANK);
      pending := new Change[SLOTS](_ => BLANK);
      changeCount := 1;
      changelistNumber := start - 1;
      isFiltered := false;
      new;
      assert pending[..] == NoPending();
    }

    /** Twice the room; the old records stay and the new ones are zero. */
    method Grow()
      requires Valid()
      modifies this`buffer
      ensures Valid() && fresh(buffer) && buffer.Length == 2 * old(buffer.Length)
      ensures buffer[..changeCount] == old(buffer[..changeCount])
    {
      var narrow := buffer;
      var wider := new Change[2 * narrow.Length](_ => BLANK);
      for i := 0 to narrow.Length
        invariant forall k :: 0 <= k < i ==> wider[k] == narrow[k]
        invariant forall k :: i <= k < wider.Length ==> wider[k] == BLANK
      {
        wider[i] := narrow[i];
      }
      buffer := wider;
    }

    method AddChange(addr: nat, data: nat, flags: Flags)
      requires Valid()
      modifies this`buffer, this`changeCount, buffer
      ensures Valid() && (buffer == old(buffer) || fresh(buffer))
      ensures State() == old(Added(State(), addr, data, flags))
      ensures pending[..] == old(pending[..])
    {
      ghost var before := buffer[1..changeCount];
      if changeCount == buffer.Length {
        Grow();
      }
      assert buffer[1..changeCount] == before;
      buffer[changeCount] := Change(addr, data, changelistNumber, flags.(valid := true));
      changeCount := changeCount + 1;
      assert buffer[1..changeCount] == before + [buffer[changeCount - 1]];
    }

    method AddPendingChange(addr: nat, data: nat, flags: Flags)
      requires Valid()
      modifies pending
      ensures Valid()
      ensures State() == old(State()).(pending :=
                if addr < 4 * SLOTS then old(pending[..])[addr / 4 := Change(addr, data, 0, flags.(valid := true))]
                else old(pending[..]))
    {
      if addr < 4 * SLOTS {
        pending[addr / 4] := Change(addr, data, 0, flags.(valid := true));
      }
    }

    method CommitPendingChanges()
      requires Valid()
      modifies this`buffer, this`changeCount, buffer, pending
      ensures Valid() && (buffer == old(buffer) || fresh(buffer))
      ensures State() == old(Committed(State()))
    {
      ghost var table := pending[..];
      for i := 0 to SLOTS
        invariant Valid() && (buffer == old(buffer) || fresh(buffer)) && pending[..] == table
        invariant changelistNumber == old(changelistNumber) && isFiltered == old(isFiltered)
        invariant State().log == old(State().log) + Emitted(table, i, changelistNumber)
      {
        assert pending[i] == table[i];
        if pending[i].flags.valid {
          AddChange(pending[i].address, pending[i].data, pending[i].flags);
        }
      }
      forall i | 0 <= i < SLOTS {
        pending[i] := BLANK;
      }
      assert pending[..] == NoPending();
    }

    method TrackLoad(addr: nat, data: nat, bits: Size)
      requires Valid()
      modifies this`buffer, this`changeCount, buffer
      ensures Valid() && (buffer == old(buffer) || fresh(buffer))
      ensures State() == old(Record(State(), LoadMem(addr, data, bits)))
    {
      AddChange(addr, data, PLAIN.(mem := true, size := bits));
    }

    method TrackStore(addr: nat, data: nat, bits: Size)
      requires Valid()
      modifies this`buffer, this`changeCount, buffer
      ensures Valid() && (buffer == old(buffer) || fresh(buffer))
      ensures State() == old(Record(State(), StoreMem(addr, data, bits)))
    {
      AddChange(addr, data, PLAIN.(mem := true, write := true, size := bits));
    }

    method TrackRead(offset: int, data: nat, bits: Size)
      requires Valid()
      modifies this`buffer, this`changeCount, buffer
      ensures Valid() && (buffer == old(buffer) || fresh(buffer))
      ensures State() == old(Record(State(), ReadReg(offset, data, bits)))
    {
      if offset < 0 {
        return;
      }
      if !isFiltered {
        AddChange(offset, data, PLAIN.(size := bits));
      }
    }

    method TrackWrite(offset: int, data: nat, bits: Size)
      requires Valid()
      modifies this`buffer, this`changeCount, buffer, pending
      ensures Valid() && (buffer == old(buffer) || fresh(buffer))
      ensures State() == old(Record(State(), WriteReg(offset, data, bits)))
    {
      if offset < 0 {
        return;
      }
      if !isFiltered {
        AddChange(offset, data, RegFlags(bits));
      } else {
        AddPendingChange(offset, data, RegFlags(bits));
      }
    }

    method TrackSyscallBegin(nr: nat, regs: EightWords)
      requires Valid()
      modifies this`buffer, this`changeCount, buffer
      ensures Valid() && (buffer == old(buffer) || fresh(buffer))
      ensures State() == old(Record(State(), SyscallBegin(nr, regs)))
    {
      if isFiltered {
        for i := 0 to 8
          invariant Valid() && (buffer == old(buffer) || fresh(buffer))
          invariant State() == old(AddedRegs(State(), regs, i))
        {
          AddChange(4 * i, regs[i], RegFlags(TARGET_BITS));
        }
      }
      AddChange(nr, 0, PLAIN.(syscall := true));
    }

    /** Enter filtered code, or leave it and open the next changelist. */
    method StartBlock(pc: nat, size: nat, filtered: bool)
      requires Valid()
      modifies this, buffer, pending
      ensures Valid() && (buffer == old(buffer) || fresh(buffer))
      ensures State() == old(Started(State(), pc, size, filtered))
    {
      if filtered {
        isFiltered := true;
      } else {
        if isFiltered {
          CommitPendingChanges();
          isFiltered := false;
        }
        changelistNumber := changelistNumber + 1;
        AddChange(pc, size, PLAIN.(start := true));
      }
    }

    /** The tracking preamble of a translated block. */
    method BeginBlock(pc: nat, size: nat, filtered: bool, eax: Option<nat>)
      requires Valid()
      modifies this, buffer, pending
      ensures Valid() && (buffer == old(buffer) || fresh(buffer))
      ensures State() == old(Record(State(), Block(pc, size, filtered, eax)))
    {
      if eax.Some? {
        AddChange(0, eax.value, RegFlags(TARGET_BITS));
      }
      StartBlock(pc, size, filtered);
    }
  }
}
