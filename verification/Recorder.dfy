/**
 The trace recorder: what each event of the emulated program appends to the log.

 `Record` is the specification, one pure step per event; the class in RecorderBuffer is the
 recorder itself, with its growing buffer and its pending-change table.
 */
module Recorder {
  import opened Prelude
  import opened TraceLog
  import opened Coalescing

  /** Sizes are in bits and fit the low byte of the flags word. */
  type Size = s: nat | s < 256

  type EightWords = w: seq<nat> | |w| == 8 witness seq(8, i => 0)

  const TARGET_BITS: Size := 32

  datatype Event =
    | Block(pc: nat, size: nat, filtered: bool, eax: Option<nat>)  // a translated block starts; eax: value left by a syscall
    | LoadMem(addr: nat, data: nat, bits: Size)
    | StoreMem(addr: nat, data: nat, bits: Size)
    | ReadReg(offset: int, data: nat, bits: Size)
    | WriteReg(offset: int, data: nat, bits: Size)
    | SyscallBegin(nr: nat, regs: EightWords)  // regs: the first eight register words

  datatype Rec = Rec(log: seq<Change>, clnum: nat, filtered: bool, pending: seq<Change>)

  const PLAIN := Flags(false, false, false, false, false, 0)

  function RegFlags(bits: Size): Flags { PLAIN.(write := true, size := bits) }

  function Added(st: Rec, addr: nat, data: nat, f: Flags): Rec {
    st.(log := st.log + [Change(addr, data, st.clnum, f.(valid := true))])
  }

  /** The valid ones of the first `n` pending changes, as records of changelist `clnum`. */
  function Emitted(pending: seq<Change>, n: nat, clnum: nat): seq<Change>
    requires n <= |pending|
  {
    if n == 0 then []
    else Emitted(pending, n - 1, clnum)
         + if pending[n - 1].flags.valid then [pending[n - 1].(clnum := clnum)] else []
  }

  function NoPending(): (r: seq<Change>)
    ensures |r| == SLOTS && forall i :: 0 <= i < SLOTS ==> r[i] == BLANK
  {
    seq(SLOTS, i => BLANK)
  }

  function Committed(st: Rec): Rec
    requires |st.pending| == SLOTS
  {
    st.(log := st.log + Emitted(st.pending, SLOTS, st.clnum), pending := NoPending())
  }

  function AddedRegs(st: Rec, regs: seq<nat>, n: nat): (r: Rec)
    requires n <= |regs|
    ensures r.clnum == st.clnum && r.filtered == st.filtered && r.pending == st.pending
  {
    if n == 0 then st else Added(AddedRegs(st, regs, n - 1), 4 * (n - 1), regs[n - 1], RegFlags(TARGET_BITS))
  }

  function Started(st: Rec, pc: nat, size: nat, filtered: bool): Rec
    requires |st.pending| == SLOTS
  {
    if filtered then st.(filtered := true)
    else
      var ready := (if st.filtered then Committed(st) else st).(filtered := false);
      Added(ready.(clnum := st.clnum + 1), pc, size, PLAIN.(start := true))
  }

  function Record(st: Rec, e: Event): (r: Rec)
    requires |st.pending| == SLOTS
    ensures |r.pending| == SLOTS && st.clnum <= r.clnum
  {
    match e
    case Block(pc, size, filtered, eax) =>
      var resumed := if eax.Some? then Added(st, 0, eax.value, RegFlags(TARGET_BITS)) else st;
      Started(resumed, pc, size, filtered)
    case LoadMem(addr, data, bits) => Added(st, addr, data, PLAIN.(mem := true, size := bits))
    case StoreMem(addr, data, bits) => Added(st, addr, data, PLAIN.(mem := true, write := true, size := bits))
    case ReadReg(offset, data, bits) =>
      if offset < 0 || st.filtered then st else Added(st, offset, data, PLAIN.(size := bits))
    case WriteReg(offset, data, bits) =>
      if offset < 0 then st
      else if !st.filtered then Added(st, offset, data, RegFlags(bits))
      else if offset < 4 * SLOTS then
        st.(pending := st.pending[offset / 4 := Change(offset, data, 0, RegFlags(bits).(valid := true))])
      else st
    case SyscallBegin(nr, regs) =>
      var spilled := if st.filtered then AddedRegs(st, regs, 8) else st;
      Added(spilled, nr, 0, PLAIN.(syscall := true))
  }

  /** A fresh log whose first changelist will be `start`. */
  function Fresh(start: nat): Rec
    requires start > 0
  {
    Rec([], start - 1, false, NoPending())
  }

  function RecordAll(st: Rec, evs: seq<Event>): (r: Rec)
    requires |st.pending| == SLOTS
    ensures |r.pending| == SLOTS
  {
    if evs == [] then st else Record(RecordAll(st, evs[..|evs| - 1]), evs[|evs| - 1])
  }

  // ---------- every log has the shape the database relies on ----------

  /** All records are complete, none is ahead of the current changelist, and the shape holds. */
  ghost predicate ShapeInv(st: Rec) {
    && |st.pending| == SLOTS && WellShaped(st.log)
    && (forall i :: 0 <= i < |st.log| ==> st.log[i].clnum <= st.clnum && st.log[i].flags.valid && st.log[i].flags.size < 256)
    && (forall i :: 0 <= i < SLOTS ==> !st.pending[i].flags.start && st.pending[i].flags.size < 256)
  }

  /** Records that may be appended without opening a changelist. */
  ghost predicate Inner(more: seq<Change>, clnum: nat) {
    forall k :: 0 <= k < |more| ==> more[k].clnum == clnum && more[k].flags.valid && !more[k].flags.start && more[k].flags.size < 256
  }

  lemma InnerKeepsShape(st: Rec, more: seq<Change>)
    requires ShapeInv(st) && Inner(more, st.clnum)
    ensures ShapeInv(st.(log := st.log + more))
  {
  }

  lemma {:induction false} EmittedInner(pending: seq<Change>, n: nat, clnum: nat)
    requires n <= |pending| && forall i :: 0 <= i < |pending| ==> !pending[i].flags.start && pending[i].flags.size < 256
    ensures Inner(Emitted(pending, n, clnum), clnum)
  {
    if n > 0 {
      EmittedInner(pending, n - 1, clnum);
    }
  }

  lemma {:induction false} AddedRegsShape(st: Rec, regs: seq<nat>, n: nat)
    requires n <= |regs| && ShapeInv(st)
    ensures ShapeInv(AddedRegs(st, regs, n))
  {
    if n > 0 {
      AddedRegsShape(st, regs, n - 1);
      AddedShape(AddedRegs(st, regs, n - 1), 4 * (n - 1), regs[n - 1], RegFlags(TARGET_BITS));
    }
  }

  lemma AddedShape(st: Rec, addr: nat, data: nat, f: Flags)
    requires ShapeInv(st) && !f.start && f.size < 256
    ensures ShapeInv(Added(st, addr, data, f))
  {
    InnerKeepsShape(st, [Change(addr, data, st.clnum, f.(valid := true))]);
  }

  lemma StartedShape(st: Rec, pc: nat, size: nat, filtered: bool)
    requires ShapeInv(st)
    ensures ShapeInv(Started(st, pc, size, filtered))
  {
    if !filtered {
      EmittedInner(st.pending, SLOTS, st.clnum);
      InnerKeepsShape(st, Emitted(st.pending, SLOTS, st.clnum));
      var ready := if st.filtered then Committed(st) else st;
      assert ShapeInv(ready);
    }
  }

  lemma RecordKeepsShape(st: Rec, e: Event)
    requires ShapeInv(st)
    ensures ShapeInv(Record(st, e))
  {
    match e
    case Block(pc, size, filtered, eax) =>
      if eax.Some? {
        AddedShape(st, 0, eax.value, RegFlags(TARGET_BITS));
      }
      StartedShape(if eax.Some? then Added(st, 0, eax.value, RegFlags(TARGET_BITS)) else st, pc, size, filtered);
    case LoadMem(addr, data, bits) => AddedShape(st, addr, data, PLAIN.(mem := true, size := bits));
    case StoreMem(addr, data, bits) => AddedShape(st, addr, data, PLAIN.(mem := true, write := true, size := bits));
    case ReadReg(offset, data, bits) =>
      if offset >= 0 {
        AddedShape(st, offset, data, PLAIN.(size := bits));
      }
    case WriteReg(offset, data, bits) =>
      if offset >= 0 {
        AddedShape(st, offset, data, RegFlags(bits));
      }
    case SyscallBegin(nr, regs) =>
      AddedRegsShape(st, regs, 8);
      AddedShape(if st.filtered then AddedRegs(st, regs, 8) else st, nr, 0, PLAIN.(syscall := true));
  }

  /** Every log the recorder can write: complete records, numbers nondecreasing, instructions first. */
  lemma {:induction false} EveryLogIsWellShaped(start: nat, evs: seq<Event>)
    requires start > 0
    ensures ShapeInv(RecordAll(Fresh(start), evs))
  {
    if evs != [] {
      EveryLogIsWellShaped(start, evs[..|evs| - 1]);
      RecordKeepsShape(RecordAll(Fresh(start), evs[..|evs| - 1]), evs[|evs| - 1]);
    }
  }
}
