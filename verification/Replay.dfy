/**
 Rebuilding a guest from its log.

 The live guest and the recorder see the same events; the replayer sees only the
 records.  Replaying what lies below changelist k gives back the guest as it was
 when changelist k began, across filtered stretches and across forks.
 */
module Replay {
  import opened Prelude
  import opened TraceLog
  import opened ByteStores
  import opened Coalescing
  import opened Recorder

  datatype Guest = Guest(env: Bytes, mem: Bytes)

  // ---------- the live guest ----------

  /** What an event does to the guest itself (a little-endian one). */
  function Live(g: Guest, e: Event): Guest {
    match e
    case StoreMem(addr, data, bits) => g.(mem := Poke(g.mem, Shape(addr, bits / 8), data))
    case WriteReg(offset, data, bits) => g.(env := Poke(g.env, Shape(offset, bits / 8), data))
    case _ => g
  }

  function LiveAll(g: Guest, evs: seq<Event>): Guest {
    if evs == [] then g else Live(LiveAll(g, evs[..|evs| - 1]), evs[|evs| - 1])
  }

  /** A 32-bit store puts the four bytes of its data at the four addresses from its own on, the lowest first. */
  lemma StoredWord(g: Guest, addr: nat, b0: Byte, b1: Byte, b2: Byte, b3: Byte)
    ensures Live(g, StoreMem(addr, Word(b0, b1, b2, b3), 32)) == g.(mem := WithWord(g.mem, addr, b0, b1, b2, b3))
    ensures Live(g, WriteReg(addr, Word(b0, b1, b2, b3), 32)) == g.(env := WithWord(g.env, addr, b0, b1, b2, b3))
  {
    LiveWord(g, addr, Word(b0, b1, b2, b3));
    PokedWord(g.mem, addr, b0, b1, b2, b3);
    PokedWord(g.env, addr, b0, b1, b2, b3);
  }

  lemma LiveWord(g: Guest, addr: nat, w: nat)
    ensures Live(g, StoreMem(addr, w, 32)) == g.(mem := Poke(g.mem, Shape(addr, 4), w))
    ensures Live(g, WriteReg(addr, w, 32)) == g.(env := Poke(g.env, Shape(addr, 4), w))
  {
    var bits: Size := 32;
    assert Shape(addr, bits / 8) == Shape(addr, 4);
    assert Live(g, StoreMem(addr, w, bits)) == g.(mem := Poke(g.mem, Shape(addr, bits / 8), w));
    assert Live(g, WriteReg(addr, w, bits)) == g.(env := Poke(g.env, Shape(addr, bits / 8), w));
  }

  function WithWord(m: Bytes, addr: int, b0: Byte, b1: Byte, b2: Byte, b3: Byte): Bytes {
    m[addr := b0][addr + 1 := b1][addr + 2 := b2][addr + 3 := b3]
  }

  lemma PokedWord(m: Bytes, addr: int, b0: Byte, b1: Byte, b2: Byte, b3: Byte)
    ensures Poke(m, Shape(addr, 4), Word(b0, b1, b2, b3)) == WithWord(m, addr, b0, b1, b2, b3)
  {
    var r, l, w := WithWord(m, addr, b0, b1, b2, b3), Poke(m, Shape(addr, 4), Word(b0, b1, b2, b3)), Word(b0, b1, b2, b3);
    WordBytes(b0, b1, b2, b3);
    forall b ensures SameByte(l, r, b) {
      PokeAt(m, Shape(addr, 4), w, b);
      if Touches(Shape(addr, 4), b) {
        assert b == addr || b == addr + 1 || b == addr + 2 || b == addr + 3;
      }
    }
    SameBytes(l, r);
  }

  // ---------- the replayer ----------

  function ApplyChange(g: Guest, c: Change): Guest {
    var f := Shape(c.address, c.flags.size / 8);
    if !c.flags.write then g
    else if c.flags.mem then g.(mem := Poke(g.mem, f, c.data))
    else g.(env := Poke(g.env, f, c.data))
  }

  function ReplayAll(g: Guest, cs: seq<Change>): Guest {
    if cs == [] then g else ApplyChange(ReplayAll(g, cs[..|cs| - 1]), cs[|cs| - 1])
  }

  lemma {:induction false} ReplayConcat(g: Guest, a: seq<Change>, b: seq<Change>)
    ensures ReplayAll(g, a + b) == ReplayAll(ReplayAll(g, a), b)
  {
    if b == [] {
      assert a + b == a;
    } else {
      ReplayConcat(g, a, b[..|b| - 1]);
      assert (a + b)[..|a + b| - 1] == a + b[..|b| - 1];
    }
  }

  /** Where replay of a file stops: at an incomplete record or at changelist `to`. */
  function Stop(file: seq<Change>, i: nat, to: nat): (n: nat)
    requires i <= |file|
    ensures i <= n <= |file|
    decreases |file| - i
  {
    if i < |file| && file[i].flags.valid && file[i].clnum < to then Stop(file, i + 1, to) else i
  }

  class Emulator {
    var env: Bytes
    var mem: Bytes

    /** Skip the header, apply records until an incomplete one or changelist `to`. */
    method RunLogFromFile(file: seq<Change>, to: nat) returns (count: nat)
      requires file != []
      modifies this
      ensures count == Stop(file, 1, to) - 1
      ensures Guest(env, mem) == ReplayAll(old(Guest(env, mem)), file[1..Stop(file, 1, to)])
    {
      count := 0;
      var i := 1;
      while i < |file|
        invariant 1 <= i <= |file| && count == i - 1
        invariant Stop(file, 1, to) == Stop(file, i, to)
        invariant Guest(env, mem) == ReplayAll(old(Guest(env, mem)), file[1..i])
      {
        var c := file[i];
        if !c.flags.valid { break; }
        if c.clnum >= to { break; }
        assert file[1..i + 1][..i - 1] == file[1..i];
        if c.flags.write {
          if c.flags.mem {
            mem := Poke(mem, Shape(c.address, c.flags.size / 8), c.data);
          } else {
            env := Poke(env, Shape(c.address, c.flags.size / 8), c.data);
          }
        }
        count := count + 1;
        i := i + 1;
      }
    }
  }

  // ---------- the writes a filtered stretch leaves pending ----------

  datatype Batch = Batch(filtered: bool, fs: seq<Shape>, datas: seq<nat>)

  function Track(b: Batch, e: Event): Batch {
    match e
    case Block(_, _, filtered, _) => if filtered then b.(filtered := true) else Batch(false, [], [])
    case WriteReg(offset, data, bits) =>
      if b.filtered then b.(fs := b.fs + [Shape(offset, bits / 8)], datas := b.datas + [data]) else b
    case _ => b
  }

  function TrackAll(evs: seq<Event>): Batch {
    if evs == [] then Batch(false, [], []) else Track(TrackAll(evs[..|evs| - 1]), evs[|evs| - 1])
  }

  /** Events replay is meant for: no system calls, no access below the environment. */
  predicate Replayable(e: Event) {
    match e
    case Block(_, _, _, eax) => eax.None?
    case WriteReg(offset, _, _) => offset >= 0
    case SyscallBegin(_, _) => false
    case _ => true
  }

  predicate OpensUnfiltered(e: Event) {
    e.Block? && !e.filtered
  }

  /** Whenever a filtered stretch ends, what it left pending could be coalesced without loss. */
  ghost predicate CoalescesSafely(evs: seq<Event>) {
    forall n :: 0 <= n < |evs| && OpensUnfiltered(evs[n]) ==> Lossless(TrackAll(evs[..n]).fs)
  }

  ghost predicate Faithful(evs: seq<Event>) {
    (forall n :: 0 <= n < |evs| ==> Replayable(evs[n])) && CoalescesSafely(evs)
  }

  /** `c` is the pending entry for a write of `data` to `f`. */
  predicate EntryFor(c: Change, f: Shape, data: nat) {
    c.flags.valid && c.flags.write && !c.flags.mem
    && c.address == f.addr && c.flags.size / 8 == f.width && c.data == data
  }

  predicate SlotHolds(c: Change, fs: seq<Shape>, datas: seq<nat>, slot: nat)
    requires |fs| == |datas|
  {
    match Kept(fs, slot)
    case None => !c.flags.valid
    case Some(w) => EntryFor(c, fs[w], datas[w])
  }

  ghost predicate TableInv(pending: seq<Change>, fs: seq<Shape>, datas: seq<nat>) {
    && |pending| == SLOTS && |fs| == |datas|
    && forall slot :: 0 <= slot < SLOTS ==> SlotHolds(pending[slot], fs, datas, slot)
  }

  /** The log so far, then the pending writes in order, give the live guest. */
  ghost predicate Mirrors(st: Rec, g: Guest, g0: Guest, b: Batch) {
    && TableInv(st.pending, b.fs, b.datas)
    && st.filtered == b.filtered && (!b.filtered ==> b.fs == [])
    && g.mem == ReplayAll(g0, st.log).mem
    && g.env == ApplyOrder(ReplayAll(g0, st.log).env, b.fs, b.datas, InOrder(|b.fs|))
  }

  lemma KeptSnoc(fs: seq<Shape>, f: Shape, slot: nat)
    ensures Kept(fs + [f], slot) == if InSlot(f, slot) then Some(|fs|) else Kept(fs, slot)
  {
    assert (fs + [f])[..|fs|] == fs;
  }

  lemma {:induction false} ApplyPrefix(m: Bytes, fs: seq<Shape>, datas: seq<nat>, f: Shape, d: nat, n: nat)
    requires |fs| == |datas| && n <= |fs|
    ensures ApplyOrder(m, fs + [f], datas + [d], InOrder(n)) == ApplyOrder(m, fs, datas, InOrder(n))
  {
    if n > 0 {
      ApplyPrefix(m, fs, datas, f, d, n - 1);
      assert InOrder(n)[..n - 1] == InOrder(n - 1);
    }
  }

  lemma ApplySnoc(m: Bytes, fs: seq<Shape>, datas: seq<nat>, f: Shape, d: nat)
    requires |fs| == |datas|
    ensures ApplyOrder(m, fs + [f], datas + [d], InOrder(|fs| + 1)) == Poke(ApplyOrder(m, fs, datas, InOrder(|fs|)), f, d)
  {
    ApplyPrefix(m, fs, datas, f, d, |fs|);
    assert InOrder(|fs| + 1)[..|fs|] == InOrder(|fs|);
  }

  /** Committing the table carries out the survivors in slot order. */
  lemma {:induction false} EmittedReplay(g: Guest, pending: seq<Change>, fs: seq<Shape>, datas: seq<nat>, n: nat, clnum: nat)
    requires TableInv(pending, fs, datas) && n <= SLOTS
    ensures ReplayAll(g, Emitted(pending, n, clnum)) == g.(env := ApplyOrder(g.env, fs, datas, Survivors(fs, n)))
  {
    if n > 0 {
      EmittedReplay(g, pending, fs, datas, n - 1, clnum);
      assert SlotHolds(pending[n - 1], fs, datas, n - 1);
      if Kept(fs, n - 1).Some? {
        EmitOne(g, pending, fs, datas, n, clnum, Kept(fs, n - 1).value);
      } else {
        assert Emitted(pending, n, clnum) == Emitted(pending, n - 1, clnum);
      }
    }
  }

  /** A slot that holds a write replays as that write. */
  lemma EmitOne(g: Guest, pending: seq<Change>, fs: seq<Shape>, datas: seq<nat>, n: nat, clnum: nat, w: nat)
    requires 0 < n <= |pending| && |fs| == |datas| && Kept(fs, n - 1) == Some(w) && EntryFor(pending[n - 1], fs[w], datas[w])
    requires ReplayAll(g, Emitted(pending, n - 1, clnum)) == g.(env := ApplyOrder(g.env, fs, datas, Survivors(fs, n - 1)))
    ensures ReplayAll(g, Emitted(pending, n, clnum)) == g.(env := ApplyOrder(g.env, fs, datas, Survivors(fs, n)))
  {
    var rest, c, order := Emitted(pending, n - 1, clnum), pending[n - 1].(clnum := clnum), Survivors(fs, n - 1);
    assert (rest + [c])[..|rest|] == rest;
    assert ReplayAll(g, rest + [c]) == ApplyChange(ReplayAll(g, rest), c);
    assert (order + [w])[..|order|] == order;
    assert ApplyOrder(g.env, fs, datas, order + [w]) == Poke(ApplyOrder(g.env, fs, datas, order), fs[w], datas[w]);
  }

  lemma AddedReplay(st: Rec, addr: nat, data: nat, f: Flags, g0: Guest)
    ensures ReplayAll(g0, Added(st, addr, data, f).log) ==
            ApplyChange(ReplayAll(g0, st.log), Change(addr, data, st.clnum, f.(valid := true)))
  {
    var c := Change(addr, data, st.clnum, f.(valid := true));
    assert (st.log + [c])[..|st.log|] == st.log;
  }

  /** Ending a filtered stretch: the committed records stand in for the pending writes. */
  lemma CommittedReplay(st: Rec, g: Guest, g0: Guest, b: Batch)
    requires Mirrors(st, g, g0, b) && Lossless(b.fs)
    ensures g == ReplayAll(g0, Committed(st).log)
  {
    var base := ReplayAll(g0, st.log);
    ReplayConcat(g0, st.log, Emitted(st.pending, SLOTS, st.clnum));
    EmittedReplay(base, st.pending, b.fs, b.datas, SLOTS, st.clnum);
    SameWinnersAgree(base.env, b.fs, b.datas, InOrder(|b.fs|), Survivors(b.fs, SLOTS));
  }

  lemma EmptyTable()
    ensures TableInv(NoPending(), [], [])
  {
  }

  lemma UnfilteredMirrors(st: Rec, g: Guest, g0: Guest, b: Batch)
    requires Mirrors(st, g, g0, b) && !st.filtered
    ensures g == ReplayAll(g0, st.log)
  {
    assert InOrder(0) == [];
  }

  lemma BlockMirrors(st: Rec, g: Guest, g0: Guest, b: Batch, e: Event)
    requires Mirrors(st, g, g0, b) && e.Block? && Replayable(e) && (OpensUnfiltered(e) ==> Lossless(b.fs))
    ensures Mirrors(Record(st, e), Live(g, e), g0, Track(b, e))
    ensures OpensUnfiltered(e) ==> g == ReplayAll(g0, Record(st, e).log[..|Record(st, e).log| - 1])
  {
    if OpensUnfiltered(e) {
      var ready := (if st.filtered then Committed(st) else st).(filtered := false);
      if st.filtered {
        CommittedReplay(st, g, g0, b);
        EmptyTable();
      } else {
        UnfilteredMirrors(st, g, g0, b);
      }
      AddedReplay(ready.(clnum := st.clnum + 1), e.pc, e.size, PLAIN.(start := true), g0);
      assert Record(st, e).log[..|ready.log|] == ready.log;
      assert InOrder(0) == [];
    }
  }

  lemma WriteMirrors(st: Rec, g: Guest, g0: Guest, b: Batch, e: Event)
    requires Mirrors(st, g, g0, b) && e.WriteReg? && Replayable(e) && st.filtered
    ensures Mirrors(Record(st, e), Live(g, e), g0, Track(b, e))
  {
    var f, r := Shape(e.offset, e.bits / 8), Record(st, e);
    ApplySnoc(ReplayAll(g0, st.log).env, b.fs, b.datas, f, e.data);
    forall slot | 0 <= slot < SLOTS ensures SlotHolds(r.pending[slot], b.fs + [f], b.datas + [e.data], slot) {
      KeptSnoc(b.fs, f, slot);
      assert SlotHolds(st.pending[slot], b.fs, b.datas, slot);
    }
  }

  /** Every event keeps the log, together with what is pending, a mirror of the live guest. */
  lemma RecordMirrors(st: Rec, g: Guest, g0: Guest, b: Batch, e: Event)
    requires Mirrors(st, g, g0, b) && Replayable(e) && (OpensUnfiltered(e) ==> Lossless(b.fs))
    ensures Mirrors(Record(st, e), Live(g, e), g0, Track(b, e))
  {
    match e
    case Block(_, _, _, _) => BlockMirrors(st, g, g0, b, e);
    case LoadMem(addr, data, bits) => AddedReplay(st, addr, data, PLAIN.(mem := true, size := bits), g0);
    case StoreMem(addr, data, bits) => AddedReplay(st, addr, data, PLAIN.(mem := true, write := true, size := bits), g0);
    case ReadReg(offset, data, bits) =>
      if offset >= 0 && !st.filtered {
        AddedReplay(st, offset, data, PLAIN.(size := bits), g0);
      }
    case WriteReg(offset, data, bits) =>
      if st.filtered {
        WriteMirrors(st, g, g0, b, e);
      } else {
        UnfilteredMirrors(st, g, g0, b);
        AddedReplay(st, offset, data, RegFlags(bits), g0);
        assert InOrder(0) == [];
      }
  }

  lemma {:induction false} RunMirrors(start: nat, evs: seq<Event>, g0: Guest)
    requires start > 0 && Faithful(evs)
    ensures Mirrors(RecordAll(Fresh(start), evs), LiveAll(g0, evs), g0, TrackAll(evs))
  {
    if evs == [] {
      EmptyTable();
      assert InOrder(0) == [];
    } else {
      var n := |evs| - 1;
      FaithfulPrefix(evs, n);
      RunMirrors(start, evs[..n], g0);
      RecordMirrors(RecordAll(Fresh(start), evs[..n]), LiveAll(g0, evs[..n]), g0, TrackAll(evs[..n]), evs[n]);
    }
  }

  lemma FaithfulPrefix(evs: seq<Event>, n: nat)
    requires Faithful(evs) && n <= |evs|
    ensures Faithful(evs[..n])
  {
    forall k | 0 <= k < n && OpensUnfiltered(evs[..n][k]) ensures Lossless(TrackAll(evs[..n][..k]).fs) {
      assert evs[..n][..k] == evs[..k];
    }
  }

  // ---------- records never move, and later ones are not below ----------

  ghost predicate Grows(st: Rec, r: Rec) {
    && st.clnum <= r.clnum && |st.log| <= |r.log| && r.log[..|st.log|] == st.log
    && forall i :: |st.log| <= i < |r.log| ==> r.log[i].clnum >= st.clnum
  }

  lemma RecordGrows(st: Rec, e: Event)
    requires ShapeInv(st)
    ensures Grows(st, Record(st, e))
  {
    EmittedInner(st.pending, SLOTS, st.clnum);
    if e.SyscallBegin? {
      AddedRegsGrow(st, e.regs, 8);
    }
  }

  lemma {:induction false} AddedRegsGrow(st: Rec, regs: seq<nat>, n: nat)
    requires n <= |regs|
    ensures Grows(st, AddedRegs(st, regs, n))
  {
    if n > 0 {
      AddedRegsGrow(st, regs, n - 1);
    }
  }

  lemma {:induction false} RunGrows(st: Rec, evs: seq<Event>)
    requires ShapeInv(st)
    ensures Grows(st, RecordAll(st, evs)) && ShapeInv(RecordAll(st, evs))
  {
    if evs != [] {
      RunGrows(st, evs[..|evs| - 1]);
      var mid := RecordAll(st, evs[..|evs| - 1]);
      RecordGrows(mid, evs[|evs| - 1]);
      RecordKeepsShape(mid, evs[|evs| - 1]);
    }
  }

  lemma {:induction false} RecordSplit(st: Rec, a: seq<Event>, b: seq<Event>)
    requires |st.pending| == SLOTS
    ensures RecordAll(st, a + b) == RecordAll(RecordAll(st, a), b)
  {
    if b == [] {
      assert a + b == a;
    } else {
      RecordSplit(st, a, b[..|b| - 1]);
      assert (a + b)[..|a + b| - 1] == a + b[..|b| - 1];
    }
  }

  // ---------- replaying a finished file ----------

  lemma {:induction false} StopIs(file: seq<Change>, i: nat, n: nat, to: nat)
    requires i <= n <= |file| && forall k :: i <= k < n ==> file[k].flags.valid && file[k].clnum < to
    requires n < |file| ==> !file[n].flags.valid || file[n].clnum >= to
    ensures Stop(file, i, to) == n
    decreases n - i
  {
    if i < n {
      StopIs(file, i + 1, n, to);
    }
  }

  /**
   A recorded run with one changelist singled out: the events before it, the block
   that opens it, and whatever was recorded after.  The file is the header, the
   log and the unused, still blank, end of the buffer.
   */
  datatype Recording = Recording(start: nat, before: seq<Event>, opener: Event, after: seq<Event>, header: Change, room: nat)

  ghost predicate Cuttable(r: Recording) {
    r.start > 0 && OpensUnfiltered(r.opener) && Faithful(r.before + [r.opener])
  }

  function Reached(r: Recording): Rec
    requires r.start > 0
  {
    RecordAll(Fresh(r.start), r.before + [r.opener])
  }

  function Cut(r: Recording): nat
    requires r.start > 0
  {
    Reached(r).clnum
  }

  function FileOf(r: Recording): (file: seq<Change>)
    requires r.start > 0
    ensures file != []
  {
    [r.header] + RecordAll(Fresh(r.start), r.before + [r.opener] + r.after).log + seq(r.room, i => BLANK)
  }

  function ReplayFile(g: Guest, file: seq<Change>, to: nat): Guest
    requires file != []
  {
    ReplayAll(g, file[1..Stop(file, 1, to)])
  }

  /** The opener's record is the last one so far, and the only one of its changelist. */
  lemma OpenerIsAlone(r: Recording)
    requires r.start > 0 && OpensUnfiltered(r.opener)
    ensures ShapeInv(Reached(r)) && Reached(r).log != []
    ensures var log := Reached(r).log;
            log[|log| - 1].clnum == Cut(r) && forall k :: 0 <= k < |log| - 1 ==> log[k].flags.valid && log[k].clnum < Cut(r)
  {
    EveryLogIsWellShaped(r.start, r.before + [r.opener]);
    assert (r.before + [r.opener])[..|r.before|] == r.before;
    var log := Reached(r).log;
    assert TypeOf(log[|log| - 1].flags) == Instruction && log[|log| - 1].clnum == Cut(r);
  }

  /** Recording on does not touch what is there. */
  lemma ReachedIsPrefix(r: Recording)
    requires r.start > 0 && OpensUnfiltered(r.opener)
    ensures var log, file := Reached(r).log, FileOf(r);
            |log| < |file| && forall k :: 0 <= k < |log| ==> file[1 + k] == log[k]
  {
    OpenerIsAlone(r);
    RecordSplit(Fresh(r.start), r.before + [r.opener], r.after);
    RunGrows(Reached(r), r.after);
    HeldByFile(r.header, Reached(r).log, RecordAll(Reached(r), r.after).log, seq(r.room, i => BLANK));
  }

  lemma HeldByFile(header: Change, log: seq<Change>, whole: seq<Change>, room: seq<Change>)
    requires |log| <= |whole| && whole[..|log|] == log
    ensures var file := [header] + whole + room;
            |log| < |file| && forall k :: 0 <= k < |log| ==> file[1 + k] == log[k]
  {
    assert forall k :: 0 <= k < |log| ==> whole[..|log|][k] == log[k];
  }

  /** Replay of the whole file up to changelist k stops right before k's instruction record. */
  lemma StopsAtCut(r: Recording)
    requires r.start > 0 && OpensUnfiltered(r.opener)
    ensures Reached(r).log != [] && |Reached(r).log| <= |FileOf(r)|
    ensures var n := |Reached(r).log| - 1;
            Stop(FileOf(r), 1, Cut(r)) == 1 + n && FileOf(r)[1..1 + n] == Reached(r).log[..n]
  {
    OpenerIsAlone(r);
    ReachedIsPrefix(r);
    var n, file := |Reached(r).log| - 1, FileOf(r);
    forall k | 1 <= k <= n ensures file[k] == Reached(r).log[k - 1] {
      assert file[1 + (k - 1)] == Reached(r).log[k - 1];
    }
    StopIs(file, 1, 1 + n, Cut(r));
  }

  /** Applying every record below changelist k gives the guest as it was when k began. */
  lemma ReplayReproducesLive(r: Recording, g0: Guest)
    requires Cuttable(r)
    ensures ReplayFile(g0, FileOf(r), Cut(r)) == LiveAll(g0, r.before)
  {
    var evs, n := r.before + [r.opener], |r.before|;
    assert evs[..n] == r.before && evs[n] == r.opener;
    FaithfulPrefix(evs, n);
    RunMirrors(r.start, r.before, g0);
    BlockMirrors(RecordAll(Fresh(r.start), r.before), LiveAll(g0, r.before), g0, TrackAll(r.before), r.opener);
    StopsAtCut(r);
  }

  // ---------- forks ----------

  /** A run and the runs it was forked from, each cut where the next one starts. */
  datatype Lineage = Root(run: Recording) | Fork(parent: Lineage, run: Recording)

  ghost predicate WellForked(l: Lineage) {
    Cuttable(l.run) && (l.Fork? ==> WellForked(l.parent) && l.run.start == Cut(l.parent.run))
  }

  /** Replay the ancestors up to where this run starts, then this run's own file. */
  ghost function RunLog(g: Guest, l: Lineage, to: nat): Guest
    requires WellForked(l)
  {
    match l
    case Root(run) => ReplayFile(g, FileOf(run), to)
    case Fork(parent, run) => ReplayFile(RunLog(g, parent, run.start), FileOf(run), to)
  }

  function LiveLineage(g: Guest, l: Lineage): Guest {
    match l
    case Root(run) => LiveAll(g, run.before)
    case Fork(parent, run) => LiveAll(LiveLineage(g, parent), run.before)
  }

  lemma {:induction false} ForksReplay(g: Guest, l: Lineage)
    requires WellForked(l)
    ensures RunLog(g, l, Cut(l.run)) == LiveLineage(g, l)
  {
    match l
    case Root(run) => ReplayReproducesLive(run, g);
    case Fork(parent, run) =>
      ForksReplay(g, parent);
      ReplayReproducesLive(run, LiveLineage(g, parent));
  }

  // ---------- register files are safe ----------

  /** The shapes of register writes made in filtered code. */
  function FilteredShapes(evs: seq<Event>): set<Shape> {
    if evs == [] then {}
    else
      var n := |evs| - 1;
      FilteredShapes(evs[..n])
      + if evs[n].WriteReg? && TrackAll(evs[..n]).filtered then {Shape(evs[n].offset, evs[n].bits / 8)} else {}
  }

  lemma {:induction false} BatchFromFiltered(evs: seq<Event>, k: nat)
    requires k < |TrackAll(evs).fs|
    ensures TrackAll(evs).fs[k] in FilteredShapes(evs)
  {
    var n := |evs| - 1;
    if k < |TrackAll(evs[..n]).fs| {
      BatchFromFiltered(evs[..n], k);
    }
  }

  lemma {:induction false} FilteredShapesGrow(evs: seq<Event>, n: nat)
    requires n <= |evs|
    ensures FilteredShapes(evs[..n]) <= FilteredShapes(evs)
  {
    if n < |evs| {
      FilteredShapesGrow(evs[..|evs| - 1], n);
      assert evs[..|evs| - 1][..n] == evs[..n];
    } else {
      assert evs[..n] == evs;
    }
  }

  /** Filtered register writes below 0x100, aligned and of one width, always coalesce safely. */
  lemma AlignedRegistersCoalesce(evs: seq<Event>, width: nat)
    requires width == 4 || width == 8
    requires forall f :: f in FilteredShapes(evs) ==> f.width == width && f.addr % width == 0 && 0 <= f.addr < 0x100
    ensures CoalescesSafely(evs)
  {
    forall n | 0 <= n < |evs| && OpensUnfiltered(evs[n]) ensures Lossless(TrackAll(evs[..n]).fs) {
      var fs := TrackAll(evs[..n]).fs;
      FilteredShapesGrow(evs, n);
      forall k | 0 <= k < |fs| ensures fs[k] in FilteredShapes(evs) {
        BatchFromFiltered(evs[..n], k);
      }
      AlignedIsLayout(fs, width);
      LayoutIsLossless(fs);
    }
  }

  // ---------- and no other stretches are ----------

  /** Shapes a register write can have. */
  ghost predicate Encodable(fs: seq<Shape>) {
    forall i :: 0 <= i < |fs| ==> fs[i].addr >= 0 && fs[i].width < 32
  }

  /** A filtered block that makes the first `n` of these register writes. */
  function Stretch(fs: seq<Shape>, datas: seq<nat>, n: nat): seq<Event>
    requires n <= |fs| == |datas| && Encodable(fs)
  {
    if n == 0 then [Block(0, 0, true, None)]
    else Stretch(fs, datas, n - 1) + [WriteReg(fs[n - 1].addr, datas[n - 1], 8 * fs[n - 1].width)]
  }

  function StretchRecording(fs: seq<Shape>, datas: seq<nat>): Recording
    requires |fs| == |datas| && Encodable(fs)
  {
    Recording(1, Stretch(fs, datas, |fs|), Block(0, 0, false, None), [], BLANK, 0)
  }

  ghost predicate ReplaysTrue(fs: seq<Shape>, datas: seq<nat>, g: Guest)
    requires |fs| == |datas| && Encodable(fs)
  {
    var r := StretchRecording(fs, datas);
    ReplayFile(g, FileOf(r), Cut(r)) == LiveAll(g, r.before)
  }

  lemma {:induction false} StretchIsFaithful(fs: seq<Shape>, datas: seq<nat>, n: nat)
    requires n <= |fs| == |datas| && Encodable(fs)
    ensures forall i :: 0 <= i < |Stretch(fs, datas, n)| ==>
              Replayable(Stretch(fs, datas, n)[i]) && !OpensUnfiltered(Stretch(fs, datas, n)[i])
    ensures Faithful(Stretch(fs, datas, n))
  {
    if n > 0 {
      StretchIsFaithful(fs, datas, n - 1);
    }
  }

  lemma TrackSnoc(before: seq<Event>, e: Event)
    ensures TrackAll(before + [e]) == Track(TrackAll(before), e)
  {
    assert (before + [e])[..|before|] == before;
  }

  lemma RecordSnoc(before: seq<Event>, e: Event)
    ensures RecordAll(Fresh(1), before + [e]) == Record(RecordAll(Fresh(1), before), e)
  {
    assert (before + [e])[..|before|] == before;
  }

  lemma TrackWrite(fs: seq<Shape>, datas: seq<nat>, f: Shape, d: nat)
    requires f.addr >= 0 && f.width < 32
    ensures Track(Batch(true, fs, datas), WriteReg(f.addr, d, 8 * f.width)) == Batch(true, fs + [f], datas + [d])
  {
  }

  lemma {:induction false} StretchTracks(fs: seq<Shape>, datas: seq<nat>, n: nat)
    requires n <= |fs| == |datas| && Encodable(fs)
    ensures TrackAll(Stretch(fs, datas, n)) == Batch(true, fs[..n], datas[..n])
  {
    if n == 0 {
      TrackSnoc([], Block(0, 0, true, None));
      assert [] + [Block(0, 0, true, None)] == Stretch(fs, datas, 0);
    } else {
      var f, d := fs[n - 1], datas[n - 1];
      StretchTracks(fs, datas, n - 1);
      TrackSnoc(Stretch(fs, datas, n - 1), WriteReg(f.addr, d, 8 * f.width));
      TrackWrite(fs[..n - 1], datas[..n - 1], f, d);
      assert fs[..n] == fs[..n - 1] + [f];
      assert datas[..n] == datas[..n - 1] + [d];
    }
  }

  lemma {:induction false} StretchLogsNothing(fs: seq<Shape>, datas: seq<nat>, n: nat)
    requires n <= |fs| == |datas| && Encodable(fs)
    ensures var st := RecordAll(Fresh(1), Stretch(fs, datas, n)); st.log == [] && st.filtered
  {
    if n == 0 {
      RecordSnoc([], Block(0, 0, true, None));
      assert [] + [Block(0, 0, true, None)] == Stretch(fs, datas, 0);
    } else {
      StretchLogsNothing(fs, datas, n - 1);
      RecordSnoc(Stretch(fs, datas, n - 1), WriteReg(fs[n - 1].addr, datas[n - 1], 8 * fs[n - 1].width));
    }
  }

  /** Live, the writes happen in order; replayed, the survivors happen in slot order. */
  lemma StretchReplay(fs: seq<Shape>, datas: seq<nat>, g: Guest)
    requires |fs| == |datas| && Encodable(fs)
    ensures var r := StretchRecording(fs, datas);
            && ReplayFile(g, FileOf(r), Cut(r)) == g.(env := ApplyOrder(g.env, fs, datas, Survivors(fs, SLOTS)))
            && LiveAll(g, r.before) == g.(env := ApplyOrder(g.env, fs, datas, InOrder(|fs|)))
  {
    var r := StretchRecording(fs, datas);
    var st := RecordAll(Fresh(1), r.before);
    StretchTracks(fs, datas, |fs|);
    StretchIsFaithful(fs, datas, |fs|);
    StretchLogsNothing(fs, datas, |fs|);
    assert fs[..|fs|] == fs && datas[..|fs|] == datas;
    RunMirrors(1, r.before, g);
    assert ReplayAll(g, []) == g;
    StopsAtCut(r);
    var evs := r.before + [r.opener];
    assert evs[..|r.before|] == r.before;
    var emitted := Emitted(st.pending, SLOTS, st.clnum);
    assert Reached(r).log[..|Reached(r).log| - 1] == emitted;
    EmittedReplay(g, st.pending, fs, datas, SLOTS, st.clnum);
  }

  /** Replay gives back what a filtered stretch did, whatever its data, if and only if coalescing is lossless. */
  lemma StretchReplaysIff(fs: seq<Shape>)
    requires Encodable(fs)
    ensures (forall datas: seq<nat>, g: Guest | |datas| == |fs| :: ReplaysTrue(fs, datas, g)) <==> Lossless(fs)
  {
    IndistinguishableIff(fs, InOrder(|fs|), Survivors(fs, SLOTS));
    forall datas: seq<nat>, g: Guest | |datas| == |fs|
      ensures ReplaysTrue(fs, datas, g) <==>
              ApplyOrder(g.env, fs, datas, InOrder(|fs|)) == ApplyOrder(g.env, fs, datas, Survivors(fs, SLOTS))
    {
      StretchReplay(fs, datas, g);
    }
    if forall datas: seq<nat>, g: Guest | |datas| == |fs| :: ReplaysTrue(fs, datas, g) {
      forall m: Bytes, datas: seq<nat> | |datas| == |fs|
        ensures ApplyOrder(m, fs, datas, InOrder(|fs|)) == ApplyOrder(m, fs, datas, Survivors(fs, SLOTS))
      {
        assert ReplaysTrue(fs, datas, Guest(m, map[]));
      }
    }
  }
}
