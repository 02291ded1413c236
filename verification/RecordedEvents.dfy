/**
 What each event leaves in the log, record by record, with the flag words as the source writes them;
 and what the database returns for a changelist: its events, in order.
 */
module RecordedEvents {
  import opened Prelude
  import opened TraceLog
  import opened Coalescing
  import opened Recorder
  import Replay
  import TraceIndex
  import TraceQueries
  import TimeTravel
  import Slicing

  /** A record with this flag word. */
  function Entry(address: nat, data: nat, clnum: nat, word: nat): Change {
    Change(address, data, clnum, FlagsOf(word))
  }

  /** The records of an event outside filtered code, blocks apart. */
  function Plainly(e: Event, clnum: nat): seq<Change>
    requires !e.Block?
  {
    match e
    case LoadMem(addr, data, bits) => [Entry(addr, data, clnum, 0xA000_0000 + bits)]
    case StoreMem(addr, data, bits) => [Entry(addr, data, clnum, 0xE000_0000 + bits)]
    case ReadReg(offset, data, bits) => if offset < 0 then [] else [Entry(offset, data, clnum, 0x8000_0000 + bits)]
    case WriteReg(offset, data, bits) => if offset < 0 then [] else [Entry(offset, data, clnum, 0xC000_0000 + bits)]
    case SyscallBegin(nr, regs) => [Entry(nr, 0, clnum, 0x8800_0000)]
  }

  /** The records of an event inside filtered code: register accesses leave none, a system call spills eight registers first. */
  function Filtered(e: Event, clnum: nat): seq<Change>
    requires !e.Block?
  {
    match e
    case ReadReg(_, _, _) => []
    case WriteReg(_, _, _) => []
    case SyscallBegin(nr, regs) =>
      [Entry(0, regs[0], clnum, 0xC000_0020), Entry(4, regs[1], clnum, 0xC000_0020),
       Entry(8, regs[2], clnum, 0xC000_0020), Entry(12, regs[3], clnum, 0xC000_0020),
       Entry(16, regs[4], clnum, 0xC000_0020), Entry(20, regs[5], clnum, 0xC000_0020),
       Entry(24, regs[6], clnum, 0xC000_0020), Entry(28, regs[7], clnum, 0xC000_0020),
       Entry(nr, 0, clnum, 0x8800_0000)]
    case _ => Plainly(e, clnum)
  }

  /** The register a system call has left, logged in the changelist of the call. */
  function Left(eax: Option<nat>, clnum: nat): seq<Change> {
    if eax.Some? then [Entry(0, eax.value, clnum, 0xC000_0020)] else []
  }

  lemma SpillIs(st: Rec, regs: EightWords)
    ensures AddedRegs(st, regs, 8).log == st.log +
            [Entry(0, regs[0], st.clnum, 0xC000_0020), Entry(4, regs[1], st.clnum, 0xC000_0020),
             Entry(8, regs[2], st.clnum, 0xC000_0020), Entry(12, regs[3], st.clnum, 0xC000_0020),
             Entry(16, regs[4], st.clnum, 0xC000_0020), Entry(20, regs[5], st.clnum, 0xC000_0020),
             Entry(24, regs[6], st.clnum, 0xC000_0020), Entry(28, regs[7], st.clnum, 0xC000_0020)]
  {
    var logs := seq(9, n requires 0 <= n < 9 => AddedRegs(st, regs, n).log);
    forall n | 0 <= n < 8 ensures logs[n + 1] == logs[n] + [Entry(4 * n, regs[n], st.clnum, 0xC000_0020)] {
      SpillOne(st, regs, n);
    }
    assert logs[4] == st.log + [Entry(0, regs[0], st.clnum, 0xC000_0020), Entry(4, regs[1], st.clnum, 0xC000_0020),
                                Entry(8, regs[2], st.clnum, 0xC000_0020), Entry(12, regs[3], st.clnum, 0xC000_0020)] by {
      assert logs[0] == st.log && logs[0 + 1] == logs[0] + [Entry(4 * 0, regs[0], st.clnum, 0xC000_0020)];
      assert logs[1 + 1] == logs[1] + [Entry(4 * 1, regs[1], st.clnum, 0xC000_0020)];
      assert logs[2 + 1] == logs[2] + [Entry(4 * 2, regs[2], st.clnum, 0xC000_0020)];
      assert logs[3 + 1] == logs[3] + [Entry(4 * 3, regs[3], st.clnum, 0xC000_0020)];
    }
    assert logs[8] == logs[4] + [Entry(16, regs[4], st.clnum, 0xC000_0020), Entry(20, regs[5], st.clnum, 0xC000_0020),
                                 Entry(24, regs[6], st.clnum, 0xC000_0020), Entry(28, regs[7], st.clnum, 0xC000_0020)] by {
      assert logs[4 + 1] == logs[4] + [Entry(4 * 4, regs[4], st.clnum, 0xC000_0020)];
      assert logs[5 + 1] == logs[5] + [Entry(4 * 5, regs[5], st.clnum, 0xC000_0020)];
      assert logs[6 + 1] == logs[6] + [Entry(4 * 6, regs[6], st.clnum, 0xC000_0020)];
      assert logs[7 + 1] == logs[7] + [Entry(4 * 7, regs[7], st.clnum, 0xC000_0020)];
    }
  }

  lemma SpillOne(st: Rec, regs: EightWords, n: nat)
    requires n < 8
    ensures AddedRegs(st, regs, n + 1).log == AddedRegs(st, regs, n).log + [Entry(4 * n, regs[n], st.clnum, 0xC000_0020)]
  {
    WordFlags(32);
  }

  /** An event that is no block appends exactly its own records to the log. */
  lemma EventAppends(st: Rec, e: Event)
    requires |st.pending| == SLOTS && !e.Block?
    ensures Record(st, e).log == st.log + (if st.filtered then Filtered(e, st.clnum) else Plainly(e, st.clnum))
    ensures Record(st, e).clnum == st.clnum && Record(st, e).filtered == st.filtered
  {
    if e.LoadMem? || e.StoreMem? {
      MemoryAppends(st, e);
    } else if e.SyscallBegin? {
      SyscallAppends(st, e.nr, e.regs);
    } else {
      RegisterAppends(st, e);
    }
  }

  lemma MemoryAppends(st: Rec, e: Event)
    requires |st.pending| == SLOTS && (e.LoadMem? || e.StoreMem?)
    ensures Record(st, e).log == st.log + Plainly(e, st.clnum)
  {
    WordFlags(e.bits);
  }

  lemma RegisterAppends(st: Rec, e: Event)
    requires |st.pending| == SLOTS && (e.ReadReg? || e.WriteReg?)
    ensures Record(st, e).log == if st.filtered then st.log else st.log + Plainly(e, st.clnum)
  {
    WordFlags(e.bits);
  }

  lemma SyscallAppends(st: Rec, nr: nat, regs: EightWords)
    requires |st.pending| == SLOTS
    ensures var e := SyscallBegin(nr, regs);
            Record(st, e).log == st.log + (if st.filtered then Filtered(e, st.clnum) else Plainly(e, st.clnum))
  {
    WordFlags(0);
    if st.filtered {
      SpillIs(st, regs);
      var spilled := AddedRegs(st, regs, 8);
      assert Record(st, SyscallBegin(nr, regs)).log == spilled.log + [Entry(nr, 0, st.clnum, 0x8800_0000)];
    }
  }

  /**
   A block logs the register left by a system call; unless it is filtered it then commits what is
   pending, if it ends a filtered stretch, and opens the next changelist with its address and size.
   */
  lemma BlockAppends(st: Rec, e: Event)
    requires |st.pending| == SLOTS && e.Block?
    ensures var opening := (if st.filtered then Emitted(st.pending, SLOTS, st.clnum) else [])
                           + [Entry(e.pc, e.size, st.clnum + 1, 0x9000_0000)];
            Record(st, e).log == st.log + Left(e.eax, st.clnum) + if e.filtered then [] else opening
    ensures Record(st, e).clnum == (if e.filtered then st.clnum else st.clnum + 1) && Record(st, e).filtered == e.filtered
  {
    WordFlags(32);
    WordFlags(0);
    assert st.log + [] == st.log;
  }

  // ---------- what is committed ----------

  function ValidBelow(pending: seq<Change>, n: nat): nat
    requires n <= |pending|
  {
    if n == 0 then 0 else ValidBelow(pending, n - 1) + if pending[n - 1].flags.valid then 1 else 0
  }

  /** Committed changes come in the order of their slots: each after as many as there are valid slots below its own. */
  lemma {:induction false} CommittedInSlotOrder(pending: seq<Change>, n: nat, i: nat, clnum: nat)
    requires i < n <= |pending|
    ensures |Emitted(pending, n, clnum)| == ValidBelow(pending, n)
    ensures pending[i].flags.valid ==>
              ValidBelow(pending, i) < ValidBelow(pending, n)
              && Emitted(pending, n, clnum)[ValidBelow(pending, i)] == pending[i].(clnum := clnum)
  {
    if i < n - 1 {
      CommittedInSlotOrder(pending, n - 1, i, clnum);
    } else {
      CommittedLength(pending, i, clnum);
    }
  }

  lemma {:induction false} CommittedLength(pending: seq<Change>, n: nat, clnum: nat)
    requires n <= |pending|
    ensures |Emitted(pending, n, clnum)| == ValidBelow(pending, n)
  {
    if n > 0 {
      CommittedLength(pending, n - 1, clnum);
    }
  }

  // ---------- a changelist, from the events to the query ----------

  ghost predicate NoBlocks(evs: seq<Event>) {
    forall i :: 0 <= i < |evs| ==> !evs[i].Block?
  }

  function AllPlainly(evs: seq<Event>, clnum: nat): seq<Change>
    requires NoBlocks(evs)
  {
    if evs == [] then [] else AllPlainly(evs[..|evs| - 1], clnum) + Plainly(evs[|evs| - 1], clnum)
  }

  lemma {:induction false} EventsAppend(st: Rec, evs: seq<Event>)
    requires |st.pending| == SLOTS && NoBlocks(evs) && !st.filtered
    ensures var r := RecordAll(st, evs); r.log == st.log + AllPlainly(evs, st.clnum) && r.clnum == st.clnum && !r.filtered
  {
    if evs == [] {
      assert st.log + [] == st.log;
    } else {
      var n := |evs| - 1;
      EventsAppend(st, evs[..n]);
      EventAppends(RecordAll(st, evs[..n]), evs[n]);
      assert st.log + AllPlainly(evs[..n], st.clnum) + Plainly(evs[n], st.clnum) == st.log + AllPlainly(evs, st.clnum);
    }
  }

  lemma {:induction false} EventsAreOf(evs: seq<Event>, clnum: nat)
    requires NoBlocks(evs)
    ensures forall i :: 0 <= i < |AllPlainly(evs, clnum)| ==> AllPlainly(evs, clnum)[i].clnum == clnum
  {
    if evs != [] {
      EventsAreOf(evs[..|evs| - 1], clnum);
    }
  }

  /** The changelist `r` is about: what was recorded after its opener is `mid`, then a block that opens the next one. */
  ghost predicate Complete(r: Replay.Recording, mid: seq<Event>, next: Event, rest: seq<Event>) {
    && r.start > 0 && Replay.OpensUnfiltered(r.opener) && Replay.OpensUnfiltered(next)
    && NoBlocks(mid) && r.after == mid + ([next] + rest)
  }

  /** All its records: the instruction, its events in order, and the register left by a system call. */
  function Contents(opener: Event, mid: seq<Event>, next: Event, clnum: nat): seq<Change>
    requires opener.Block? && next.Block? && NoBlocks(mid)
  {
    [Entry(opener.pc, opener.size, clnum, 0x9000_0000)] + AllPlainly(mid, clnum) + Left(next.eax, clnum)
  }

  /** The recorder once the opener has been logged, and once the next block has. */
  lemma ReachedIs(r: Replay.Recording)
    requires r.start > 0 && Replay.OpensUnfiltered(r.opener)
    ensures var st := Replay.Reached(r);
            && st.log != [] && !st.filtered && |st.pending| == SLOTS
            && st.log[|st.log| - 1] == Entry(r.opener.pc, r.opener.size, Replay.Cut(r), 0x9000_0000)
  {
    var evs := r.before + [r.opener];
    assert evs[..|r.before|] == r.before;
    BlockAppends(RecordAll(Fresh(r.start), r.before), r.opener);
  }

  /** The recorder once the events of a changelist and the block after them have been logged. */
  function Closed(st: Rec, mid: seq<Event>, next: Event): Rec
    requires |st.pending| == SLOTS
  {
    Record(RecordAll(st, mid), next)
  }

  lemma NextIs(st: Rec, mid: seq<Event>, next: Event)
    requires |st.pending| == SLOTS && !st.filtered && NoBlocks(mid) && Replay.OpensUnfiltered(next)
    ensures Closed(st, mid, next).log ==
            st.log + (AllPlainly(mid, st.clnum) + Left(next.eax, st.clnum)) + [Entry(next.pc, next.size, st.clnum + 1, 0x9000_0000)]
    ensures Closed(st, mid, next).clnum == st.clnum + 1
  {
    EventsAppend(st, mid);
    OpenerAppends(RecordAll(st, mid), next);
    Associates(st.log, AllPlainly(mid, st.clnum), Left(next.eax, st.clnum), [Entry(next.pc, next.size, st.clnum + 1, 0x9000_0000)]);
  }

  lemma OpenerAppends(st: Rec, e: Event)
    requires |st.pending| == SLOTS && !st.filtered && Replay.OpensUnfiltered(e)
    ensures Record(st, e).log == st.log + Left(e.eax, st.clnum) + [Entry(e.pc, e.size, st.clnum + 1, 0x9000_0000)]
    ensures Record(st, e).clnum == st.clnum + 1
  {
    BlockAppends(st, e);
    assert [] + [Entry(e.pc, e.size, st.clnum + 1, 0x9000_0000)] == [Entry(e.pc, e.size, st.clnum + 1, 0x9000_0000)];
  }

  lemma Associates(a: seq<Change>, b: seq<Change>, c: seq<Change>, d: seq<Change>)
    ensures a + b + c + d == a + (b + c) + d
  {
  }

  /** Where the whole log has them: from the opener's record on, and then the next changelist. */
  ghost predicate LiesAt(log: seq<Change>, e: nat, contents: seq<Change>, k: nat) {
    && e + |contents| < |log| && log[e..e + |contents|] == contents
    && forall i :: e + |contents| <= i < |log| ==> log[i].clnum > k
  }

  /** The log of a complete changelist, and how it goes on. */
  lemma WholeGrows(r: Replay.Recording, mid: seq<Event>, next: Event, rest: seq<Event>)
    requires Complete(r, mid, next, rest) && |Replay.Reached(r).pending| == SLOTS
    ensures Replay.Grows(Closed(Replay.Reached(r), mid, next), TimeTravel.Whole(r))
  {
    var st := Replay.Reached(r);
    assert ShapeInv(st) by {
      EveryLogIsWellShaped(r.start, r.before + [r.opener]);
    }
    assert ShapeInv(RecordAll(st, mid)) by {
      Replay.RunGrows(st, mid);
    }
    RecordKeepsShape(RecordAll(st, mid), next);
    WholeIs(r, mid, next, rest);
    Replay.RunGrows(Closed(st, mid, next), rest);
  }

  lemma WholeIs(r: Replay.Recording, mid: seq<Event>, next: Event, rest: seq<Event>)
    requires Complete(r, mid, next, rest) && |Replay.Reached(r).pending| == SLOTS
    ensures TimeTravel.Whole(r) == RecordAll(Closed(Replay.Reached(r), mid, next), rest)
  {
    var st := Replay.Reached(r);
    Replay.RecordSplit(Fresh(r.start), r.before + [r.opener], r.after);
    Replay.RecordSplit(st, mid, [next] + rest);
    Replay.RecordSplit(RecordAll(st, mid), [next], rest);
    OneEvent(RecordAll(st, mid), next);
  }

  lemma OneEvent(st: Rec, e: Event)
    requires |st.pending| == SLOTS
    ensures RecordAll(st, [e]) == Record(st, e)
  {
    assert [e][..0] == [];
    assert RecordAll(st, []) == st;
  }

  lemma WholeHolds(r: Replay.Recording, mid: seq<Event>, next: Event, rest: seq<Event>)
    requires Complete(r, mid, next, rest)
    ensures Replay.Reached(r).log != []
    ensures LiesAt(TimeTravel.Whole(r).log, |Replay.Reached(r).log| - 1, Contents(r.opener, mid, next, Replay.Cut(r)), Replay.Cut(r))
  {
    var st, k := Replay.Reached(r), Replay.Cut(r);
    ReachedIs(r);
    NextIs(st, mid, next);
    WholeGrows(r, mid, next, rest);
    var more := AllPlainly(mid, k) + Left(next.eax, k);
    Lies(st.log, more, Entry(next.pc, next.size, k + 1, 0x9000_0000), Closed(st, mid, next).log, TimeTravel.Whole(r).log, k);
    assert [st.log[|st.log| - 1]] + more == Contents(r.opener, mid, next, k);
  }

  lemma Lies(before: seq<Change>, more: seq<Change>, next: Change, reached: seq<Change>, whole: seq<Change>, k: nat)
    requires before != [] && reached == before + more + [next] && next.clnum > k
    requires |reached| <= |whole| && whole[..|reached|] == reached
    requires forall i :: |reached| <= i < |whole| ==> whole[i].clnum > k
    ensures LiesAt(whole, |before| - 1, [before[|before| - 1]] + more, k)
  {
    var e, contents := |before| - 1, [before[|before| - 1]] + more;
    assert forall i :: 0 <= i < |reached| ==> whole[..|reached|][i] == reached[i];
    assert forall i :: 0 <= i < |reached| ==> whole[i] == reached[i];
    assert reached[e..e + |contents|] == contents;
    assert whole[e..e + |contents|] == reached[e..e + |contents|];
  }

  lemma ContentsAreOf(opener: Event, mid: seq<Event>, next: Event, clnum: nat)
    requires opener.Block? && next.Block? && NoBlocks(mid)
    ensures forall i :: 0 <= i < |Contents(opener, mid, next, clnum)| ==> Contents(opener, mid, next, clnum)[i].clnum == clnum
  {
    EventsAreOf(mid, clnum);
  }

  /** What the file has from entry `e` on. */
  lemma FileHolds(file: seq<Change>, log: seq<Change>, n: nat, e: nat, contents: seq<Change>, k: nat)
    requires |log| < |file| && (forall i :: 0 <= i < |log| ==> file[1 + i] == log[i]) && n <= 1 + |log|
    requires LiesAt(log, e, contents, k) && 1 + e + |contents| <= n && forall i :: 0 <= i < |contents| ==> contents[i].clnum == k
    ensures TraceQueries.EndOfRun(file, 1 + e, n, k) == 1 + e + |contents|
    ensures file[1 + e..1 + e + |contents|] == contents
  {
    forall j | 0 <= j < |contents| ensures file[1 + e + j] == contents[j] {
      assert log[e..e + |contents|][j] == log[e + j] && file[1 + (e + j)] == log[e + j];
    }
    forall j | 1 + e <= j < 1 + e + |contents| ensures file[j].clnum == k {
      assert file[1 + e + (j - 1 - e)] == contents[j - 1 - e];
    }
    if 1 + e + |contents| < n {
      assert file[1 + (e + |contents|)] == log[e + |contents|];
    }
    TraceQueries.EndIs(file, 1 + e, n, k, 1 + e + |contents|);
  }

  /**
   From the events to the query: once it has been ingested, what the database has for a changelist is
   its instruction record and one record for each of its events, with address, data, type and size, in
   the order in which they happened.
   */
  lemma ChangelistIsItsEvents(r: Replay.Recording, mid: seq<Event>, next: Event, rest: seq<Event>, n: nat)
    requires Complete(r, mid, next, rest)
    requires |Replay.Reached(r).log| + |Contents(r.opener, mid, next, Replay.Cut(r))| <= n <= 1 + |TimeTravel.Whole(r).log|
    ensures TraceQueries.OfChangelist(Replay.FileOf(r), n, Replay.Cut(r)) == Contents(r.opener, mid, next, Replay.Cut(r))
  {
    var file, log, k := Replay.FileOf(r), TimeTravel.Whole(r).log, Replay.Cut(r);
    var contents, e := Contents(r.opener, mid, next, k), |Replay.Reached(r).log| - 1;
    WholeHolds(r, mid, next, rest);
    ContentsAreOf(r.opener, mid, next, k);
    InFile(r);
    FileHolds(file, log, n, e, contents, k);
    TimeTravel.FileIsOrdered(r, n);
    assert |contents| >= 1 && contents[0] == Entry(r.opener.pc, r.opener.size, k, 0x9000_0000);
    OpensHere(file, e, contents, r.opener, k);
    TraceQueries.ChangelistIsRun(file, n, 1 + e, k);
  }

  lemma OpensHere(file: seq<Change>, e: nat, contents: seq<Change>, opener: Event, k: nat)
    requires opener.Block? && contents != [] && contents[0] == Entry(opener.pc, opener.size, k, 0x9000_0000)
    requires 1 + e + |contents| <= |file| && file[1 + e..1 + e + |contents|] == contents
    ensures file[1 + e].clnum == k && TypeOf(file[1 + e].flags) == Instruction
  {
    assert file[1 + e] == file[1 + e..1 + e + |contents|][0];
    WordTypes(0);
  }

  lemma InFile(r: Replay.Recording)
    requires r.start > 0
    ensures var file, log := Replay.FileOf(r), TimeTravel.Whole(r).log;
            |log| < |file| && forall i :: 0 <= i < |log| ==> file[1 + i] == log[i]
  {
  }

  // ---------- what the slicer makes of it ----------

  /** Register and memory records by their types: reads and loads, writes and stores. */
  function Sliceable(c: Change): Slicing.Record {
    match TypeOf(c.flags)
    case Read => Slicing.Record.Load(Slicing.Reg(c.address))
    case Load => Slicing.Record.Load(Slicing.Mem(c.address))
    case Write => Slicing.Record.Store(Slicing.Reg(c.address))
    case Store => Slicing.Record.Store(Slicing.Mem(c.address))
    case _ => Slicing.Other
  }

  /** What the slicer should take an access of the guest for. */
  function Meant(e: Event): Slicing.Record {
    match e
    case LoadMem(addr, _, _) => Slicing.Record.Load(Slicing.Mem(addr))
    case StoreMem(addr, _, _) => Slicing.Record.Store(Slicing.Mem(addr))
    case ReadReg(offset, _, _) => if offset >= 0 then Slicing.Record.Load(Slicing.Reg(offset)) else Slicing.Other
    case WriteReg(offset, _, _) => if offset >= 0 then Slicing.Record.Store(Slicing.Reg(offset)) else Slicing.Other
    case _ => Slicing.Other
  }

  lemma MemorySliced(e: Event, clnum: nat)
    requires e.LoadMem? || e.StoreMem?
    ensures |Plainly(e, clnum)| == 1 && Sliceable(Plainly(e, clnum)[0]) == Meant(e)
  {
    WordTypes(e.bits);
  }

  lemma RegisterSliced(e: Event, clnum: nat)
    requires (e.ReadReg? || e.WriteReg?) && e.offset >= 0
    ensures |Plainly(e, clnum)| == 1 && Sliceable(Plainly(e, clnum)[0]) == Meant(e)
  {
    WordTypes(e.bits);
  }

  /** Each access of the guest is the load or store the slicer takes its record for; nothing else is one. */
  lemma SlicerSees(e: Event, clnum: nat, i: nat)
    requires !e.Block? && i < |Plainly(e, clnum)|
    ensures Sliceable(Plainly(e, clnum)[i]) == Meant(e)
  {
    if e.LoadMem? || e.StoreMem? {
      MemorySliced(e, clnum);
    } else if e.SyscallBegin? {
      WordTypes(0);
    } else {
      RegisterSliced(e, clnum);
    }
  }
}
