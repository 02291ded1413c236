/**
 What the database shows is what the guest held.

 First, for any log whose loads report what memory really contained; then, end to
 end, for every log the recorder writes.
 */
module TimeTravel {
  import opened Prelude
  import opened TraceLog
  import opened ByteStores
  import opened TraceIndex
  import TraceQueries
  import Coalescing
  import Recorder
  import Replay

  // ---------- committing memory on loads is harmless ----------

  predicate Stores(c: Change, big: bool, a: nat) {
    TypeOf(c.flags) == Store && ByteAt(c, big, a).Some?
  }

  /** Address `a` after the stores below entry `n`, starting from `m0`. */
  function TrueByte(file: seq<Change>, big: bool, n: nat, m0: nat -> Byte, a: nat): Byte
    requires n <= |file|
  {
    if n <= 1 then m0(a)
    else if Stores(file[n - 1], big, a) then ByteAt(file[n - 1], big, a).value
    else TrueByte(file, big, n - 1, m0, a)
  }

  /** Every recorded load reports the bytes memory held at that moment. */
  ghost predicate TruthfulLoads(file: seq<Change>, big: bool, m0: nat -> Byte) {
    forall i, a :: 1 <= i < |file| && TypeOf(file[i].flags) == Load && ByteAt(file[i], big, a).Some? ==>
      ByteAt(file[i], big, a).value == TrueByte(file, big, i, m0, a)
  }

  function StoreSees(big: bool, a: nat): Change -> Option<Byte> {
    (c: Change) => if Stores(c, big, a) then ByteAt(c, big, a) else None
  }

  /** The answer of a database that commits stores only. */
  function StoredOnly(file: seq<Change>, big: bool, n: nat, k: nat, a: nat): Option<Byte>
    requires n <= |file|
  {
    LastSeen(file, n, k, StoreSees(big, a))
  }

  /** Where changelist `k` ends among the entries below `n`. */
  function EndOf(file: seq<Change>, n: nat, k: nat): (p: nat)
    requires n <= |file|
    ensures p <= n
  {
    if n <= 1 || file[n - 1].clnum <= k then n else EndOf(file, n - 1, k)
  }

  /** Each valid byte reported at changelist k is the true byte after changelist k. */
  lemma {:induction false} ValidBytesAreTrue(file: seq<Change>, big: bool, n: nat, k: nat, m0: nat -> Byte, a: nat)
    requires Ordered(file, n) && TruthfulLoads(file, big, m0)
    ensures Replayed(file, big, n, k, a).Some? ==>
              Replayed(file, big, n, k, a).value == TrueByte(file, big, EndOf(file, n, k), m0, a)
  {
    if n > 1 {
      ValidBytesAreTrue(file, big, n - 1, k, m0, a);
      if file[n - 1].clnum <= k {
        assert EndOf(file, n - 1, k) == n - 1;
      }
    }
  }

  /** Wherever a store-only database has an answer, it is the same answer. */
  lemma {:induction false} LoadsHideNothing(file: seq<Change>, big: bool, n: nat, k: nat, m0: nat -> Byte, a: nat)
    requires Ordered(file, n) && TruthfulLoads(file, big, m0)
    ensures StoredOnly(file, big, n, k, a).Some? ==>
              Replayed(file, big, n, k, a) == StoredOnly(file, big, n, k, a)
  {
    ValidBytesAreTrue(file, big, n, k, m0, a);
    StoredBytesAreTrue(file, big, n, k, m0, a);
  }

  lemma {:induction false} StoredBytesAreTrue(file: seq<Change>, big: bool, n: nat, k: nat, m0: nat -> Byte, a: nat)
    requires Ordered(file, n)
    ensures StoredOnly(file, big, n, k, a).Some? ==>
              StoredOnly(file, big, n, k, a).value == TrueByte(file, big, EndOf(file, n, k), m0, a)
              && Replayed(file, big, n, k, a).Some?
  {
    if n > 1 {
      StoredBytesAreTrue(file, big, n - 1, k, m0, a);
      if file[n - 1].clnum <= k {
        assert EndOf(file, n - 1, k) == n - 1;
      }
    }
  }

  // ---------- from the recorder to the database ----------

  /** What the last record of a log says, among those that say something. */
  function LastOf<V>(log: seq<Change>, sees: Change -> Option<V>): Option<V> {
    if log == [] then None
    else
      var c := log[|log| - 1];
      if sees(c).Some? then sees(c) else LastOf(log[..|log| - 1], sees)
  }

  /** Address `a` according to all memory records of a log. */
  function LogByte(log: seq<Change>, a: nat): Option<Byte> {
    LastOf(log, MemorySees(false, a))
  }

  /** Memory accesses stay below the top of the address space. */
  predicate InSpace(e: Recorder.Event) {
    match e
    case LoadMem(addr, _, bits) => addr + bits / 8 <= U64
    case StoreMem(addr, _, bits) => addr + bits / 8 <= U64
    case _ => true
  }

  /** The guest's loads return what its memory holds. */
  predicate LoadIsTrue(e: Recorder.Event, g: Replay.Guest) {
    e.LoadMem? ==>
      forall b {:trigger Touches(Shape(e.addr, e.bits / 8), b)} ::
        e.addr <= b < e.addr + e.bits / 8 && Touches(Shape(e.addr, e.bits / 8), b) ==>
        b in g.mem && g.mem[b] == DataByte(e.data, b - e.addr)
  }

  ghost predicate TrueRun(evs: seq<Recorder.Event>, g0: Replay.Guest) {
    forall n :: 0 <= n < |evs| ==> InSpace(evs[n]) && LoadIsTrue(evs[n], Replay.LiveAll(g0, evs[..n]))
  }

  /** A recorded byte is the live one; a byte never recorded is still what it was at the start. */
  ghost predicate Shown(shown: Option<Byte>, live: Bytes, first: Bytes, a: nat) {
    match shown
    case None => SameByte(live, first, a)
    case Some(b) => a in live && live[a] == b
  }

  /** No record in `more` is a memory access. */
  ghost predicate Quiet(more: seq<Change>) {
    forall i :: 0 <= i < |more| ==> !IsMemory(more[i])
  }

  lemma {:induction false} QuietSkips(log: seq<Change>, more: seq<Change>, a: nat)
    requires Quiet(more)
    ensures LogByte(log + more, a) == LogByte(log, a)
  {
    if more == [] {
      assert log + more == log;
    } else {
      var n := |more| - 1;
      QuietSkips(log, more[..n], a);
      assert (log + more)[..|log + more| - 1] == log + more[..n];
    }
  }

  /** Away from the wrap-around, a record covers the bytes a store would touch. */
  lemma ByteAtIsTouch(c: Change, a: nat)
    requires c.address + ByteCount(c) <= U64 && a < U64
    ensures var f := Shape(c.address, ByteCount(c));
            ByteAt(c, false, a) == if Touches(f, a) then Some(DataByte(c.data, a - c.address)) else None
  {
    if a >= c.address {
      assert (a - c.address) % U64 == a - c.address;
    } else {
      assert (a - c.address) % U64 == a - c.address + U64;
    }
  }

  /** The pending writes of filtered code are register writes. */
  ghost predicate PendingQuiet(pending: seq<Change>) {
    forall i :: 0 <= i < |pending| ==> !pending[i].flags.mem
  }

  lemma {:induction false} EmittedQuiet(pending: seq<Change>, n: nat, clnum: nat)
    requires n <= |pending| && PendingQuiet(pending)
    ensures Quiet(Recorder.Emitted(pending, n, clnum))
  {
    if n > 0 {
      EmittedQuiet(pending, n - 1, clnum);
    }
  }

  lemma {:induction false} AddedRegsQuiet(st: Recorder.Rec, regs: seq<nat>, n: nat, a: nat)
    requires n <= |regs|
    ensures LogByte(Recorder.AddedRegs(st, regs, n).log, a) == LogByte(st.log, a)
  {
    if n > 0 {
      AddedRegsQuiet(st, regs, n - 1, a);
      AddedByte(Recorder.AddedRegs(st, regs, n - 1), 4 * (n - 1), regs[n - 1], Recorder.RegFlags(Recorder.TARGET_BITS), a);
    }
  }

  lemma AddedByte(st: Recorder.Rec, addr: nat, data: nat, f: Flags, a: nat)
    ensures var c := Change(addr, data, st.clnum, f.(valid := true));
            LogByte(Recorder.Added(st, addr, data, f).log, a) ==
            if IsMemory(c) && ByteAt(c, false, a).Some? then ByteAt(c, false, a) else LogByte(st.log, a)
  {
    var c := Change(addr, data, st.clnum, f.(valid := true));
    assert (st.log + [c])[..|st.log|] == st.log;
  }

  /** Blocks, register accesses and system calls add no memory record. */
  lemma RegisterEventIsQuiet(st: Recorder.Rec, e: Recorder.Event, a: nat)
    requires |st.pending| == Coalescing.SLOTS && PendingQuiet(st.pending) && !e.LoadMem? && !e.StoreMem?
    ensures LogByte(Recorder.Record(st, e).log, a) == LogByte(st.log, a) && PendingQuiet(Recorder.Record(st, e).pending)
  {
    match e
    case Block(pc, size, filtered, eax) =>
      var resumed := if eax.Some? then Recorder.Added(st, 0, eax.value, Recorder.RegFlags(Recorder.TARGET_BITS)) else st;
      if eax.Some? {
        AddedByte(st, 0, eax.value, Recorder.RegFlags(Recorder.TARGET_BITS), a);
      }
      BlockIsQuiet(resumed, pc, size, filtered, a);
    case ReadReg(offset, data, bits) =>
      if offset >= 0 {
        AddedByte(st, offset, data, Recorder.PLAIN.(size := bits), a);
      }
    case WriteReg(offset, data, bits) =>
      if offset >= 0 {
        AddedByte(st, offset, data, Recorder.RegFlags(bits), a);
      }
    case SyscallBegin(nr, regs) =>
      AddedRegsQuiet(st, regs, 8, a);
      AddedByte(if st.filtered then Recorder.AddedRegs(st, regs, 8) else st, nr, 0, Recorder.PLAIN.(syscall := true), a);
  }

  lemma BlockIsQuiet(st: Recorder.Rec, pc: nat, size: nat, filtered: bool, a: nat)
    requires |st.pending| == Coalescing.SLOTS && PendingQuiet(st.pending)
    ensures LogByte(Recorder.Started(st, pc, size, filtered).log, a) == LogByte(st.log, a)
    ensures PendingQuiet(Recorder.Started(st, pc, size, filtered).pending)
  {
    if !filtered {
      var more := Recorder.Emitted(st.pending, Coalescing.SLOTS, st.clnum);
      EmittedQuiet(st.pending, Coalescing.SLOTS, st.clnum);
      QuietSkips(st.log, more, a);
      var ready := (if st.filtered then Recorder.Committed(st) else st).(filtered := false);
      AddedByte(ready.(clnum := st.clnum + 1), pc, size, Recorder.PLAIN.(start := true), a);
    }
  }

  /** Along every run the log's memory records follow the live memory, byte by byte. */
  lemma {:induction false} LogShowsLive(start: nat, evs: seq<Recorder.Event>, g0: Replay.Guest, a: nat)
    requires start > 0 && TrueRun(evs, g0) && a < U64
    ensures Shown(LogByte(Recorder.RecordAll(Recorder.Fresh(start), evs).log, a), Replay.LiveAll(g0, evs).mem, g0.mem, a)
    ensures PendingQuiet(Recorder.RecordAll(Recorder.Fresh(start), evs).pending)
  {
    if evs != [] {
      var n := |evs| - 1;
      var e, st, g := evs[n], Recorder.RecordAll(Recorder.Fresh(start), evs[..n]), Replay.LiveAll(g0, evs[..n]);
      assert TrueRun(evs[..n], g0) by {
        forall m | 0 <= m < n ensures InSpace(evs[..n][m]) && LoadIsTrue(evs[..n][m], Replay.LiveAll(g0, evs[..n][..m])) {
          assert evs[..n][..m] == evs[..m];
        }
      }
      LogShowsLive(start, evs[..n], g0, a);
      if e.LoadMem? || e.StoreMem? {
        MemoryEventShows(st, e, g, g0, a);
      } else {
        RegisterEventIsQuiet(st, e, a);
      }
    }
  }

  lemma MemoryEventShows(st: Recorder.Rec, e: Recorder.Event, g: Replay.Guest, g0: Replay.Guest, a: nat)
    requires |st.pending| == Coalescing.SLOTS && (e.LoadMem? || e.StoreMem?) && InSpace(e) && LoadIsTrue(e, g) && a < U64
    requires Shown(LogByte(st.log, a), g.mem, g0.mem, a)
    ensures Shown(LogByte(Recorder.Record(st, e).log, a), Replay.Live(g, e).mem, g0.mem, a)
  {
    var f := Recorder.PLAIN.(mem := true, write := e.StoreMem?, size := e.bits);
    var shape := Shape(e.addr, e.bits / 8);
    AddedByte(st, e.addr, e.data, f, a);
    ByteAtIsTouch(Change(e.addr, e.data, st.clnum, f.(valid := true)), a);
    if e.StoreMem? {
      PokeAt(g.mem, shape, e.data, a);
    } else {
      assert Touches(shape, a) ==> a in g.mem && g.mem[a] == DataByte(e.data, a - e.addr);
    }
  }

  // ---------- end to end ----------

  lemma {:induction false} SeenIsLast<V>(file: seq<Change>, log: seq<Change>, n: nat, k: nat, sees: Change -> Option<V>)
    requires n <= |log| < |file| && (forall i :: 0 <= i < |log| ==> file[1 + i] == log[i])
    requires forall i :: 0 <= i < n ==> log[i].clnum <= k
    ensures LastSeen(file, 1 + n, k, sees) == LastOf(log[..n], sees)
  {
    if n > 0 {
      SeenIsLast(file, log, n - 1, k, sees);
      assert log[..n][..n - 1] == log[..n - 1];
      assert file[1 + (n - 1)] == log[n - 1];
    }
  }

  lemma {:induction false} LaterEntriesDoNotMatter<V>(file: seq<Change>, p: nat, n: nat, k: nat, sees: Change -> Option<V>)
    requires 1 <= p <= n <= |file| && forall i :: p <= i < n ==> file[i].clnum > k
    ensures LastSeen(file, n, k, sees) == LastSeen(file, p, k, sees)
  {
    if p < n {
      LaterEntriesDoNotMatter(file, p, n - 1, k, sees);
    }
  }

  /** The recorder's file, read as the database reads it. */
  lemma FileIsOrdered(r: Replay.Recording, n: nat)
    requires r.start > 0 && n <= 1 + |Whole(r).log|
    ensures TraceQueries.Shaped(Replay.FileOf(r), n) && Sized(Replay.FileOf(r))
  {
    Recorder.EveryLogIsWellShaped(r.start, r.before + [r.opener] + r.after);
    var file, log := Replay.FileOf(r), Whole(r).log;
    assert forall i :: 1 <= i < 1 + |log| ==> file[i] == log[i - 1];
  }

  function Whole(r: Replay.Recording): Recorder.Rec
    requires r.start > 0
  {
    Recorder.RecordAll(Recorder.Fresh(r.start), r.before + [r.opener] + r.after)
  }

  /**
   Time travel: however much of a recording has been ingested past changelist k, memory
   queried just before k shows, in every valid byte, what the guest held when k began; an
   invalid byte has kept its initial contents.
   */
  lemma MemoryBeforeChangelist(r: Replay.Recording, g0: Replay.Guest, cfg: Config, n: nat, a: nat)
    requires r.start > 0 && Replay.OpensUnfiltered(r.opener) && TrueRun(r.before + [r.opener], g0)
    requires !cfg.bigEndian && a < U64
    requires 1 + |Replay.Reached(r).log| <= n <= 1 + |Whole(r).log|
    ensures Replay.Cut(r) > 0
    ensures Shown(At(CellOf(Ingested(cfg, Replay.FileOf(r), n).memory, a), Replay.Cut(r) - 1),
                  Replay.LiveAll(g0, r.before).mem, g0.mem, a)
  {
    FoundAtCut(r, cfg, n, a);
    ShownAtCut(r, g0, a);
  }

  lemma FoundAtCut(r: Replay.Recording, cfg: Config, n: nat, a: nat)
    requires r.start > 0 && Replay.OpensUnfiltered(r.opener) && !cfg.bigEndian && a < U64
    requires 1 + |Replay.Reached(r).log| <= n <= 1 + |Whole(r).log|
    ensures Replay.Cut(r) > 0
    ensures At(CellOf(Ingested(cfg, Replay.FileOf(r), n).memory, a), Replay.Cut(r) - 1) == LogByte(Replay.Reached(r).log, a)
  {
    SeenAtCut(r, n, MemorySees(false, a));
    OpenerIsQuiet(r, a);
    FileIsOrdered(r, n);
    MemoryIsReplay(cfg, Replay.FileOf(r), n, Replay.Cut(r) - 1, a);
  }

  /** The opener changes nothing, so the log shows the guest as it was before it. */
  lemma ShownAtCut(r: Replay.Recording, g0: Replay.Guest, a: nat)
    requires r.start > 0 && Replay.OpensUnfiltered(r.opener) && TrueRun(r.before + [r.opener], g0) && a < U64
    ensures Shown(LogByte(Replay.Reached(r).log, a), Replay.LiveAll(g0, r.before).mem, g0.mem, a)
  {
    var evs := r.before + [r.opener];
    assert evs[..|r.before|] == r.before;
    LogShowsLive(r.start, evs, g0, a);
  }

  /** Below the cut, the file says what the log said before the cut was reached. */
  lemma SeenAtCut<V>(r: Replay.Recording, n: nat, sees: Change -> Option<V>)
    requires r.start > 0 && Replay.OpensUnfiltered(r.opener)
    requires 1 + |Replay.Reached(r).log| <= n <= 1 + |Whole(r).log|
    ensures Replay.Cut(r) > 0 && Replay.Reached(r).log != []
    ensures LastSeen(Replay.FileOf(r), n, Replay.Cut(r) - 1, sees) == LastOf(Replay.Reached(r).log[..|Replay.Reached(r).log| - 1], sees)
  {
    var file, log, k := Replay.FileOf(r), Replay.Reached(r).log, Replay.Cut(r);
    Replay.OpenerIsAlone(r);
    Replay.ReachedIsPrefix(r);
    FileIsOrdered(r, n);
    assert (r.before + [r.opener])[..|r.before|] == r.before;
    var p := |log| - 1;
    assert file[1 + p] == log[p];
    LaterEntriesDoNotMatter(file, 1 + p, n, k - 1, sees);
    SeenIsLast(file, log, p, k - 1, sees);
  }

  /** The opener's own record is no memory access, and it does not touch the guest. */
  lemma OpenerIsQuiet(r: Replay.Recording, a: nat)
    requires r.start > 0 && Replay.OpensUnfiltered(r.opener)
    ensures var log := Replay.Reached(r).log; log != [] && LogByte(log[..|log| - 1], a) == LogByte(log, a)
  {
    assert (r.before + [r.opener])[..|r.before|] == r.before;
    var log := Replay.Reached(r).log;
    assert TypeOf(log[|log| - 1].flags) == Instruction;
  }

  /** Every changelist the recorder opens is found by its block's address and size, and returned whole up to the limit. */
  lemma OpenedChangelistIsFound(r: Replay.Recording, n: nat, limit: nat)
    requires r.start > 0 && Replay.OpensUnfiltered(r.opener)
    requires 1 + |Replay.Reached(r).log| <= n <= 1 + |Whole(r).log|
    ensures var file, k := Replay.FileOf(r), Replay.Cut(r);
            InstructionEntry(file, n, k) == |Replay.Reached(r).log|
            && file[|Replay.Reached(r).log|].address == r.opener.pc && file[|Replay.Reached(r).log|].data == r.opener.size
            && TraceQueries.Fetched(file, n, k, limit) == TraceQueries.FirstOf(TraceQueries.OfChangelist(file, n, k), limit)
  {
    var file, log, k := Replay.FileOf(r), Replay.Reached(r).log, Replay.Cut(r);
    Replay.OpenerIsAlone(r);
    Replay.ReachedIsPrefix(r);
    FileIsOrdered(r, n);
    OpenerIsInstruction(r);
    var e := |log|;
    assert file[1 + (e - 1)] == log[e - 1];
    TraceQueries.FetchedIsChangelist(file, n, k, limit);
  }

  lemma OpenerIsInstruction(r: Replay.Recording)
    requires r.start > 0 && Replay.OpensUnfiltered(r.opener)
    ensures var log := Replay.Reached(r).log;
            && log != [] && TypeOf(log[|log| - 1].flags) == Instruction
            && log[|log| - 1].address == r.opener.pc && log[|log| - 1].data == r.opener.size
  {
    assert (r.before + [r.opener])[..|r.before|] == r.before;
  }

  // ---------- a query that races with the ingestion of a recording ----------

  /** The part of the file that holds records. */
  function Written(r: Replay.Recording): (file: seq<Change>)
    requires r.start > 0
  {
    Replay.FileOf(r)[..1 + |Whole(r).log|]
  }

  /** Changelist `k` as far as the entries below `n` go, cut to `limit`; nothing if it has no instruction record there. */
  function ChangelistBelow(file: seq<Change>, n: nat, k: nat, limit: nat): seq<Change>
    requires n <= |file|
  {
    if InstructionEntry(file, n, k) == 0 then [] else TraceQueries.FirstOf(TraceQueries.OfChangelist(file, n, k), limit)
  }

  ghost predicate AnswersBetween(file: seq<Change>, k: nat, limit: nat, low: nat, high: nat, ret: seq<Change>) {
    exists n :: low <= n <= high <= |file| && ret == ChangelistBelow(file, n, k, limit)
  }

  /** On every recording, a query racing with ingestion answers for a prefix that was current during the call. */
  lemma RecordedFetchIsAtomic(r: Replay.Recording, k: nat, limit: nat, run: seq<TraceQueries.Sys>, i: nat)
    requires r.start > 0 && TraceQueries.IsRun(Written(r), k, limit, run) && i < |run| && run[i].r.Returned?
    ensures AnswersBetween(Written(r), k, limit, run[0].w.done, run[i].w.done, run[i].r.ret)
  {
    var file := Written(r);
    WrittenIsShaped(r);
    TraceQueries.ConcurrentFetchIsAtomic(file, k, limit, run, i);
    var n :| 1 <= run[0].w.done <= n <= run[i].w.done <= |file| && run[i].r.ret == TraceQueries.Fetched(file, n, k, limit);
    TraceQueries.FetchedIsChangelist(file, n, k, limit);
    assert run[i].r.ret == ChangelistBelow(file, n, k, limit);
  }

  lemma WrittenIsShaped(r: Replay.Recording)
    requires r.start > 0
    ensures TraceQueries.Shaped(Written(r), |Written(r)|)
  {
    FileIsOrdered(r, 1 + |Whole(r).log|);
  }
}
