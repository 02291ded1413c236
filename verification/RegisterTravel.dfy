/**
 What the database shows of registers is what the guest held: the counterpart, for registers that
 are written whole, of what TimeTravel says of memory.
 */
module RegisterTravel {
  import opened Prelude
  import opened TraceLog
  import opened ByteStores
  import opened TraceIndex
  import opened Coalescing
  import opened Recorder
  import opened Replay
  import TimeTravel

  /** Where register `r` lies in the guest's environment. */
  function Base(cfg: Config, r: nat): nat { cfg.registerSize * r }

  /** A write to a place in the register file is aligned and as wide as a register. */
  predicate Whole(cfg: Config, address: int, bits: nat) {
    0 <= address < Base(cfg, cfg.registerCount) && cfg.registerSize > 0 ==>
      address % cfg.registerSize == 0 && bits == 8 * cfg.registerSize
  }

  predicate WritesWhole(cfg: Config, e: Event) {
    e.WriteReg? ==> Whole(cfg, e.offset, e.bits)
  }

  ghost predicate AllWhole(cfg: Config, evs: seq<Event>) {
    forall i :: 0 <= i < |evs| ==> WritesWhole(cfg, evs[i])
  }

  // ---------- the records of register writes ----------

  predicate IsRegisterWrite(c: Change) { c.flags.write && !c.flags.mem }

  /** A register write is nothing else, and writes whole registers. */
  predicate Placed(cfg: Config, c: Change) {
    IsRegisterWrite(c) ==> TypeOf(c.flags) == Write && Whole(cfg, c.address, c.flags.size)
  }

  ghost predicate AllPlaced(cfg: Config, cs: seq<Change>) {
    forall i :: 0 <= i < |cs| ==> Placed(cfg, cs[i])
  }

  lemma {:induction false} EmittedPlaced(cfg: Config, pending: seq<Change>, n: nat, clnum: nat)
    requires n <= |pending| && AllPlaced(cfg, pending)
    ensures AllPlaced(cfg, Emitted(pending, n, clnum))
  {
    if n > 0 {
      EmittedPlaced(cfg, pending, n - 1, clnum);
    }
  }

  lemma StartedPlaced(cfg: Config, st: Rec, pc: nat, size: nat, filtered: bool)
    requires |st.pending| == SLOTS && AllPlaced(cfg, st.log) && AllPlaced(cfg, st.pending)
    ensures AllPlaced(cfg, Started(st, pc, size, filtered).log) && AllPlaced(cfg, Started(st, pc, size, filtered).pending)
  {
    EmittedPlaced(cfg, st.pending, SLOTS, st.clnum);
  }

  lemma RecordKeepsPlaced(cfg: Config, st: Rec, e: Event)
    requires |st.pending| == SLOTS && AllPlaced(cfg, st.log) && AllPlaced(cfg, st.pending)
    requires Replayable(e) && WritesWhole(cfg, e)
    ensures AllPlaced(cfg, Record(st, e).log) && AllPlaced(cfg, Record(st, e).pending)
  {
    if e.Block? {
      StartedPlaced(cfg, st, e.pc, e.size, e.filtered);
    }
  }

  lemma {:induction false} RunIsPlaced(cfg: Config, start: nat, evs: seq<Event>)
    requires start > 0 && AllWhole(cfg, evs) && forall i :: 0 <= i < |evs| ==> Replayable(evs[i])
    ensures AllPlaced(cfg, RecordAll(Fresh(start), evs).log) && AllPlaced(cfg, RecordAll(Fresh(start), evs).pending)
  {
    if evs != [] {
      var n := |evs| - 1;
      RunIsPlaced(cfg, start, evs[..n]);
      RecordKeepsPlaced(cfg, RecordAll(Fresh(start), evs[..n]), evs[n]);
    }
  }

  // ---------- one register, record by record ----------

  predicate InRegister(cfg: Config, r: nat, b: int) {
    Base(cfg, r) <= b < Base(cfg, r) + cfg.registerSize
  }

  /** A recorded value is the live one; a register never recorded is still what it was at the start. */
  ghost predicate Shown(cfg: Config, r: nat, shown: Option<nat>, live: Bytes, first: Bytes) {
    forall b {:trigger InRegister(cfg, r, b)} :: InRegister(cfg, r, b) ==>
      match shown
      case None => SameByte(live, first, b)
      case Some(v) => b in live && live[b] == DataByte(v, b - Base(cfg, r))
  }

  lemma {:induction false} Times(s: nat, q: nat, r: nat)
    requires q < r
    ensures s * q + s <= s * r
    decreases r
  {
    assert s * r == s * (r - 1) + s;
    if q < r - 1 {
      Times(s, q, r - 1);
    }
  }

  /** A whole register written at `address` is register `r`, or has no byte in common with it. */
  lemma WholeOrApart(cfg: Config, address: nat, r: nat, b: int)
    requires cfg.registerSize > 0 && r < cfg.registerCount && address % cfg.registerSize == 0 && InRegister(cfg, r, b)
    ensures address / cfg.registerSize == r ==> address == Base(cfg, r)
    ensures address / cfg.registerSize != r ==> !(address <= b < address + cfg.registerSize)
  {
    var q := address / cfg.registerSize;
    assert address == cfg.registerSize * q;
    if q < r {
      Times(cfg.registerSize, q, r);
    } else if r < q {
      Times(cfg.registerSize, r, q);
    }
  }

  lemma OutsideIsApart(cfg: Config, address: nat, r: nat, b: int)
    requires r < cfg.registerCount && address >= Base(cfg, cfg.registerCount) && InRegister(cfg, r, b)
    ensures b < address
  {
    Times(cfg.registerSize, r, cfg.registerCount);
  }

  lemma ByteShows(cfg: Config, g: Guest, c: Change, r: nat, b: int)
    requires cfg.registerSize > 0 && r < cfg.registerCount && Placed(cfg, c) && InRegister(cfg, r, b)
    ensures var live := ApplyChange(g, c).env;
            if WritesRegister(cfg, c, r) then b in live && live[b] == DataByte(c.data, b - Base(cfg, r))
            else SameByte(live, g.env, b)
  {
    if IsRegisterWrite(c) {
      PokeAt(g.env, Shape(c.address, c.flags.size / 8), c.data, b);
      if c.address < Base(cfg, cfg.registerCount) {
        WholeOrApart(cfg, c.address, r, b);
      } else {
        OutsideIsApart(cfg, c.address, r, b);
      }
    }
  }

  lemma ChangeShows(cfg: Config, g: Guest, first: Bytes, c: Change, r: nat, shown: Option<nat>)
    requires cfg.registerSize > 0 && r < cfg.registerCount && Placed(cfg, c) && Shown(cfg, r, shown, g.env, first)
    ensures Shown(cfg, r, if WritesRegister(cfg, c, r) then Some(c.data) else shown, ApplyChange(g, c).env, first)
  {
    forall b | InRegister(cfg, r, b)
      ensures match if WritesRegister(cfg, c, r) then Some(c.data) else shown
              case None => SameByte(ApplyChange(g, c).env, first, b)
              case Some(v) => b in ApplyChange(g, c).env && ApplyChange(g, c).env[b] == DataByte(v, b - Base(cfg, r))
    {
      ByteShows(cfg, g, c, r, b);
    }
  }

  /** Register `r` according to all register writes of a log. */
  function LogRegister(cfg: Config, log: seq<Change>, r: nat): Option<nat> {
    TimeTravel.LastOf(log, RegisterSees(cfg, r))
  }

  lemma {:induction false} LogShowsReplayed(cfg: Config, g: Guest, log: seq<Change>, r: nat)
    requires cfg.registerSize > 0 && r < cfg.registerCount && AllPlaced(cfg, log)
    ensures Shown(cfg, r, LogRegister(cfg, log, r), ReplayAll(g, log).env, g.env)
  {
    if log != [] {
      var n := |log| - 1;
      LogShowsReplayed(cfg, g, log[..n], r);
      ChangeShows(cfg, ReplayAll(g, log[..n]), g.env, log[n], r, LogRegister(cfg, log[..n], r));
    }
  }

  // ---------- end to end ----------

  lemma LiveIsReplayed(r: Recording, g0: Guest)
    requires Cuttable(r)
    ensures Reached(r).log != [] && LiveAll(g0, r.before) == ReplayAll(g0, Reached(r).log[..|Reached(r).log| - 1])
  {
    StopsAtCut(r);
    ReplayReproducesLive(r, g0);
  }

  /**
   Time travel for registers: however much of a recording has been ingested past changelist k, a
   register queried just before k shows what the guest held when k began; one without a record has
   kept its initial contents.
   */
  lemma RegistersBeforeChangelist(r: Recording, g0: Guest, cfg: Config, n: nat, reg: nat)
    requires Cuttable(r) && AllWhole(cfg, r.before) && cfg.registerSize > 0 && reg < cfg.registerCount
    requires 1 + |Reached(r).log| <= n <= 1 + |TimeTravel.Whole(r).log|
    ensures Cut(r) > 0
    ensures Shown(cfg, reg, At(Ingested(cfg, FileOf(r), n).registers[reg], Cut(r) - 1), LiveAll(g0, r.before).env, g0.env)
  {
    RegisterAtCut(cfg, r, n, reg);
    LiveIsReplayed(r, g0);
    ReachedIsPlaced(cfg, r);
    ShownByLog(cfg, g0, Reached(r).log, reg);
  }

  lemma RegisterAtCut(cfg: Config, r: Recording, n: nat, reg: nat)
    requires r.start > 0 && OpensUnfiltered(r.opener) && reg < cfg.registerCount
    requires 1 + |Reached(r).log| <= n <= 1 + |TimeTravel.Whole(r).log|
    ensures Cut(r) > 0 && Reached(r).log != []
    ensures At(Ingested(cfg, FileOf(r), n).registers[reg], Cut(r) - 1) == LogRegister(cfg, Reached(r).log[..|Reached(r).log| - 1], reg)
  {
    TimeTravel.SeenAtCut(r, n, RegisterSees(cfg, reg));
    TimeTravel.FileIsOrdered(r, n);
    RegistersAreReplay(cfg, FileOf(r), n, Cut(r) - 1, reg);
  }

  lemma ShownByLog(cfg: Config, g: Guest, log: seq<Change>, reg: nat)
    requires cfg.registerSize > 0 && reg < cfg.registerCount && log != [] && AllPlaced(cfg, log)
    ensures Shown(cfg, reg, LogRegister(cfg, log[..|log| - 1], reg), ReplayAll(g, log[..|log| - 1]).env, g.env)
  {
    LogShowsReplayed(cfg, g, log[..|log| - 1], reg);
  }

  lemma ReachedIsPlaced(cfg: Config, r: Recording)
    requires Cuttable(r) && AllWhole(cfg, r.before)
    ensures AllPlaced(cfg, Reached(r).log)
  {
    var evs := r.before + [r.opener];
    assert forall i :: 0 <= i < |evs| ==> WritesWhole(cfg, evs[i]) && Replayable(evs[i]);
    RunIsPlaced(cfg, r.start, evs);
  }
}
