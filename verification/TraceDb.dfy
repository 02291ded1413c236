/** The trace database: batch ingestion of a growing log file, and its four queries. */
module TraceDb {
  import opened Prelude
  import opened TraceLog
  import opened ByteStores
  import opened TraceIndex
  import opened TraceQueries

  const BATCH: nat := 1_000_000
  const MEMORY_VALID: nat := 0x100

  /** How far one call of process goes, in 32-bit arithmetic. */
  function Target(done: nat, entryCount: nat): nat {
    var clamped := (done + BATCH) % U32;
    if clamped < entryCount then clamped else entryCount
  }

  /** The entries that are left unprocessed decide: unless the clamp wraps, the target is in reach. */
  lemma TargetIsSafeIff(done: nat, entryCount: nat)
    requires done < entryCount < U32
    ensures done < Target(done, entryCount) <= entryCount <==> done + BATCH < U32
    ensures done + BATCH < U32 ==> Target(done, entryCount) == if done + BATCH < entryCount then done + BATCH else entryCount
  {
  }

  /** In the last million entry numbers the clamp wraps, and the target lies behind what is done already. */
  lemma WrappedTarget(done: nat, entryCount: nat)
    requires done < entryCount < U32 <= done + BATCH
    ensures Target(done, entryCount) == done + BATCH - U32 < done
  {
  }

  lemma WrappedExample()
    ensures Target(4_294_000_000, 4_294_967_295) == 32_704
  {
  }

  /** A data word with its `k` lowest bytes shifted out. */
  function Shifted(data: nat, k: nat): nat
    decreases k
  {
    if k == 0 then data else Shifted(data / 256, k - 1)
  }

  lemma {:induction false} ShiftedByte(data: nat, k: nat)
    ensures DataByte(data, k) == Shifted(data, k) % 256 && Shifted(data, k + 1) == Shifted(data, k) / 256
    decreases k
  {
    if k > 0 {
      ShiftedByte(data / 256, k - 1);
    }
  }

  class Trace {
    const cfg: Config
    var entriesDone: nat
    var mapped: nat                 // entries covered by the current mapping of the file
    var memory: map<nat, Cell<Byte>>
    var registers: seq<Cell<nat>>
    var clnumToEntry: seq<nat>
    var addressType: map<(nat, Kind), set<nat>>

    ghost function Indexes(): Db
      reads this
    {
      Db(memory, registers, clnumToEntry, addressType)
    }

    /** The indexes are those of one pass over the ingested part of the file. */
    ghost predicate Valid(file: seq<Change>)
      reads this
    {
      1 <= entriesDone <= mapped <= |file| && Indexes() == Ingested(cfg, file, entriesDone)
    }

    constructor (cfg: Config, ghost file: seq<Change>)
      requires file != []
      ensures Valid(file) && this.cfg == cfg && entriesDone == 1
    {
      this.cfg := cfg;
      entriesDone := 1;
      mapped := 1;
      memory := map[];
      registers := seq(cfg.registerCount, i => map[]);
      clnumToEntry := [];
      addressType := map[];
    }

    /** A file that has only grown leaves the database valid. */
    lemma GrownFile(file: seq<Change>, wider: seq<Change>)
      requires Valid(file) && |file| <= |wider| && file == wider[..|file|]
      ensures Valid(wider)
    {
      assert file[..entriesDone] == wider[..entriesDone];
      IngestedPrefix(cfg, file, wider, entriesDone);
    }

    method CommitMemory(clnum: nat, a: nat, d: Byte)
      modifies this`memory
      ensures memory == CommitByte(old(memory), clnum, a, d)
    {
      var cell := if a in memory then memory[a] else map[];
      memory := memory[a := cell[clnum := d]];
    }

    /** Byte by byte, in the order of the guest's endianness. */
    method CommitRecord(c: Change)
      modifies this`memory
      ensures memory == CommitBytes(old(memory), c, cfg.bigEndian, ByteCount(c))
    {
      var data, n := c.data, ByteCount(c);
      var k := 0;
      while k < n
        invariant 0 <= k <= n && memory == CommitBytes(old(memory), c, cfg.bigEndian, k)
        invariant data == Shifted(c.data, k)
      {
        ShiftedByte(c.data, k);
        var i := if cfg.bigEndian then n - 1 - k else k;
        CommitMemory(c.clnum, (c.address + i) % U64, data % 256);
        data := data / 256;
        k := k + 1;
      }
    }

    method IngestEntry(ghost file: seq<Change>, c: Change)
      requires Valid(file) && entriesDone < mapped && c == file[entriesDone]
      modifies this
      ensures mapped == old(mapped) && entriesDone == old(entriesDone) + 1 && Valid(file)
    {
      EnterRecord(c);
      entriesDone := entriesDone + 1;
    }

    /** What happens under the write lock. */
    method EnterRecord(c: Change)
      requires |registers| == cfg.registerCount
      modifies this`memory, this`registers, this`clnumToEntry, this`addressType
      ensures Indexes() == Ingest(cfg, old(Indexes()), entriesDone, c)
    {
      var kind := TypeOf(c.flags);
      if kind == Instruction {
        if |clnumToEntry| < c.clnum {
          clnumToEntry := clnumToEntry + seq(c.clnum - |clnumToEntry|, i => 0);
        }
        clnumToEntry := clnumToEntry + [entriesDone];
      }
      var key := (c.address, kind);
      var clnums := if key in addressType then addressType[key] else {};
      addressType := addressType[key := clnums + {c.clnum}];
      if kind == Write && c.address < cfg.registerSize * cfg.registerCount {
        RegisterInRange(cfg, c);
        registers := SetRegister(registers, c.address / cfg.registerSize, c.clnum, c.data);
      }
      if kind == Load || kind == Store {
        CommitRecord(c);
      }
    }

    /**
     One round of the background thread.  It has `entryCount` from the file's header
     and has mapped that many entries; `overrun` says it read past them.
     */
    method Process(file: seq<Change>, entryCount: nat) returns (overrun: bool)
      requires Valid(file) && entryCount < U32 && entryCount <= |file|
      modifies this
      ensures Valid(file)
      ensures overrun <==> old(entriesDone) < entryCount && old(entriesDone) + BATCH >= U32
      ensures !overrun ==> entriesDone == NextDone(old(entriesDone), entryCount)
    {
      overrun := false;
      if entriesDone >= entryCount {
        return;
      }
      mapped := entryCount;
      var target := Target(entriesDone, entryCount);
      TargetIsSafeIff(entriesDone, entryCount);
      while entriesDone != target
        invariant Valid(file) && mapped == entryCount
        invariant old(entriesDone) <= entriesDone <= entryCount
        invariant old(entriesDone) < target <= entryCount ==> entriesDone <= target
        decreases entryCount - entriesDone
      {
        if entriesDone >= mapped {
          overrun := true;
          return;
        }
        IngestEntry(file, file[entriesDone]);
      }
    }

    /** The background thread: one round for each value its header is seen to have. */
    method ProcessAll(file: seq<Change>, counts: seq<nat>) returns (overrun: bool)
      requires Valid(file) && forall i :: 0 <= i < |counts| ==> counts[i] <= |file| && counts[i] < U32
      modifies this
      ensures Valid(file)
      ensures overrun <==> exists i :: 0 <= i < |counts| && RoundWraps(old(entriesDone), counts, i)
      ensures !overrun ==> entriesDone == DoneAfterAll(old(entriesDone), counts)
    {
      overrun := false;
      for i := 0 to |counts|
        invariant Valid(file) && entriesDone == DoneAfterAll(old(entriesDone), counts[..i])
        invariant forall k :: 0 <= k < i ==> !RoundWraps(old(entriesDone), counts, k)
      {
        overrun := Process(file, counts[i]);
        if overrun {
          assert RoundWraps(old(entriesDone), counts, i);
          return;
        }
        assert counts[..i + 1][..i] == counts[..i];
      }
      assert counts[..|counts|] == counts;
      overrun := false;
    }

    method GetByte(ghost file: seq<Change>, clnum: nat, a: nat) returns (r: nat)
      requires Valid(file) && Ordered(file, entriesDone) && Sized(file) && a < U64
      ensures r == Reported(Replayed(file, cfg.bigEndian, entriesDone, clnum, a))
    {
      MemoryIsReplay(cfg, file, entriesDone, clnum, a);
      if a !in memory {
        return 0;
      }
      match Floor(memory[a].Keys, clnum)
      case None => r := 0;
      case Some(c) => r := MEMORY_VALID + memory[a][c];
    }

    /** Every byte is what naive replay of the ingested entries numbered at most `clnum` gives. */
    method FetchMemory(ghost file: seq<Change>, clnum: nat, address: nat, len: int) returns (ret: seq<nat>)
      requires Valid(file) && Ordered(file, entriesDone) && Sized(file) && address < U64
      ensures |ret| == Span(address, len)
      ensures forall j :: 0 <= j < |ret| ==>
                ret[j] == Reported(Replayed(file, cfg.bigEndian, entriesDone, clnum, address + j))
    {
      ret := [];
      var i, end := address, (address + len) % U64;
      while i < end
        invariant i == address + |ret| && (address <= end ==> i <= end) && (end < address ==> ret == [])
        invariant forall j :: 0 <= j < |ret| ==>
                    ret[j] == Reported(Replayed(file, cfg.bigEndian, entriesDone, clnum, address + j))
      {
        var b := GetByte(file, clnum, i);
        ret := ret + [b];
        i := i + 1;
      }
    }

    /** Every register is the last value written to it at or before `clnum`, or 0. */
    method FetchRegisters(ghost file: seq<Change>, clnum: nat) returns (ret: seq<nat>)
      requires Valid(file) && Ordered(file, entriesDone)
      ensures |ret| == cfg.registerCount
      ensures forall r :: 0 <= r < |ret| ==>
                ret[r] == match RegisterReplayed(cfg, file, entriesDone, clnum, r) case None => 0 case Some(v) => v
    {
      ret := [];
      for i := 0 to cfg.registerCount
        invariant |ret| == i
        invariant forall r :: 0 <= r < i ==>
                    ret[r] == match RegisterReplayed(cfg, file, entriesDone, clnum, r) case None => 0 case Some(v) => v
      {
        RegistersAreReplay(cfg, file, entriesDone, clnum, i);
        match Floor(registers[i].Keys, clnum)
        case None => ret := ret + [0];
        case Some(c) => ret := ret + [registers[i][c]];
      }
    }

    /** A changelist with an instruction record comes back whole, or its first `limit` records. */
    method FetchChangesByClnum(file: seq<Change>, clnum: nat, limit: nat) returns (ret: seq<Change>)
      requires Valid(file) && Shaped(file, entriesDone)
      ensures InstructionEntry(file, entriesDone, clnum) != 0 ==> ret == FirstOf(OfChangelist(file, entriesDone, clnum), limit)
      ensures InstructionEntry(file, entriesDone, clnum) == 0 ==> ret == []
    {
      InstructionIndexIsExact(cfg, file, entriesDone, clnum);
      FetchedIsChangelist(file, entriesDone, clnum, limit);
      ret := [];
      var en := 0;
      if clnum < |clnumToEntry| {
        en := clnumToEntry[clnum];
      }
      if en != 0 {
        ret := CopyRun(file, en, clnum, limit);
      }
    }

    /** The records from entry `en` on, as long as they are of this changelist. */
    method CopyRun(file: seq<Change>, en: nat, clnum: nat, limit: nat) returns (ret: seq<Change>)
      requires en <= entriesDone <= |file|
      ensures ret == FirstOf(file[en..EndOfRun(file, en, entriesDone, clnum)], limit)
    {
      ghost var end := EndOfRun(file, en, entriesDone, clnum);
      RunIs(file, en, entriesDone, clnum);
      ret := [];
      var i := 0;
      while limit == 0 || i < limit
        invariant 0 <= i && en + i <= end && ret == file[en..en + i] && (limit == 0 || i <= limit)
        decreases entriesDone - (en + i)
      {
        if en + i >= entriesDone { break; }
        if file[en + i].clnum != clnum { break; }
        OneLonger(file, en, en + i);
        ret := ret + [file[en + i]];
        i := i + 1;
      }
      assert en + i < end ==> i == limit && file[en..end][..limit] == file[en..en + i];
    }

    /** The changelists in [start, end) with a record of this address and type, ascending; at most `limit` unless 0. */
    method FetchClnumsByAddressAndType(ghost file: seq<Change>, address: nat, kind: Kind, start: nat, end: nat, limit: nat)
      returns (ret: seq<nat>)
      requires Valid(file)
      ensures forall i, j :: 0 <= i < j < |ret| ==> ret[i] < ret[j]
      ensures forall c :: c in ret ==> start <= c < end && Occurs(file, entriesDone, (address, kind), c)
      ensures limit != 0 ==> |ret| <= limit
      // nothing is left out below the last one returned, and nothing at all unless the limit was met
      ensures forall c :: start <= c < end && Occurs(file, entriesDone, (address, kind), c) && c !in ret ==>
                limit != 0 && |ret| == limit && ret[|ret| - 1] < c
    {
      ret := [];
      var clnums := if (address, kind) in addressType then addressType[(address, kind)] else {};
      assert clnums == ClnumsOf(Ingested(cfg, file, entriesDone), (address, kind));
      forall c: nat ensures c in clnums <==> Occurs(file, entriesDone, (address, kind), c) {
        AddressTypeIsExact(cfg, file, entriesDone, (address, kind), c);
      }
      var at := start;
      while at < end
        invariant start <= at && (start <= end ==> at <= end)
        invariant forall i, j :: 0 <= i < j < |ret| ==> ret[i] < ret[j]
        invariant forall c :: c in ret <==> start <= c < at && c in clnums
        invariant forall c :: c in ret ==> start <= c < end && Occurs(file, entriesDone, (address, kind), c)
        invariant limit != 0 ==> |ret| < limit
      {
        assert forall i :: 0 <= i < |ret| ==> ret[i] in ret;
        if at in clnums {
          ghost var before := ret;
          ret := ret + [at];
          assert forall c :: c in ret <==> c in before || c == at;
          if |ret| == limit { break; }
        }
        at := at + 1;
      }
    }
  }

  /** A byte with its valid bit: 0 if no record has touched it. */
  function Reported(b: Option<Byte>): nat {
    match b
    case None => 0
    case Some(v) => MEMORY_VALID + v
  }

  /** Bit 8 says that the byte is known. */
  lemma ReportedIs(b: Option<Byte>)
    ensures Reported(b) == if b.None? then 0 else 0x100 + b.value
    ensures (Reported(b) / 0x100 == 1 <==> b.Some?) && (b.Some? ==> Reported(b) % 0x100 == b.value)
  {
  }

  /** How many bytes FetchMemory walks over, its end address computed in 64 bits. */
  function Span(address: nat, len: int): nat {
    var end := (address + len) % U64;
    if end <= address then 0 else end - address
  }

  /** The requested length comes back exactly when the range does not wrap. */
  lemma SpanIsLengthIff(address: nat, len: int)
    requires address < U64 && -0x8000_0000 <= len < 0x8000_0000
    ensures Span(address, len) == len <==> len == 0 || (len > 0 && address + len < U64)
  {
  }

  // ---------- batches ----------

  /** Where the database stands after a round in which the header promised `entryCount`. */
  function NextDone(done: nat, entryCount: nat): nat {
    if done >= entryCount then done else if done + BATCH < entryCount then done + BATCH else entryCount
  }

  function DoneAfterAll(done: nat, counts: seq<nat>): nat {
    if counts == [] then done
    else NextDone(DoneAfterAll(done, counts[..|counts| - 1]), counts[|counts| - 1])
  }

  /** Round `i` has something to do and starts where the clamp wraps. */
  predicate RoundWraps(done: nat, counts: seq<nat>, i: nat)
    requires i < |counts|
  {
    DoneAfterAll(done, counts[..i]) < counts[i] && DoneAfterAll(done, counts[..i]) + BATCH >= U32
  }

  /** As long as the file grows, the database never runs ahead of it. */
  lemma {:induction false} NeverAhead(done: nat, counts: seq<nat>)
    requires counts != [] && done <= counts[0] && forall i, j :: 0 <= i <= j < |counts| ==> counts[i] <= counts[j]
    ensures done <= DoneAfterAll(done, counts) <= counts[|counts| - 1]
  {
    var n := |counts| - 1;
    if n > 0 {
      NeverAhead(done, counts[..n]);
    } else {
      assert DoneAfterAll(done, counts[..0]) == done;
    }
  }

  function Same(entryCount: nat, rounds: nat): (counts: seq<nat>)
    ensures |counts| == rounds && forall i :: 0 <= i < rounds ==> counts[i] == entryCount
  {
    seq(rounds, i => entryCount)
  }

  /** A file that has stopped growing is ingested whole after finitely many rounds, and not before. */
  lemma {:induction false} RoundsReachTheEnd(done: nat, entryCount: nat, rounds: nat)
    requires done <= entryCount
    ensures DoneAfterAll(done, Same(entryCount, rounds)) == if done + 1_000_000 * rounds < entryCount then done + 1_000_000 * rounds else entryCount
  {
    if rounds > 0 {
      RoundsReachTheEnd(done, entryCount, rounds - 1);
      assert Same(entryCount, rounds)[..rounds - 1] == Same(entryCount, rounds - 1);
    }
  }
}
