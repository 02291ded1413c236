/**
 The trace database as a value: how one record changes the indexes, and what the
 indexes then mean.  Entry numbers are positions in the log file; entry 0 is the
 file's header and is never ingested.
 */
module TraceIndex {
  import opened Prelude
  import opened TraceLog
  import opened ByteStores

  /** One byte address, or one register: the values it took, by changelist. */
  type Cell<V> = map<nat, V>

  datatype Config = Config(bigEndian: bool, registerSize: nat, registerCount: nat)

  datatype Db = Db(
    memory: map<nat, Cell<Byte>>,
    registers: seq<Cell<nat>>,
    clnumToEntry: seq<nat>,
    addressType: map<(nat, Kind), set<nat>>)

  function EmptyDb(cfg: Config): Db {
    Db(map[], seq(cfg.registerCount, i => map[]), [], map[])
  }

  // ---------- ingesting one record ----------

  predicate IsMemory(c: Change) {
    TypeOf(c.flags) == Load || TypeOf(c.flags) == Store
  }

  function ByteCount(c: Change): nat { c.flags.size / 8 }

  /** The address of the byte committed `k`-th. */
  function Place(c: Change, big: bool, k: nat): nat
    requires k < ByteCount(c)
  {
    (c.address + if big then ByteCount(c) - 1 - k else k) % U64
  }

  function CellOf<V>(m: map<nat, Cell<V>>, a: nat): Cell<V> {
    if a in m then m[a] else map[]
  }

  function CommitByte(m: map<nat, Cell<Byte>>, clnum: nat, a: nat, d: Byte): map<nat, Cell<Byte>> {
    m[a := CellOf(m, a)[clnum := d]]
  }

  /** The first `n` byte commits of a memory record. */
  function CommitBytes(m: map<nat, Cell<Byte>>, c: Change, big: bool, n: nat): map<nat, Cell<Byte>>
    requires n <= ByteCount(c)
  {
    if n == 0 then m
    else CommitByte(CommitBytes(m, c, big, n - 1), c.clnum, Place(c, big, n - 1), DataByte(c.data, n - 1))
  }

  function PushInstruction(index: seq<nat>, clnum: nat, entry: nat): seq<nat> {
    (if |index| < clnum then index + seq(clnum - |index|, i => 0) else index) + [entry]
  }

  function SetRegister(regs: seq<Cell<nat>>, r: nat, clnum: nat, data: nat): seq<Cell<nat>>
    requires r < |regs|
  {
    var cell: Cell<nat> := regs[r][clnum := data];
    regs[r := cell]
  }

  predicate IsRegister(cfg: Config, c: Change) {
    TypeOf(c.flags) == Write && c.address < cfg.registerSize * cfg.registerCount
  }

  lemma RegisterInRange(cfg: Config, c: Change)
    requires IsRegister(cfg, c)
    ensures cfg.registerSize > 0 && c.address / cfg.registerSize < cfg.registerCount
  {
  }

  function Ingest(cfg: Config, db: Db, entry: nat, c: Change): (r: Db)
    requires |db.registers| == cfg.registerCount
    ensures |r.registers| == cfg.registerCount
  {
    var kind := TypeOf(c.flags);
    var key := (c.address, kind);
    var clnums := if key in db.addressType then db.addressType[key] else {};
    Db(if IsMemory(c) then CommitBytes(db.memory, c, cfg.bigEndian, ByteCount(c)) else db.memory,
       if IsRegister(cfg, c) then
         RegisterInRange(cfg, c);
         SetRegister(db.registers, c.address / cfg.registerSize, c.clnum, c.data)
       else db.registers,
       if kind == Instruction then PushInstruction(db.clnumToEntry, c.clnum, entry) else db.clnumToEntry,
       db.addressType[key := clnums + {c.clnum}])
  }

  /** One pass over the entries below `n`. */
  function Ingested(cfg: Config, file: seq<Change>, n: nat): (db: Db)
    requires 1 <= n <= |file|
    ensures |db.registers| == cfg.registerCount
  {
    if n == 1 then EmptyDb(cfg) else Ingest(cfg, Ingested(cfg, file, n - 1), n - 1, file[n - 1])
  }

  lemma {:induction false} IngestedPrefix(cfg: Config, file: seq<Change>, wider: seq<Change>, n: nat)
    requires 1 <= n <= |file| <= |wider| && file[..n] == wider[..n]
    ensures Ingested(cfg, file, n) == Ingested(cfg, wider, n)
  {
    if n > 1 {
      assert file[..n - 1] == file[..n][..n - 1] && wider[..n - 1] == wider[..n][..n - 1];
      assert file[n - 1] == file[..n][n - 1] == wider[..n][n - 1];
      IngestedPrefix(cfg, file, wider, n - 1);
    }
  }

  // ---------- the last value at or before a changelist ----------

  /** The greatest key that is at most `k`. */
  function Floor(keys: set<nat>, k: nat): (r: Option<nat>)
    ensures r.Some? ==> r.value in keys && r.value <= k && forall c :: c in keys && c <= k ==> c <= r.value
    ensures r.None? ==> forall c :: c in keys ==> c > k
  {
    if k in keys then Some(k) else if k == 0 then None else Floor(keys, k - 1)
  }

  function At<V>(cell: Cell<V>, k: nat): Option<V> {
    match Floor(cell.Keys, k)
    case None => None
    case Some(c) => Some(cell[c])
  }

  /** A value entered at the newest changelist is what is found from there on, and nothing before changes. */
  lemma AtNewest<V>(cell: Cell<V>, clnum: nat, v: V, k: nat)
    requires forall c :: c in cell ==> c <= clnum
    ensures At(cell[clnum := v], k) == if clnum <= k then Some(v) else At(cell, k)
  {
    var wider := cell[clnum := v];
    assert wider.Keys == cell.Keys + {clnum};
    if clnum <= k {
      assert clnum in wider.Keys;
    }
  }

  // ---------- memory: naive replay ----------

  /** The byte a memory record says address `a` holds, if it covers `a`. */
  function ByteAt(c: Change, big: bool, a: nat): Option<Byte> {
    var d := (a - c.address) % U64;
    var n := ByteCount(c);
    if d < n then Some(DataByte(c.data, if big then n - 1 - d else d)) else None
  }

  /** What the last of the entries below `n` numbered at most `k` says, among those that say something. */
  function LastSeen<V>(file: seq<Change>, n: nat, k: nat, sees: Change -> Option<V>): Option<V>
    requires n <= |file|
  {
    if n <= 1 then None
    else
      var c := file[n - 1];
      if c.clnum <= k && sees(c).Some? then sees(c) else LastSeen(file, n - 1, k, sees)
  }

  /** What a load or store record says of address `a`. */
  function MemorySees(big: bool, a: nat): Change -> Option<Byte> {
    (c: Change) => if IsMemory(c) then ByteAt(c, big, a) else None
  }

  /** Address `a` after replaying, one by one, the load and store records below `n` numbered at most `k`. */
  function Replayed(file: seq<Change>, big: bool, n: nat, k: nat, a: nat): Option<Byte>
    requires n <= |file|
  {
    LastSeen(file, n, k, MemorySees(big, a))
  }

  /** What a 32-bit record says of the four addresses from its own on, for either endianness, and of no other. */
  lemma WordRecord(c: Change, b0: Byte, b1: Byte, b2: Byte, b3: Byte, a: nat)
    requires c.flags.size == 32 && c.data == Word(b0, b1, b2, b3) && c.address + 4 <= U64 && a < U64
    ensures a == c.address ==> ByteAt(c, false, a) == Some(b0) && ByteAt(c, true, a) == Some(b3)
    ensures a == c.address + 1 ==> ByteAt(c, false, a) == Some(b1) && ByteAt(c, true, a) == Some(b2)
    ensures a == c.address + 2 ==> ByteAt(c, false, a) == Some(b2) && ByteAt(c, true, a) == Some(b1)
    ensures a == c.address + 3 ==> ByteAt(c, false, a) == Some(b3) && ByteAt(c, true, a) == Some(b0)
    ensures a < c.address || a >= c.address + 4 ==> ByteAt(c, false, a) == None && ByteAt(c, true, a) == None
  {
    WordBytes(b0, b1, b2, b3);
    if a < c.address {
      assert (a - c.address) % U64 == a - c.address + U64;
    } else {
      assert (a - c.address) % U64 == a - c.address;
    }
  }

  /** The entries below `n` have nondecreasing changelist numbers. */
  ghost predicate Ordered(file: seq<Change>, n: nat) {
    n <= |file| && forall i, j :: 1 <= i <= j < n ==> file[i].clnum <= file[j].clnum
  }

  lemma PlaceIs(c: Change, big: bool, k: nat, a: nat)
    requires k < ByteCount(c) < U64 && a < U64
    ensures Place(c, big, k) == a <==>
            (a - c.address) % U64 == if big then ByteCount(c) - 1 - k else k
  {
    var p := if big then ByteCount(c) - 1 - k else k;
    ModBack(c.address, p, a);
  }

  lemma ModBack(x: nat, p: nat, a: nat)
    requires p < U64 && a < U64
    ensures (x + p) % U64 == a <==> (a - x) % U64 == p
  {
    var q := (x + p) / U64;
    assert x + p == U64 * q + (x + p) % U64;
    var r := (a - x) / U64;
    assert a - x == U64 * r + (a - x) % U64;
  }

  /** Byte `a` after the first `n` commits of record `c`, numbered `clnum`. */
  lemma {:induction false} CommitBytesAt(m: map<nat, Cell<Byte>>, c: Change, big: bool, n: nat, a: nat)
    requires n <= ByteCount(c) < U64 && a < U64
    ensures var k := Order(c, big, a);
            CellOf(CommitBytes(m, c, big, n), a) ==
            if k.Some? && k.value < n then CellOf(m, a)[c.clnum := DataByte(c.data, k.value)] else CellOf(m, a)
  {
    if n > 0 {
      CommitBytesAt(m, c, big, n - 1, a);
      PlaceIs(c, big, n - 1, a);
    }
  }

  /** When, among the commits of `c`, address `a` is written. */
  function Order(c: Change, big: bool, a: nat): Option<nat> {
    var d := (a - c.address) % U64;
    var n := ByteCount(c);
    if d >= n then None else Some(if big then n - 1 - d else d)
  }

  /** The sizes a one-byte field can hold. */
  ghost predicate Sized(file: seq<Change>) {
    forall i :: 1 <= i < |file| ==> file[i].flags.size < 256
  }

  /** Ingesting a record enters its bytes at its changelist and leaves every other cell alone. */
  lemma IngestMemory(cfg: Config, db: Db, entry: nat, c: Change, a: nat)
    requires |db.registers| == cfg.registerCount && c.flags.size < 256 && a < U64
    ensures CellOf(Ingest(cfg, db, entry, c).memory, a) ==
            if IsMemory(c) && ByteAt(c, cfg.bigEndian, a).Some? then
              CellOf(db.memory, a)[c.clnum := ByteAt(c, cfg.bigEndian, a).value]
            else CellOf(db.memory, a)
  {
    CommitBytesAt(db.memory, c, cfg.bigEndian, ByteCount(c), a);
  }

  /** Get_byte as the database does it agrees with naive replay, and no cell runs ahead of the log. */
  lemma {:induction false} MemoryIsReplay(cfg: Config, file: seq<Change>, n: nat, k: nat, a: nat)
    requires 1 <= n <= |file| && Ordered(file, n) && Sized(file) && a < U64
    ensures At(CellOf(Ingested(cfg, file, n).memory, a), k) == Replayed(file, cfg.bigEndian, n, k, a)
    ensures forall c :: c in CellOf(Ingested(cfg, file, n).memory, a) ==> n > 1 && c <= file[n - 1].clnum
  {
    if n > 1 {
      MemoryIsReplay(cfg, file, n - 1, k, a);
      var db, c := Ingested(cfg, file, n - 1), file[n - 1];
      IngestMemory(cfg, db, n - 1, c, a);
      assert forall x :: x in CellOf(db.memory, a) ==> x <= c.clnum;
      if IsMemory(c) && ByteAt(c, cfg.bigEndian, a).Some? {
        AtNewest(CellOf(db.memory, a), c.clnum, ByteAt(c, cfg.bigEndian, a).value, k);
      }
    }
  }

  // ---------- registers ----------

  predicate WritesRegister(cfg: Config, c: Change, r: nat) {
    IsRegister(cfg, c) && c.address / cfg.registerSize == r
  }

  /** What a register-write record says of register `r`. */
  function RegisterSees(cfg: Config, r: nat): Change -> Option<nat> {
    (c: Change) => if WritesRegister(cfg, c, r) then Some(c.data) else None
  }

  /** Register `r` after replaying the register writes below `n` numbered at most `k`. */
  function RegisterReplayed(cfg: Config, file: seq<Change>, n: nat, k: nat, r: nat): Option<nat>
    requires n <= |file|
  {
    LastSeen(file, n, k, RegisterSees(cfg, r))
  }

  lemma {:induction false} RegistersAreReplay(cfg: Config, file: seq<Change>, n: nat, k: nat, r: nat)
    requires 1 <= n <= |file| && Ordered(file, n) && r < cfg.registerCount
    ensures At(Ingested(cfg, file, n).registers[r], k) == RegisterReplayed(cfg, file, n, k, r)
    ensures forall c :: c in Ingested(cfg, file, n).registers[r] ==> n > 1 && c <= file[n - 1].clnum
  {
    if n > 1 {
      RegistersAreReplay(cfg, file, n - 1, k, r);
      var db, c := Ingested(cfg, file, n - 1), file[n - 1];
      assert forall x :: x in db.registers[r] ==> x <= c.clnum;
      if WritesRegister(cfg, c, r) {
        AtNewest(db.registers[r], c.clnum, c.data, k);
      }
    }
  }

  // ---------- changelists by address and type ----------

  ghost predicate Occurs(file: seq<Change>, n: nat, key: (nat, Kind), clnum: nat)
    requires n <= |file|
  {
    exists i :: 1 <= i < n && (file[i].address, TypeOf(file[i].flags)) == key && file[i].clnum == clnum
  }

  function ClnumsOf(db: Db, key: (nat, Kind)): set<nat> {
    if key in db.addressType then db.addressType[key] else {}
  }

  lemma {:induction false} AddressTypeIsExact(cfg: Config, file: seq<Change>, n: nat, key: (nat, Kind), clnum: nat)
    requires 1 <= n <= |file|
    ensures clnum in ClnumsOf(Ingested(cfg, file, n), key) <==> Occurs(file, n, key, clnum)
  {
    if n > 1 {
      AddressTypeIsExact(cfg, file, n - 1, key, clnum);
      var c := file[n - 1];
      if (c.address, TypeOf(c.flags)) == key && c.clnum == clnum {
        assert Occurs(file, n, key, clnum);
      }
    }
  }

  // ---------- the instruction index ----------

  /** Every instruction record below `n` is numbered above all entries before it. */
  ghost predicate InstructionsOpen(file: seq<Change>, n: nat) {
    n <= |file| && forall i, j :: 1 <= i < j < n && TypeOf(file[j].flags) == Instruction ==> file[i].clnum < file[j].clnum
  }

  /** The entry of changelist `k`'s instruction record, or 0. */
  function InstructionEntry(file: seq<Change>, n: nat, k: nat): (e: nat)
    requires n <= |file|
    ensures e != 0 ==> 1 <= e < n && file[e].clnum == k && TypeOf(file[e].flags) == Instruction
    ensures e == 0 ==> forall i :: 1 <= i < n ==> !(file[i].clnum == k && TypeOf(file[i].flags) == Instruction)
  {
    if n <= 1 then 0
    else if file[n - 1].clnum == k && TypeOf(file[n - 1].flags) == Instruction then n - 1
    else InstructionEntry(file, n - 1, k)
  }

  function Lookup(index: seq<nat>, k: nat): nat {
    if k < |index| then index[k] else 0
  }

  /** On a well-shaped log the vector holds exactly the instruction entries, zero elsewhere. */
  lemma {:induction false} InstructionIndexIsExact(cfg: Config, file: seq<Change>, n: nat, k: nat)
    requires 1 <= n <= |file| && InstructionsOpen(file, n)
    ensures var index := Ingested(cfg, file, n).clnumToEntry;
            && Lookup(index, k) == InstructionEntry(file, n, k)
            && (index != [] ==> exists i :: 1 <= i < n && file[i].clnum + 1 == |index|)
  {
    if n > 1 {
      InstructionIndexIsExact(cfg, file, n - 1, k);
      var index := Ingested(cfg, file, n - 1).clnumToEntry;
      if TypeOf(file[n - 1].flags) == Instruction {
        assert |index| <= file[n - 1].clnum;
        assert file[n - 1].clnum + 1 == |Ingested(cfg, file, n).clnumToEntry|;
      }
    }
  }
}
