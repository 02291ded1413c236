/** The record format shared by the recorder, the replayer and the trace database. */
module TraceLog {
  /** The flags word: its five bits and the size in its low byte. */
  datatype Flags = Flags(valid: bool, write: bool, mem: bool, start: bool, syscall: bool, size: nat)

  datatype Change = Change(address: nat, data: nat, clnum: nat, flags: Flags)

  datatype Kind = Unknown | Instruction | Syscall | Store | Load | Write | Read

  /** The one-letter type of a record, in the order its bits are tested. */
  function TypeOf(f: Flags): Kind {
    if !f.valid then Unknown
    else if f.start then Instruction
    else if f.syscall then Syscall
    else if f.mem then (if f.write then Store else Load)
    else if f.write then Write
    else Read
  }

  /** The flags as they stand in the file: five bits from the top, and the size in the low byte. */
  function FlagWord(f: Flags): nat {
    (if f.valid then 0x8000_0000 else 0) + (if f.write then 0x4000_0000 else 0) + (if f.mem then 0x2000_0000 else 0)
    + (if f.start then 0x1000_0000 else 0) + (if f.syscall then 0x0800_0000 else 0) + f.size
  }

  function FlagsOf(w: nat): Flags {
    Flags(w / 0x8000_0000 % 2 == 1, w / 0x4000_0000 % 2 == 1, w / 0x2000_0000 % 2 == 1,
          w / 0x1000_0000 % 2 == 1, w / 0x0800_0000 % 2 == 1, w % 0x100)
  }

  lemma BitsOf(v: nat, w: nat, m: nat, s: nat, y: nat, size: nat)
    requires v < 2 && w < 2 && m < 2 && s < 2 && y < 2 && size < 256
    ensures FlagsOf(0x8000_0000 * v + 0x4000_0000 * w + 0x2000_0000 * m + 0x1000_0000 * s + 0x0800_0000 * y + size)
            == Flags(v == 1, w == 1, m == 1, s == 1, y == 1, size)
  {
    var word := 0x8000_0000 * v + 0x4000_0000 * w + 0x2000_0000 * m + 0x1000_0000 * s + 0x0800_0000 * y + size;
    var n4 := 2 * (2 * (2 * v + w) + m) + s;
    assert word / 0x0800_0000 == 2 * n4 + y;
    assert word / 0x1000_0000 == n4;
    assert word / 0x2000_0000 == 2 * (2 * v + w) + m;
    assert word / 0x4000_0000 == 2 * v + w;
    assert word / 0x8000_0000 == v;
    assert word % 0x100 == size;
  }

  lemma FlagsRoundTrip(f: Flags)
    requires f.size < 256
    ensures FlagsOf(FlagWord(f)) == f
  {
    BitsOf(if f.valid then 1 else 0, if f.write then 1 else 0, if f.mem then 1 else 0,
           if f.start then 1 else 0, if f.syscall then 1 else 0, f.size);
  }

  /** The words the recorder writes, for every size. */
  lemma WordFlags(size: nat)
    requires size < 256
    ensures FlagsOf(0x9000_0000 + size) == Flags(true, false, false, true, false, size)
    ensures FlagsOf(0x8800_0000 + size) == Flags(true, false, false, false, true, size)
    ensures FlagsOf(0xE000_0000 + size) == Flags(true, true, true, false, false, size)
    ensures FlagsOf(0xA000_0000 + size) == Flags(true, false, true, false, false, size)
    ensures FlagsOf(0xC000_0000 + size) == Flags(true, true, false, false, false, size)
    ensures FlagsOf(0x8000_0000 + size) == Flags(true, false, false, false, false, size)
  {
    BitsOf(1, 0, 0, 1, 0, size);
    BitsOf(1, 0, 0, 0, 1, size);
    BitsOf(1, 1, 1, 0, 0, size);
    BitsOf(1, 0, 1, 0, 0, size);
    BitsOf(1, 1, 0, 0, 0, size);
    BitsOf(1, 0, 0, 0, 0, size);
  }

  /** Their types; without the top bit a record has none. */
  lemma WordTypes(size: nat)
    requires size < 256
    ensures TypeOf(FlagsOf(0x9000_0000 + size)) == Instruction && TypeOf(FlagsOf(0x8800_0000 + size)) == Syscall
    ensures TypeOf(FlagsOf(0xE000_0000 + size)) == Store && TypeOf(FlagsOf(0xA000_0000 + size)) == Load
    ensures TypeOf(FlagsOf(0xC000_0000 + size)) == Write && TypeOf(FlagsOf(0x8000_0000 + size)) == Read
    ensures TypeOf(FlagsOf(0x7800_0000 + size)) == Unknown
  {
    WordFlags(size);
    BitsOf(0, 1, 1, 1, 1, size);
  }

  /** A record of zeroes, as left by memset and by growing the file. */
  const BLANK := Change(0, 0, 0, Flags(false, false, false, false, false, 0))

  /** Changelist numbers never go down. */
  ghost predicate Nondecreasing(log: seq<Change>) {
    forall i, j :: 0 <= i <= j < |log| ==> log[i].clnum <= log[j].clnum
  }

  /** An instruction record opens its changelist: everything before it has a smaller number. */
  ghost predicate OpensChangelist(log: seq<Change>) {
    forall i, j :: 0 <= i < j < |log| && TypeOf(log[j].flags) == Instruction ==> log[i].clnum < log[j].clnum
  }

  /** The shape the database relies on. */
  ghost predicate WellShaped(log: seq<Change>) {
    Nondecreasing(log) && OpensChangelist(log)
  }
}
