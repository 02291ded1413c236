/**
 What a store-exclusive does, in terms of the fields of the instruction: its size, the register that
 takes the result and the registers that hold the value.
 */
module StrexFields {
  import opened Prelude
  import opened ByteStores
  import opened StoreExclusive

  /** The packed operand word: the size and three register numbers, four bits each. */
  predicate Operands(env: Env, size: nat, rd: nat, lo: nat, hi: nat) {
    size < 16 && rd < 16 && lo < 16 && hi < 16 && env.info == size + 16 * rd + 256 * lo + 4096 * hi
  }

  lemma OperandsAre(env: Env, size: nat, rd: nat, lo: nat, hi: nat)
    requires Operands(env, size, rd, lo, hi)
    ensures env.Size() == size && env.Rd() == rd && env.LowReg() == lo && env.HighReg() == hi
  {
    var a := env.info / 16;
    assert a == rd + 16 * lo + 256 * hi;
    var b := env.info / 256;
    assert b == lo + 16 * hi;
    assert env.info / 4096 == hi;
  }

  /** The number of bytes at the address itself. */
  function Width(size: nat): nat {
    if size == 0 then 1 else if size == 1 then 2 else 4
  }

  /** The word after the one at `a`, in a 32-bit address space. */
  function NextWord(a: nat): nat {
    if a + 4 < 0x1_0000_0000 then a + 4 else a + 4 - 0x1_0000_0000
  }

  lemma AccessIs(env: Env, size: nat)
    requires env.Size() == size && env.exclusiveAddr < U32
    ensures env.Width() == Width(size) && env.HighAddr() == NextWord(env.exclusiveAddr)
  {
  }

  lemma WordBound(bytes: Bytes, a: int)
    requires Mapped(bytes.Keys, a, 4)
    ensures Peek(bytes, a, 4) < 0x1_0000_0000
  {
    assert Peek(bytes, a + 3, 1) == bytes[a + 3] + 256 * Peek(bytes, a + 4, 0);
    assert Peek(bytes, a + 2, 2) == bytes[a + 2] + 256 * Peek(bytes, a + 3, 1);
    assert Peek(bytes, a + 1, 3) == bytes[a + 1] + 256 * Peek(bytes, a + 2, 2);
  }

  lemma WordsApart(low: nat, high: nat, l: nat, h: nat)
    requires low < U32 && l < U32 && low + U32 * high == l + U32 * h
    ensures low == l && high == h
  {
  }

  lemma TwoWords(low: nat, high: nat, v: nat)
    requires low < U32
    ensures low + U32 * high == v <==> low == v % U32 && high == v / U32
  {
    assert v == v % U32 + U32 * (v / U32);
    if low + U32 * high == v {
      WordsApart(low, high, v % U32, v / U32);
    }
  }

  /** Memory holds the monitored value: a doubleword as two words, the low one first. */
  predicate Unchanged(env: Env, m: Memory, size: nat) {
    if size == 3 then
      Load(m, env.exclusiveAddr, 4) == Some(env.exclusiveVal % 0x1_0000_0000)
      && Load(m, NextWord(env.exclusiveAddr), 4) == Some(env.exclusiveVal / 0x1_0000_0000)
    else Load(m, env.exclusiveAddr, Width(size)) == Some(env.exclusiveVal)
  }

  predicate MayStore(env: Env, m: Memory, size: nat) {
    Mapped(m.writable, env.exclusiveAddr, Width(size)) && (size == 3 ==> Mapped(m.writable, NextWord(env.exclusiveAddr), 4))
  }

  lemma UnchangedIff(env: Env, m: Memory, size: nat)
    requires env.Size() == size <= 3 && env.exclusiveAddr < U32
    ensures Monitored(env, m) == Some(env.exclusiveVal) <==> Unchanged(env, m, size)
  {
    AccessIs(env, size);
    if size == 3 && Load(m, env.exclusiveAddr, 4).Some? && Load(m, env.HighAddr(), 4).Some? {
      WordBound(m.bytes, env.exclusiveAddr);
      TwoWords(Load(m, env.exclusiveAddr, 4).value, Load(m, env.HighAddr(), 4).value, env.exclusiveVal);
    }
  }

  lemma SucceedsIff(env: Env, m: Memory, size: nat)
    requires env.Size() == size <= 3
    ensures Strex(env, m).at == Done(Succeeded) <==>
            env.exclusiveAddr == env.exclusiveTest < 0x1_0000_0000 && Unchanged(env, m, size) && MayStore(env, m, size)
  {
    StrexSwapsIff(env, m);
    if env.exclusiveAddr < U32 {
      AccessIs(env, size);
      UnchangedIff(env, m, size);
    }
  }

  /** It succeeds if and only if the monitor stands, the value is unchanged and all of it may be written. */
  lemma StrexSucceedsIff(env: Env, m: Memory, size: nat, rd: nat, lo: nat, hi: nat)
    requires Operands(env, size, rd, lo, hi) && size <= 3
    ensures Strex(env, m).at == Done(Succeeded) <==>
            env.exclusiveAddr == env.exclusiveTest < 0x1_0000_0000 && Unchanged(env, m, size) && MayStore(env, m, size)
  {
    OperandsAre(env, size, rd, lo, hi);
    SucceedsIff(env, m, size);
  }

  lemma Truncated(v: nat)
    ensures Truncate(v, 1) == v % 0x100 && Truncate(v, 2) == v % 0x1_0000
  {
    assert Truncate(v / 256, 1) == v / 256 % 256;
    var q := v / 256 / 256;
    assert v / 256 == 256 * q + v / 256 % 256;
    assert v == 65536 * q + (256 * (v / 256 % 256) + v % 256);
  }

  /** Memory holds `l`, cut to the size, at the address, and for a doubleword `h` in the next word. */
  ghost predicate Holds(m: Memory, a: nat, size: nat, l: nat, h: nat) {
    && (size == 0 ==> Load(m, a, 1) == Some(l % 0x100))
    && (size == 1 ==> Load(m, a, 2) == Some(l % 0x1_0000))
    && (size >= 2 ==> Load(m, a, 4) == Some(l))
    && (size == 3 ==> Load(m, NextWord(a), 4) == Some(h))
  }

  lemma MonitoredHolds(env: Env, m: Memory, size: nat, l: nat, h: nat)
    requires env.Size() == size <= 3 && env.exclusiveAddr < U32 && l < U32
    requires Monitored(env, m) == Some(Truncate(l, env.Width()) + if size == 3 then U32 * h else 0)
    ensures Holds(m, env.exclusiveAddr, size, l, h)
  {
    AccessIs(env, size);
    Truncated(l);
    WordFits(l);
    if size == 3 {
      WordBound(m.bytes, env.exclusiveAddr);
      WordsApart(Load(m, env.exclusiveAddr, 4).value, Load(m, env.HighAddr(), 4).value, l, h);
    }
  }

  /** A success stores register `lo`, cut to the size, at the address; a doubleword also register `hi` in the next word. */
  lemma StrexStoresRegisters(env: Env, m: Memory, size: nat, rd: nat, lo: nat, hi: nat)
    requires Operands(env, size, rd, lo, hi) && size <= 3 && Strex(env, m).at == Done(Succeeded)
    ensures Holds(Strex(env, m).mem, env.exclusiveAddr, size, env.regs[lo], env.regs[hi])
  {
    OperandsAre(env, size, rd, lo, hi);
    SucceedsIff(env, m, size);
    StrexStores(env, m);
    MonitoredHolds(env, Strex(env, m).mem, size, env.regs[lo], env.regs[hi]);
  }

  predicate Outside(env: Env, size: nat, b: nat) {
    && (b < env.exclusiveAddr || env.exclusiveAddr + Width(size) <= b)
    && (size == 3 ==> b < NextWord(env.exclusiveAddr) || NextWord(env.exclusiveAddr) + 4 <= b)
  }

  lemma OutsideIs(env: Env, size: nat, b: nat)
    requires env.Size() == size && env.exclusiveAddr < U32 && Outside(env, size, b)
    ensures !InAccess(env, b)
  {
    AccessIs(env, size);
  }

  /** A success changes no byte but those of the access. */
  lemma StrexKeepsTheRest(env: Env, m: Memory, size: nat, rd: nat, lo: nat, hi: nat, b: nat)
    requires Operands(env, size, rd, lo, hi) && size <= 3 && Strex(env, m).at == Done(Succeeded)
    requires b in m.bytes && Outside(env, size, b)
    ensures b in Strex(env, m).mem.bytes && Strex(env, m).mem.bytes[b] == m.bytes[b]
  {
    OperandsAre(env, size, rd, lo, hi);
    SucceedsIff(env, m, size);
    OutsideIs(env, size, b);
    StrexStores(env, m);
  }

  /** What the instruction leaves in the registers: the result, the next instruction, and everything else as it was. */
  ghost predicate Reports(env: Env, env': Env, rd: nat, result: nat)
    requires rd < 16
  {
    && env'.regs[rd] == result
    && (rd != 15 ==> env'.regs[15] == (env.regs[15] + 4) % 0x1_0000_0000)
    && (forall i :: 0 <= i < 16 && i != rd && i != 15 ==> env'.regs[i] == env.regs[i])
    && env' == env.(regs := env'.regs)
  }

  lemma FinishedReports(env: Env, ok: bool, size: nat, rd: nat, lo: nat, hi: nat)
    requires Operands(env, size, rd, lo, hi)
    ensures Reports(env, Finished(env, ok), rd, if ok then 0 else 1)
  {
    OperandsAre(env, size, rd, lo, hi);
  }

  /** Register `rd` is 0 on success and 1 on failure; a fault leaves all registers alone. */
  lemma StrexReports(env: Env, m: Memory, size: nat, rd: nat, lo: nat, hi: nat)
    requires Operands(env, size, rd, lo, hi)
    ensures var r := Strex(env, m);
            match r.at.outcome
            case Succeeded => Reports(env, r.env, rd, 0)
            case Failed => Reports(env, r.env, rd, 1)
            case _ => r.env == env
  {
    FinishedReports(env, true, size, rd, lo, hi);
    FinishedReports(env, false, size, rd, lo, hi);
    if Armed(env) {
      ArmedRuns(env, m);
    } else if env.exclusiveAddr != env.exclusiveTest {
      DisarmedRuns(env, m);
    } else {
      var c := MicroStep(Config(Test, env, m));
      assert Strex(env, m) == Run(c) && Run(c) == c;
    }
  }

  /** Where it faults: at the word it cannot read, or else at the first it cannot write. */
  lemma StrexFaultsAt(env: Env, m: Memory, size: nat, rd: nat, lo: nat, hi: nat)
    requires Operands(env, size, rd, lo, hi) && size <= 3 && env.exclusiveAddr == env.exclusiveTest < 0x1_0000_0000
    ensures var r, a := Strex(env, m).at, env.exclusiveAddr;
            if Load(m, a, Width(size)).None? then r == Done(Segv(a))
            else if size == 3 && Load(m, NextWord(a), 4).None? then r == Done(Segv(NextWord(a)))
            else if !Unchanged(env, m, size) then r == Done(Failed)
            else if !Mapped(m.writable, a, Width(size)) then r == Done(Segv(a))
            else if size == 3 && !Mapped(m.writable, NextWord(a), 4) then r == Done(Segv(NextWord(a)))
            else r == Done(Succeeded)
  {
    OperandsAre(env, size, rd, lo, hi);
    ArmedRuns(env, m);
    UnchangedIff(env, m, size);
  }

  /** An example with all registers different: 7, from register 1, goes to memory; register 0 takes the result. */
  lemma StoresTheRightRegister(env: Env, m: Memory)
    requires env.info == 0x102 && env.exclusiveAddr == env.exclusiveTest == 0 && env.exclusiveVal == 0
    requires env.regs[0] == 5 && env.regs[1] == 7
    requires Load(m, 0, 4) == Some(0) && Mapped(m.writable, 0, 4)
    ensures Load(Strex(env, m).mem, 0, 4) == Some(7) && Strex(env, m).env.regs[0] == 0
  {
    assert Operands(env, 2, 0, 1, 0);
    StrexSucceedsIff(env, m, 2, 0, 1, 0);
    StrexStoresRegisters(env, m, 2, 0, 1, 0);
    StrexReports(env, m, 2, 0, 1, 0);
  }
}
