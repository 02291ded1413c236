/**
 The 32-bit ARM store-exclusive emulation, run inside the exclusive section.

 `Micro` breaks do_strex into its loads, its comparison and its stores, each of
 which is a step of its own in a system of many CPUs; `Strex` runs them to the
 end without interruption.
 */
module StoreExclusive {
  import opened Prelude
  import opened ByteStores

  type Regs = r: seq<nat> | |r| == 16 && (forall i :: 0 <= i < 16 ==> r[i] < U32) witness seq(16, _ => 0)

  /** Guest memory: the readable bytes, and which addresses may be written. */
  datatype Memory = Memory(bytes: Bytes, writable: set<int>)

  datatype Env = Env(regs: Regs, exclusiveAddr: nat, exclusiveTest: nat, exclusiveVal: nat, info: nat) {
    function Size(): nat { info % 16 }
    function Rd(): nat { info / 16 % 16 }
    function LowReg(): nat { info / 256 % 16 }
    function HighReg(): nat { info / 4096 % 16 }
    function Width(): nat { if Size() == 0 then 1 else if Size() == 1 then 2 else 4 }
    function HighAddr(): nat { (exclusiveAddr + 4) % U32 }
  }

  predicate Mapped(keys: set<int>, a: int, n: nat) {
    forall i :: a <= i < a + n ==> i in keys
  }

  function Peek(bytes: Bytes, a: int, n: nat): nat
    requires Mapped(bytes.Keys, a, n)
    decreases n
  {
    if n == 0 then 0 else bytes[a] + 256 * Peek(bytes, a + 1, n - 1)
  }

  function Load(m: Memory, a: nat, n: nat): Option<nat> {
    if Mapped(m.bytes.Keys, a, n) then Some(Peek(m.bytes, a, n)) else None
  }

  function Store(m: Memory, a: nat, n: nat, v: nat): Option<Memory> {
    if Mapped(m.writable, a, n) then Some(m.(bytes := Poke(m.bytes, Shape(a, n), v))) else None
  }

  // ---------- do_strex ----------

  datatype Outcome = Succeeded | Failed | Segv(vaddress: nat) | Aborted

  datatype Micro =
    | Test | LoadLow | LoadHigh(low: nat) | Compare(val: nat)
    | StoreLow | StoreHigh | Finish(ok: bool) | Done(outcome: Outcome)

  datatype Config = Config(at: Micro, env: Env, mem: Memory)

  function MicroStep(c: Config): Config {
    var env := c.env;
    match c.at
    case Test =>
      if env.exclusiveAddr != env.exclusiveTest then c.(at := Finish(false))
      else if env.exclusiveAddr >= U32 || env.Size() > 3 then c.(at := Done(Aborted))
      else c.(at := LoadLow)
    case LoadLow =>
      (match Load(c.mem, env.exclusiveAddr, env.Width())
       case None => c.(at := Done(Segv(env.exclusiveAddr)))
       case Some(v) => c.(at := if env.Size() == 3 then LoadHigh(v) else Compare(v)))
    case LoadHigh(low) =>
      (match Load(c.mem, env.HighAddr(), 4)
       case None => c.(at := Done(Segv(env.HighAddr())))
       case Some(high) => c.(at := Compare(low + U32 * high)))
    case Compare(v) => c.(at := if v != env.exclusiveVal then Finish(false) else StoreLow)
    case StoreLow =>
      (match Store(c.mem, env.exclusiveAddr, env.Width(), env.regs[env.LowReg()])
       case None => c.(at := Done(Segv(env.exclusiveAddr)))
       case Some(m) => c.(at := if env.Size() == 3 then StoreHigh else Finish(true), mem := m))
    case StoreHigh =>
      (match Store(c.mem, env.HighAddr(), 4, env.regs[env.HighReg()])
       case None => c.(at := Done(Segv(env.HighAddr())))
       case Some(m) => c.(at := Finish(true), mem := m))
    case Finish(ok) =>
      var stepped := env.regs[15 := (env.regs[15] + 4) % U32];
      c.(at := Done(if ok then Succeeded else Failed), env := env.(regs := stepped[env.Rd() := if ok then 0 else 1]))
    case Done(_) => c
  }

  function Left(m: Micro): nat {
    match m
    case Test => 7
    case LoadLow => 6
    case LoadHigh(_) => 5
    case Compare(_) => 4
    case StoreLow => 3
    case StoreHigh => 2
    case Finish(_) => 1
    case Done(_) => 0
  }

  /** Run to the end without interruption. */
  function Run(c: Config): (r: Config)
    ensures r.at.Done?
    decreases Left(c.at)
  {
    if c.at.Done? then c else Run(MicroStep(c))
  }

  function Strex(env: Env, mem: Memory): Config {
    Run(Config(Test, env, mem))
  }

  // ---------- what each stage comes to ----------

  /** The monitor still stands, for an access that is supported. */
  predicate Armed(env: Env) {
    env.exclusiveAddr == env.exclusiveTest < U32 && env.Size() <= 3
  }

  predicate LowWritable(env: Env, m: Memory) {
    Mapped(m.writable, env.exclusiveAddr, env.Width())
  }

  predicate HighWritable(env: Env, m: Memory) {
    env.Size() == 3 ==> Mapped(m.writable, env.HighAddr(), 4)
  }

  function Finished(env: Env, ok: bool): Env {
    env.(regs := env.regs[15 := (env.regs[15] + 4) % U32][env.Rd() := if ok then 0 else 1])
  }

  function Failing(env: Env, m: Memory): Config {
    Config(Done(Failed), Finished(env, false), m)
  }

  function AfterLow(env: Env, m: Memory): Config {
    if !HighWritable(env, m) then Config(Done(Segv(env.HighAddr())), env, m)
    else Config(Done(Succeeded), Finished(env, true),
                if env.Size() == 3 then m.(bytes := Poke(m.bytes, Shape(env.HighAddr(), 4), env.regs[env.HighReg()])) else m)
  }

  function LowStored(env: Env, m: Memory): Memory {
    m.(bytes := Poke(m.bytes, Shape(env.exclusiveAddr, env.Width()), env.regs[env.LowReg()]))
  }

  function Storing(env: Env, m: Memory): Config {
    if !LowWritable(env, m) then Config(Done(Segv(env.exclusiveAddr)), env, m) else AfterLow(env, LowStored(env, m))
  }

  function Comparing(env: Env, m: Memory, v: nat): Config {
    if v == env.exclusiveVal then Storing(env, m) else Failing(env, m)
  }

  /** With the low word read already. */
  function LoadingHigh(env: Env, m: Memory, low: nat): Config {
    match Load(m, env.HighAddr(), 4)
    case None => Config(Done(Segv(env.HighAddr())), env, m)
    case Some(high) => Comparing(env, m, low + U32 * high)
  }

  function Loading(env: Env, m: Memory): Config {
    match Load(m, env.exclusiveAddr, env.Width())
    case None => Config(Done(Segv(env.exclusiveAddr)), env, m)
    case Some(low) => if env.Size() == 3 then LoadingHigh(env, m, low) else Comparing(env, m, low)
  }

  lemma FinishRuns(env: Env, m: Memory, ok: bool)
    ensures Run(Config(Finish(ok), env, m)) == Config(Done(if ok then Succeeded else Failed), Finished(env, ok), m)
  {
    var c := MicroStep(Config(Finish(ok), env, m));
    assert Run(c) == c;
  }

  lemma StoreHighRuns(env: Env, m: Memory)
    requires env.Size() == 3
    ensures Run(Config(StoreHigh, env, m)) == AfterLow(env, m)
  {
    var c := MicroStep(Config(StoreHigh, env, m));
    assert Run(Config(StoreHigh, env, m)) == Run(c);
    FinishRuns(env, c.mem, true);
  }

  lemma StoreLowRuns(env: Env, m: Memory)
    ensures Run(Config(StoreLow, env, m)) == Storing(env, m)
  {
    var c := MicroStep(Config(StoreLow, env, m));
    assert Run(Config(StoreLow, env, m)) == Run(c);
    if c.at.StoreHigh? {
      StoreHighRuns(env, c.mem);
    } else {
      FinishRuns(env, c.mem, true);
    }
  }

  lemma CompareRuns(env: Env, m: Memory, v: nat)
    ensures Run(Config(Compare(v), env, m)) == Comparing(env, m, v)
  {
    var c := MicroStep(Config(Compare(v), env, m));
    assert Run(Config(Compare(v), env, m)) == Run(c);
    StoreLowRuns(env, m);
    FinishRuns(env, m, false);
  }

  lemma LoadHighRuns(env: Env, m: Memory, low: nat)
    ensures Run(Config(LoadHigh(low), env, m)) == LoadingHigh(env, m, low)
  {
    var c := MicroStep(Config(LoadHigh(low), env, m));
    assert Run(Config(LoadHigh(low), env, m)) == Run(c);
    if c.at.Compare? {
      CompareRuns(env, m, c.at.val);
    }
  }

  lemma LoadLowRuns(env: Env, m: Memory)
    ensures Run(Config(LoadLow, env, m)) == Loading(env, m)
  {
    var c := MicroStep(Config(LoadLow, env, m));
    assert Run(Config(LoadLow, env, m)) == Run(c);
    match c.at
    case LoadHigh(low) => LoadHighRuns(env, m, low);
    case Compare(v) => CompareRuns(env, m, v);
    case _ =>
  }

  lemma ArmedRuns(env: Env, m: Memory)
    requires Armed(env)
    ensures Strex(env, m) == Loading(env, m)
  {
    assert Run(Config(Test, env, m)) == Run(MicroStep(Config(Test, env, m)));
    LoadLowRuns(env, m);
  }

  /** Without the monitor nothing is looked at. */
  lemma DisarmedRuns(env: Env, m: Memory)
    requires env.exclusiveAddr != env.exclusiveTest
    ensures Strex(env, m) == Failing(env, m)
  {
    assert Run(Config(Test, env, m)) == Run(MicroStep(Config(Test, env, m)));
    FinishRuns(env, m, false);
  }

  // ---------- do_strex is a compare-and-swap ----------

  /** The low `n` bytes of a register. */
  function Truncate(v: nat, n: nat): nat {
    if n == 0 then 0 else v % 256 + 256 * Truncate(v / 256, n - 1)
  }

  lemma WordFits(v: nat)
    requires v < U32
    ensures Truncate(v, 4) == v
  {
    assert Truncate(v / 256 / 256 / 256, 1) == v / 256 / 256 / 256;
    assert Truncate(v / 256 / 256, 2) == v / 256 / 256;
    assert Truncate(v / 256, 3) == v / 256;
  }

  lemma {:induction false} PeekIs(bytes: Bytes, a: int, n: nat, v: nat)
    requires Mapped(bytes.Keys, a, n) && forall i :: 0 <= i < n ==> bytes[a + i] == DataByte(v, i)
    ensures Peek(bytes, a, n) == Truncate(v, n)
    decreases n
  {
    if n > 0 {
      assert bytes[a + 0] == DataByte(v, 0);
      forall i | 0 <= i < n - 1 ensures bytes[a + 1 + i] == DataByte(v / 256, i) {
        assert bytes[a + (i + 1)] == DataByte(v, i + 1);
      }
      PeekIs(bytes, a + 1, n - 1, v / 256);
    }
  }

  lemma PeekPoke(bytes: Bytes, a: int, n: nat, v: nat)
    ensures Mapped(Poke(bytes, Shape(a, n), v).Keys, a, n)
    ensures Peek(Poke(bytes, Shape(a, n), v), a, n) == Truncate(v, n)
  {
    forall b | a <= b < a + n ensures b in Poke(bytes, Shape(a, n), v) && Poke(bytes, Shape(a, n), v)[b] == DataByte(v, b - a) {
      PokeAt(bytes, Shape(a, n), v, b);
    }
    PeekIs(Poke(bytes, Shape(a, n), v), a, n, v);
  }

  /** Outside its range a store leaves everything mapped and as it was. */
  lemma PeekOver(bytes: Bytes, f: Shape, v: nat, a: int, n: nat)
    requires Mapped(bytes.Keys, a, n) && (a + n <= f.addr || f.addr + f.width <= a)
    ensures Mapped(Poke(bytes, f, v).Keys, a, n) && Peek(Poke(bytes, f, v), a, n) == Peek(bytes, a, n)
  {
    PeekFrame(bytes, Poke(bytes, f, v), a, n);
  }

  lemma {:induction false} PeekFrame(b: Bytes, b': Bytes, a: int, n: nat)
    requires Mapped(b.Keys, a, n)
    requires forall i :: a <= i < a + n ==> i in b' && b'[i] == b[i]
    ensures Mapped(b'.Keys, a, n) && Peek(b', a, n) == Peek(b, a, n)
    decreases n
  {
    if n > 0 {
      PeekFrame(b, b', a + 1, n - 1);
    }
  }

  /** The monitored value: what memory holds at the monitored address, at the access size. */
  function Monitored(env: Env, m: Memory): Option<nat> {
    var low := Load(m, env.exclusiveAddr, env.Width());
    var high := Load(m, env.HighAddr(), 4);
    if low.None? then None
    else if env.Size() != 3 then low
    else if high.None? then None
    else Some(low.value + U32 * high.value)
  }

  /** The value the instruction wants to store, at the access size. */
  function Proposed(env: Env): nat {
    Truncate(env.regs[env.LowReg()], env.Width())
    + if env.Size() == 3 then U32 * env.regs[env.HighReg()] else 0
  }

  predicate InAccess(env: Env, b: nat) {
    env.exclusiveAddr <= b < env.exclusiveAddr + env.Width()
    || (env.Size() == 3 && env.HighAddr() <= b < env.HighAddr() + 4)
  }

  predicate Writable(env: Env, m: Memory) {
    Mapped(m.writable, env.exclusiveAddr, env.Width())
    && (env.Size() == 3 ==> Mapped(m.writable, env.HighAddr(), 4))
  }

  predicate Matches(env: Env, m: Memory) {
    env.exclusiveAddr == env.exclusiveTest < U32 && env.Size() <= 3
    && Monitored(env, m) == Some(env.exclusiveVal)
  }

  /** The doubleword store whose low half lands and whose high half faults. */
  predicate Torn(env: Env, m: Memory) {
    Matches(env, m) && LowOnly(env, m)
  }

  /** Up to the stores do_strex only reads: it fails, faults or aborts with memory as it was. */
  lemma ReadPhase(env: Env, m: Memory)
    ensures Matches(env, m) ==> Strex(env, m) == Run(Config(StoreLow, env, m))
    ensures !Matches(env, m) ==> Strex(env, m).mem == m && Strex(env, m).at != Done(Succeeded)
    ensures !Matches(env, m) ==> (Strex(env, m).at == Done(Failed) <==> Mismatch(env, m))
  {
    if Armed(env) {
      ArmedRuns(env, m);
      StoreLowRuns(env, m);
    } else if env.exclusiveAddr != env.exclusiveTest {
      DisarmedRuns(env, m);
    } else {
      var c := MicroStep(Config(Test, env, m));
      assert Strex(env, m) == Run(c) && Run(c) == c;
    }
  }

  predicate Mismatch(env: Env, m: Memory) {
    env.exclusiveAddr != env.exclusiveTest
    || (env.exclusiveAddr < U32 && env.Size() <= 3
        && Monitored(env, m).Some? && Monitored(env, m).value != env.exclusiveVal)
  }

  lemma StorePhase(env: Env, m: Memory)
    requires env.Size() <= 3
    ensures var r := Run(Config(StoreLow, env, m));
            if Writable(env, m) then r.at == Done(Succeeded) && r.mem == m.(bytes := Swapped(env, m.bytes))
            else r.at.outcome.Segv? && r.mem == if LowOnly(env, m) then HalfStored(env, m) else m
  {
    StoreLowRuns(env, m);
  }

  predicate LowOnly(env: Env, m: Memory) {
    env.Size() == 3 && Mapped(m.writable, env.exclusiveAddr, 4) && !Mapped(m.writable, env.HighAddr(), 4)
  }

  function HalfStored(env: Env, m: Memory): Memory {
    m.(bytes := Poke(m.bytes, Shape(env.exclusiveAddr, 4), env.regs[env.LowReg()]))
  }

  function Swapped(env: Env, b: Bytes): Bytes {
    var low := Poke(b, Shape(env.exclusiveAddr, env.Width()), env.regs[env.LowReg()]);
    if env.Size() == 3 then Poke(low, Shape(env.HighAddr(), 4), env.regs[env.HighReg()]) else low
  }

  /** do_strex swaps exactly when the monitored value is unchanged and the access may be written. */
  lemma StrexSwapsIff(env: Env, m: Memory)
    ensures Strex(env, m).at == Done(Succeeded) <==> Matches(env, m) && Writable(env, m)
    ensures Strex(env, m).at == Done(Failed) <==> Mismatch(env, m)
  {
    ReadPhase(env, m);
    if Matches(env, m) {
      StorePhase(env, m);
    }
  }

  /** After a swap memory holds the proposed value, and no byte outside the access has changed. */
  lemma StrexStores(env: Env, m: Memory)
    requires Strex(env, m).at == Done(Succeeded)
    ensures Monitored(env, Strex(env, m).mem) == Some(Proposed(env))
    ensures forall b :: b in m.bytes && !InAccess(env, b) ==>
              b in Strex(env, m).mem.bytes && Strex(env, m).mem.bytes[b] == m.bytes[b]
  {
    StrexSwapsIff(env, m);
    ReadPhase(env, m);
    StorePhase(env, m);
    SwappedValue(env, m);
    forall b | b in m.bytes && !InAccess(env, b) ensures b in Swapped(env, m.bytes) && Swapped(env, m.bytes)[b] == m.bytes[b] {
      SwappedFrame(env, m.bytes, b);
    }
  }

  lemma HighIsApart(env: Env)
    requires env.exclusiveAddr < U32
    ensures env.exclusiveAddr + 4 <= env.HighAddr() || env.HighAddr() + 4 <= env.exclusiveAddr
  {
  }

  lemma TwoPokes(b: Bytes, a: nat, v: nat, h: nat, u: nat)
    requires a + 4 <= h || h + 4 <= a
    ensures var r := Poke(Poke(b, Shape(a, 4), v), Shape(h, 4), u);
            Mapped(r.Keys, a, 4) && Peek(r, a, 4) == Truncate(v, 4) && Mapped(r.Keys, h, 4) && Peek(r, h, 4) == Truncate(u, 4)
  {
    var low := Poke(b, Shape(a, 4), v);
    PeekPoke(b, a, 4, v);
    PeekPoke(low, h, 4, u);
    PeekOver(low, Shape(h, 4), u, a, 4);
  }

  lemma NarrowValue(env: Env, m: Memory, m': Memory)
    requires env.Size() != 3 && m' == m.(bytes := Poke(m.bytes, Shape(env.exclusiveAddr, env.Width()), env.regs[env.LowReg()]))
    ensures Monitored(env, m') == Some(Proposed(env))
  {
    PeekPoke(m.bytes, env.exclusiveAddr, env.Width(), env.regs[env.LowReg()]);
  }

  lemma WideValue(env: Env, m: Memory, m': Memory)
    requires env.exclusiveAddr < U32 && env.Size() == 3
    requires Load(m', env.exclusiveAddr, 4) == Some(Truncate(env.regs[env.LowReg()], 4))
    requires Load(m', env.HighAddr(), 4) == Some(env.regs[env.HighReg()])
    ensures Monitored(env, m') == Some(Proposed(env))
  {
  }

  lemma SwappedValue(env: Env, m: Memory)
    requires env.exclusiveAddr < U32
    ensures Monitored(env, m.(bytes := Swapped(env, m.bytes))) == Some(Proposed(env))
  {
    var m' := m.(bytes := Swapped(env, m.bytes));
    if env.Size() == 3 {
      HighIsApart(env);
      TwoPokes(m.bytes, env.exclusiveAddr, env.regs[env.LowReg()], env.HighAddr(), env.regs[env.HighReg()]);
      WordFits(env.regs[env.HighReg()]);
      WideValue(env, m, m');
    } else {
      NarrowValue(env, m, m');
    }
  }

  lemma SwappedFrame(env: Env, b: Bytes, i: nat)
    requires i in b && !InAccess(env, i)
    ensures i in Swapped(env, b) && Swapped(env, b)[i] == b[i]
  {
  }

  /** A do_strex that does not swap leaves memory alone, except for the torn doubleword. */
  lemma StrexAllOrNothing(env: Env, m: Memory)
    requires Strex(env, m).at != Done(Succeeded)
    ensures Strex(env, m).mem == if Torn(env, m) then HalfStored(env, m) else m
  {
    StrexSwapsIff(env, m);
    ReadPhase(env, m);
    if Matches(env, m) {
      StorePhase(env, m);
    }
  }

  /** The low half of a torn doubleword is written, the high half is as it was, and the instruction faults there. */
  lemma TornFaults(env: Env, m: Memory)
    requires Torn(env, m)
    ensures Strex(env, m).at == Done(Segv(env.HighAddr())) && Strex(env, m).mem == HalfStored(env, m)
    ensures Load(HalfStored(env, m), env.exclusiveAddr, 4) == Some(env.regs[env.LowReg()])
    ensures Load(HalfStored(env, m), env.HighAddr(), 4) == Load(m, env.HighAddr(), 4)
  {
    ReadPhase(env, m);
    StoreLowRuns(env, m);
    PeekPoke(m.bytes, env.exclusiveAddr, 4, env.regs[env.LowReg()]);
    WordFits(env.regs[env.LowReg()]);
    HighIsApart(env);
    PeekFrame(m.bytes, HalfStored(env, m).bytes, env.HighAddr(), 4);
  }

  /** The torn store happens. */
  lemma TornExample() returns (env: Env, m: Memory)
    ensures Torn(env, m) && Strex(env, m).at == Done(Segv(env.HighAddr())) && Strex(env, m).mem != m
  {
    var bytes: Bytes := map[0 := 0, 1 := 0, 2 := 0, 3 := 0, 4 := 0, 5 := 0, 6 := 0, 7 := 0];
    m := Memory(bytes, {0, 1, 2, 3});
    var one: Regs := seq(16, _ => 1);
    env := Env(one, 0, 0, 0, 3);
    ZeroPeek(bytes, 0, 4);
    ZeroPeek(bytes, 4, 4);
    assert env.HighAddr() == 4 && Load(m, 0, 4) == Some(0) && Load(m, 4, 4) == Some(0);
    assert 4 !in m.writable;
    assert Torn(env, m);
    TornFaults(env, m);
  }

  lemma {:induction false} ZeroPeek(bytes: Bytes, a: nat, n: nat)
    requires Mapped(bytes.Keys, a, n) && forall i :: a <= i < a + n ==> bytes[i] == 0
    ensures Peek(bytes, a, n) == 0
    decreases n
  {
    if n > 0 {
      ZeroPeek(bytes, a + 1, n - 1);
    }
  }
}
