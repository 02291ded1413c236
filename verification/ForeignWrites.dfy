/**
 Writes to guest memory that the exclusive section does not keep out: a system call runs while its
 CPU is not executing, and nothing stops it from storing while another thread is exclusive.
 */
module ForeignWrites {
  import opened Prelude
  import opened ByteStores
  import opened StoreExclusive

  /** Memory after a system call has written `patch`. */
  function Patched(m: Memory, patch: Bytes): Memory {
    m.(bytes := m.bytes + patch)
  }

  // ---------- writes elsewhere ----------

  /** The write misses the bytes the store-exclusive looks at, if it looks at any. */
  ghost predicate Misses(env: Env, patch: Bytes) {
    env.exclusiveAddr == env.exclusiveTest ==> forall b :: b in patch ==> !InAccess(env, b)
  }

  /** The places a store-exclusive of `env` can be at. */
  predicate Possible(at: Micro, env: Env) {
    match at
    case Test => true
    case Finish(_) => true
    case Done(_) => true
    case LoadHigh(_) => Armed(env) && env.Size() == 3
    case StoreHigh => Armed(env) && env.Size() == 3
    case _ => Armed(env)
  }

  ghost predicate Outside(patch: Bytes, a: int, n: nat) {
    forall b :: a <= b < a + n ==> b !in patch
  }

  lemma LoadPatched(m: Memory, patch: Bytes, a: nat, n: nat)
    requires Outside(patch, a, n)
    ensures Load(Patched(m, patch), a, n) == Load(m, a, n)
  {
    if Mapped(m.bytes.Keys, a, n) {
      PeekFrame(m.bytes, Patched(m, patch).bytes, a, n);
    }
  }

  /** Where the write meets the bytes `v` is stored to, it writes the same. */
  ghost predicate AgreesOn(patch: Bytes, f: Shape, v: nat) {
    forall b :: b in patch && Touches(f, b) ==> patch[b] == DataByte(v, b - f.addr)
  }

  /** A store and a write commute if and only if they agree where they meet. */
  lemma PokeCommutesIff(x: Bytes, patch: Bytes, f: Shape, v: nat)
    ensures Poke(x + patch, f, v) == Poke(x, f, v) + patch <==> AgreesOn(patch, f, v)
  {
    var l, r := Poke(x + patch, f, v), Poke(x, f, v) + patch;
    forall b ensures Touches(f, b) ==> b in l && l[b] == DataByte(v, b - f.addr) {
      PokeAt(x + patch, f, v, b);
    }
    if AgreesOn(patch, f, v) {
      forall b ensures SameByte(l, r, b) {
        PokeAt(x + patch, f, v, b);
        PokeAt(x, f, v, b);
      }
      SameBytes(l, r);
    } else {
      var b :| b in patch && Touches(f, b) && patch[b] != DataByte(v, b - f.addr);
      assert l[b] != r[b];
    }
  }

  lemma StorePatched(m: Memory, patch: Bytes, a: nat, n: nat, v: nat)
    requires Outside(patch, a, n)
    ensures var s := Store(m, a, n, v);
            Store(Patched(m, patch), a, n, v) == if s.None? then None else Some(Patched(s.value, patch))
  {
    PokeCommutesIff(m.bytes, patch, Shape(a, n), v);
  }

  lemma AccessIsOutside(env: Env, patch: Bytes)
    requires Misses(env, patch) && env.exclusiveAddr == env.exclusiveTest
    ensures Outside(patch, env.exclusiveAddr, env.Width())
    ensures env.Size() == 3 ==> Outside(patch, env.HighAddr(), 4)
  {
    forall b | b in patch ensures !InAccess(env, b) {}
  }

  /** One statement does the same whether the write has happened or not. */
  lemma StepPatched(c: Config, patch: Bytes)
    requires Possible(c.at, c.env) && Misses(c.env, patch)
    ensures MicroStep(c.(mem := Patched(c.mem, patch))) == MicroStep(c).(mem := Patched(MicroStep(c).mem, patch))
    ensures Possible(MicroStep(c).at, MicroStep(c).env) && (!MicroStep(c).at.Done? ==> MicroStep(c).env == c.env)
  {
    var env := c.env;
    if env.exclusiveAddr == env.exclusiveTest {
      AccessIsOutside(env, patch);
    }
    match c.at
    case LoadLow => LoadPatched(c.mem, patch, env.exclusiveAddr, env.Width());
    case LoadHigh(_) => LoadPatched(c.mem, patch, env.HighAddr(), 4);
    case StoreLow => StorePatched(c.mem, patch, env.exclusiveAddr, env.Width(), env.regs[env.LowReg()]);
    case StoreHigh => StorePatched(c.mem, patch, env.HighAddr(), 4, env.regs[env.HighReg()]);
    case _ =>
  }

  /** So does the rest of the store-exclusive: a write elsewhere commutes with it. */
  lemma {:induction false} RunPatched(c: Config, patch: Bytes)
    requires Possible(c.at, c.env) && Misses(c.env, patch)
    ensures Run(c.(mem := Patched(c.mem, patch))) == Run(c).(mem := Patched(Run(c).mem, patch))
    decreases Left(c.at)
  {
    if !c.at.Done? {
      StepPatched(c, patch);
      var d := MicroStep(c);
      if d.at.Done? {
        assert Run(d) == d;
      } else {
        RunPatched(d, patch);
      }
    }
  }

  /** The outcome no longer depends on memory. */
  predicate Decided(at: Micro, env: Env) {
    at.Finish? || (at.Compare? && at.val != env.exclusiveVal)
  }

  predicate Succeeds(at: Micro) {
    at.Finish? && at.ok
  }

  lemma DecidedRuns(at: Micro, env: Env, m: Memory)
    requires Decided(at, env)
    ensures Run(Config(at, env, m)) ==
            Config(Done(if Succeeds(at) then Succeeded else Failed), Finished(env, Succeeds(at)), m)
  {
    if at.Finish? {
      FinishRuns(env, m, at.ok);
    } else {
      CompareRuns(env, m, at.val);
    }
  }
}
