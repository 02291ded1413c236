/**
 A system call that writes while a store-exclusive is in progress: between which two statements the
 write falls, and what it changes, decides whether the two can still be put in an order.
 */
module StrexRaces {
  import opened Prelude
  import opened ByteStores
  import opened StoreExclusive
  import opened ForeignWrites

  // ---------- the points of a store-exclusive ----------

  /** After `k` statements. */
  function After(env: Env, m: Memory, k: nat): Config {
    if k == 0 then Config(Test, env, m) else MicroStep(After(env, m, k - 1))
  }

  /** What is known at each point of a store-exclusive that found memory `m`. */
  ghost predicate IsPoint(env: Env, m: Memory, c: Config) {
    && (!c.at.Done? ==> c.env == env)
    && (!c.at.Done? && !c.at.Finish? && !c.at.StoreHigh? ==> c.mem == m)
    && match c.at
       case Test => true
       case LoadLow => Armed(env)
       case LoadHigh(low) => Armed(env) && env.Size() == 3 && Load(m, env.exclusiveAddr, env.Width()) == Some(low)
       case Compare(v) => Armed(env) && Monitored(env, m) == Some(v)
       case StoreLow => Matches(env, m)
       case StoreHigh => Matches(env, m) && env.Size() == 3 && LowWritable(env, m) && c.mem == LowStored(env, m)
       case Finish(ok) =>
         if ok then Matches(env, m) && Writable(env, m) && c.mem == Storing(env, m).mem
         else Mismatch(env, m) && c.mem == m
       case Done(_) => c == Strex(env, m)
  }

  lemma StepIsPoint(env: Env, m: Memory, c: Config)
    requires IsPoint(env, m, c) && !c.at.Done?
    ensures !MicroStep(c).at.Done? ==> IsPoint(env, m, MicroStep(c))
  {
  }

  lemma {:induction false} EveryPointIs(env: Env, m: Memory, k: nat)
    ensures IsPoint(env, m, After(env, m, k)) && Run(After(env, m, k)) == Strex(env, m)
  {
    if k > 0 {
      EveryPointIs(env, m, k - 1);
      var c := After(env, m, k - 1);
      if !c.at.Done? {
        StepIsPoint(env, m, c);
        var d := MicroStep(c);
        assert Run(c) == Run(d);
        assert d.at.Done? ==> Run(d) == d;
      }
    }
  }

  // ---------- in which order a write and a store-exclusive can be put ----------

  /** How the store-exclusive ends if the write comes when it is at `c`. */
  function Raced(c: Config, patch: Bytes): Config {
    Run(c.(mem := Patched(c.mem, patch)))
  }

  ghost predicate AsFirst(env: Env, m: Memory, c: Config, patch: Bytes) {
    Raced(c, patch) == Strex(env, Patched(m, patch))
  }

  ghost predicate AsLast(env: Env, m: Memory, c: Config, patch: Bytes) {
    Raced(c, patch) == Strex(env, m).(mem := Patched(Strex(env, m).mem, patch))
  }

  ghost predicate LowAgrees(env: Env, patch: Bytes) {
    AgreesOn(patch, Shape(env.exclusiveAddr, env.Width()), env.regs[env.LowReg()])
  }

  ghost predicate HighAgrees(env: Env, m: Memory, patch: Bytes) {
    env.Size() == 3 && HighWritable(env, m) ==> AgreesOn(patch, Shape(env.HighAddr(), 4), env.regs[env.HighReg()])
  }

  /** Where the write meets bytes that the store-exclusive can store to, it writes the same. */
  ghost predicate Agrees(env: Env, m: Memory, patch: Bytes) {
    LowWritable(env, m) ==> LowAgrees(env, patch) && HighAgrees(env, m, patch)
  }

  predicate Fits(env: Env, v: Option<nat>) {
    v == Some(env.exclusiveVal)
  }

  /** The doubleword compared when the write falls between its two loads: old low word, new high word. */
  function Mixed(env: Env, m: Memory, low: nat, patch: Bytes): Option<nat> {
    match Load(Patched(m, patch), env.HighAddr(), 4)
    case None => None
    case Some(high) => Some(low + U32 * high)
  }

  /** When it is as if the write had come before the whole store-exclusive. */
  ghost predicate FirstOk(env: Env, m: Memory, at: Micro, patch: Bytes) {
    var now := Monitored(env, Patched(m, patch));
    match at
    case Test => true
    case LoadLow => true
    case LoadHigh(low) => Fits(env, Mixed(env, m, low, patch)) <==> Fits(env, now)
    case Compare(v) => v == env.exclusiveVal <==> Fits(env, now)
    case StoreLow => Fits(env, now)
    case StoreHigh => Fits(env, now) && LowAgrees(env, patch)
    case Finish(ok) => if ok then Fits(env, now) && Agrees(env, m, patch) else env.exclusiveAddr != env.exclusiveTest || !Fits(env, now)
    case Done(_) => false
  }

  lemma StillMapped(env: Env, m: Memory, patch: Bytes)
    requires Monitored(env, m).Some?
    ensures Monitored(env, Patched(m, patch)).Some?
  {
    assert m.bytes.Keys <= Patched(m, patch).bytes.Keys;
  }

  /** A low word that has been read can still be read. */
  lemma LowStillMapped(m: Memory, patch: Bytes, a: nat, n: nat)
    requires Load(m, a, n).Some?
    ensures Load(Patched(m, patch), a, n).Some?
  {
    assert m.bytes.Keys <= Patched(m, patch).bytes.Keys;
  }

  /** The outcomes of comparing two values are the same exactly when both or neither fit. */
  lemma ComparingIff(env: Env, m: Memory, v: nat, w: nat)
    ensures Comparing(env, m, v) == Comparing(env, m, w) <==> (v == env.exclusiveVal <==> w == env.exclusiveVal)
  {
  }

  /** A doubleword's two stores around a write. */
  lemma HighOverIff(env: Env, x: Bytes, patch: Bytes)
    requires env.exclusiveAddr < U32 && env.Size() == 3
    ensures var lo, hi := Shape(env.exclusiveAddr, 4), Shape(env.HighAddr(), 4);
            var v, u := env.regs[env.LowReg()], env.regs[env.HighReg()];
            Poke(Poke(x, lo, v) + patch, hi, u) == Poke(Poke(x + patch, lo, v), hi, u) <==> AgreesOn(patch, lo, v)
  {
    var lo, hi := Shape(env.exclusiveAddr, 4), Shape(env.HighAddr(), 4);
    var v, u := env.regs[env.LowReg()], env.regs[env.HighReg()];
    PokeCommutesIff(x, patch, lo, v);
    if !AgreesOn(patch, lo, v) {
      HighIsApart(env);
      var b :| b in patch && Touches(lo, b) && patch[b] != DataByte(v, b - lo.addr);
      PokeAt(Poke(x, lo, v) + patch, hi, u, b);
      PokeAt(Poke(x + patch, lo, v), hi, u, b);
      PokeAt(x + patch, lo, v, b);
    }
  }

  lemma StoreHighFirstIff(env: Env, m: Memory, patch: Bytes)
    requires Armed(env) && env.Size() == 3 && LowWritable(env, m)
    ensures AfterLow(env, Patched(LowStored(env, m), patch)) == Storing(env, Patched(m, patch)) <==> LowAgrees(env, patch)
  {
    PokeCommutesIff(m.bytes, patch, Shape(env.exclusiveAddr, 4), env.regs[env.LowReg()]);
    HighOverIff(env, m.bytes, patch);
  }

  lemma LoadHighFirstIff(env: Env, m: Memory, low: nat, patch: Bytes)
    requires Armed(env) && env.Size() == 3 && Load(m, env.exclusiveAddr, 4) == Some(low)
    ensures Run(Config(LoadHigh(low), env, Patched(m, patch))) == Strex(env, Patched(m, patch))
            <==> FirstOk(env, m, LoadHigh(low), patch)
  {
    var p := Patched(m, patch);
    ArmedRuns(env, p);
    LoadHighRuns(env, p, low);
    LowStillMapped(m, patch, env.exclusiveAddr, 4);
    if Load(p, env.HighAddr(), 4).Some? {
      var high := Load(p, env.HighAddr(), 4).value;
      ComparingIff(env, p, low + U32 * high, Load(p, env.exclusiveAddr, 4).value + U32 * high);
    }
  }

  /** Once the value has been compared, a store-exclusive on memory `p` goes on as `Comparing` says. */
  lemma ReadRuns(env: Env, p: Memory)
    requires Armed(env) && Monitored(env, p).Some?
    ensures Strex(env, p) == Comparing(env, p, Monitored(env, p).value)
  {
    ArmedRuns(env, p);
  }

  lemma CompareFirstIff(env: Env, m: Memory, v: nat, patch: Bytes)
    requires Armed(env) && Monitored(env, m) == Some(v)
    ensures Run(Config(Compare(v), env, Patched(m, patch))) == Strex(env, Patched(m, patch))
            <==> FirstOk(env, m, Compare(v), patch)
  {
    var p := Patched(m, patch);
    StillMapped(env, m, patch);
    ReadRuns(env, p);
    CompareRuns(env, p, v);
    ComparingIff(env, p, v, Monitored(env, p).value);
  }

  lemma StoreLowFirstIff(env: Env, m: Memory, patch: Bytes)
    requires Matches(env, m)
    ensures Run(Config(StoreLow, env, Patched(m, patch))) == Strex(env, Patched(m, patch))
            <==> FirstOk(env, m, StoreLow, patch)
  {
    CompareFirstIff(env, m, env.exclusiveVal, patch);
    CompareRuns(env, Patched(m, patch), env.exclusiveVal);
    StoreLowRuns(env, Patched(m, patch));
  }

  lemma StoreHighFirst(env: Env, m: Memory, patch: Bytes)
    requires Matches(env, m) && env.Size() == 3 && LowWritable(env, m)
    ensures Run(Config(StoreHigh, env, Patched(LowStored(env, m), patch))) == Strex(env, Patched(m, patch))
            <==> FirstOk(env, m, StoreHigh, patch)
  {
    var p := Patched(m, patch);
    StillMapped(env, m, patch);
    ReadRuns(env, p);
    StoreHighRuns(env, Patched(LowStored(env, m), patch));
    StoreHighFirstIff(env, m, patch);
  }

  /** Stores and write commute, in what they leave behind, if and only if they agree where they meet. */
  lemma StoringCommutesIff(env: Env, m: Memory, patch: Bytes)
    requires Armed(env)
    ensures Storing(env, Patched(m, patch)) == Storing(env, m).(mem := Patched(Storing(env, m).mem, patch))
            <==> Agrees(env, m, patch)
  {
    if LowWritable(env, m) {
      if env.Size() == 3 && HighWritable(env, m) {
        WideCommutesIff(env, m, patch);
      } else {
        PokeCommutesIff(m.bytes, patch, Shape(env.exclusiveAddr, env.Width()), env.regs[env.LowReg()]);
      }
    }
  }

  lemma WideCommutesIff(env: Env, m: Memory, patch: Bytes)
    requires Armed(env) && env.Size() == 3 && LowWritable(env, m) && HighWritable(env, m)
    ensures Storing(env, Patched(m, patch)) == Storing(env, m).(mem := Patched(Storing(env, m).mem, patch))
            <==> LowAgrees(env, patch) && HighAgrees(env, m, patch)
  {
    BothCommuteIff(env, m.bytes, patch);
  }

  lemma BothCommuteIff(env: Env, x: Bytes, patch: Bytes)
    requires env.exclusiveAddr < U32 && env.Size() == 3
    ensures var lo, hi := Shape(env.exclusiveAddr, 4), Shape(env.HighAddr(), 4);
            var v, u := env.regs[env.LowReg()], env.regs[env.HighReg()];
            Poke(Poke(x + patch, lo, v), hi, u) == Poke(Poke(x, lo, v), hi, u) + patch
            <==> AgreesOn(patch, lo, v) && AgreesOn(patch, hi, u)
  {
    var lo, hi := Shape(env.exclusiveAddr, 4), Shape(env.HighAddr(), 4);
    var v, u := env.regs[env.LowReg()], env.regs[env.HighReg()];
    PokeCommutesIff(Poke(x, lo, v), patch, hi, u);
    HighOverIff(env, x, patch);
    if !AgreesOn(patch, lo, v) {
      HighIsApart(env);
      LowShows(x, patch, lo, v, hi, u);
    }
  }

  lemma LowShows(x: Bytes, patch: Bytes, lo: Shape, v: nat, hi: Shape, u: nat)
    requires !AgreesOn(patch, lo, v) && (lo.addr + lo.width <= hi.addr || hi.addr + hi.width <= lo.addr)
    ensures forall y :: Poke(Poke(x + patch, lo, v), hi, u) != y + patch
  {
    var b :| b in patch && Touches(lo, b) && patch[b] != DataByte(v, b - lo.addr);
    PokeAt(x + patch, lo, v, b);
    PokeAt(Poke(x + patch, lo, v), hi, u, b);
    assert forall y: Bytes :: (y + patch)[b] == patch[b];
  }

  lemma FinishFirst(env: Env, m: Memory, ok: bool, patch: Bytes)
    requires if ok then Matches(env, m) && Writable(env, m) else Mismatch(env, m)
    ensures Run(Config(Finish(ok), env, Patched(if ok then Storing(env, m).mem else m, patch))) == Strex(env, Patched(m, patch))
            <==> FirstOk(env, m, Finish(ok), patch)
  {
    var p := Patched(m, patch);
    FinishRuns(env, Patched(if ok then Storing(env, m).mem else m, patch), ok);
    if env.exclusiveAddr != env.exclusiveTest {
      DisarmedRuns(env, p);
    } else {
      StillMapped(env, m, patch);
      ReadRuns(env, p);
      StoringCommutesIff(env, m, patch);
    }
  }

  /** As if first: exactly under this condition, at every point but the end. */
  lemma FirstIff(env: Env, m: Memory, c: Config, patch: Bytes)
    requires IsPoint(env, m, c) && !c.at.Done?
    ensures AsFirst(env, m, c, patch) <==> FirstOk(env, m, c.at, patch)
  {
    match c.at
    case Test =>
    case LoadLow =>
      ArmedRuns(env, Patched(m, patch));
      LoadLowRuns(env, Patched(m, patch));
    case LoadHigh(low) => LoadHighFirstIff(env, m, low, patch);
    case Compare(v) => CompareFirstIff(env, m, v, patch);
    case StoreLow => StoreLowFirstIff(env, m, patch);
    case StoreHigh => StoreHighFirst(env, m, patch);
    case Finish(ok) => FinishFirst(env, m, ok, patch);
  }

  // ---------- as if last ----------

  /** When it is as if the write had come after the whole store-exclusive, once something has been read. */
  ghost predicate LastOk(env: Env, m: Memory, at: Micro, patch: Bytes) {
    match at
    case LoadHigh(low) =>
      var mixed := Mixed(env, m, low, patch);
      if Monitored(env, m).Some? then
        (Fits(env, mixed) <==> Fits(env, Monitored(env, m))) && (Fits(env, mixed) ==> Agrees(env, m, patch))
      else
        // the high word was not mapped: the call must fault there all the same, with no trace of a store
        mixed.None? || (Fits(env, mixed) && LowOnly(env, m) && LowAgrees(env, Patched(m, patch).bytes))
    case Compare(v) => v == env.exclusiveVal ==> Agrees(env, m, patch)
    case StoreLow => Agrees(env, m, patch)
    case StoreHigh => HighAgrees(env, m, patch)
    case Finish(_) => true
    case _ => false
  }

  /** Comparing values before and after the write comes to the same, but for the write. */
  lemma ComparingCommutesIff(env: Env, m: Memory, w: nat, v: nat, patch: Bytes)
    requires Armed(env)
    ensures var r := Comparing(env, m, v);
            Comparing(env, Patched(m, patch), w) == r.(mem := Patched(r.mem, patch))
            <==> (w == env.exclusiveVal <==> v == env.exclusiveVal) && (w == env.exclusiveVal ==> Agrees(env, m, patch))
  {
    StoringCommutesIff(env, m, patch);
  }

  lemma CompareLastIff(env: Env, m: Memory, v: nat, patch: Bytes)
    requires Armed(env) && Monitored(env, m) == Some(v)
    ensures AsLast(env, m, Config(Compare(v), env, m), patch) <==> LastOk(env, m, Compare(v), patch)
  {
    ReadRuns(env, m);
    CompareRuns(env, Patched(m, patch), v);
    ComparingCommutesIff(env, m, v, v, patch);
  }

  lemma StoreLowLastIff(env: Env, m: Memory, patch: Bytes)
    requires Matches(env, m)
    ensures AsLast(env, m, Config(StoreLow, env, m), patch) <==> LastOk(env, m, StoreLow, patch)
  {
    ReadRuns(env, m);
    StoreLowRuns(env, Patched(m, patch));
    StoringCommutesIff(env, m, patch);
  }

  lemma AfterLowCommutesIff(env: Env, x: Memory, patch: Bytes)
    requires env.Size() == 3
    ensures AfterLow(env, Patched(x, patch)) == AfterLow(env, x).(mem := Patched(AfterLow(env, x).mem, patch))
            <==> HighAgrees(env, x, patch)
  {
    PokeCommutesIff(x.bytes, patch, Shape(env.HighAddr(), 4), env.regs[env.HighReg()]);
  }

  lemma MatchedRuns(env: Env, m: Memory)
    requires Matches(env, m) && LowWritable(env, m)
    ensures Strex(env, m) == AfterLow(env, LowStored(env, m))
  {
    ReadRuns(env, m);
  }

  lemma StoreHighLastIff(env: Env, m: Memory, patch: Bytes)
    requires Matches(env, m) && env.Size() == 3 && LowWritable(env, m)
    ensures AsLast(env, m, Config(StoreHigh, env, LowStored(env, m)), patch) <==> LastOk(env, m, StoreHigh, patch)
  {
    MatchedRuns(env, m);
    StoreHighRuns(env, Patched(LowStored(env, m), patch));
    AfterLowCommutesIff(env, LowStored(env, m), patch);
  }

  /** A store leaves no trace if and only if its bytes are there already. */
  lemma NoTraceIff(x: Bytes, f: Shape, v: nat)
    requires Mapped(x.Keys, f.addr, f.width)
    ensures Poke(x, f, v) == x <==> AgreesOn(x, f, v)
  {
    if AgreesOn(x, f, v) {
      forall b ensures SameByte(Poke(x, f, v), x, b) {
        PokeAt(x, f, v, b);
      }
      SameBytes(Poke(x, f, v), x);
    } else {
      var b :| b in x && Touches(f, b) && x[b] != DataByte(v, b - f.addr);
      PokeAt(x, f, v, b);
    }
  }

  lemma UnmappedLastIff(env: Env, p: Memory, v: nat)
    requires Armed(env) && env.Size() == 3 && Mapped(p.bytes.Keys, env.exclusiveAddr, 4)
    ensures Comparing(env, p, v) == Config(Done(Segv(env.HighAddr())), env, p)
            <==> v == env.exclusiveVal && LowOnly(env, p) && LowAgrees(env, p.bytes)
  {
    NoTraceIff(p.bytes, Shape(env.exclusiveAddr, 4), env.regs[env.LowReg()]);
    HighIsApart(env);
  }

  /** The high word was mapped all along: what is compared is `w`, without the write it would be `v`. */
  lemma MappedLastIff(env: Env, m: Memory, low: nat, w: nat, v: nat, patch: Bytes)
    requires Armed(env) && Monitored(env, m) == Some(v) && Mixed(env, m, low, patch) == Some(w)
    ensures Comparing(env, Patched(m, patch), w) == Strex(env, m).(mem := Patched(Strex(env, m).mem, patch))
            <==> LastOk(env, m, LoadHigh(low), patch)
  {
    ReadRuns(env, m);
    ComparingCommutesIff(env, m, w, v, patch);
  }

  lemma HighStillMapped(env: Env, m: Memory, low: nat, patch: Bytes)
    requires env.Size() == 3 && Monitored(env, m).Some?
    ensures var mixed := Mixed(env, m, low, patch);
            mixed.Some? && LoadingHigh(env, Patched(m, patch), low) == Comparing(env, Patched(m, patch), mixed.value)
  {
    LowStillMapped(m, patch, env.HighAddr(), 4);
  }

  /** It was not mapped: without the write the call faults there. */
  lemma UnmappedFaults(env: Env, m: Memory, low: nat)
    requires Armed(env) && env.Size() == 3 && Load(m, env.exclusiveAddr, 4) == Some(low) && Monitored(env, m).None?
    ensures Strex(env, m) == Config(Done(Segv(env.HighAddr())), env, m)
  {
    ArmedRuns(env, m);
  }

  lemma NewlyMappedLastIff(env: Env, m: Memory, low: nat, patch: Bytes)
    requires Armed(env) && env.Size() == 3 && Load(m, env.exclusiveAddr, 4) == Some(low) && Monitored(env, m).None?
    ensures LoadingHigh(env, Patched(m, patch), low) == Config(Done(Segv(env.HighAddr())), env, Patched(m, patch))
            <==> LastOk(env, m, LoadHigh(low), patch)
  {
    if Mixed(env, m, low, patch).Some? {
      assert Mapped(Patched(m, patch).bytes.Keys, env.exclusiveAddr, 4) by {
        LowStillMapped(m, patch, env.exclusiveAddr, 4);
      }
      NewlyComparedIff(env, m, low, Mixed(env, m, low, patch).value, patch);
    }
  }

  lemma NewlyComparedIff(env: Env, m: Memory, low: nat, w: nat, patch: Bytes)
    requires Armed(env) && env.Size() == 3 && Monitored(env, m).None? && Mixed(env, m, low, patch) == Some(w)
    requires Mapped(Patched(m, patch).bytes.Keys, env.exclusiveAddr, 4)
    ensures Comparing(env, Patched(m, patch), w) == Config(Done(Segv(env.HighAddr())), env, Patched(m, patch))
            <==> LastOk(env, m, LoadHigh(low), patch)
  {
    UnmappedLastIff(env, Patched(m, patch), w);
  }

  lemma LoadHighLastIff(env: Env, m: Memory, low: nat, patch: Bytes)
    requires Armed(env) && env.Size() == 3 && Load(m, env.exclusiveAddr, 4) == Some(low)
    ensures AsLast(env, m, Config(LoadHigh(low), env, m), patch) <==> LastOk(env, m, LoadHigh(low), patch)
  {
    LoadHighRuns(env, Patched(m, patch), low);
    if Monitored(env, m).Some? {
      HighStillMapped(env, m, low, patch);
      MappedLastIff(env, m, low, Mixed(env, m, low, patch).value, Monitored(env, m).value, patch);
    } else {
      UnmappedFaults(env, m, low);
      NewlyMappedLastIff(env, m, low, patch);
    }
  }

  lemma FinishIsLast(env: Env, m: Memory, c: Config, patch: Bytes)
    requires IsPoint(env, m, c) && c.at.Finish?
    ensures AsLast(env, m, c, patch)
  {
    FinishRuns(env, Patched(c.mem, patch), c.at.ok);
    if env.exclusiveAddr != env.exclusiveTest {
      DisarmedRuns(env, m);
    } else {
      ReadRuns(env, m);
    }
  }

  /** As if last: exactly under this condition, once something has been read. */
  lemma LastIff(env: Env, m: Memory, c: Config, patch: Bytes)
    requires IsPoint(env, m, c) && !c.at.Test? && !c.at.LoadLow? && !c.at.Done?
    ensures AsLast(env, m, c, patch) <==> LastOk(env, m, c.at, patch)
  {
    match c.at
    case LoadHigh(low) => LoadHighLastIff(env, m, low, patch);
    case Compare(v) => CompareLastIff(env, m, v, patch);
    case StoreLow => StoreLowLastIff(env, m, patch);
    case StoreHigh => StoreHighLastIff(env, m, patch);
    case Finish(_) => FinishIsLast(env, m, c, patch);
  }

  // ---------- the race ----------

  /** The write and the store-exclusive can be put in an order. */
  ghost predicate Serialises(env: Env, m: Memory, c: Config, patch: Bytes) {
    AsFirst(env, m, c, patch) || AsLast(env, m, c, patch)
  }

  /**
   A write by a system call after any number of statements of a store-exclusive: the two can be put
   in an order if and only if the condition for that point holds.  After the last statement they can.
   */
  lemma RaceIff(env: Env, m: Memory, k: nat, patch: Bytes)
    ensures var c := After(env, m, k);
            Serialises(env, m, c, patch) <==> c.at.Done? || FirstOk(env, m, c.at, patch) || LastOk(env, m, c.at, patch)
  {
    var c := After(env, m, k);
    EveryPointIs(env, m, k);
    if c.at.Done? {
      assert Run(c.(mem := Patched(c.mem, patch))) == c.(mem := Patched(c.mem, patch));
    } else {
      FirstIff(env, m, c, patch);
      if !c.at.Test? && !c.at.LoadLow? {
        LastIff(env, m, c, patch);
      }
    }
  }

  /** Before anything has been read, and once the outcome is decided, every write is harmless. */
  lemma EarlyAndLateSerialise(env: Env, m: Memory, k: nat, patch: Bytes)
    requires After(env, m, k).at.Test? || After(env, m, k).at.LoadLow? || Decided(After(env, m, k).at, env)
    ensures Serialises(env, m, After(env, m, k), patch)
  {
    RaceIff(env, m, k, patch);
  }

  /** Some byte the system call wrote is not there in the end. */
  ghost predicate IsLost(r: Config, patch: Bytes) {
    exists b :: b in patch && (b !in r.mem.bytes || r.mem.bytes[b] != patch[b])
  }

  /** From the comparison on, what cannot be put in an order is a lost write. */
  lemma RaceLoses(env: Env, m: Memory, k: nat, patch: Bytes)
    requires var c := After(env, m, k);
             (c.at.Compare? || c.at.StoreLow? || c.at.StoreHigh?) && !Serialises(env, m, c, patch)
    ensures IsLost(Raced(After(env, m, k), patch), patch)
  {
    var c := After(env, m, k);
    EveryPointIs(env, m, k);
    RaceIff(env, m, k, patch);
    if c.at.StoreHigh? {
      StoreHighRuns(env, Patched(c.mem, patch));
      Overwrites(c.mem.bytes + patch, patch, Shape(env.HighAddr(), 4), env.regs[env.HighReg()]);
    } else {
      StoreLowRuns(env, Patched(m, patch));
      CompareRuns(env, Patched(m, patch), env.exclusiveVal);
      StoringLoses(env, m, patch);
    }
  }

  lemma Overwrites(x: Bytes, patch: Bytes, f: Shape, v: nat)
    requires !AgreesOn(patch, f, v)
    ensures exists b :: b in patch && Touches(f, b) && b in Poke(x, f, v) && Poke(x, f, v)[b] != patch[b]
  {
    var b :| b in patch && Touches(f, b) && patch[b] != DataByte(v, b - f.addr);
    PokeAt(x, f, v, b);
  }

  lemma StoringLoses(env: Env, m: Memory, patch: Bytes)
    requires Armed(env) && !Agrees(env, m, patch)
    ensures IsLost(Storing(env, Patched(m, patch)), patch)
  {
    var p := Patched(m, patch);
    var lo, hi := Shape(env.exclusiveAddr, env.Width()), Shape(env.HighAddr(), 4);
    if !LowAgrees(env, patch) {
      Overwrites(p.bytes, patch, lo, env.regs[env.LowReg()]);
      var b :| b in patch && Touches(lo, b) && b in LowStored(env, p).bytes && LowStored(env, p).bytes[b] != patch[b];
      HighIsApart(env);
      PokeAt(LowStored(env, p).bytes, hi, env.regs[env.HighReg()], b);
    } else {
      Overwrites(LowStored(env, p).bytes, patch, hi, env.regs[env.HighReg()]);
    }
  }

  // ---------- races that go wrong ----------

  /** How many statements come before the first store, before the second, and before the second load. */
  lemma ReachesStores(env: Env, m: Memory)
    requires Matches(env, m)
    ensures After(env, m, if env.Size() == 3 then 4 else 3) == Config(StoreLow, env, m)
    ensures env.Size() == 3 && LowWritable(env, m) ==> After(env, m, 5) == Config(StoreHigh, env, LowStored(env, m))
  {
    assert After(env, m, 0) == Config(Test, env, m);
    assert After(env, m, 1) == Config(LoadLow, env, m);
    var c := After(env, m, 2);
    assert c == MicroStep(Config(LoadLow, env, m));
    assert After(env, m, 3) == MicroStep(c);
    assert After(env, m, 4) == MicroStep(After(env, m, 3));
    assert After(env, m, 5) == MicroStep(After(env, m, 4));
  }

  lemma ReachesLoadHigh(env: Env, m: Memory, low: nat)
    requires Armed(env) && env.Size() == 3 && Load(m, env.exclusiveAddr, 4) == Some(low)
    ensures After(env, m, 2) == Config(LoadHigh(low), env, m)
  {
    assert After(env, m, 0) == Config(Test, env, m);
    assert After(env, m, 1) == Config(LoadLow, env, m);
  }

  /** A write between comparison and store that changes the monitored value and is not what is stored is lost. */
  lemma StoreLowLoses(env: Env, m: Memory, patch: Bytes) returns (k: nat)
    requires Matches(env, m) && Writable(env, m) && !Fits(env, Monitored(env, Patched(m, patch))) && !Agrees(env, m, patch)
    ensures After(env, m, k).at == StoreLow && Raced(After(env, m, k), patch).at == Done(Succeeded)
    ensures !Serialises(env, m, After(env, m, k), patch) && IsLost(Raced(After(env, m, k), patch), patch)
  {
    k := if env.Size() == 3 then 4 else 3;
    ReachesStores(env, m);
    RaceIff(env, m, k, patch);
    RaceLoses(env, m, k, patch);
    StoreLowRuns(env, Patched(m, patch));
  }

  /** So is one between the two stores of a doubleword that is not what is stored to its high half. */
  lemma StoreHighLoses(env: Env, m: Memory, patch: Bytes)
    requires Matches(env, m) && env.Size() == 3 && Writable(env, m)
    requires !Fits(env, Monitored(env, Patched(m, patch))) && !HighAgrees(env, m, patch)
    ensures After(env, m, 5).at == StoreHigh && Raced(After(env, m, 5), patch).at == Done(Succeeded)
    ensures !Serialises(env, m, After(env, m, 5), patch) && IsLost(Raced(After(env, m, 5), patch), patch)
  {
    ReachesStores(env, m);
    HighLoses(env, m, 5, patch);
  }

  lemma HighLoses(env: Env, m: Memory, k: nat, patch: Bytes)
    requires Matches(env, m) && env.Size() == 3 && Writable(env, m)
    requires !Fits(env, Monitored(env, Patched(m, patch))) && !HighAgrees(env, m, patch)
    requires After(env, m, k) == Config(StoreHigh, env, LowStored(env, m))
    ensures Raced(After(env, m, k), patch).at == Done(Succeeded)
    ensures !Serialises(env, m, After(env, m, k), patch) && IsLost(Raced(After(env, m, k), patch), patch)
  {
    RaceIff(env, m, k, patch);
    RaceLoses(env, m, k, patch);
    StoreHighRuns(env, Patched(LowStored(env, m), patch));
  }

  /** A doubleword half read before the write and half after it can succeed though it would fail before and after. */
  lemma MixedReadSucceeds(env: Env, m: Memory, low: nat, patch: Bytes)
    requires Armed(env) && env.Size() == 3 && Writable(env, m) && Load(m, env.exclusiveAddr, 4) == Some(low)
    requires Fits(env, Mixed(env, m, low, patch)) && Monitored(env, m).Some?
    requires !Fits(env, Monitored(env, m)) && !Fits(env, Monitored(env, Patched(m, patch)))
    ensures After(env, m, 2).at == LoadHigh(low) && Raced(After(env, m, 2), patch).at == Done(Succeeded)
    ensures Strex(env, m).at == Done(Failed) && Strex(env, Patched(m, patch)).at == Done(Failed)
  {
    ReachesLoadHigh(env, m, low);
    LoadHighRuns(env, Patched(m, patch), low);
    ReadRuns(env, m);
    StillMapped(env, m, patch);
    ReadRuns(env, Patched(m, patch));
  }

  /** Zeroes at 0 to 7, all of them writable. */
  const ZEROES := Memory(map[0 := 0, 1 := 0, 2 := 0, 3 := 0, 4 := 0, 5 := 0, 6 := 0, 7 := 0], {0, 1, 2, 3, 4, 5, 6, 7})

  const ONES: Regs := seq(16, _ => 1)

  lemma ZeroWords()
    ensures Load(ZEROES, 0, 4) == Some(0) && Load(ZEROES, 4, 4) == Some(0)
    ensures Mapped(ZEROES.writable, 0, 4) && Mapped(ZEROES.writable, 4, 4)
  {
    ZeroPeek(ZEROES.bytes, 0, 4);
    ZeroPeek(ZEROES.bytes, 4, 4);
  }

  /** A word of zeroes whose lowest byte has been written to. */
  lemma PatchedWord(m: Memory, a: nat, patch: Bytes)
    requires Load(m, a, 4) == Some(0) && a in patch && forall b :: a < b < a + 4 ==> b !in patch
    requires Mapped(m.bytes.Keys, a, 4) && forall b :: a < b < a + 4 ==> m.bytes[b] == 0
    ensures Load(Patched(m, patch), a, 4) == Some(patch[a])
  {
    var p := Patched(m, patch);
    ZeroPeek(p.bytes, a + 1, 3);
    assert Peek(p.bytes, a, 4) == p.bytes[a] + 256 * Peek(p.bytes, a + 1, 3);
  }

  /** The lost write, at memory of zeroes: 2 is written, 1 is stored. */
  lemma LostWrite() returns (env: Env, m: Memory, k: nat, patch: Bytes)
    ensures After(env, m, k).at == StoreLow && Raced(After(env, m, k), patch).at == Done(Succeeded)
    ensures !Serialises(env, m, After(env, m, k), patch) && IsLost(Raced(After(env, m, k), patch), patch)
  {
    env, m, patch := Env(ONES, 0, 0, 0, 2), ZEROES, map[0 := 2];
    ZeroWords();
    PatchedWord(m, 0, patch);
    assert env.Size() == 2 && env.regs[env.LowReg()] == 1;
    assert 0 in patch && Touches(Shape(0, 4), 0) && patch[0] != DataByte(1, 0);
    k := StoreLowLoses(env, m, patch);
  }

  /** The same between the two stores of a doubleword. */
  lemma LostHighWrite() returns (env: Env, m: Memory, patch: Bytes)
    ensures After(env, m, 5).at == StoreHigh && Raced(After(env, m, 5), patch).at == Done(Succeeded)
    ensures !Serialises(env, m, After(env, m, 5), patch) && IsLost(Raced(After(env, m, 5), patch), patch)
  {
    env, m, patch := Env(ONES, 0, 0, 0, 3), ZEROES, map[4 := 2];
    ZeroWords();
    assert env.Size() == 3 && env.HighAddr() == 4 && env.regs[env.HighReg()] == 1;
    PatchedWord(m, 4, patch);
    assert 4 in patch && Touches(Shape(4, 4), 4) && patch[4] != DataByte(1, 0);
    StoreHighLoses(env, m, patch);
  }

  /** And between its two loads. */
  lemma MixedRead() returns (env: Env, m: Memory, patch: Bytes)
    ensures After(env, m, 2).at == LoadHigh(0) && Raced(After(env, m, 2), patch).at == Done(Succeeded)
    ensures Strex(env, m).at == Done(Failed) && Strex(env, Patched(m, patch)).at == Done(Failed)
  {
    env, m, patch := Env(ONES, 0, 0, U32, 3), ZEROES, map[0 := 5, 4 := 1];
    ZeroWords();
    assert env.Size() == 3 && env.HighAddr() == 4;
    PatchedWord(m, 0, patch);
    PatchedWord(m, 4, patch);
    MixedReadSucceeds(env, m, 0, patch);
  }
}
