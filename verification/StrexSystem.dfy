/**
 Many CPUs running guest code, system calls and store-exclusives over one memory.

 Inside the exclusive section the statements of do_strex interleave with whatever the other threads
 can still do.  The result is the atomic system in which every store-exclusive is one indivisible
 compare-and-swap.
 */
module StrexSystem {
  import opened Prelude
  import opened ByteStores
  import opened StoreExclusive
  import opened ForeignWrites
  import P = ExclusiveCpus

  /**
   `Active` remembers the environment and the memory the call found when it began; what system calls
   write in the meantime counts as having been there.
   */
  datatype Job = NoJob | Active(at: Micro, env0: Env, mem0: Memory)

  datatype Sys = Sys(p: P.State, mem: Memory, envs: seq<Env>, jobs: seq<Job>, successes: nat)

  /** What a thread does: a statement of the protocol, guest code, a system call, or a statement of do_strex. */
  datatype Move =
    | Protocol(a: P.Action)
    | Guest(env: Env, mem: Memory)
    | Kernel(env: Env, patch: Bytes)
    | Enter
    | Statement

  ghost predicate WellFormed(s: Sys) {
    P.Shaped(s.p) && |s.envs| == |s.p.pcs| && |s.jobs| == |s.p.pcs|
  }

  predicate Busy(s: Sys, t: nat) {
    t < |s.jobs| && s.jobs[t].Active? && !s.jobs[t].at.Done?
  }

  /** A write that misses the access, or comes before anything is read, or once the outcome is decided. */
  ghost predicate Harmless(at: Micro, env: Env, patch: Bytes) {
    Misses(env, patch) || at.Test? || at.LoadLow? || Decided(at, env)
  }

  ghost predicate Respects(s: Sys, patch: Bytes) {
    forall u: nat {:trigger Busy(s, u)} :: Busy(s, u) && u < |s.envs| ==> Harmless(s.jobs[u].at, s.envs[u], patch)
  }

  function PatchedJobs(jobs: seq<Job>, patch: Bytes): (r: seq<Job>)
    ensures |r| == |jobs|
    ensures forall u :: 0 <= u < |jobs| ==>
      r[u] == if jobs[u].Active? then jobs[u].(mem0 := Patched(jobs[u].mem0, patch)) else jobs[u]
  {
    seq(|jobs|, u requires 0 <= u < |jobs| =>
      if jobs[u].Active? then jobs[u].(mem0 := Patched(jobs[u].mem0, patch)) else jobs[u])
  }

  ghost predicate SysStep(s: Sys, t: nat, m: Move, s': Sys) {
    && WellFormed(s) && t < |s.p.pcs|
    && match m
       case Protocol(a) =>
         // end_exclusive is reached only once do_strex has done its work
         && P.Step(s.p, t, a, s'.p)
         && (s.p.pcs[t] == P.Exclusive ==> s.jobs[t].Active? && s.jobs[t].at.Done? && s.jobs[t].at.outcome != Aborted)
         && s' == s.(p := s'.p, jobs := if s.p.pcs[t] == P.Exclusive then s.jobs[t := NoJob] else s.jobs)
       case Guest(env, mem) =>
         s.p.pcs[t] == P.Guest && s' == s.(envs := s.envs[t := env], mem := mem)
       case Kernel(env, patch) =>
         // a system call is kept out by nobody
         && s.p.pcs[t] == P.Out && Respects(s, patch)
         && s' == s.(envs := s.envs[t := env], mem := Patched(s.mem, patch), jobs := PatchedJobs(s.jobs, patch))
       case Enter =>
         s.p.pcs[t] == P.Exclusive && s.jobs[t] == NoJob
         && s' == s.(jobs := s.jobs[t := Active(Test, s.envs[t], s.mem)])
       case Statement =>
         && s.p.pcs[t] == P.Exclusive && Busy(s, t)
         && var c := MicroStep(Config(s.jobs[t].at, s.envs[t], s.mem));
            s' == s.(mem := c.mem, envs := s.envs[t := c.env], jobs := s.jobs[t := s.jobs[t].(at := c.at)],
                     successes := s.successes + if Succeeds(c.at) then 1 else 0)
  }

  ghost predicate SysInit(s: Sys) {
    WellFormed(s) && P.Init(s.p) && s.successes == 0 && forall t :: 0 <= t < |s.jobs| ==> s.jobs[t] == NoJob
  }

  ghost predicate SysNext(s: Sys, s': Sys) {
    exists t, m :: SysStep(s, t, m, s')
  }

  ghost predicate SysRun(run: seq<Sys>) {
    run != [] && SysInit(run[0]) && forall i :: 0 < i < |run| ==> SysNext(run[i - 1], run[i])
  }

  // ---------- the atomic system ----------

  datatype Atomic = Atomic(mem: Memory, envs: seq<Env>, successes: nat)

  ghost predicate AtomicStrex(a: Atomic, t: nat, a': Atomic) {
    t < |a.envs|
    && var c := Strex(a.envs[t], a.mem);
       a' == Atomic(c.mem, a.envs[t := c.env], a.successes + if c.at == Done(Succeeded) then 1 else 0)
  }

  ghost predicate AtomicGuest(a: Atomic, t: nat, env: Env, mem: Memory, a': Atomic) {
    t < |a.envs| && a' == a.(envs := a.envs[t := env], mem := mem)
  }

  ghost predicate AtomicKernel(a: Atomic, t: nat, env: Env, patch: Bytes, a': Atomic) {
    t < |a.envs| && a' == a.(envs := a.envs[t := env], mem := Patched(a.mem, patch))
  }

  /** What a move looks like to somebody who sees only whole store-exclusives. */
  ghost predicate AtomicStep(a: Atomic, t: nat, m: Move, a': Atomic) {
    match m
    case Guest(env, mem) => AtomicGuest(a, t, env, mem, a')
    case Kernel(env, patch) => AtomicKernel(a, t, env, patch, a')
    case Statement => a' == a || AtomicStrex(a, t, a')
    case _ => a' == a
  }

  ghost predicate AtomicNext(a: Atomic, a': Atomic) {
    exists t, m :: AtomicStep(a, t, m, a')
  }

  ghost predicate AtomicRun(run: seq<Atomic>) {
    run != [] && run[0].successes == 0 && forall i :: 0 < i < |run| ==> AtomicNext(run[i - 1], run[i])
  }

  /** A store-exclusive has happened as soon as its outcome is decided, and not before. */
  ghost function AbsWith(s: Sys, b: nat): Atomic
    requires WellFormed(s) && Busy(s, b)
  {
    var job, env := s.jobs[b], s.envs[b];
    if Decided(job.at, env) then Atomic(s.mem, s.envs[b := Finished(env, Succeeds(job.at))], s.successes)
    else Atomic(job.mem0, s.envs[b := job.env0], s.successes)
  }

  ghost function Abs(s: Sys): Atomic
    requires WellFormed(s)
  {
    if b: nat :| Busy(s, b) then AbsWith(s, b) else Atomic(s.mem, s.envs, s.successes)
  }

  // ---------- the invariant ----------

  /** A store-exclusive in progress will end as if nothing had come between. */
  ghost predicate OnCourse(job: Job, env: Env, mem: Memory)
    requires job.Active?
  {
    && Possible(job.at, env) && env == job.env0
    && (Decided(job.at, env) || Run(Config(job.at, env, mem)) == Strex(job.env0, job.mem0))
    && (job.at.Test? || job.at.LoadLow? ==> mem == job.mem0)
  }

  /** A job exists only in the exclusive section. */
  ghost predicate JobInv(s: Sys, t: nat)
    requires WellFormed(s) && t < |s.jobs|
  {
    s.jobs[t].Active? ==> s.p.pcs[t] == P.Exclusive && (Busy(s, t) ==> OnCourse(s.jobs[t], s.envs[t], s.mem))
  }

  ghost predicate SysInv(s: Sys) {
    WellFormed(s) && P.Inv(s.p) && forall t {:trigger JobInv(s, t)} :: 0 <= t < |s.jobs| ==> JobInv(s, t)
  }

  lemma OnlyOneBusy(s: Sys, t: nat, u: nat)
    requires SysInv(s) && t < |s.jobs| && s.p.pcs[t] == P.Exclusive && Busy(s, u)
    ensures u == t
  {
    P.InvAlone(s.p, t);
    assert JobInv(s, u);
  }

  lemma NoneBusyInGuest(s: Sys, t: nat, u: nat)
    requires SysInv(s) && t < |s.jobs| && s.p.pcs[t] == P.Guest
    ensures !Busy(s, u)
  {
    if Busy(s, u) {
      assert JobInv(s, u);
      P.InvAlone(s.p, u);
    }
  }

  lemma AbsOfBusy(s: Sys, t: nat)
    requires SysInv(s) && Busy(s, t)
    ensures Abs(s) == AbsWith(s, t)
  {
    assert JobInv(s, t);
    var b: nat :| Busy(s, b) && Abs(s) == AbsWith(s, b);
    OnlyOneBusy(s, t, b);
  }

  // ---------- each move ----------

  /** A protocol statement of one thread takes no other thread out of the exclusive section. */
  lemma ExclusiveStays(s: P.State, t: nat, a: P.Action, s': P.State, u: nat)
    requires P.Step(s, t, a, s') && u < |s.pcs| && u != t
    ensures |s'.pcs| == |s.pcs| && (s.pcs[u] == P.Exclusive ==> s'.pcs[u] == P.Exclusive)
  {
  }

  lemma ProtocolKeepsInv(s: Sys, t: nat, m: Move, s': Sys)
    requires SysInv(s) && SysStep(s, t, m, s') && m.Protocol?
    ensures SysInv(s')
  {
    P.StepKeepsInv(s.p, t, m.a, s'.p);
    assert |s'.p.pcs| == |s.p.pcs|;
    forall u | 0 <= u < |s.jobs| ensures JobInv(s', u) {
      assert JobInv(s, u);
      if u != t {
        ExclusiveStays(s.p, t, m.a, s'.p, u);
      }
    }
  }

  lemma ProtocolRefines(s: Sys, t: nat, m: Move, s': Sys)
    requires SysInv(s) && SysStep(s, t, m, s') && m.Protocol?
    ensures SysInv(s') && Abs(s') == Abs(s)
  {
    ProtocolKeepsInv(s, t, m, s');
    assert forall u: nat :: Busy(s', u) <==> Busy(s, u);
    if b: nat :| Busy(s, b) {
      AbsOfBusy(s, b);
      AbsOfBusy(s', b);
    }
  }

  lemma EnterRefines(s: Sys, t: nat, s': Sys)
    requires SysInv(s) && SysStep(s, t, Enter, s')
    ensures SysInv(s') && Abs(s') == Abs(s)
  {
    forall u | 0 <= u < |s.jobs| ensures JobInv(s', u) {
      assert JobInv(s, u);
    }
    if b: nat :| Busy(s, b) {
      OnlyOneBusy(s, t, b);
    }
    assert Busy(s', t);
    AbsOfBusy(s', t);
    assert s'.envs[t := s.envs[t]] == s.envs;
  }

  lemma GuestRefines(s: Sys, t: nat, env: Env, mem: Memory, s': Sys)
    requires SysInv(s) && SysStep(s, t, Guest(env, mem), s')
    ensures SysInv(s') && AtomicGuest(Abs(s), t, env, mem, Abs(s')) && Abs(s).mem == s.mem
  {
    forall u: nat ensures !Busy(s, u) && !Busy(s', u) {
      NoneBusyInGuest(s, t, u);
    }
    forall u | 0 <= u < |s.jobs| ensures JobInv(s', u) {
      assert JobInv(s, u);
    }
  }

  /** A harmless write leaves a store-exclusive on course. */
  lemma HarmlessKeepsCourse(job: Job, env: Env, mem: Memory, patch: Bytes)
    requires job.Active? && OnCourse(job, env, mem) && Harmless(job.at, env, patch)
    ensures OnCourse(job.(mem0 := Patched(job.mem0, patch)), env, Patched(mem, patch))
  {
    if Decided(job.at, env) {
    } else if Misses(env, patch) {
      RunPatched(Config(job.at, env, mem), patch);
      RunPatched(Config(Test, env, job.mem0), patch);
    } else if job.at.LoadLow? {
      LoadLowRuns(env, Patched(mem, patch));
      ArmedRuns(env, Patched(mem, patch));
    }
  }

  lemma KernelKeepsInv(s: Sys, t: nat, env: Env, patch: Bytes, s': Sys)
    requires SysInv(s) && SysStep(s, t, Kernel(env, patch), s')
    ensures SysInv(s')
  {
    forall u | 0 <= u < |s.jobs| ensures JobInv(s', u) {
      assert JobInv(s, u);
      if Busy(s, u) {
        HarmlessKeepsCourse(s.jobs[u], s.envs[u], s.mem, patch);
      }
    }
  }

  lemma KernelRefines(s: Sys, t: nat, env: Env, patch: Bytes, s': Sys)
    requires SysInv(s) && SysStep(s, t, Kernel(env, patch), s')
    ensures SysInv(s') && AtomicKernel(Abs(s), t, env, patch, Abs(s'))
  {
    KernelKeepsInv(s, t, env, patch, s');
    assert forall u: nat :: Busy(s', u) <==> Busy(s, u);
    if b: nat :| Busy(s, b) {
      assert JobInv(s, b);
      AbsOfBusy(s, b);
      AbsOfBusy(s', b);
      var e := if Decided(s.jobs[b].at, s.envs[b]) then Finished(s.envs[b], Succeeds(s.jobs[b].at)) else s.jobs[b].env0;
      assert s.envs[t := env][b := e] == s.envs[b := e][t := env];
    }
  }

  /** The next statement keeps a store-exclusive on course. */
  lemma StatementKeepsCourse(job: Job, env: Env, mem: Memory)
    requires job.Active? && !job.at.Done? && OnCourse(job, env, mem)
    ensures var c := MicroStep(Config(job.at, env, mem)); !c.at.Done? ==> OnCourse(job.(at := c.at), c.env, c.mem)
  {
    var c := Config(job.at, env, mem);
    assert Run(c) == Run(MicroStep(c));
  }

  lemma StatementKeepsInv(s: Sys, t: nat, s': Sys)
    requires SysInv(s) && SysStep(s, t, Statement, s')
    ensures SysInv(s')
  {
    forall u | 0 <= u < |s.jobs| ensures JobInv(s', u) {
      assert JobInv(s, u) && JobInv(s, t);
      if u == t {
        StatementKeepsCourse(s.jobs[t], s.envs[t], s.mem);
      } else if Busy(s, u) {
        OnlyOneBusy(s, t, u);
      }
    }
  }

  /** The atomic state right after the next statement of the one store-exclusive in progress. */
  lemma AbsAfterStatement(s: Sys, t: nat, s': Sys)
    requires SysInv(s) && SysStep(s, t, Statement, s') && SysInv(s')
    ensures Abs(s') == if Busy(s', t) then AbsWith(s', t) else Atomic(s'.mem, s'.envs, s'.successes)
  {
    if b: nat :| Busy(s', b) {
      if b != t {
        OnlyOneBusy(s, t, b);
      }
      AbsOfBusy(s', b);
    }
  }

  /** A decided store-exclusive only wraps up. */
  lemma WrapUpStutters(s: Sys, t: nat, s': Sys)
    requires SysInv(s) && SysStep(s, t, Statement, s') && SysInv(s') && Decided(s.jobs[t].at, s.envs[t])
    ensures Abs(s') == Abs(s)
  {
    AbsOfBusy(s, t);
    AbsAfterStatement(s, t, s');
    assert s.envs[t := s.envs[t]] == s.envs;
  }

  lemma UndecidedStutters(s: Sys, t: nat, s': Sys)
    requires SysInv(s) && SysStep(s, t, Statement, s') && SysInv(s')
    requires !Decided(s.jobs[t].at, s.envs[t]) && Busy(s', t) && !Decided(s'.jobs[t].at, s'.envs[t])
    ensures Abs(s') == Abs(s)
  {
    AbsOfBusy(s, t);
    AbsAfterStatement(s, t, s');
    assert s'.envs[t := s.jobs[t].env0] == s.envs[t := s.jobs[t].env0];
  }

  /** The statement that decides the outcome is the whole store-exclusive. */
  lemma DecisionIsAtomic(s: Sys, t: nat, s': Sys)
    requires SysInv(s) && SysStep(s, t, Statement, s') && SysInv(s') && !Decided(s.jobs[t].at, s.envs[t])
    requires Busy(s', t) ==> Decided(s'.jobs[t].at, s'.envs[t])
    ensures AtomicStrex(Abs(s), t, Abs(s'))
  {
    assert JobInv(s, t);
    AbsOfBusy(s, t);
    AbsAfterStatement(s, t, s');
    var c := Config(s.jobs[t].at, s.envs[t], s.mem);
    var d := MicroStep(c);
    assert Run(c) == Run(d);
    if d.at.Done? {
      assert Run(d) == d;
    } else {
      DecidedRuns(d.at, d.env, d.mem);
    }
    assert s.envs[t := s.jobs[t].env0] == s.envs;
  }

  lemma StatementRefines(s: Sys, t: nat, s': Sys)
    requires SysInv(s) && SysStep(s, t, Statement, s')
    ensures SysInv(s')
    ensures var decides := !Decided(s.jobs[t].at, s.envs[t]) && (Busy(s', t) ==> Decided(s'.jobs[t].at, s'.envs[t]));
            if decides then AtomicStrex(Abs(s), t, Abs(s')) else Abs(s') == Abs(s)
  {
    StatementKeepsInv(s, t, s');
    if Decided(s.jobs[t].at, s.envs[t]) {
      WrapUpStutters(s, t, s');
    } else if Busy(s', t) && !Decided(s'.jobs[t].at, s'.envs[t]) {
      UndecidedStutters(s, t, s');
    } else {
      DecisionIsAtomic(s, t, s');
    }
  }

  /** Refinement: every interleaved move is a move of the atomic system, or invisible in it. */
  lemma MoveRefines(s: Sys, t: nat, m: Move, s': Sys)
    requires SysInv(s) && SysStep(s, t, m, s')
    ensures SysInv(s') && AtomicStep(Abs(s), t, m, Abs(s'))
  {
    match m
    case Protocol(_) => ProtocolRefines(s, t, m, s');
    case Enter => EnterRefines(s, t, s');
    case Guest(env, mem) => GuestRefines(s, t, env, mem, s');
    case Kernel(env, patch) => KernelRefines(s, t, env, patch, s');
    case Statement => StatementRefines(s, t, s');
  }

  // ---------- whole runs ----------

  lemma InitIsSound(s: Sys)
    requires SysInit(s)
    ensures SysInv(s) && Abs(s) == Atomic(s.mem, s.envs, 0)
  {
    P.InitInv(s.p);
    forall t | 0 <= t < |s.jobs| ensures JobInv(s, t) {}
    assert forall t: nat :: !Busy(s, t);
  }

  lemma {:induction false} RunIsSound(run: seq<Sys>, i: nat)
    requires SysRun(run) && i < |run|
    ensures SysInv(run[i])
  {
    if i == 0 {
      InitIsSound(run[0]);
    } else {
      RunIsSound(run, i - 1);
      var t, m :| SysStep(run[i - 1], t, m, run[i]);
      MoveRefines(run[i - 1], t, m, run[i]);
    }
  }

  ghost predicate AllWellFormed(run: seq<Sys>) {
    forall i :: 0 <= i < |run| ==> WellFormed(run[i])
  }

  ghost function AbsRun(run: seq<Sys>): (r: seq<Atomic>)
    requires AllWellFormed(run)
    ensures |r| == |run| && forall i :: 0 <= i < |run| ==> r[i] == Abs(run[i])
  {
    seq(|run|, i requires 0 <= i < |run| && WellFormed(run[i]) => Abs(run[i]))
  }

  /** Every run of the interleaved system is, seen through Abs, a run of the atomic one. */
  lemma RunRefines(run: seq<Sys>)
    requires SysRun(run)
    ensures AllWellFormed(run) && AtomicRun(AbsRun(run)) && AbsRun(run)[0] == Atomic(run[0].mem, run[0].envs, 0)
  {
    forall i | 0 <= i < |run| ensures SysInv(run[i]) {
      RunIsSound(run, i);
    }
    InitIsSound(run[0]);
    forall i | 0 < i < |run| ensures AtomicNext(Abs(run[i - 1]), Abs(run[i])) {
      var t, m :| SysStep(run[i - 1], t, m, run[i]);
      MoveRefines(run[i - 1], t, m, run[i]);
    }
  }

  // ---------- counting increments, in the atomic system ----------

  /** A CPU that takes part only ever proposes the monitored 32-bit value plus one, at `cell`. */
  predicate Increments(env: Env, cell: nat) {
    env.exclusiveAddr == env.exclusiveTest ==>
      env.exclusiveAddr == cell && env.Size() == 2
      && env.regs[env.LowReg()] == (env.exclusiveVal + 1) % U32
  }

  lemma AddOne(x: nat)
    ensures (x % U32 + 1) % U32 == (x + 1) % U32
  {
  }

  /** One indivisible store-exclusive by a disciplined CPU. */
  lemma StrexCounts(env: Env, mem: Memory, cell: nat, total: nat)
    requires Increments(env, cell) && Load(mem, cell, 4) == Some(total % U32)
    ensures Strex(env, mem).at == Done(Succeeded) ==> Load(Strex(env, mem).mem, cell, 4) == Some((total + 1) % U32)
    ensures Strex(env, mem).at != Done(Succeeded) ==> Strex(env, mem).mem == mem
  {
    StrexSwapsIff(env, mem);
    if Strex(env, mem).at == Done(Succeeded) {
      StrexStores(env, mem);
      WordFits(env.regs[env.LowReg()]);
      AddOne(total);
    } else {
      StrexAllOrNothing(env, mem);
    }
  }

  /** Guest code and system calls leave the cell alone; store-exclusives increment. */
  ghost predicate AtomicDisciplined(a: Atomic, t: nat, m: Move, a': Atomic, cell: nat) {
    match m
    case Guest(_, mem) => Load(mem, cell, 4) == Load(a.mem, cell, 4)
    case Kernel(_, patch) => Outside(patch, cell, 4)
    case Statement => a' == a || (t < |a.envs| && Increments(a.envs[t], cell))
    case _ => true
  }

  ghost predicate AtomicCounts(a: Atomic, cell: nat, start: nat) {
    Load(a.mem, cell, 4) == Some((start + a.successes) % U32)
  }

  lemma AtomicMoveCounts(a: Atomic, t: nat, m: Move, a': Atomic, cell: nat, start: nat)
    requires AtomicStep(a, t, m, a') && AtomicDisciplined(a, t, m, a', cell) && AtomicCounts(a, cell, start)
    ensures AtomicCounts(a', cell, start)
  {
    match m
    case Kernel(_, patch) => LoadPatched(a.mem, patch, cell, 4);
    case Statement =>
      if a' != a {
        StrexCounts(a.envs[t], a.mem, cell, start + a.successes);
      }
    case _ =>
  }

  ghost predicate AtomicCountedNext(a: Atomic, a': Atomic, cell: nat) {
    exists t, m :: AtomicStep(a, t, m, a') && AtomicDisciplined(a, t, m, a', cell)
  }

  ghost predicate AtomicCountedRun(run: seq<Atomic>, cell: nat) {
    run != [] && run[0].successes == 0 && forall i :: 0 < i < |run| ==> AtomicCountedNext(run[i - 1], run[i], cell)
  }

  /** In every run of the atomic system the cell grows by the number of successful store-exclusives. */
  lemma {:induction false} AtomicRunCounts(run: seq<Atomic>, cell: nat, start: nat, i: nat)
    requires AtomicCountedRun(run, cell) && i < |run| && Load(run[0].mem, cell, 4) == Some(start % U32)
    ensures AtomicCounts(run[i], cell, start)
  {
    if i > 0 {
      AtomicRunCounts(run, cell, start, i - 1);
      var t, m :| AtomicStep(run[i - 1], t, m, run[i]) && AtomicDisciplined(run[i - 1], t, m, run[i], cell);
      AtomicMoveCounts(run[i - 1], t, m, run[i], cell, start);
    }
  }

  // ---------- and in the interleaved one ----------

  ghost predicate Disciplined(s: Sys, t: nat, m: Move, cell: nat)
    requires WellFormed(s) && t < |s.envs|
  {
    match m
    case Guest(_, mem) => Load(mem, cell, 4) == Load(s.mem, cell, 4)
    case Kernel(_, patch) => Outside(patch, cell, 4)
    case Enter => Increments(s.envs[t], cell)
    case _ => true
  }

  ghost predicate CountedMove(s: Sys, s': Sys, cell: nat) {
    exists t, m :: SysStep(s, t, m, s') && Disciplined(s, t, m, cell)
  }

  ghost predicate CountedRun(run: seq<Sys>, cell: nat) {
    run != [] && SysInit(run[0]) && forall i :: 0 < i < |run| ==> CountedMove(run[i - 1], run[i], cell)
  }

  ghost predicate BusyIncrement(s: Sys, cell: nat) {
    forall t: nat :: Busy(s, t) ==> Increments(s.jobs[t].env0, cell)
  }

  /** A write that leaves the cell alone misses every disciplined store-exclusive. */
  lemma CellIsRespected(s: Sys, patch: Bytes, cell: nat)
    requires SysInv(s) && BusyIncrement(s, cell) && Outside(patch, cell, 4)
    ensures Respects(s, patch)
  {
    forall u: nat | Busy(s, u) && u < |s.envs| ensures Misses(s.envs[u], patch) {
      assert JobInv(s, u) && Increments(s.jobs[u].env0, cell);
    }
  }

  lemma BusyStayDisciplined(s: Sys, t: nat, m: Move, s': Sys, cell: nat)
    requires SysStep(s, t, m, s') && Disciplined(s, t, m, cell) && BusyIncrement(s, cell)
    ensures BusyIncrement(s', cell)
  {
    forall u: nat | Busy(s', u) ensures Increments(s'.jobs[u].env0, cell) {
      if !(m.Enter? && u == t) {
        assert Busy(s, u);
      }
    }
  }

  /** The discipline of the interleaved system is that of the atomic one. */
  lemma DisciplineTransfers(s: Sys, t: nat, m: Move, s': Sys, cell: nat)
    requires SysInv(s) && SysStep(s, t, m, s') && Disciplined(s, t, m, cell) && BusyIncrement(s, cell) && WellFormed(s')
    ensures AtomicDisciplined(Abs(s), t, m, Abs(s'), cell)
  {
    match m
    case Guest(env, mem) => GuestRefines(s, t, env, mem, s');
    case Statement =>
      StatementRefines(s, t, s');
      AbsOfBusy(s, t);
    case _ => MoveRefines(s, t, m, s');
  }

  lemma CountedMoveRefines(s: Sys, s': Sys, cell: nat)
    requires SysInv(s) && BusyIncrement(s, cell) && CountedMove(s, s', cell)
    ensures SysInv(s') && BusyIncrement(s', cell) && AtomicCountedNext(Abs(s), Abs(s'), cell)
  {
    var t, m :| SysStep(s, t, m, s') && Disciplined(s, t, m, cell);
    MoveRefines(s, t, m, s');
    DisciplineTransfers(s, t, m, s', cell);
    BusyStayDisciplined(s, t, m, s', cell);
  }

  lemma {:induction false} CountedRunIsSound(run: seq<Sys>, cell: nat, i: nat)
    requires CountedRun(run, cell) && i < |run|
    ensures SysInv(run[i]) && BusyIncrement(run[i], cell)
  {
    if i == 0 {
      InitIsSound(run[0]);
    } else {
      CountedRunIsSound(run, cell, i - 1);
      CountedMoveRefines(run[i - 1], run[i], cell);
    }
  }

  lemma CountedRunRefines(run: seq<Sys>, cell: nat)
    requires CountedRun(run, cell)
    ensures AllWellFormed(run) && AtomicCountedRun(AbsRun(run), cell) && Abs(run[0]).mem == run[0].mem
  {
    forall i | 0 <= i < |run| ensures SysInv(run[i]) && BusyIncrement(run[i], cell) {
      CountedRunIsSound(run, cell, i);
    }
    InitIsSound(run[0]);
    forall i | 0 < i < |run| ensures AtomicCountedNext(Abs(run[i - 1]), Abs(run[i]), cell) {
      CountedMoveRefines(run[i - 1], run[i], cell);
    }
  }

  /** No store-exclusive is undecided. */
  ghost predicate Settled(s: Sys)
    requires WellFormed(s)
  {
    forall t: nat :: Busy(s, t) ==> Decided(s.jobs[t].at, s.envs[t])
  }

  /**
   Over every run of any number of CPUs, under every interleaving: whenever no store-exclusive is
   undecided, the cell has grown by the number of successful ones.
   */
  lemma IncrementsAreCounted(run: seq<Sys>, cell: nat, start: nat, i: nat)
    requires CountedRun(run, cell) && i < |run| && Load(run[0].mem, cell, 4) == Some(start) && start < U32
    ensures WellFormed(run[i]) && AtomicCounts(Abs(run[i]), cell, start)
    ensures Settled(run[i]) ==> Load(run[i].mem, cell, 4) == Some((start + run[i].successes) % U32)
  {
    CountedRunRefines(run, cell);
    AtomicRunCounts(AbsRun(run), cell, start, i);
  }
}
