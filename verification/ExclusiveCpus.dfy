/**
 The exclusive-CPU protocol of the user-mode emulator: one mutex, two condition
 variables, the counter `pending_cpus` and one `running` flag per CPU.

 Thread `t` drives CPU `t`.  Every access to shared state is a step of its own;
 a wait on a condition variable is three: release the lock and block, be woken,
 take the lock again.  A waiter on `exclusive_resume` may also wake for no
 reason.  The protocol is `strict` if a waiter on `exclusive_cond`, who waits
 once and not in a loop, wakes only when it is signalled.
 */
module ExclusiveCpus {
  import opened Prelude

  datatype Call = StartExclusive | ExecStart | ExecEnd

  /** Where a thread is.  The states marked H are the ones in which it holds `exclusive_lock`. */
  datatype Pc =
    | Out                   // in no routine, its CPU not executing
    | Guest                 // its CPU executes, between cpu_exec_start and cpu_exec_end
    | Lock(call: Call)      // at the pthread_mutex_lock that opens `call`
    | Idle(call: Call)      // H: at the test of exclusive_idle's loop
    | Resume(call: Call)    // blocked on exclusive_resume
    | Woken(call: Call)     // woken from exclusive_resume, re-acquiring the lock
    | Claim                 // H: start_exclusive, about to set pending_cpus to 1
    | Scan(next: nat)       // H: start_exclusive, about to look at CPU `next`
    | Await                 // blocked on exclusive_cond
    | Granted               // signalled on exclusive_cond, re-acquiring the lock
    | Exclusive             // H: start_exclusive has returned, end_exclusive not yet called
    | Broadcast             // H: end_exclusive, pending_cpus cleared
    | SetRunning            // H: cpu_exec_start, about to raise the flag
    | ClearRunning          // H: cpu_exec_end, about to drop the flag
    | Discount              // H: cpu_exec_end, about to test pending_cpus > 1
    | Signal                // H: cpu_exec_end, pending_cpus has just dropped to 1
    | Unlock(guest: bool)   // H: about to release the lock and return

  datatype State = State(pcs: seq<Pc>, running: seq<bool>, pending: nat, lock: Option<nat>)

  datatype Action =
    | Begin(call: Call)     // a thread outside every routine enters one
    | Advance(woken: nat)   // a thread does its next statement; `woken` matters to Signal only
    | Spurious              // a waiter on exclusive_resume wakes by itself
    | Early                 // a waiter on exclusive_cond wakes by itself

  predicate Holds(pc: Pc) {
    pc.Idle? || pc.Claim? || pc.Scan? || pc.Exclusive? || pc.Broadcast? || pc.SetRunning?
    || pc.ClearRunning? || pc.Discount? || pc.Signal? || pc.Unlock?
  }

  /** The thread has claimed the exclusive right and not yet given it back. */
  predicate Owner(pc: Pc) {
    pc.Scan? || pc.Await? || pc.Granted? || pc.Exclusive?
  }

  /** The places where the CPU's `running` flag is up. */
  predicate FlagUp(pc: Pc) {
    pc.Guest? || (pc.Lock? && pc.call.ExecEnd?) || pc.ClearRunning? || (pc.Unlock? && pc.guest)
  }

  predicate Shaped(s: State) {
    |s.running| == |s.pcs|
  }

  /** Can thread `t` do its next statement now? */
  predicate Enabled(s: State, t: nat)
    requires t < |s.pcs|
  {
    match s.pcs[t]
    case Out => false
    case Resume(_) => false
    case Await => false
    case Lock(_) => s.lock.None?
    case Woken(_) => s.lock.None?
    case Granted => s.lock.None?
    case _ => true
  }

  function Wake(pc: Pc): Pc {
    if pc.Resume? then Woken(pc.call) else pc
  }

  function WakeAll(pcs: seq<Pc>): (r: seq<Pc>)
    ensures |r| == |pcs|
    ensures forall i :: 0 <= i < |pcs| ==> r[i] == Wake(pcs[i])
  {
    seq(|pcs|, i requires 0 <= i < |pcs| => Wake(pcs[i]))
  }

  /** The next statement of thread `t`. */
  function Advanced(s: State, t: nat, woken: nat): State
    requires Shaped(s) && t < |s.pcs|
  {
    var at := (pc: Pc) => s.(pcs := s.pcs[t := pc]);
    match s.pcs[t]
    case Guest => at(Lock(ExecEnd))
    case Lock(call) => at(if call.ExecEnd? then ClearRunning else Idle(call)).(lock := Some(t))
    case Idle(call) =>
      if s.pending != 0 then at(Resume(call)).(lock := None)
      else (match call
            case StartExclusive => at(Claim)
            case ExecStart => at(SetRunning)
            case ExecEnd => at(Unlock(false)))
    case Woken(call) => at(Idle(call)).(lock := Some(t))
    case Claim => at(Scan(0)).(pending := 1)
    case Scan(j) =>
      if j < |s.running| then at(Scan(j + 1)).(pending := s.pending + if s.running[j] then 1 else 0)
      else if s.pending > 1 then at(Await).(lock := None)
      else at(Exclusive)
    case Granted => at(Exclusive).(lock := Some(t))
    case Exclusive => at(Broadcast).(pending := 0)
    case Broadcast => s.(pcs := WakeAll(s.pcs)[t := Unlock(false)])
    case SetRunning => at(Unlock(true)).(running := s.running[t := true])
    case ClearRunning => at(Discount).(running := s.running[t := false])
    case Discount =>
      if s.pending > 1 then
        at(if s.pending == 2 then Signal else Idle(ExecEnd)).(pending := s.pending - 1)
      else at(Idle(ExecEnd))
    case Signal =>
      if woken < |s.pcs| && s.pcs[woken] == Await then s.(pcs := s.pcs[woken := Granted][t := Idle(ExecEnd)])
      else at(Idle(ExecEnd))
    case Unlock(guest) => at(if guest then Guest else Out).(lock := None)
    case _ => s
  }

  /** A signal is lost only when nobody waits for it. */
  ghost predicate ProperWake(s: State, t: nat, woken: nat)
    requires t < |s.pcs|
  {
    s.pcs[t] == Signal ==>
      (woken < |s.pcs| && s.pcs[woken] == Await) || (forall w :: 0 <= w < |s.pcs| ==> s.pcs[w] != Await)
  }

  ghost predicate AdvanceStep(s: State, t: nat, woken: nat, s': State) {
    && Shaped(s) && t < |s.pcs|
    && Enabled(s, t) && ProperWake(s, t, woken) && s' == Advanced(s, t, woken)
  }

  ghost predicate StepIn(strict: bool, s: State, t: nat, a: Action, s': State) {
    && Shaped(s) && t < |s.pcs|
    && match a
       case Begin(call) => s.pcs[t] == Out && call != ExecEnd && s' == s.(pcs := s.pcs[t := Lock(call)])
       case Advance(woken) => AdvanceStep(s, t, woken, s')
       case Spurious => s.pcs[t].Resume? && s' == s.(pcs := s.pcs[t := Woken(s.pcs[t].call)])
       case Early => !strict && s.pcs[t] == Await && s' == s.(pcs := s.pcs[t := Granted])
  }

  /** A step of the strict protocol. */
  ghost predicate Step(s: State, t: nat, a: Action, s': State) {
    StepIn(true, s, t, a, s')
  }

  ghost predicate Init(s: State) {
    Shaped(s) && s.pending == 0 && s.lock == None
    && (forall t :: 0 <= t < |s.pcs| ==> s.pcs[t] == Out && !s.running[t])
  }

  // ---------- counting running CPUs ----------

  function Count(flags: seq<bool>): nat {
    if flags == [] then 0
    else Count(flags[..|flags| - 1]) + if flags[|flags| - 1] then 1 else 0
  }

  lemma {:induction false} CountUpdate(flags: seq<bool>, i: nat, v: bool)
    requires i < |flags|
    ensures Count(flags[i := v]) ==
            Count(flags) - (if flags[i] then 1 else 0) + if v then 1 else 0
  {
    var last := |flags| - 1;
    if i == last {
      assert flags[i := v][..last] == flags[..last];
    } else {
      CountUpdate(flags[..last], i, v);
      assert flags[i := v][..last] == flags[..last][i := v];
    }
  }

  lemma {:induction false} CountZero(flags: seq<bool>)
    ensures Count(flags) == 0 <==> forall i :: 0 <= i < |flags| ==> !flags[i]
  {
    if flags != [] {
      var last := |flags| - 1;
      CountZero(flags[..last]);
      assert forall i :: 0 <= i < last ==> flags[..last][i] == flags[i];
    }
  }

  // ---------- the invariant ----------

  /** What the holder of the lock is doing; Out when the lock is free. */
  function Holder(s: State): Pc {
    if s.lock.Some? && s.lock.value < |s.pcs| then s.pcs[s.lock.value] else Out
  }

  /** What holds of each thread, `owner` being the thread that has claimed the exclusive right. */
  ghost predicate ThreadInv(s: State, owner: Option<nat>, t: nat)
    requires Shaped(s) && t < |s.pcs|
  {
    var pc := s.pcs[t];
    && (Holds(pc) <==> s.lock == Some(t))
    && (s.running[t] <==> FlagUp(pc))
    && (Owner(pc) <==> owner == Some(t))
    // nobody sleeps on exclusive_resume without a live owner, or a broadcast about to happen
    && (pc.Resume? ==> s.pending != 0 || Holder(s).Broadcast?)
  }

  /**
   The key equation: a non-zero `pending_cpus` is one more than the CPUs still counted.  In the strict
   protocol nobody is counted any more once the owner has been signalled.
   */
  ghost predicate CountInv(strict: bool, s: State, owner: nat)
    requires Shaped(s) && owner < |s.pcs|
  {
    var counted := 1 + Count(s.running) + if Holder(s).Discount? then 1 else 0;
    match s.pcs[owner]
    case Scan(j) => j <= |s.running| && s.pending == 1 + Count(s.running[..j])
    case Await => s.pending == counted && (s.pending > 1 || Holder(s).Signal?)
    case _ => s.pending == counted && (strict ==> s.pending == 1)
  }

  ghost predicate SharedInv(strict: bool, s: State, owner: Option<nat>)
    requires Shaped(s)
  {
    && (s.lock.Some? ==> s.lock.value < |s.pcs|)
    && (s.pending != 0 <==> owner.Some?)
    && (owner.Some? ==> owner.value < |s.pcs| && CountInv(strict, s, owner.value))
    && (Holder(s).Claim? || Holder(s).SetRunning? || Holder(s).Broadcast? || Holder(s).Unlock? ==> s.pending == 0)
    && (Holder(s).Signal? ==> s.pending == 1)
    && (Holder(s).Discount? ==> s.pending != 1)
  }

  ghost predicate InvWith(strict: bool, s: State, owner: Option<nat>) {
    && Shaped(s) && SharedInv(strict, s, owner)
    && forall t {:trigger ThreadInv(s, owner, t)} :: 0 <= t < |s.pcs| ==> ThreadInv(s, owner, t)
  }

  ghost predicate InvIn(strict: bool, s: State) {
    exists owner :: InvWith(strict, s, owner)
  }

  ghost predicate Inv(s: State) {
    InvIn(true, s)
  }

  lemma InitInvIn(strict: bool, s: State)
    requires Init(s)
    ensures InvIn(strict, s)
  {
    assert InvWith(strict, s, None);
  }

  lemma InitInv(s: State)
    requires Init(s)
    ensures Inv(s)
  {
    InitInvIn(true, s);
  }

  ghost function NextOwner(s: State, t: nat, owner: Option<nat>): Option<nat>
    requires t < |s.pcs|
  {
    match s.pcs[t]
    case Claim => Some(t)
    case Exclusive => None
    case _ => owner
  }

  lemma BeginKeepsInv(strict: bool, s: State, t: nat, a: Action, s': State, owner: Option<nat>)
    requires InvWith(strict, s, owner) && StepIn(strict, s, t, a, s') && !a.Advance?
    ensures InvWith(strict, s', owner)
  {
    assert ThreadInv(s, owner, t);
    BeginKeepsShared(strict, s, t, a, s', owner);
    forall u | 0 <= u < |s.pcs| ensures ThreadInv(s', owner, u) {
      assert ThreadInv(s, owner, u);
    }
  }

  /** None of these threads holds the lock, and none starts or stops being an owner. */
  lemma BeginKeepsShared(strict: bool, s: State, t: nat, a: Action, s': State, owner: Option<nat>)
    requires InvWith(strict, s, owner) && StepIn(strict, s, t, a, s') && !a.Advance?
    ensures SharedInv(strict, s', owner) && Holder(s') == Holder(s)
  {
    assert ThreadInv(s, owner, t);
  }

  lemma ActorKeepsInv(strict: bool, s: State, t: nat, w: nat, s': State, owner: Option<nat>)
    requires InvWith(strict, s, owner) && AdvanceStep(s, t, w, s')
    ensures ThreadInv(s', NextOwner(s, t, owner), t)
  {
    assert ThreadInv(s, owner, t);
  }

  lemma BystanderKeepsInv(strict: bool, s: State, t: nat, w: nat, s': State, owner: Option<nat>, u: nat)
    requires InvWith(strict, s, owner) && AdvanceStep(s, t, w, s') && u < |s.pcs| && u != t
    ensures ThreadInv(s', NextOwner(s, t, owner), u)
  {
    assert ThreadInv(s, owner, t) && ThreadInv(s, owner, u);
  }

  /** The shared variables, statement by statement: first the statements that touch no counter. */
  lemma QuietKeepsShared(strict: bool, s: State, t: nat, w: nat, s': State, owner: Option<nat>)
    requires InvWith(strict, s, owner) && AdvanceStep(s, t, w, s')
    requires s.pcs[t].Guest? || s.pcs[t].Lock? || s.pcs[t].Woken? || s.pcs[t].Idle? || s.pcs[t].Unlock? || s.pcs[t].Broadcast?
    ensures SharedInv(strict, s', owner)
  {
    assert ThreadInv(s, owner, t);
    if owner.Some? {
      assert ThreadInv(s, owner, owner.value);
    }
  }

  lemma OwnerKeepsShared(strict: bool, s: State, t: nat, w: nat, s': State, owner: Option<nat>)
    requires InvWith(strict, s, owner) && AdvanceStep(s, t, w, s')
    requires s.pcs[t].Claim? || s.pcs[t].Granted? || s.pcs[t].Exclusive?
    ensures SharedInv(strict, s', NextOwner(s, t, owner))
  {
    assert ThreadInv(s, owner, t);
    assert s.running[..0] == [];
  }

  lemma ScanKeepsShared(strict: bool, s: State, t: nat, w: nat, s': State, owner: Option<nat>)
    requires InvWith(strict, s, owner) && AdvanceStep(s, t, w, s') && s.pcs[t].Scan?
    ensures SharedInv(strict, s', owner)
  {
    assert ThreadInv(s, owner, t);
    CountNext(s.running, s.pcs[t].next);
  }

  lemma CountNext(flags: seq<bool>, j: nat)
    requires j <= |flags|
    ensures j < |flags| ==> Count(flags[..j + 1]) == Count(flags[..j]) + if flags[j] then 1 else 0
    ensures j == |flags| ==> Count(flags[..j]) == Count(flags)
  {
    if j < |flags| {
      assert flags[..j + 1][..j] == flags[..j];
    } else {
      assert flags[..j] == flags;
    }
  }

  lemma FlagKeepsShared(strict: bool, s: State, t: nat, w: nat, s': State, owner: Option<nat>)
    requires InvWith(strict, s, owner) && AdvanceStep(s, t, w, s') && (s.pcs[t].SetRunning? || s.pcs[t].ClearRunning?)
    ensures SharedInv(strict, s', owner)
  {
    CountUpdate(s.running, t, s.pcs[t].SetRunning?);
    CountZero(s.running);
    assert ThreadInv(s, owner, t);
    if owner.Some? {
      assert ThreadInv(s, owner, owner.value);
    }
  }

  lemma DiscountKeepsShared(strict: bool, s: State, t: nat, w: nat, s': State, owner: Option<nat>)
    requires InvWith(strict, s, owner) && AdvanceStep(s, t, w, s') && (s.pcs[t].Discount? || s.pcs[t].Signal?)
    ensures SharedInv(strict, s', owner)
  {
    if w < |s.pcs| {
      assert ThreadInv(s, owner, w);
    }
    assert ThreadInv(s, owner, t);
    if owner.Some? {
      assert ThreadInv(s, owner, owner.value);
    }
  }

  lemma AdvanceKeepsShared(strict: bool, s: State, t: nat, w: nat, s': State, owner: Option<nat>)
    requires InvWith(strict, s, owner) && AdvanceStep(s, t, w, s')
    ensures SharedInv(strict, s', NextOwner(s, t, owner))
  {
    match s.pcs[t]
    case Claim => OwnerKeepsShared(strict, s, t, w, s', owner);
    case Scan(_) => ScanKeepsShared(strict, s, t, w, s', owner);
    case Granted => OwnerKeepsShared(strict, s, t, w, s', owner);
    case Exclusive => OwnerKeepsShared(strict, s, t, w, s', owner);
    case SetRunning => FlagKeepsShared(strict, s, t, w, s', owner);
    case ClearRunning => FlagKeepsShared(strict, s, t, w, s', owner);
    case Discount => DiscountKeepsShared(strict, s, t, w, s', owner);
    case Signal => DiscountKeepsShared(strict, s, t, w, s', owner);
    case _ => QuietKeepsShared(strict, s, t, w, s', owner);
  }

  /** In the strict protocol and in the other one, every statement of every thread and every wake-up keeps the invariant. */
  lemma StepInKeepsInv(strict: bool, s: State, t: nat, a: Action, s': State)
    requires InvIn(strict, s) && StepIn(strict, s, t, a, s')
    ensures InvIn(strict, s')
  {
    var owner :| InvWith(strict, s, owner);
    if a.Advance? {
      AdvanceKeepsShared(strict, s, t, a.woken, s', owner);
      var owner' := NextOwner(s, t, owner);
      forall u | 0 <= u < |s.pcs| ensures ThreadInv(s', owner', u) {
        if u == t {
          ActorKeepsInv(strict, s, t, a.woken, s', owner);
        } else {
          BystanderKeepsInv(strict, s, t, a.woken, s', owner, u);
        }
      }
      assert InvWith(strict, s', owner');
    } else {
      BeginKeepsInv(strict, s, t, a, s', owner);
    }
  }

  lemma StepKeepsInv(s: State, t: nat, a: Action, s': State)
    requires Inv(s) && Step(s, t, a, s')
    ensures Inv(s')
  {
    StepInKeepsInv(true, s, t, a, s');
  }

  // ---------- safety over whole runs ----------

  ghost predicate Next(s: State, s': State) {
    exists t, a :: Step(s, t, a, s')
  }

  ghost predicate IsRun(run: seq<State>) {
    run != [] && Init(run[0]) && forall i :: 0 < i < |run| ==> Next(run[i - 1], run[i])
  }

  lemma {:induction false} RunKeepsInv(run: seq<State>, i: nat)
    requires IsRun(run) && i < |run|
    ensures Inv(run[i])
  {
    if i == 0 {
      InitInv(run[0]);
    } else {
      RunKeepsInv(run, i - 1);
      var t, a :| Step(run[i - 1], t, a, run[i]);
      StepKeepsInv(run[i - 1], t, a, run[i]);
    }
  }

  /** While a thread is between start_exclusive and end_exclusive no CPU runs and nobody else owns. */
  ghost predicate Alone(s: State, t: nat)
    requires Shaped(s)
  {
    forall u :: 0 <= u < |s.pcs| ==>
      !s.running[u] && s.pcs[u] != Guest && (u != t ==> !Owner(s.pcs[u]))
  }

  lemma ExclusiveIsAlone(run: seq<State>, i: nat, t: nat)
    requires IsRun(run) && i < |run| && t < |run[i].pcs| && run[i].pcs[t] == Exclusive
    ensures Shaped(run[i]) && Alone(run[i], t)
  {
    RunKeepsInv(run, i);
    InvAlone(run[i], t);
  }

  lemma InvAlone(s: State, t: nat)
    requires Inv(s) && t < |s.pcs| && s.pcs[t] == Exclusive
    ensures Shaped(s) && Alone(s, t)
  {
    var owner :| InvWith(true, s, owner);
    assert ThreadInv(s, owner, t);
    CountZero(s.running);
    forall u | 0 <= u < |s.pcs| ensures s.pcs[u] != Guest && (u != t ==> !Owner(s.pcs[u])) {
      assert ThreadInv(s, owner, u);
    }
  }

  /** Whenever the lock is free, a non-zero counter is one more than the number of running CPUs. */
  lemma PendingCountsRunning(run: seq<State>, i: nat)
    requires IsRun(run) && i < |run| && run[i].lock.None? && run[i].pending != 0
    ensures run[i].pending == 1 + Count(run[i].running)
  {
    RunKeepsInv(run, i);
    var s := run[i];
    var owner :| InvWith(true, s, owner);
    assert ThreadInv(s, owner, owner.value);
  }

  /**
   A routine returns only when nobody has, or is acquiring, the exclusive right: cpu_exec_start and
   cpu_exec_end wait it out.
   */
  lemma ReturnsWhenFree(run: seq<State>, i: nat, t: nat)
    requires IsRun(run) && i < |run| && t < |run[i].pcs| && run[i].pcs[t].Unlock?
    ensures run[i].pending == 0 && forall u :: 0 <= u < |run[i].pcs| ==> !Owner(run[i].pcs[u])
  {
    RunKeepsInv(run, i);
    var s := run[i];
    var owner :| InvWith(true, s, owner);
    assert ThreadInv(s, owner, t);
    forall u | 0 <= u < |s.pcs| ensures !Owner(s.pcs[u]) {
      assert ThreadInv(s, owner, u);
    }
  }

  /** The routine a thread is in, as long as it has not done what it is for. */
  function Purpose(pc: Pc): Option<Call> {
    match pc
    case Lock(call) => Some(call)
    case Idle(call) => Some(call)
    case Resume(call) => Some(call)
    case Woken(call) => Some(call)
    case Claim => Some(StartExclusive)
    case Scan(_) => Some(StartExclusive)
    case Await => Some(StartExclusive)
    case Granted => Some(StartExclusive)
    case SetRunning => Some(ExecStart)
    case Unlock(guest) => if guest then Some(ExecStart) else None
    case ClearRunning => Some(ExecEnd)
    case Discount => Some(ExecEnd)
    case Signal => Some(ExecEnd)
    case _ => None
  }

  /** What each routine is for: the exclusive section, guest code, and the way out. */
  predicate Served(call: Call, pc: Pc) {
    match call
    case StartExclusive => pc == Exclusive
    case ExecStart => pc == Guest
    case ExecEnd => pc == Unlock(false)
  }

  /** No step, of whatever thread, takes a thread out of its routine before the routine has done what it is for. */
  lemma CallsServeTheirPurpose(s: State, t: nat, a: Action, s': State, u: nat)
    requires Step(s, t, a, s') && u < |s.pcs| && Purpose(s.pcs[u]).Some?
    ensures |s'.pcs| == |s.pcs|
    ensures Purpose(s'.pcs[u]) == Purpose(s.pcs[u]) || Served(Purpose(s.pcs[u]).value, s'.pcs[u])
  {
  }

  // ---------- progress ----------

  /** Some thread that is inside a routine, or in the guest, can do its next statement. */
  ghost predicate CanAdvance(s: State)
    requires Shaped(s)
  {
    exists t :: 0 <= t < |s.pcs| && Enabled(s, t)
  }

  ghost predicate AllOut(s: State) {
    forall t :: 0 <= t < |s.pcs| ==> s.pcs[t] == Out
  }

  /** No reachable state is stuck: wake-ups are never lost, sleepers have somebody to wake them. */
  lemma NeverStuck(s: State)
    requires Inv(s)
    ensures Shaped(s) && (AllOut(s) || CanAdvance(s))
  {
    var owner :| InvWith(true, s, owner);
    if s.lock.Some? {
      assert ThreadInv(s, owner, s.lock.value);
      assert Enabled(s, s.lock.value);
    } else if t :| 0 <= t < |s.pcs| && s.pcs[t] != Out && !Enabled(s, t) {
      assert ThreadInv(s, owner, t);
      if !Enabled(s, owner.value) {
        AwaitHasRunner(s, owner);
        var r :| 0 <= r < |s.running| && s.running[r] && Enabled(s, r);
      }
    }
  }

  /** A thread blocked on exclusive_cond waits for a CPU that is still counted. */
  lemma AwaitHasRunner(s: State, owner: Option<nat>)
    requires InvWith(true, s, owner) && s.lock.None? && owner.Some? && !Enabled(s, owner.value)
    ensures s.pcs[owner.value] == Await && s.pending == 1 + Count(s.running)
    ensures exists r :: 0 <= r < |s.running| && s.running[r] && Enabled(s, r)
  {
    assert ThreadInv(s, owner, owner.value);
    CountZero(s.running);
    var r :| 0 <= r < |s.running| && s.running[r];
    assert ThreadInv(s, owner, r);
    assert Enabled(s, r);
  }

  /**
   How much a thread may still do before it is out.  A thread that has yet to
   broadcast carries enough to pay for waking everybody else.
   */
  function Weight(pc: Pc, n: nat): nat {
    var debt := 2 * n;
    match pc
    case Out => 0
    case Unlock(guest) => if guest then 10 else 1
    case Guest => 9
    case Lock(call) => if call.ExecEnd? then 8 else Entry(call, n) + 4
    case Woken(call) => Entry(call, n) + 3
    case Idle(call) => Entry(call, n) + 2
    case Resume(call) => Entry(call, n) + 1
    case Claim => 7 + n + debt
    case Scan(j) => 6 + debt + if j < n then n - j else 0
    case Await => 5 + debt
    case Granted => 4 + debt
    case Exclusive => 3 + debt
    case Broadcast => 2 + debt
    case SetRunning => 11
    case ClearRunning => 7
    case Discount => 6
    case Signal => 5
  }

  function Entry(call: Call, n: nat): nat {
    match call
    case StartExclusive => 7 + n + 2 * n
    case ExecStart => 11
    case ExecEnd => 1
  }

  function Potential(pcs: seq<Pc>, n: nat): nat {
    if pcs == [] then 0 else Potential(pcs[..|pcs| - 1], n) + Weight(pcs[|pcs| - 1], n)
  }

  lemma {:induction false} PotentialUpdate(pcs: seq<Pc>, i: nat, pc: Pc, n: nat)
    requires i < |pcs|
    ensures Potential(pcs[i := pc], n) == Potential(pcs, n) - Weight(pcs[i], n) + Weight(pc, n)
  {
    var last := |pcs| - 1;
    if i == last {
      assert pcs[i := pc][..last] == pcs[..last];
    } else {
      PotentialUpdate(pcs[..last], i, pc, n);
      assert pcs[i := pc][..last] == pcs[..last][i := pc];
    }
  }

  lemma {:induction false} PotentialWakeAll(pcs: seq<Pc>, n: nat)
    ensures Potential(WakeAll(pcs), n) <= Potential(pcs, n) + 2 * |pcs|
  {
    if pcs != [] {
      var last := |pcs| - 1;
      PotentialWakeAll(pcs[..last], n);
      assert WakeAll(pcs)[..last] == WakeAll(pcs[..last]);
    }
  }

  /** Apart from the two statements that wake others, a statement makes its own thread lighter. */
  lemma WeightDrops(s: State, t: nat, w: nat)
    requires Shaped(s) && t < |s.pcs| && Enabled(s, t)
    requires !s.pcs[t].Broadcast? && !s.pcs[t].Signal?
    ensures Advanced(s, t, w).pcs == s.pcs[t := Advanced(s, t, w).pcs[t]]
    ensures Weight(Advanced(s, t, w).pcs[t], |s.pcs|) < Weight(s.pcs[t], |s.pcs|)
  {
  }

  lemma BroadcastUsesPotential(pcs: seq<Pc>, t: nat, n: nat)
    requires t < |pcs| == n && pcs[t].Broadcast?
    ensures Potential(WakeAll(pcs)[t := Unlock(false)], n) < Potential(pcs, n)
  {
    var woken := WakeAll(pcs);
    assert woken[t].Broadcast? && Weight(woken[t], n) == 2 + 2 * n;
    PotentialUpdate(woken, t, Unlock(false), n);
    assert Potential(woken, n) <= Potential(pcs, n) + 2 * n by {
      PotentialWakeAll(pcs, n);
    }
  }

  lemma SignalUsesPotential(pcs: seq<Pc>, t: nat, w: nat)
    requires t < |pcs| && pcs[t].Signal?
    ensures Potential(pcs[t := Idle(ExecEnd)], |pcs|) < Potential(pcs, |pcs|)
    ensures w < |pcs| && pcs[w].Await? ==> Potential(pcs[w := Granted][t := Idle(ExecEnd)], |pcs|) < Potential(pcs, |pcs|)
  {
    PotentialUpdate(pcs, t, Idle(ExecEnd), |pcs|);
    if w < |pcs| && pcs[w].Await? {
      PotentialUpdate(pcs, w, Granted, |pcs|);
      PotentialUpdate(pcs[w := Granted], t, Idle(ExecEnd), |pcs|);
    }
  }

  /** Every statement uses up potential; only new calls and spurious wake-ups add some. */
  lemma AdvanceUsesPotential(s: State, t: nat, w: nat, s': State)
    requires AdvanceStep(s, t, w, s')
    ensures |s'.pcs| == |s.pcs| && Potential(s'.pcs, |s.pcs|) < Potential(s.pcs, |s.pcs|)
  {
    if s.pcs[t].Broadcast? {
      BroadcastUsesPotential(s.pcs, t, |s.pcs|);
    } else if s.pcs[t].Signal? {
      SignalUsesPotential(s.pcs, t, w);
    } else {
      WeightDrops(s, t, w);
      PotentialUpdate(s.pcs, t, s'.pcs[t], |s.pcs|);
    }
  }

  ghost predicate Advances(s: State, s': State) {
    exists t, w :: AdvanceStep(s, t, w, s')
  }

  ghost predicate OutOrAdvances(s: State) {
    AllOut(s) || exists s' :: Advances(s, s')
  }

  lemma ExtendsUnlessOut(s: State)
    requires Inv(s)
    ensures OutOrAdvances(s)
  {
    NeverStuck(s);
    if !AllOut(s) {
      var t :| 0 <= t < |s.pcs| && Enabled(s, t);
      var w := if w :| 0 <= w < |s.pcs| && s.pcs[w] == Await then w else 0;
      assert AdvanceStep(s, t, w, Advanced(s, t, w));
      assert Advances(s, Advanced(s, t, w));
    }
  }

  lemma AdvancesKeeps(s: State, s': State)
    requires Inv(s) && Advances(s, s')
    ensures Inv(s') && |s'.pcs| == |s.pcs| && Potential(s'.pcs, |s.pcs|) < Potential(s.pcs, |s.pcs|)
  {
    var t, w :| AdvanceStep(s, t, w, s');
    AdvanceUsesPotential(s, t, w, s');
    assert Step(s, t, Advance(w), s');
    StepKeepsInv(s, t, Advance(w), s');
  }

  /** A run in which no thread enters a new call and nobody wakes spuriously. */
  ghost predicate IsDrain(run: seq<State>) {
    run != [] && Inv(run[0]) && forall i :: 0 < i < |run| ==> Advances(run[i - 1], run[i])
  }

  /**
   Every call returns: from any reachable state the threads can only do boundedly
   many statements, and as long as one is not out some statement is possible.
   */
  lemma {:induction false} EveryCallReturns(run: seq<State>, i: nat)
    requires IsDrain(run) && i < |run|
    ensures i + Potential(run[i].pcs, |run[0].pcs|) <= Potential(run[0].pcs, |run[0].pcs|)
    ensures |run[i].pcs| == |run[0].pcs| && Inv(run[i]) && OutOrAdvances(run[i])
  {
    if i > 0 {
      EveryCallReturns(run, i - 1);
      AdvancesKeeps(run[i - 1], run[i]);
    }
    ExtendsUnlessOut(run[i]);
  }
}
