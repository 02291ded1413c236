/**
 What happens if a waiter on `exclusive_cond` wakes without having been signalled, as the threads
 library allows: start_exclusive waits once, and not in a loop.
 */
module EarlyWakes {
  import opened Prelude
  import opened ExclusiveCpus

  ghost predicate LooseNext(s: State, s': State) {
    exists t, a :: StepIn(false, s, t, a, s')
  }

  ghost predicate IsLooseRun(run: seq<State>) {
    run != [] && Init(run[0]) && forall i :: 0 < i < |run| ==> LooseNext(run[i - 1], run[i])
  }

  lemma {:induction false} LooseRunKeepsInv(run: seq<State>, i: nat)
    requires IsLooseRun(run) && i < |run|
    ensures InvIn(false, run[i])
  {
    if i == 0 {
      InitInvIn(false, run[0]);
    } else {
      LooseRunKeepsInv(run, i - 1);
      var t, a :| StepIn(false, run[i - 1], t, a, run[i]);
      StepInKeepsInv(false, run[i - 1], t, a, run[i]);
    }
  }

  /**
   In every run, early wake-ups included, two threads are never exclusive at once, and the exclusive
   thread is alone if and only if `pending_cpus` is 1: what a loop around the wait would test.
   */
  lemma AloneIff(run: seq<State>, i: nat, t: nat)
    requires IsLooseRun(run) && i < |run| && t < |run[i].pcs| && run[i].pcs[t] == Exclusive
    ensures Shaped(run[i]) && run[i].pending == 1 + Count(run[i].running)
    ensures forall u :: 0 <= u < |run[i].pcs| && u != t ==> !Owner(run[i].pcs[u])
    ensures Alone(run[i], t) <==> run[i].pending == 1
  {
    LooseRunKeepsInv(run, i);
    var s := run[i];
    var owner :| InvWith(false, s, owner);
    assert ThreadInv(s, owner, t);
    CountZero(s.running);
    forall u | 0 <= u < |s.pcs| ensures (s.pcs[u].Guest? ==> s.running[u]) && (u != t ==> !Owner(s.pcs[u])) {
      assert ThreadInv(s, owner, u);
    }
  }

  /** Whoever wakes early and takes the lock at once is not alone. */
  lemma EarlyWakeBreaks(s: State, t: nat)
    requires Inv(s) && s.lock.None? && t < |s.pcs| && s.pcs[t] == Await
    ensures Shaped(s)
    ensures var woken := s.(pcs := s.pcs[t := Granted]);
            var exclusive := Advanced(woken, t, 0);
            && StepIn(false, s, t, Early, woken) && StepIn(false, woken, t, Advance(0), exclusive)
            && exclusive.pcs[t] == Exclusive && !Alone(exclusive, t)
  {
    var owner :| InvWith(true, s, owner);
    assert ThreadInv(s, owner, t);
    CountZero(s.running);
    var r :| 0 <= r < |s.running| && s.running[r];
    var woken := s.(pcs := s.pcs[t := Granted]);
    assert Advanced(woken, t, 0).running[r];
  }

  // ---------- a run that breaks exclusion ----------

  ghost predicate Reachable(s: State) {
    exists run :: IsLooseRun(run) && run[|run| - 1] == s
  }

  lemma Reach(s: State, t: nat, a: Action, s': State)
    requires Reachable(s) && StepIn(false, s, t, a, s')
    ensures Reachable(s')
  {
    var run :| IsLooseRun(run) && run[|run| - 1] == s;
    var longer := run + [s'];
    forall i | 0 < i < |longer| ensures LooseNext(longer[i - 1], longer[i]) {
      if i < |run| {
        assert LooseNext(run[i - 1], run[i]);
      }
    }
    assert IsLooseRun(longer) && longer[|longer| - 1] == s';
  }

  /** Two CPUs: where the first thread is, where the second one is, which holds the lock. */
  function Two(p: Pc, q: Pc, runs: bool, pending: nat, lock: Option<nat>): State {
    State([p, q], [false, runs], pending, lock)
  }

  lemma FirstAdvances(s: State, s': State)
    requires Reachable(s) && Shaped(s) && s.pcs != [] && Enabled(s, 0) && !s.pcs[0].Signal? && s' == Advanced(s, 0, 0)
    ensures Reachable(s')
  {
    Reach(s, 0, Advance(0), s');
  }

  lemma SecondAdvances(s: State, s': State)
    requires Reachable(s) && Shaped(s) && |s.pcs| == 2 && Enabled(s, 1) && !s.pcs[1].Signal? && s' == Advanced(s, 1, 0)
    ensures Reachable(s')
  {
    Reach(s, 1, Advance(0), s');
  }

  /** The second thread asks to execute. */
  lemma SecondAsks()
    ensures Reachable(Two(Out, Idle(ExecStart), false, 0, Some(1)))
  {
    var s0 := Two(Out, Out, false, 0, None);
    assert IsLooseRun([s0]) && [s0][|[s0]| - 1] == s0;
    Reach(s0, 1, Begin(ExecStart), Two(Out, Lock(ExecStart), false, 0, None));
    SecondAdvances(Two(Out, Lock(ExecStart), false, 0, None), Two(Out, Idle(ExecStart), false, 0, Some(1)));
  }

  /** Its CPU enters the guest. */
  lemma SecondRuns()
    ensures Reachable(Two(Out, Guest, true, 0, None))
  {
    SecondAsks();
    SecondAdvances(Two(Out, Idle(ExecStart), false, 0, Some(1)), Two(Out, SetRunning, false, 0, Some(1)));
    SecondAdvances(Two(Out, SetRunning, false, 0, Some(1)), Two(Out, Unlock(true), true, 0, Some(1)));
    SecondAdvances(Two(Out, Unlock(true), true, 0, Some(1)), Two(Out, Guest, true, 0, None));
  }

  /** The first thread asks for exclusion. */
  lemma FirstClaims()
    ensures Reachable(Two(Scan(0), Guest, true, 1, Some(0)))
  {
    SecondRuns();
    Reach(Two(Out, Guest, true, 0, None), 0, Begin(StartExclusive), Two(Lock(StartExclusive), Guest, true, 0, None));
    FirstAdvances(Two(Lock(StartExclusive), Guest, true, 0, None), Two(Idle(StartExclusive), Guest, true, 0, Some(0)));
    FirstAdvances(Two(Idle(StartExclusive), Guest, true, 0, Some(0)), Two(Claim, Guest, true, 0, Some(0)));
    FirstAdvances(Two(Claim, Guest, true, 0, Some(0)), Two(Scan(0), Guest, true, 1, Some(0)));
  }

  /** It counts the second CPU and waits for it. */
  lemma FirstWaits()
    ensures Reachable(Two(Await, Guest, true, 2, None))
  {
    FirstClaims();
    FirstAdvances(Two(Scan(0), Guest, true, 1, Some(0)), Two(Scan(1), Guest, true, 1, Some(0)));
    FirstAdvances(Two(Scan(1), Guest, true, 1, Some(0)), Two(Scan(2), Guest, true, 2, Some(0)));
    FirstAdvances(Two(Scan(2), Guest, true, 2, Some(0)), Two(Await, Guest, true, 2, None));
  }

  /** It wakes early and is exclusive while the second CPU runs. */
  lemma BrokenRun() returns (run: seq<State>)
    ensures IsLooseRun(run) && run[|run| - 1] == Two(Exclusive, Guest, true, 2, Some(0))
    ensures !Alone(run[|run| - 1], 0)
  {
    FirstWaits();
    Reach(Two(Await, Guest, true, 2, None), 0, Early, Two(Granted, Guest, true, 2, None));
    FirstAdvances(Two(Granted, Guest, true, 2, None), Two(Exclusive, Guest, true, 2, Some(0)));
    run :| IsLooseRun(run) && run[|run| - 1] == Two(Exclusive, Guest, true, 2, Some(0));
    assert run[|run| - 1].running[1];
  }
}
