/**
 What the call-interval analysis reports on a call tree: exactly the calls.

 The analysis knows nothing of calls; it takes every break in the sequence for one.  On a trace that
 breaks only at calls and returns, and in which no open call's own address or return address is
 executed again before it returns, its guesses are right.
 */
module CallIntervals {
  import opened Prelude
  import opened Flow
  import opened FunctionIntervals
  import CallDepth

  type Tree = CallDepth.Trace

  function First(t: Tree): Ins
    requires !t.End?
  {
    t.ins
  }

  /** The changelist a trace starts with. */
  function Opening(t: Tree): nat {
    if t.End? then 0 else t.ins.clnum
  }

  /** The calls of a tree in the order in which they return: from the callee's first changelist up to the return. */
  function CallsOf(t: Tree): seq<Interval> {
    match t
    case End => []
    case Step(_, rest) => CallsOf(rest)
    case Call(_, body, rest) => CallsOf(body) + [Interval(Opening(body), Opening(rest) - 1)] + CallsOf(rest)
  }

  /** How a trace is come to: in sequence, from a call, or by a return from the call that began at `clnum`. */
  datatype Mode = InSequence(next: Option<nat>) | Entering(call: Ins) | Returning(call: Ins, clnum: nat)

  predicate Begins(t: Tree, mode: Mode) {
    match mode
    case InSequence(next) => t.End? || next.None? || First(t).address == next.value
    case Entering(_) => !t.End?
    case Returning(call, _) => call.length > 0 && !t.End? && First(t).address == After(call)
  }

  /** Sequence breaks only at calls and returns; the addresses in `rets` and `calls` are not executed meanwhile. */
  predicate Simple(t: Tree, rets: seq<nat>, calls: seq<nat>, mode: Mode) {
    Begins(t, mode)
    && (!t.End? ==> First(t).address !in rets && First(t).address !in calls)
    && match t
       case End => true
       case Step(ins, rest) => !ins.isCall && Simple(rest, rets, calls, InSequence(Some(After(ins))))
       case Call(ins, body, rest) =>
         && ins.isCall
         && Simple(body, rets + [After(ins)], calls + [ins.address], Entering(ins))
         && Simple(rest, rets, calls, Returning(ins, Opening(body)))
  }

  // ---------- the analysis, from any point on ----------

  function RunFrom(c: Calls, prev: Option<Ins>, flow: seq<Ins>): (r: Calls)
    requires Even(c)
    ensures Even(r)
    decreases |flow|
  {
    if flow == [] then c else RunFrom(StepOn(c, prev, flow[0]), Some(flow[0]), flow[1..])
  }

  function LastOf(prev: Option<Ins>, flow: seq<Ins>): Option<Ins> {
    if flow == [] then prev else Some(flow[|flow| - 1])
  }

  lemma {:induction false} RunFromConcat(c: Calls, prev: Option<Ins>, a: seq<Ins>, b: seq<Ins>)
    requires Even(c)
    ensures RunFrom(c, prev, a + b) == RunFrom(RunFrom(c, prev, a), LastOf(prev, a), b)
    decreases |a|
  {
    if a == [] {
      assert a + b == b;
    } else {
      assert (a + b)[1..] == a[1..] + b && (a + b)[0] == a[0];
      RunFromConcat(StepOn(c, prev, a[0]), Some(a[0]), a[1..], b);
    }
  }

  lemma RunFromFirst(c: Calls, prev: Option<Ins>, ins: Ins, rest: seq<Ins>, q: Calls)
    requires Even(c) && StepOn(c, prev, ins) == q
    ensures RunFrom(c, prev, [ins] + rest) == RunFrom(q, Some(ins), rest)
  {
    assert ([ins] + rest)[1..] == rest;
  }

  lemma RunFromCall(c: Calls, prev: Option<Ins>, ins: Ins, body: seq<Ins>, rest: seq<Ins>, q: Calls, mid: Calls)
    requires Even(c) && StepOn(c, prev, ins) == q && RunFrom(q, Some(ins), body) == mid
    ensures RunFrom(c, prev, [ins] + (body + rest)) == RunFrom(mid, LastOf(Some(ins), body), rest)
  {
    RunFromFirst(c, prev, ins, body + rest, q);
    RunFromConcat(q, Some(ins), body, rest);
  }

  const NOTHING := Calls([], [], [], [])

  lemma {:induction false} RunIsRunFrom(flow: seq<Ins>, n: nat)
    requires n <= |flow|
    ensures Run(flow, n) == RunFrom(NOTHING, None, flow[..n])
  {
    if n > 0 {
      RunIsRunFrom(flow, n - 1);
      assert flow[..n] == flow[..n - 1] + [flow[n - 1]];
      RunFromSnoc(NOTHING, None, flow[..n - 1], flow[n - 1], Run(flow, n - 1));
      assert LastOf(None, flow[..n - 1]) == if n == 1 then None else Some(flow[n - 2]);
    }
  }

  lemma RunFromSnoc(c: Calls, prev: Option<Ins>, flow: seq<Ins>, ins: Ins, q: Calls)
    requires Even(c) && RunFrom(c, prev, flow) == q
    ensures RunFrom(c, prev, flow + [ins]) == StepOn(q, LastOf(prev, flow), ins)
  {
    RunFromConcat(c, prev, flow, [ins]);
    RunFromFirst(q, LastOf(prev, flow), ins, [], StepOn(q, LastOf(prev, flow), ins));
    assert [ins] == [ins] + [];
  }

  // ---------- the first instruction ----------

  /** The stacks before the first instruction, if they are `p` after it. */
  function Before(p: Calls, mode: Mode): (c: Calls)
    requires Even(p) && (mode.Entering? ==> p.rets != [])
    ensures Even(c)
  {
    match mode
    case InSequence(_) => p
    case Entering(_) => Cut(p, |p.rets| - 1)
    case Returning(call, clnum) => Push(p, call, clnum)
  }

  /** The stacks after the first instruction, with what a return has closed. */
  function Started(p: Calls, t: Tree, mode: Mode): Calls {
    if mode.Returning? then p.(fxn := p.fxn + [Interval(mode.clnum, Opening(t) - 1)]) else p
  }

  ghost predicate Follows(prev: Option<Ins>, mode: Mode) {
    match mode
    case InSequence(next) => if next.None? then prev.None? else prev.Some? && After(prev.value) == next.value
    case Entering(call) => prev == Some(call)
    case Returning(_, _) => true
  }

  /** While `t` runs the stacks are those of `p`. */
  ghost predicate Stands(p: Calls, t: Tree, mode: Mode) {
    && Even(p) && Simple(t, p.rets, p.calls, mode)
    && (mode.Entering? ==> p.rets != [] && p == Push(Cut(p, |p.rets| - 1), mode.call, Opening(t)))
  }

  lemma Absent(c: Calls, a: nat)
    requires Even(c) && a !in c.rets && a !in c.calls
    ensures Cancelled(c, a) == c && Find(c.rets, a).None?
  {
  }

  lemma SequenceStep(p: Calls, prev: Option<Ins>, t: Tree, mode: Mode)
    requires Stands(p, t, mode) && mode.InSequence? && Follows(prev, mode) && !t.End?
    ensures StepOn(p, prev, First(t)) == p
  {
    Absent(p, First(t).address);
  }

  lemma EnteringStep(p: Calls, prev: Option<Ins>, t: Tree, mode: Mode)
    requires Stands(p, t, mode) && mode.Entering? && Follows(prev, mode) && !t.End?
    ensures StepOn(Before(p, mode), prev, First(t)) == p
  {
    var n := |p.rets| - 1;
    assert p.rets[n] == After(mode.call);
    Absent(Cut(p, n), First(t).address);
  }

  lemma ReturningStep(p: Calls, prev: Option<Ins>, t: Tree, mode: Mode)
    requires Stands(p, t, mode) && mode.Returning? && !t.End?
    ensures StepOn(Before(p, mode), prev, First(t)) == Started(p, t, mode)
  {
    var c, a, n := Before(p, mode), First(t).address, |p.rets|;
    assert a !in c.calls;
    assert Cancelled(c, a) == c;
    assert c.rets[..n] == p.rets && c.calls[..n] == p.calls && c.clnums[..n] == p.clnums;
    FirstIs(c.rets, a, n);
  }

  lemma FirstStep(p: Calls, prev: Option<Ins>, t: Tree, mode: Mode)
    requires Stands(p, t, mode) && Follows(prev, mode) && !t.End?
    ensures StepOn(Before(p, mode), prev, First(t)) == Started(p, t, mode)
  {
    match mode
    case InSequence(_) => SequenceStep(p, prev, t, mode);
    case Entering(_) => EnteringStep(p, prev, t, mode);
    case Returning(_, _) => ReturningStep(p, prev, t, mode);
  }

  // ---------- the whole tree ----------

  function Reporting(p: Calls, t: Tree): Calls {
    p.(fxn := p.fxn + CallsOf(t))
  }

  lemma JoinStep(t: Tree, p: Calls, prev: Option<Ins>, mode: Mode)
    requires t.Step? && Stands(p, t, mode) && Follows(prev, mode)
    requires var q := Started(p, t, mode); RunFrom(q, Some(t.ins), CallDepth.Flatten(t.rest)) == Reporting(q, t.rest)
    ensures RunFrom(Before(p, mode), prev, CallDepth.Flatten(t)) == Reporting(Started(p, t, mode), t)
  {
    FirstStep(p, prev, t, mode);
    RunFromFirst(Before(p, mode), prev, t.ins, CallDepth.Flatten(t.rest), Started(p, t, mode));
  }

  lemma JoinReports(q: Calls, t: Tree)
    requires t.Call?
    ensures Reporting(Started(Reporting(q, t.body), t.rest, Returning(t.ins, Opening(t.body))), t.rest) == Reporting(q, t)
  {
    var call := [Interval(Opening(t.body), Opening(t.rest) - 1)];
    assert q.fxn + CallsOf(t.body) + call + CallsOf(t.rest) == q.fxn + (CallsOf(t.body) + call + CallsOf(t.rest));
  }

  lemma JoinCall(t: Tree, p: Calls, prev: Option<Ins>, mode: Mode, q: Calls, mid: Calls, end: Calls)
    requires t.Call? && Stands(p, t, mode) && Follows(prev, mode) && q == Started(p, t, mode)
    requires RunFrom(q, Some(t.ins), CallDepth.Flatten(t.body)) == mid && Even(mid)
    requires RunFrom(mid, LastOf(Some(t.ins), CallDepth.Flatten(t.body)), CallDepth.Flatten(t.rest)) == end
    ensures RunFrom(Before(p, mode), prev, CallDepth.Flatten(t)) == end
  {
    FirstStep(p, prev, t, mode);
    RunFromCall(Before(p, mode), prev, t.ins, CallDepth.Flatten(t.body), CallDepth.Flatten(t.rest), q, mid);
  }

  lemma {:induction false} TreeIsReported(t: Tree, p: Calls, prev: Option<Ins>, mode: Mode)
    requires Stands(p, t, mode) && Follows(prev, mode)
    ensures RunFrom(Before(p, mode), prev, CallDepth.Flatten(t)) == Reporting(Started(p, t, mode), t)
  {
    var q := Started(p, t, mode);
    match t
    case End =>
      assert p.fxn + [] == p.fxn;
    case Step(ins, rest) =>
      TreeIsReported(rest, q, Some(ins), InSequence(Some(After(ins))));
      JoinStep(t, p, prev, mode);
    case Call(ins, body, rest) =>
      var clnum, mid := Opening(body), Reporting(q, body);
      CallIsTaken(q, ins, body);
      TreeIsReported(body, Push(q, ins, clnum), Some(ins), Entering(ins));
      TreeIsReported(rest, mid, LastOf(Some(ins), CallDepth.Flatten(body)), Returning(ins, clnum));
      JoinCall(t, p, prev, mode, q, Push(mid, ins, clnum), Reporting(Started(mid, rest, Returning(ins, clnum)), rest));
      JoinReports(q, t);
  }

  lemma CallIsTaken(q: Calls, ins: Ins, body: Tree)
    requires Even(q) && Simple(body, q.rets + [After(ins)], q.calls + [ins.address], Entering(ins))
    ensures var p := Push(q, ins, Opening(body)); Stands(p, body, Entering(ins)) && Before(p, Entering(ins)) == q
  {
    var p, n := Push(q, ins, Opening(body)), |q.rets|;
    assert p.rets[..n] == q.rets && p.calls[..n] == q.calls && p.clnums[..n] == q.clnums;
  }

  /** On such a trace the reported intervals are exactly the calls, in the order in which they return. */
  lemma ReportsAreTheCalls(t: Tree)
    requires Simple(t, [], [], InSequence(None))
    ensures var flow := CallDepth.Flatten(t); Run(flow, |flow|).fxn == CallsOf(t)
  {
    var flow := CallDepth.Flatten(t);
    RunIsRunFrom(flow, |flow|);
    assert flow[..|flow|] == flow;
    TreeIsReported(t, NOTHING, None, InSequence(None));
    assert [] + CallsOf(t) == CallsOf(t);
  }

  // ---------- the depth it gives ----------

  lemma {:induction false} CountConcat(a: seq<Interval>, b: seq<Interval>, c: nat)
    ensures CountUpTo(a + b, c) == CountUpTo(a, c) + CountUpTo(b, c)
  {
    if b == [] {
      assert a + b == a;
    } else {
      CountConcat(a, b[..|b| - 1], c);
      assert (a + b)[..|a + b| - 1] == a + b[..|b| - 1];
    }
  }

  lemma CountCall(t: Tree, c: nat)
    requires t.Call?
    ensures CountUpTo(CallsOf(t), c) ==
            CountUpTo(CallsOf(t.body), c) + (if Opening(t.body) <= c < Opening(t.rest) then 1 else 0) + CountUpTo(CallsOf(t.rest), c)
  {
    var call := [Interval(Opening(t.body), Opening(t.rest) - 1)];
    CountConcat(CallsOf(t.body) + call, CallsOf(t.rest), c);
    CountConcat(CallsOf(t.body), call, c);
    assert call[..0] == [] && CountUpTo([], c) == 0;
  }

  /** The changelists of `t` run from at least `low` to below `high`, increasing. */
  predicate Within(t: Tree, low: nat, high: nat) {
    match t
    case End => low <= high
    case Step(ins, rest) => low <= ins.clnum && Within(rest, ins.clnum + 1, high)
    case Call(ins, body, rest) =>
      low <= ins.clnum && !body.End? && !rest.End? && Within(body, ins.clnum + 1, rest.ins.clnum) && Within(rest, rest.ins.clnum, high)
  }

  lemma {:induction false} NoneOutside(t: Tree, low: nat, high: nat, c: nat)
    requires Within(t, low, high) && (c < low || c >= high)
    ensures CountUpTo(CallsOf(t), c) == 0
  {
    match t
    case End =>
    case Step(ins, rest) => NoneOutside(rest, ins.clnum + 1, high, c);
    case Call(ins, body, rest) =>
      OpensWithin(body, ins.clnum + 1, rest.ins.clnum);
      OpensWithin(rest, rest.ins.clnum, high);
      CountCall(t, c);
      NoneOutside(body, ins.clnum + 1, rest.ins.clnum, c);
      NoneOutside(rest, rest.ins.clnum, high, c);
  }

  lemma {:induction false} OpensWithin(t: Tree, low: nat, high: nat)
    requires Within(t, low, high)
    ensures low <= high && (!t.End? ==> low <= t.ins.clnum < high)
  {
    match t
    case End =>
    case Step(ins, rest) => OpensWithin(rest, ins.clnum + 1, high);
    case Call(ins, body, rest) =>
      OpensWithin(body, ins.clnum + 1, rest.ins.clnum);
      OpensWithin(rest, rest.ins.clnum, high);
  }

  /** The calls open at the changelist of instruction `i` are those it is nested in. */
  ghost predicate DepthIsCount(t: Tree, low: nat, high: nat, base: nat, i: nat)
    requires i < |CallDepth.Flatten(t)|
  {
    var c := CallDepth.Flatten(t)[i].clnum;
    && low <= c < high
    && |CallDepth.TrueDepths(t, base)| == |CallDepth.Flatten(t)|
    && CallDepth.TrueDepths(t, base)[i] == base + CountUpTo(CallsOf(t), c)
  }

  lemma CountFirst(t: Tree, low: nat, high: nat, base: nat)
    requires Within(t, low, high) && !t.End?
    ensures |CallDepth.Flatten(t)| > 0 && DepthIsCount(t, low, high, base, 0)
  {
    DepthsLength(t, base);
    OpensWithin(t, low, high);
    if t.Step? {
      NoneOutside(t.rest, t.ins.clnum + 1, high, t.ins.clnum);
    } else {
      OpensWithin(t.body, t.ins.clnum + 1, t.rest.ins.clnum);
      CountCall(t, t.ins.clnum);
      NoneOutside(t.body, t.ins.clnum + 1, t.rest.ins.clnum, t.ins.clnum);
      NoneOutside(t.rest, t.rest.ins.clnum, high, t.ins.clnum);
    }
  }

  lemma CountInStep(t: Tree, low: nat, high: nat, base: nat, i: nat)
    requires Within(t, low, high) && t.Step? && i < |CallDepth.Flatten(t.rest)|
    requires DepthIsCount(t.rest, t.ins.clnum + 1, high, base, i)
    ensures DepthIsCount(t, low, high, base, i + 1)
  {
    DepthsLength(t, base);
  }

  lemma CountInBody(t: Tree, low: nat, high: nat, base: nat, i: nat)
    requires Within(t, low, high) && t.Call? && i < |CallDepth.Flatten(t.body)|
    requires DepthIsCount(t.body, t.body.ins.clnum, t.rest.ins.clnum, base + 1, i)
    ensures DepthIsCount(t, low, high, base, i + 1)
  {
    var c := CallDepth.Flatten(t.body)[i].clnum;
    DepthsLength(t, base);
    OpensWithin(t.body, t.ins.clnum + 1, t.rest.ins.clnum);
    OpensWithin(t.rest, t.rest.ins.clnum, high);
    CountCall(t, c);
    NoneOutside(t.rest, t.rest.ins.clnum, high, c);
    assert CallDepth.Flatten(t)[i + 1] == CallDepth.Flatten(t.body)[i];
    assert CallDepth.TrueDepths(t, base)[i + 1] == CallDepth.TrueDepths(t.body, base + 1)[i];
  }

  lemma CountInRest(t: Tree, low: nat, high: nat, base: nat, i: nat)
    requires Within(t, low, high) && t.Call? && i < |CallDepth.Flatten(t.rest)|
    requires DepthIsCount(t.rest, t.rest.ins.clnum, high, base, i)
    ensures DepthIsCount(t, low, high, base, 1 + |CallDepth.Flatten(t.body)| + i)
  {
    var c, n := CallDepth.Flatten(t.rest)[i].clnum, |CallDepth.Flatten(t.body)|;
    DepthsLength(t, base);
    DepthsLength(t.body, base + 1);
    OpensWithin(t.body, t.ins.clnum + 1, t.rest.ins.clnum);
    CountCall(t, c);
    NoneOutside(t.body, t.ins.clnum + 1, t.rest.ins.clnum, c);
    assert CallDepth.Flatten(t)[1 + n + i] == CallDepth.Flatten(t.rest)[i];
    assert CallDepth.TrueDepths(t, base)[1 + n + i] == CallDepth.TrueDepths(t.rest, base)[i];
  }

  lemma {:induction false} TightWithin(t: Tree, low: nat, high: nat)
    requires Within(t, low, high) && !t.End?
    ensures Within(t, t.ins.clnum, high)
  {
  }

  lemma {:induction false} CountIsDepth(t: Tree, low: nat, high: nat, base: nat, i: nat)
    requires Within(t, low, high) && i < |CallDepth.Flatten(t)|
    ensures DepthIsCount(t, low, high, base, i)
  {
    if i == 0 {
      CountFirst(t, low, high, base);
    } else if t.Step? {
      CountIsDepth(t.rest, t.ins.clnum + 1, high, base, i - 1);
      CountInStep(t, low, high, base, i - 1);
    } else if i <= |CallDepth.Flatten(t.body)| {
      TightWithin(t.body, t.ins.clnum + 1, t.rest.ins.clnum);
      CountIsDepth(t.body, t.body.ins.clnum, t.rest.ins.clnum, base + 1, i - 1);
      CountInBody(t, low, high, base, i - 1);
    } else {
      var k := i - 1 - |CallDepth.Flatten(t.body)|;
      CountIsDepth(t.rest, t.rest.ins.clnum, high, base, k);
      CountInRest(t, low, high, base, k);
    }
  }

  lemma {:induction false} DepthsLength(t: Tree, base: nat)
    ensures |CallDepth.TrueDepths(t, base)| == |CallDepth.Flatten(t)|
  {
    match t
    case End =>
    case Step(_, rest) => DepthsLength(rest, base);
    case Call(_, body, rest) =>
      DepthsLength(body, base + 1);
      DepthsLength(rest, base);
  }

  /** Every call has a body and comes back. */
  predicate Full(t: Tree) {
    match t
    case End => true
    case Step(_, rest) => Full(rest)
    case Call(_, body, rest) => !body.End? && !rest.End? && Full(body) && Full(rest)
  }

  lemma {:induction false} SimpleIsFull(t: Tree, rets: seq<nat>, calls: seq<nat>, mode: Mode)
    requires Simple(t, rets, calls, mode)
    ensures Full(t)
  {
    match t
    case End =>
    case Step(ins, rest) => SimpleIsFull(rest, rets, calls, InSequence(Some(After(ins))));
    case Call(ins, body, rest) =>
      SimpleIsFull(body, rets + [After(ins)], calls + [ins.address], Entering(ins));
      SimpleIsFull(rest, rets, calls, Returning(ins, Opening(body)));
  }

  ghost predicate Spans(flow: seq<Ins>, low: nat, high: nat) {
    low <= high && Increasing(flow) && forall i :: 0 <= i < |flow| ==> low <= flow[i].clnum < high
  }

  lemma SpansFirst(ins: Ins, rest: seq<Ins>, low: nat, high: nat)
    requires Spans([ins] + rest, low, high)
    ensures low <= ins.clnum && Spans(rest, ins.clnum + 1, high)
  {
    var flow := [ins] + rest;
    assert flow[0] == ins && forall i :: 0 <= i < |rest| ==> flow[i + 1] == rest[i];
  }

  lemma SpansConcat(a: seq<Ins>, b: seq<Ins>, low: nat, high: nat)
    requires b != [] && Spans(a + b, low, high)
    ensures Spans(a, low, b[0].clnum) && Spans(b, b[0].clnum, high)
  {
    var flow := a + b;
    assert forall i :: 0 <= i < |a| ==> flow[i] == a[i];
    assert forall i :: 0 <= i < |b| ==> flow[|a| + i] == b[i];
  }

  lemma FlattenFirst(t: Tree)
    requires !t.End?
    ensures CallDepth.Flatten(t) != [] && CallDepth.Flatten(t)[0] == t.ins
  {
  }

  lemma {:induction false} SpansIsWithin(t: Tree, low: nat, high: nat)
    requires Full(t) && Spans(CallDepth.Flatten(t), low, high)
    ensures Within(t, low, high)
  {
    match t
    case End =>
    case Step(ins, rest) =>
      SpansFirst(ins, CallDepth.Flatten(rest), low, high);
      SpansIsWithin(rest, ins.clnum + 1, high);
    case Call(ins, body, rest) =>
      SpansFirst(ins, CallDepth.Flatten(body) + CallDepth.Flatten(rest), low, high);
      FlattenFirst(rest);
      SpansConcat(CallDepth.Flatten(body), CallDepth.Flatten(rest), ins.clnum + 1, high);
      SpansIsWithin(body, ins.clnum + 1, rest.ins.clnum);
      SpansIsWithin(rest, rest.ins.clnum, high);
  }

  lemma {:induction false} SimpleIsWellNested(t: Tree, rets: seq<nat>, calls: seq<nat>, mode: Mode)
    requires Simple(t, rets, calls, mode)
    ensures CallDepth.WellNested(t, rets, if mode.Returning? then Some(After(mode.call)) else None)
  {
    match t
    case End =>
    case Step(ins, rest) => SimpleIsWellNested(rest, rets, calls, InSequence(Some(After(ins))));
    case Call(ins, body, rest) =>
      SimpleIsWellNested(body, rets + [After(ins)], calls + [ins.address], Entering(ins));
      SimpleIsWellNested(rest, rets, calls, Returning(ins, Opening(body)));
  }

  /** There the depth counted from the intervals, the depth of the return-address stack and the true depth are one. */
  lemma DepthsAgree(t: Tree, i: nat)
    requires Simple(t, [], [], InSequence(None)) && Increasing(CallDepth.Flatten(t)) && i < |CallDepth.Flatten(t)|
    ensures |CallDepth.TrueDepths(t, 0)| == |CallDepth.Flatten(t)|
    ensures var flow := CallDepth.Flatten(t);
            && CountUpTo(Run(flow, |flow|).fxn, flow[i].clnum) == CallDepth.TrueDepths(t, 0)[i]
            && CallDepth.DepthsOf([], flow)[i] == CallDepth.TrueDepths(t, 0)[i]
  {
    var flow := CallDepth.Flatten(t);
    ReportsAreTheCalls(t);
    SimpleIsFull(t, [], [], InSequence(None));
    var high := flow[|flow| - 1].clnum + 1;
    assert Spans(flow, 0, high);
    SpansIsWithin(t, 0, high);
    CountIsDepth(t, 0, high, 0, i);
    SimpleIsWellNested(t, [], [], InSequence(None));
    CallDepth.DepthIsTrue(t, flow, i);
  }
}
