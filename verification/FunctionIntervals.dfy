/** Call intervals guessed from a flow of instructions, and the depth maps built on them. */
module FunctionIntervals {
  import opened Prelude
  import opened Flow

  datatype Interval = Interval(clstart: nat, clend: int)

  /** Return addresses, call addresses and changelists of the calls that seem open, and the intervals closed. */
  datatype Calls = Calls(rets: seq<nat>, calls: seq<nat>, clnums: seq<nat>, fxn: seq<Interval>)

  /** The first position of `a`, if any. */
  function Find(s: seq<nat>, a: nat): (r: Option<nat>)
    ensures r.Some? ==> r.value < |s| && s[r.value] == a && a !in s[..r.value]
    ensures r.None? ==> a !in s
  {
    if s == [] then None
    else if s[0] == a then Some(0)
    else match Find(s[1..], a)
         case None => None
         case Some(i) => assert s[..i + 1] == [s[0]] + s[1..][..i]; Some(i + 1)
  }

  function Cut(c: Calls, n: nat): Calls
    requires n <= |c.rets| && n <= |c.calls| && n <= |c.clnums|
  {
    c.(rets := c.rets[..n], calls := c.calls[..n], clnums := c.clnums[..n])
  }

  predicate Even(c: Calls) {
    |c.rets| == |c.calls| == |c.clnums|
  }

  /** The call address is executed again: it was no call. */
  function Cancelled(c: Calls, a: nat): (r: Calls)
    requires Even(c)
    ensures Even(r)
  {
    match Find(c.calls, a)
    case None => c
    case Some(i) => Cut(c, i)
  }

  /** What instruction `ins`, executed after `prev`, does to the stacks. */
  function StepOn(c: Calls, prev: Option<Ins>, ins: Ins): (r: Calls)
    requires Even(c)
    ensures Even(r)
  {
    var d := Cancelled(c, ins.address);
    match Find(d.rets, ins.address)
    case Some(k) =>
      Cut(d, k).(fxn := d.fxn + [Interval(d.clnums[k], ins.clnum - 1)])
    case None =>
      if prev.Some? && After(prev.value) != ins.address then Push(d, prev.value, ins.clnum) else d
  }

  /** The instruction `call` seems to have called what starts at changelist `clnum`. */
  function Push(c: Calls, call: Ins, clnum: nat): Calls {
    c.(rets := c.rets + [After(call)], calls := c.calls + [call.address], clnums := c.clnums + [clnum])
  }

  function Step(c: Calls, flow: seq<Ins>, i: nat): (r: Calls)
    requires Even(c) && i < |flow|
    ensures Even(r)
  {
    StepOn(c, if i == 0 then None else Some(flow[i - 1]), flow[i])
  }

  function Run(flow: seq<Ins>, n: nat): (c: Calls)
    requires n <= |flow|
    ensures Even(c)
  {
    if n == 0 then Calls([], [], [], []) else Step(Run(flow, n - 1), flow, n - 1)
  }

  /** The analysis; the three stacks are always equally deep, so no lookup can fail. */
  method DoFunctionAnalysis(flow: seq<Ins>) returns (fxn: seq<Interval>)
    ensures fxn == Run(flow, |flow|).fxn
  {
    var c := Calls([], [], [], []);
    for i := 0 to |flow|
      invariant c == Run(flow, i)
    {
      c := Visit(c, flow, i);
    }
    fxn := c.fxn;
  }

  /** One turn of the loop. */
  method Visit(c: Calls, flow: seq<Ins>, i: nat) returns (r: Calls)
    requires Even(c) && i < |flow|
    ensures r == Step(c, flow, i)
  {
    var Calls(fxnStack, cancelStack, clStack, fxn) := c;
    var address, clnum := flow[i].address, flow[i].clnum;
    if address in cancelStack {
      var idx := Find(cancelStack, address).value;
      fxnStack, cancelStack, clStack := fxnStack[..idx], cancelStack[..idx], clStack[..idx];
    }
    assert Calls(fxnStack, cancelStack, clStack, fxn) == Cancelled(c, address);
    if address in fxnStack {
      var idx := Find(fxnStack, address).value;
      fxn := fxn + [Interval(clStack[idx], flow[i].clnum - 1)];
      fxnStack, cancelStack, clStack := fxnStack[..idx], cancelStack[..idx], clStack[..idx];
    } else if i > 0 && After(flow[i - 1]) != address {
      fxnStack := fxnStack + [After(flow[i - 1])];
      cancelStack := cancelStack + [flow[i - 1].address];
      clStack := clStack + [clnum];
    }
    r := Calls(fxnStack, cancelStack, clStack, fxn);
  }

  // ---------- what the intervals are ----------

  predicate Nonempty(f: Interval) { f.clstart <= f.clend }

  /** One contains the other with both ends to spare, or they do not meet. */
  predicate NestedOrApart(f: Interval, g: Interval) {
    || f.clend < g.clstart || g.clend < f.clstart
    || (f.clstart < g.clstart && g.clend < f.clend)
    || (g.clstart < f.clstart && f.clend < g.clend)
  }

  /** Up to changelist `last`: closed intervals have ended before it, and no open call starts inside one. */
  ghost predicate Laminar(fxn: seq<Interval>, clnums: seq<nat>, last: nat) {
    && (forall k :: 0 <= k < |fxn| ==> Nonempty(fxn[k]) && fxn[k].clend < last)
    && (forall k, m :: 0 <= k < m < |fxn| ==> NestedOrApart(fxn[k], fxn[m]))
    && (forall i, j :: 0 <= i < j < |clnums| ==> clnums[i] < clnums[j])
    && (forall i :: 0 <= i < |clnums| ==> clnums[i] <= last)
    && (forall i, k :: 0 <= i < |clnums| && 0 <= k < |fxn| ==> clnums[i] < fxn[k].clstart || fxn[k].clend < clnums[i])
  }

  lemma PopKeepsLaminar(fxn: seq<Interval>, clnums: seq<nat>, last: nat, n: nat)
    requires Laminar(fxn, clnums, last) && n <= |clnums|
    ensures Laminar(fxn, clnums[..n], last)
  {
  }

  /** A return closes the interval of its call, which contains or misses everything closed so far. */
  lemma ReturnKeepsLaminar(fxn: seq<Interval>, clnums: seq<nat>, last: nat, now: nat, idx: nat)
    requires Laminar(fxn, clnums, last) && idx < |clnums| && last < now
    ensures Laminar(fxn + [Interval(clnums[idx], now - 1)], clnums[..idx], now)
  {
  }

  lemma CallKeepsLaminar(fxn: seq<Interval>, clnums: seq<nat>, last: nat, now: nat)
    requires Laminar(fxn, clnums, last) && last < now
    ensures Laminar(fxn, clnums + [now], now) && Laminar(fxn, clnums, now)
  {
  }

  /** Instruction `x` jumped away with return address `ret`, from `from`. */
  ghost predicate CallSite(flow: seq<Ins>, x: nat, ret: nat, from: nat, clnum: nat) {
    x < |flow| && Jumps(flow, x) && flow[x].clnum == clnum
    && ret == After(flow[x - 1]) && from == flow[x - 1].address
  }

  /** `f` opens with the jump away at `x` and closes right before `y` executes the return address. */
  ghost predicate CallReturnPair(flow: seq<Ins>, f: Interval, x: nat, y: nat) {
    && 0 < x < y < |flow| && flow[x].clnum == f.clstart && flow[y].clnum == f.clend + 1
    && flow[x].address != flow[x - 1].address + flow[x - 1].length
    && flow[y].address == flow[x - 1].address + flow[x - 1].length
  }

  ghost predicate CallAndReturn(flow: seq<Ins>, f: Interval) {
    exists x, y :: CallReturnPair(flow, f, x, y)
  }

  ghost predicate HasSite(flow: seq<Ins>, n: nat, ret: nat, from: nat, clnum: nat) {
    exists x :: 0 <= x < n && CallSite(flow, x, ret, from, clnum)
  }

  /** Every open entry stands for a jump away among the first `n` instructions. */
  ghost predicate Rooted(flow: seq<Ins>, n: nat, rets: seq<nat>, calls: seq<nat>, clnums: seq<nat>) {
    |rets| == |calls| == |clnums| && forall m {:trigger HasSite(flow, n, rets[m], calls[m], clnums[m])} :: 0 <= m < |clnums| ==> HasSite(flow, n, rets[m], calls[m], clnums[m])
  }

  ghost predicate AllReturn(flow: seq<Ins>, fxn: seq<Interval>) {
    forall k {:trigger CallAndReturn(flow, fxn[k])} :: 0 <= k < |fxn| ==> CallAndReturn(flow, fxn[k])
  }

  lemma CutKeepsRooted(flow: seq<Ins>, n: nat, c: Calls, k: nat)
    requires Even(c) && Rooted(flow, n, c.rets, c.calls, c.clnums) && k <= |c.clnums|
    ensures Rooted(flow, n, c.rets[..k], c.calls[..k], c.clnums[..k])
  {
    forall m | 0 <= m < k ensures HasSite(flow, n, c.rets[..k][m], c.calls[..k][m], c.clnums[..k][m]) {
      assert HasSite(flow, n, c.rets[m], c.calls[m], c.clnums[m]);
    }
  }

  lemma LaterKeepsRooted(flow: seq<Ins>, n: nat, rets: seq<nat>, calls: seq<nat>, clnums: seq<nat>)
    requires Rooted(flow, n, rets, calls, clnums)
    ensures Rooted(flow, n + 1, rets, calls, clnums)
  {
    forall m | 0 <= m < |clnums| ensures HasSite(flow, n + 1, rets[m], calls[m], clnums[m]) {
      assert HasSite(flow, n, rets[m], calls[m], clnums[m]);
    }
  }

  lemma AllReturnSnoc(flow: seq<Ins>, fxn: seq<Interval>, f: Interval)
    requires AllReturn(flow, fxn) && CallAndReturn(flow, f)
    ensures AllReturn(flow, fxn + [f])
  {
    forall k | 0 <= k < |fxn + [f]| ensures CallAndReturn(flow, (fxn + [f])[k]) {
      if k < |fxn| {
        assert CallAndReturn(flow, fxn[k]);
      }
    }
  }

  lemma CancelKeeps(flow: seq<Ins>, n: nat, c: Calls, a: nat, last: nat)
    requires Even(c) && Rooted(flow, n, c.rets, c.calls, c.clnums) && Laminar(c.fxn, c.clnums, last)
    ensures Rooted(flow, n, Cancelled(c, a).rets, Cancelled(c, a).calls, Cancelled(c, a).clnums) && Laminar(c.fxn, Cancelled(c, a).clnums, last) && Cancelled(c, a).fxn == c.fxn
  {
    if Find(c.calls, a).Some? {
      PopKeepsLaminar(c.fxn, c.clnums, last, Find(c.calls, a).value);
      CutKeepsRooted(flow, n, c, Find(c.calls, a).value);
    }
  }

  ghost predicate Sound(flow: seq<Ins>, n: nat, c: Calls)
    requires 0 < n <= |flow|
  {
    Even(c) && Rooted(flow, n, c.rets, c.calls, c.clnums) && AllReturn(flow, c.fxn) && Laminar(c.fxn, c.clnums, flow[n - 1].clnum)
  }

  lemma ReturnKeeps(flow: seq<Ins>, i: nat, d: Calls, k: nat)
    requires 0 < i < |flow| && Increasing(flow) && Sound(flow, i, d) && k < |d.rets| && d.rets[k] == flow[i].address
    ensures Sound(flow, i + 1, Cut(d, k).(fxn := d.fxn + [Interval(d.clnums[k], flow[i].clnum - 1)]))
  {
    var now := flow[i].clnum;
    ReturnKeepsLaminar(d.fxn, d.clnums, flow[i - 1].clnum, now, k);
    CutKeepsRooted(flow, i, d, k);
    LaterKeepsRooted(flow, i, d.rets[..k], d.calls[..k], d.clnums[..k]);
    assert HasSite(flow, i, d.rets[k], d.calls[k], d.clnums[k]);
    ReturnsTo(flow, i, d.rets[k], d.calls[k], d.clnums[k]);
    AllReturnSnoc(flow, d.fxn, Interval(d.clnums[k], now - 1));
  }

  lemma ReturnsTo(flow: seq<Ins>, i: nat, ret: nat, from: nat, clnum: nat)
    requires 0 < i < |flow| && Increasing(flow) && HasSite(flow, i, ret, from, clnum) && flow[i].address == ret
    ensures CallAndReturn(flow, Interval(clnum, flow[i].clnum - 1))
  {
    assert flow[i - 1].clnum < flow[i].clnum;
    var x :| 0 <= x < i && CallSite(flow, x, ret, from, clnum);
    assert CallReturnPair(flow, Interval(clnum, flow[i].clnum - 1), x, i);
  }

  lemma CallKeeps(flow: seq<Ins>, i: nat, d: Calls)
    requires 0 < i < |flow| && Increasing(flow) && Sound(flow, i, d) && Jumps(flow, i)
    ensures var ret := After(flow[i - 1]);
            Sound(flow, i + 1, d.(rets := d.rets + [ret], calls := d.calls + [flow[i - 1].address], clnums := d.clnums + [flow[i].clnum]))
  {
    var ret, from, now := After(flow[i - 1]), flow[i - 1].address, flow[i].clnum;
    CallKeepsLaminar(d.fxn, d.clnums, flow[i - 1].clnum, now);
    LaterKeepsRooted(flow, i, d.rets, d.calls, d.clnums);
    assert CallSite(flow, i, ret, from, now);
    assert HasSite(flow, i + 1, ret, from, now);
  }

  lemma StepKeeps(flow: seq<Ins>, i: nat, c: Calls)
    requires 0 < i < |flow| && Increasing(flow) && Sound(flow, i, c)
    ensures Sound(flow, i + 1, Step(c, flow, i))
  {
    var d := Cancelled(c, flow[i].address);
    CancelKeeps(flow, i, c, flow[i].address, flow[i - 1].clnum);
    match Find(d.rets, flow[i].address)
    case Some(k) => ReturnKeeps(flow, i, d, k);
    case None =>
      if Jumps(flow, i) {
        CallKeeps(flow, i, d);
      } else {
        CallKeepsLaminar(d.fxn, d.clnums, flow[i - 1].clnum, flow[i].clnum);
        LaterKeepsRooted(flow, i, d.rets, d.calls, d.clnums);
      }
  }

  lemma {:induction false} RunInv(flow: seq<Ins>, n: nat)
    requires n <= |flow| && Increasing(flow)
    ensures n > 0 ==> Sound(flow, n, Run(flow, n))
  {
    if n > 1 {
      RunInv(flow, n - 1);
      StepKeeps(flow, n - 1, Run(flow, n - 1));
    } else if n == 1 {
      assert Run(flow, 0) == Calls([], [], [], []);
      assert Run(flow, 1) == Calls([], [], [], []);
    }
  }

  /** Every interval is nonempty and stands for a jump away and the return from it. */
  lemma IntervalsAreCalls(flow: seq<Ins>, k: nat)
    requires Increasing(flow) && k < |Run(flow, |flow|).fxn|
    ensures Nonempty(Run(flow, |flow|).fxn[k]) && CallAndReturn(flow, Run(flow, |flow|).fxn[k])
  {
    RunInv(flow, |flow|);
  }

  /** Any two intervals are nested or disjoint. */
  lemma IntervalsNest(flow: seq<Ins>, k: nat, m: nat)
    requires Increasing(flow) && k < m < |Run(flow, |flow|).fxn|
    ensures NestedOrApart(Run(flow, |flow|).fxn[k], Run(flow, |flow|).fxn[m])
  {
    RunInv(flow, |flow|);
  }

  // ---------- a call address executed again is no call ----------

  /** No frame is open since changelist `v`, and no interval starts there. */
  ghost predicate Gone(c: Calls, v: nat) {
    v !in c.clnums && forall k :: 0 <= k < |c.fxn| ==> c.fxn[k].clstart != v
  }

  /** After cancelling, an instruction at another changelist does not bring it back. */
  lemma GoneAfter(c: Calls, flow: seq<Ins>, i: nat, v: nat)
    requires Even(c) && i < |flow| && Gone(Cancelled(c, flow[i].address), v) && flow[i].clnum != v
    ensures Gone(Step(c, flow, i), v)
  {
  }

  /** What is gone stays gone: later frames are opened at later changelists. */
  lemma GoneStep(c: Calls, flow: seq<Ins>, i: nat, v: nat)
    requires Even(c) && Gone(c, v) && i < |flow| && flow[i].clnum != v
    ensures Gone(Step(c, flow, i), v)
  {
    var d := Cancelled(c, flow[i].address);
    assert forall m :: 0 <= m < |d.clnums| ==> d.clnums[m] == c.clnums[m];
    GoneAfter(c, flow, i, v);
  }

  /** The analysis goes on from `c`, over instructions `m` to `n - 1`. */
  function RunOn(c: Calls, flow: seq<Ins>, m: nat, n: nat): (r: Calls)
    requires Even(c) && m <= n <= |flow|
    ensures Even(r)
    decreases n - m
  {
    if m == n then c else RunOn(Step(c, flow, m), flow, m + 1, n)
  }

  lemma {:induction false} RunOnSnoc(c: Calls, flow: seq<Ins>, m: nat, n: nat)
    requires Even(c) && m <= n < |flow|
    ensures RunOn(c, flow, m, n + 1) == Step(RunOn(c, flow, m, n), flow, n)
    decreases n - m
  {
    if m < n {
      RunOnSnoc(Step(c, flow, m), flow, m + 1, n);
    }
  }

  lemma {:induction false} RunIsRunOn(flow: seq<Ins>, m: nat, n: nat)
    requires m <= n <= |flow|
    ensures Run(flow, n) == RunOn(Run(flow, m), flow, m, n)
  {
    if m < n {
      RunIsRunOn(flow, m, n - 1);
      RunOnSnoc(Run(flow, m), flow, m, n - 1);
    }
  }

  lemma {:induction false} GoneStays(flow: seq<Ins>, c: Calls, m: nat, n: nat, v: nat)
    requires m <= n <= |flow| && Even(c) && Gone(c, v) && forall j :: m <= j < n ==> flow[j].clnum != v
    ensures Gone(RunOn(c, flow, m, n), v)
    decreases n - m
  {
    if m < n {
      GoneStep(c, flow, m, v);
      GoneStays(flow, Step(c, flow, m), m + 1, n, v);
    }
  }

  lemma CancelMakesGone(flow: seq<Ins>, y: nat, c: Calls, m: nat)
    requires 0 < y < |flow| && Sound(flow, y, c) && m < |c.clnums| && c.calls[m] == flow[y].address
    ensures Gone(Cancelled(c, flow[y].address), c.clnums[m])
  {
    var d := Cancelled(c, flow[y].address);
    assert |d.clnums| <= m;
    assert forall i :: 0 <= i < |d.clnums| ==> d.clnums[i] == c.clnums[i] && c.clnums[i] < c.clnums[m];
  }

  /**
   A jump taken for a call and not yet returned from, whose own address is executed again, as by the
   back edge of a loop, was none: no interval for it is ever reported.
   */
  lemma CancelledIsNotReported(flow: seq<Ins>, x: nat, y: nat, n: nat, open: Calls, end: Calls)
    requires Increasing(flow) && 0 < x < y < n <= |flow| && open == Run(flow, y) && end == Run(flow, n)
    requires flow[x].clnum in open.clnums && flow[y].address == flow[x - 1].address
    ensures forall k :: 0 <= k < |end.fxn| ==> end.fxn[k].clstart != flow[x].clnum
  {
    LaterDiffer(flow, x, y + 1, n);
    var d := Step(open, flow, y);
    CancelledThere(flow, x, y, open, d);
    RunIsRunOn(flow, y, n);
    GoneFrom(flow, y, n, open, d, end, flow[x].clnum);
  }

  lemma GoneFrom(flow: seq<Ins>, y: nat, n: nat, open: Calls, d: Calls, end: Calls, v: nat)
    requires y < n <= |flow| && Even(open) && d == Step(open, flow, y) && end == RunOn(open, flow, y, n)
    requires Gone(d, v) && forall j :: y + 1 <= j < n ==> flow[j].clnum != v
    ensures Gone(end, v)
  {
    GoneStays(flow, d, y + 1, n, v);
  }

  lemma CancelledThere(flow: seq<Ins>, x: nat, y: nat, open: Calls, d: Calls)
    requires Increasing(flow) && 0 < x < y < |flow| && open == Run(flow, y) && d == Step(open, flow, y)
    requires flow[x].clnum in open.clnums && flow[y].address == flow[x - 1].address
    ensures Gone(d, flow[x].clnum)
  {
    RunInv(flow, y);
    CancelledAt(flow, x, y, open);
  }

  lemma LaterDiffer(flow: seq<Ins>, x: nat, m: nat, n: nat)
    requires Increasing(flow) && x < m && n <= |flow|
    ensures forall j :: m <= j < n ==> flow[j].clnum != flow[x].clnum
  {
  }

  lemma CancelledAt(flow: seq<Ins>, x: nat, y: nat, c: Calls)
    requires Increasing(flow) && 0 < x < y < |flow| && Sound(flow, y, c)
    requires flow[x].clnum in c.clnums && flow[y].address == flow[x - 1].address
    ensures Gone(Step(c, flow, y), flow[x].clnum)
  {
    var m := FrameOf(flow, x, y, c);
    CancelMakesGone(flow, y, c, m);
    GoneAfter(c, flow, y, flow[x].clnum);
  }

  /** The frame opened at `x` remembers the instruction before it. */
  lemma FrameOf(flow: seq<Ins>, x: nat, y: nat, c: Calls) returns (m: nat)
    requires Increasing(flow) && 0 < x < y < |flow| && Sound(flow, y, c) && flow[x].clnum in c.clnums
    ensures m < |c.clnums| && c.clnums[m] == flow[x].clnum && c.calls[m] == flow[x - 1].address
  {
    m :| 0 <= m < |c.clnums| && c.clnums[m] == flow[x].clnum;
    assert HasSite(flow, y, c.rets[m], c.calls[m], c.clnums[m]);
    var z :| 0 <= z < y && CallSite(flow, z, c.rets[m], c.calls[m], c.clnums[m]);
    assert z == x;
  }

  // ---------- no return is missed ----------

  /** The frames of `c` are the outermost frames of `d`. */
  ghost predicate Below(c: Calls, d: Calls) {
    c.rets <= d.rets && c.calls <= d.calls && c.clnums <= d.clnums
  }

  /** An instruction that is none of the frames' call or return addresses leaves them alone. */
  lemma OutsiderKeeps(c: Calls, d: Calls, flow: seq<Ins>, i: nat)
    requires Even(c) && Even(d) && Below(c, d) && i < |flow| && flow[i].address !in c.rets && flow[i].address !in c.calls
    ensures Below(c, Step(d, flow, i))
  {
    var a := flow[i].address;
    var e := Cancelled(d, a);
    assert Below(c, e) by {
      if Find(d.calls, a).Some? {
        FoundAbove(c.calls, d.calls, a);
      }
    }
    if Find(e.rets, a).Some? {
      FoundAbove(c.rets, e.rets, a);
    }
  }

  lemma FoundAbove(s: seq<nat>, t: seq<nat>, a: nat)
    requires s <= t && a !in s && Find(t, a).Some?
    ensures Find(t, a).value >= |s|
  {
    assert forall k :: 0 <= k < |s| ==> t[k] == s[k] && t[k] != a;
  }

  /** Instructions x+1 to y-1 execute none of the addresses the open frames wait for. */
  ghost predicate Undisturbed(flow: seq<Ins>, x: nat, y: nat)
    requires x < |flow|
  {
    forall z {:trigger flow[z]} :: x < z < y && z < |flow| ==>
      flow[z].address !in Run(flow, x + 1).rets && flow[z].address !in Run(flow, x + 1).calls
  }

  lemma {:induction false} FramesSurvive(flow: seq<Ins>, c: Calls, d: Calls, x: nat, y: nat)
    requires x <= y <= |flow| && Even(c) && Below(c, d) && d == Run(flow, x)
    requires forall z {:trigger flow[z]} :: x <= z < y ==> flow[z].address !in c.rets && flow[z].address !in c.calls
    ensures Below(c, Run(flow, y))
    decreases y - x
  {
    if x < y {
      OutsiderKeeps(c, d, flow, x);
      FramesSurvive(flow, c, Step(d, flow, x), x + 1, y);
    }
  }

  /**
   A call that opened a frame at `x` and is not disturbed is closed at the first `y` that executes
   its return address, unless that is also an outer frame's return address or a call address.
   */
  lemma CallIsReported(flow: seq<Ins>, x: nat, y: nat)
    requires x < y < |flow| && Undisturbed(flow, x, y)
    requires var c := Run(flow, x + 1);
             c.rets != [] && flow[y].address == c.rets[|c.rets| - 1] && flow[y].address !in c.rets[..|c.rets| - 1]
             && flow[y].address !in Run(flow, y).calls
    ensures var c, f := Run(flow, x + 1), Run(flow, y + 1).fxn;
            f == Run(flow, y).fxn + [Interval(c.clnums[|c.clnums| - 1], flow[y].clnum - 1)]
  {
    FramesSurvive(flow, Run(flow, x + 1), Run(flow, x + 1), x + 1, y);
    ReturnCloses(Run(flow, x + 1), Run(flow, y), flow, y);
  }

  lemma ReturnCloses(c: Calls, d: Calls, flow: seq<Ins>, y: nat)
    requires Even(c) && Even(d) && Below(c, d) && y < |flow|
    requires c.rets != [] && flow[y].address == c.rets[|c.rets| - 1] && flow[y].address !in c.rets[..|c.rets| - 1]
    requires flow[y].address !in d.calls
    ensures Step(d, flow, y).fxn == d.fxn + [Interval(c.clnums[|c.clnums| - 1], flow[y].clnum - 1)]
  {
    var n, a := |c.rets| - 1, flow[y].address;
    assert d.rets[..n] == c.rets[..n] && d.rets[n] == a && d.clnums[n] == c.clnums[n];
    FirstIs(d.rets, a, n);
    assert Cancelled(d, a) == d;
  }

  lemma FirstIs(s: seq<nat>, a: nat, n: nat)
    requires n < |s| && s[n] == a && a !in s[..n]
    ensures Find(s, a) == Some(n)
  {
    assert forall k :: 0 <= k < n ==> s[k] == s[..n][k] && s[k] != a;
    assert Find(s, a).Some?;
  }

  // ---------- depth ----------

  /** How many of the intervals satisfy a test at changelist `c`. */
  function CountUpTo(fxns: seq<Interval>, c: nat): nat {
    if fxns == [] then 0
    else CountUpTo(fxns[..|fxns| - 1], c) + if fxns[|fxns| - 1].clstart <= c <= fxns[|fxns| - 1].clend then 1 else 0
  }

  function CountBefore(fxns: seq<Interval>, c: nat): nat {
    if fxns == [] then 0
    else CountBefore(fxns[..|fxns| - 1], c) + if fxns[|fxns| - 1].clstart <= c < fxns[|fxns| - 1].clend then 1 else 0
  }

  function CountEnding(fxns: seq<Interval>, c: nat): nat {
    if fxns == [] then 0
    else CountEnding(fxns[..|fxns| - 1], c) + if fxns[|fxns| - 1].clend == c then 1 else 0
  }

  method GetDepth(fxns: seq<Interval>, clnum: nat) returns (d: nat)
    ensures d == CountUpTo(fxns, clnum)
  {
    d := 0;
    for k := 0 to |fxns|
      invariant d == CountUpTo(fxns[..k], clnum)
    {
      assert fxns[..k + 1][..k] == fxns[..k];
      if fxns[k].clstart <= clnum && clnum <= fxns[k].clend {
        d := d + 1;
      }
    }
    assert fxns[..|fxns|] == fxns;
  }

  function Sum(s: seq<int>): int {
    if s == [] then 0 else Sum(s[..|s| - 1]) + s[|s| - 1]
  }

  lemma {:induction false} SumUpdate(s: seq<int>, i: nat, x: int)
    requires i < |s|
    ensures Sum(s[i := s[i] + x]) == Sum(s) + x
  {
    var n, t := |s| - 1, s[i := s[i] + x];
    if i == n {
      assert t[..n] == s[..n];
    } else {
      SumUpdate(s[..n], i, x);
      assert t[..n] == s[..n][i := s[..n][i] + x];
    }
  }

  /** The prefix sums of the derivative count the intervals that are open. */
  ghost predicate Derivative(dderiv: seq<int>, fxns: seq<Interval>) {
    forall c :: 0 <= c < |dderiv| ==> Sum(dderiv[..c + 1]) == CountBefore(fxns, c)
  }

  lemma PrefixUpdate(s: seq<int>, i: nat, x: int, n: nat)
    requires i < |s| && n <= |s|
    ensures Sum(s[i := s[i] + x][..n]) == Sum(s[..n]) + if i < n then x else 0
  {
    if i < n {
      SumUpdate(s[..n], i, x);
      assert s[i := s[i] + x][..n] == s[..n][i := s[..n][i] + x];
    } else {
      assert s[i := s[i] + x][..n] == s[..n];
    }
  }

  lemma DerivativeStep(dderiv: seq<int>, fxns: seq<Interval>, f: Interval)
    requires Derivative(dderiv, fxns) && Nonempty(f) && f.clend < |dderiv|
    ensures var up := dderiv[f.clstart := dderiv[f.clstart] + 1];
            Derivative(up[f.clend := up[f.clend] - 1], fxns + [f])
  {
    var up := dderiv[f.clstart := dderiv[f.clstart] + 1];
    var down := up[f.clend := up[f.clend] - 1];
    assert (fxns + [f])[..|fxns|] == fxns;
    forall c | 0 <= c < |dderiv| ensures Sum(down[..c + 1]) == CountBefore(fxns + [f], c) {
      PrefixUpdate(dderiv, f.clstart, 1, c + 1);
      PrefixUpdate(up, f.clend, -1, c + 1);
    }
  }

  lemma {:induction false} SumZeroes(s: seq<int>)
    requires forall i :: 0 <= i < |s| ==> s[i] == 0
    ensures Sum(s) == 0
  {
    if s != [] {
      SumZeroes(s[..|s| - 1]);
    }
  }

  lemma ZeroDerivative(s: seq<int>)
    requires forall i :: 0 <= i < |s| ==> s[i] == 0
    ensures Derivative(s, [])
  {
    forall c | 0 <= c < |s| ensures Sum(s[..c + 1]) == CountBefore([], c) {
      SumZeroes(s[..c + 1]);
    }
  }

  /** Some interval reaches past the end of the map. */
  ghost predicate OutOfRange(fxns: seq<Interval>, maxclnum: nat) {
    exists k :: 0 <= k < |fxns| && fxns[k].clend >= maxclnum
  }

  /** Entry i counts the intervals with clstart <= i < clend; None is the index error. */
  method GetDepthMap(fxns: seq<Interval>, maxclnum: nat) returns (r: Option<seq<int>>)
    requires forall k :: 0 <= k < |fxns| ==> Nonempty(fxns[k])
    ensures r.None? <==> OutOfRange(fxns, maxclnum)
    ensures r.Some? ==> |r.value| == maxclnum && forall c :: 0 <= c < maxclnum ==> r.value[c] == CountBefore(fxns, c)
  {
    var dderiv := seq(maxclnum, i => 0);
    ZeroDerivative(dderiv);
    for k := 0 to |fxns|
      invariant |dderiv| == maxclnum && Derivative(dderiv, fxns[..k])
      invariant forall m :: 0 <= m < k ==> fxns[m].clend < maxclnum
    {
      var f := fxns[k];
      if f.clstart >= maxclnum || f.clend >= maxclnum {
        return None;
      }
      DerivativeStep(dderiv, fxns[..k], f);
      assert fxns[..k] + [f] == fxns[..k + 1];
      dderiv := dderiv[f.clstart := dderiv[f.clstart] + 1];
      dderiv := dderiv[f.clend := dderiv[f.clend] - 1];
    }
    assert fxns[..|fxns|] == fxns;
    var dmap: seq<int>, thisd := [], 0;
    for i := 0 to maxclnum
      invariant |dmap| == i && thisd == Sum(dderiv[..i])
      invariant forall c :: 0 <= c < i ==> dmap[c] == CountBefore(fxns, c)
    {
      assert dderiv[..i + 1][..i] == dderiv[..i];
      thisd := thisd + dderiv[i];
      dmap := dmap + [thisd];
    }
    r := Some(dmap);
  }

  /** The two depths differ by exactly the intervals that end there. */
  lemma {:induction false} DepthsDifferByEndings(fxns: seq<Interval>, c: nat)
    requires forall k :: 0 <= k < |fxns| ==> Nonempty(fxns[k])
    ensures CountUpTo(fxns, c) == CountBefore(fxns, c) + CountEnding(fxns, c)
  {
    if fxns != [] {
      DepthsDifferByEndings(fxns[..|fxns| - 1], c);
    }
  }
}
