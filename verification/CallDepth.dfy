/**
 The call-depth map of a trace: a stack of return addresses, cut back whenever
 one of them is executed.  The reference is the call tree itself.
 */
module CallDepth {
  import opened Prelude
  import opened Flow

  // ---------- the analysis, instruction by instruction ----------

  /** The last position of `a`. */
  function RIndex(s: seq<nat>, a: nat): (i: nat)
    requires a in s
    ensures i < |s| && s[i] == a && a !in s[i + 1..]
  {
    if s[|s| - 1] == a then |s| - 1 else RIndex(s[..|s| - 1], a)
  }

  /** Executing a pending return address returns to the innermost call that waits for it. */
  function Popped(stack: seq<nat>, a: nat): seq<nat> {
    if a in stack then stack[..RIndex(stack, a)] else stack
  }

  function Next(stack: seq<nat>, ins: Ins): seq<nat> {
    Popped(stack, ins.address) + if ins.isCall then [After(ins)] else []
  }

  /** The stack after a flow, and the depth recorded at each of its instructions. */
  function StackAfter(stack: seq<nat>, flow: seq<Ins>): seq<nat>
    decreases |flow|
  {
    if flow == [] then stack else StackAfter(Next(stack, flow[0]), flow[1..])
  }

  function DepthsOf(stack: seq<nat>, flow: seq<Ins>): (d: seq<int>)
    ensures |d| == |flow|
    decreases |flow|
  {
    if flow == [] then [] else [|Popped(stack, flow[0].address)|] + DepthsOf(Next(stack, flow[0]), flow[1..])
  }

  lemma {:induction false} Concat(stack: seq<nat>, a: seq<Ins>, b: seq<Ins>)
    ensures StackAfter(stack, a + b) == StackAfter(StackAfter(stack, a), b)
    ensures DepthsOf(stack, a + b) == DepthsOf(stack, a) + DepthsOf(StackAfter(stack, a), b)
    decreases |a|
  {
    if a == [] {
      assert a + b == b;
    } else {
      assert (a + b)[1..] == a[1..] + b;
      Concat(Next(stack, a[0]), a[1..], b);
    }
  }

  /** A return to a frame further out, as by longjmp, drops all the frames above it as well. */
  lemma ReturnPast(outer: seq<nat>, a: nat, inner: seq<nat>)
    requires a !in inner
    ensures Popped(outer + [a] + inner, a) == outer
  {
    var s := outer + [a] + inner;
    assert s[|outer|] == a && a in s;
    var i := RIndex(s, a);
    assert forall k :: |outer| < k < |s| ==> s[k] == inner[k - |outer| - 1];
    assert forall k :: i < k < |s| ==> s[k] == s[i + 1..][k - i - 1] && s[k] != a;
    assert i == |outer|;
  }

  /** The depth recorded there is that of the frame returned to. */
  lemma NonlocalReturn(before: seq<Ins>, ins: Ins, rest: seq<Ins>, outer: seq<nat>, inner: seq<nat>)
    requires StackAfter([], before) == outer + [ins.address] + inner && ins.address !in inner
    ensures DepthsOf([], before + ([ins] + rest))[|before|] == |outer|
  {
    DepthAfter([], before, ins, rest);
    ReturnPast(outer, ins.address, inner);
  }

  // ---------- call trees ----------

  /** A trace as a call tree: what a call executed is its body, what follows its return is the rest. */
  datatype Trace = End | Step(ins: Ins, rest: Trace) | Call(ins: Ins, body: Trace, rest: Trace)

  function Flatten(t: Trace): seq<Ins> {
    match t
    case End => []
    case Step(ins, rest) => [ins] + Flatten(rest)
    case Call(ins, body, rest) => [ins] + (Flatten(body) + Flatten(rest))
  }

  function TrueDepths(t: Trace, depth: nat): seq<int> {
    match t
    case End => []
    case Step(ins, rest) => [depth] + TrueDepths(rest, depth)
    case Call(ins, body, rest) => [depth] + (TrueDepths(body, depth + 1) + TrueDepths(rest, depth))
  }

  /**
   Well nested: a call is followed, once its body is over, by its return address
   (`due`), and a pending return address is executed only as that return.
   */
  predicate WellNested(t: Trace, pending: seq<nat>, due: Option<nat>) {
    match t
    case End => due.None?
    case Step(ins, rest) =>
      Expected(ins, pending, due) && !ins.isCall && WellNested(rest, pending, None)
    case Call(ins, body, rest) =>
      Expected(ins, pending, due) && ins.isCall
      && WellNested(body, pending + [After(ins)], None)
      && WellNested(rest, pending, Some(After(ins)))
  }

  predicate Expected(ins: Ins, pending: seq<nat>, due: Option<nat>) {
    if due.Some? then ins.address == due.value else ins.address !in pending
  }

  function Stack(pending: seq<nat>, due: Option<nat>): seq<nat> {
    if due.Some? then pending + [due.value] else pending
  }

  /** Even when the same return address is pending many times, as in recursion, one frame is popped. */
  lemma ExpectedPops(ins: Ins, pending: seq<nat>, due: Option<nat>)
    requires Expected(ins, pending, due)
    ensures Popped(Stack(pending, due), ins.address) == pending
  {
    if due.Some? {
      var s := pending + [due.value];
      assert s[|s| - 1] == ins.address && ins.address in s;
      assert RIndex(s, ins.address) == |pending|;
    }
  }

  lemma First(stack: seq<nat>, ins: Ins, rest: seq<Ins>)
    ensures StackAfter(stack, [ins] + rest) == StackAfter(Next(stack, ins), rest)
    ensures DepthsOf(stack, [ins] + rest) == [|Popped(stack, ins.address)|] + DepthsOf(Next(stack, ins), rest)
  {
    assert ([ins] + rest)[1..] == rest;
  }

  lemma {:induction false} TreeRuns(t: Trace, pending: seq<nat>, due: Option<nat>)
    requires WellNested(t, pending, due)
    ensures StackAfter(Stack(pending, due), Flatten(t)) == pending
    ensures DepthsOf(Stack(pending, due), Flatten(t)) == TrueDepths(t, |pending|)
  {
    match t
    case End =>
    case Step(ins, rest) =>
      ExpectedPops(ins, pending, due);
      First(Stack(pending, due), ins, Flatten(rest));
      assert pending + [] == pending;
      TreeRuns(rest, pending, None);
    case Call(ins, body, rest) =>
      var ret := After(ins);
      ExpectedPops(ins, pending, due);
      First(Stack(pending, due), ins, Flatten(body) + Flatten(rest));
      Concat(pending + [ret], Flatten(body), Flatten(rest));
      TreeRuns(body, pending + [ret], None);
      TreeRuns(rest, pending, Some(ret));
  }

  /** On every well-nested trace, also one that breaks off anywhere, the recorded depth is the true one. */
  lemma DepthIsTrue(t: Trace, flow: seq<Ins>, i: nat)
    requires WellNested(t, [], None) && flow <= Flatten(t) && i < |flow|
    ensures |TrueDepths(t, 0)| == |Flatten(t)| && DepthsOf([], flow)[i] == TrueDepths(t, 0)[i]
  {
    TreeRuns(t, [], None);
    Concat([], flow, Flatten(t)[|flow|..]);
    assert flow + Flatten(t)[|flow|..] == Flatten(t);
  }

  // ---------- the map ----------

  /** The map's entry for changelist `c`: the depth of its instruction, or -1 when it has none. */
  function EntryFor(flow: seq<Ins>, n: nat, c: nat): int
    requires n <= |flow|
  {
    if n == 0 then -1
    else if flow[n - 1].clnum == c then DepthsOf([], flow)[n - 1]
    else EntryFor(flow, n - 1, c)
  }

  lemma {:induction false} EntryOfInstruction(flow: seq<Ins>, n: nat, i: nat)
    requires Increasing(flow) && i < n <= |flow|
    ensures EntryFor(flow, n, flow[i].clnum) == DepthsOf([], flow)[i]
  {
    if i < n - 1 {
      EntryOfInstruction(flow, n - 1, i);
    }
  }

  lemma {:induction false} NoEntry(flow: seq<Ins>, n: nat, c: nat)
    requires n <= |flow| && forall i :: 0 <= i < n ==> flow[i].clnum != c
    ensures EntryFor(flow, n, c) == -1
  {
    if n > 0 {
      NoEntry(flow, n - 1, c);
    }
  }

  /** One entry of -1 for each changelist missing before instruction `i`. */
  function Gap(flow: seq<Ins>, i: nat): (gap: seq<int>)
    requires i < |flow|
    ensures forall k :: 0 <= k < |gap| ==> gap[k] == -1
  {
    if i > 0 && flow[i].clnum > flow[i - 1].clnum then seq(flow[i].clnum - flow[i - 1].clnum - 1, k => -1) else []
  }

  function MapOf(flow: seq<Ins>, n: nat): seq<int>
    requires n <= |flow|
  {
    if n == 0 then [0] else MapOf(flow, n - 1) + Gap(flow, n - 1) + [DepthsOf([], flow)[n - 1]]
  }

  predicate EntryAt(flow: seq<Ins>, n: nat, ret: seq<int>, c: nat)
    requires 0 < n <= |flow|
  {
    0 <= 1 + c - flow[0].clnum < |ret| && ret[1 + c - flow[0].clnum] == EntryFor(flow, n, c)
  }

  /** One leading zero, then an entry per changelist from the first to the last of the flow. */
  ghost predicate IsMap(flow: seq<Ins>, n: nat, ret: seq<int>)
    requires 0 < n <= |flow|
  {
    && flow[0].clnum <= flow[n - 1].clnum && |ret| == 2 + flow[n - 1].clnum - flow[0].clnum && ret[0] == 0
    && forall c :: flow[0].clnum <= c <= flow[n - 1].clnum ==> EntryAt(flow, n, ret, c)
  }

  lemma {:induction false} MapIsByChangelist(flow: seq<Ins>, n: nat)
    requires Increasing(flow) && 0 < n <= |flow|
    ensures IsMap(flow, n, MapOf(flow, n))
  {
    if n == 1 {
      assert MapOf(flow, 0) == [0];
    } else {
      MapIsByChangelist(flow, n - 1);
      var first, last, now := flow[0].clnum, flow[n - 2].clnum, flow[n - 1].clnum;
      var ret, ret' := MapOf(flow, n - 1), MapOf(flow, n);
      forall c | first <= c <= now ensures EntryAt(flow, n, ret', c) {
        if c <= last {
          assert EntryAt(flow, n - 1, ret, c);
        } else if c < now {
          NoEntry(flow, n, c);
          assert ret'[1 + c - first] == Gap(flow, n - 1)[c - last - 1];
        }
      }
    }
  }

  lemma {:induction false} DepthAt(flow: seq<Ins>, i: nat)
    requires i < |flow|
    ensures DepthsOf([], flow)[i] == |Popped(StackAfter([], flow[..i]), flow[i].address)|
    ensures StackAfter([], flow[..i + 1]) == Next(StackAfter([], flow[..i]), flow[i])
  {
    SplitAt(flow, i);
    DepthAfter([], flow[..i], flow[i], flow[i + 1..]);
    StackSnoc([], flow[..i], flow[i]);
  }

  lemma SplitAt(flow: seq<Ins>, i: nat)
    requires i < |flow|
    ensures flow[..i] + ([flow[i]] + flow[i + 1..]) == flow && flow[..i + 1] == flow[..i] + [flow[i]]
  {
  }

  lemma DepthAfter(stack: seq<nat>, before: seq<Ins>, ins: Ins, rest: seq<Ins>)
    ensures DepthsOf(stack, before + ([ins] + rest))[|before|] == |Popped(StackAfter(stack, before), ins.address)|
  {
    Concat(stack, before, [ins] + rest);
    First(StackAfter(stack, before), ins, rest);
  }

  lemma StackSnoc(stack: seq<nat>, before: seq<Ins>, ins: Ins)
    ensures StackAfter(stack, before + [ins]) == Next(StackAfter(stack, before), ins)
  {
    Concat(stack, before, [ins]);
    First(StackAfter(stack, before), ins, []);
    assert [ins] == [ins] + [];
  }

  method GetHackedDepthMap(flow: seq<Ins>) returns (ret: seq<int>)
    ensures ret == MapOf(flow, |flow|) + [|StackAfter([], flow)|]
  {
    var stack: seq<nat> := [];
    ret := [0];
    for i := 0 to |flow|
      invariant stack == StackAfter([], flow[..i]) && ret == MapOf(flow, i)
    {
      DepthAt(flow, i);
      ret, stack := Visit(flow, i, ret, stack);
    }
    assert flow[..|flow|] == flow;
    ret := ret + [|stack|];
  }

  /** One turn of the loop. */
  method Visit(flow: seq<Ins>, i: nat, ret: seq<int>, stack: seq<nat>) returns (ret': seq<int>, stack': seq<nat>)
    requires i < |flow|
    ensures ret' == ret + Gap(flow, i) + [|Popped(stack, flow[i].address)|]
    ensures stack' == Next(stack, flow[i])
  {
    var ins := flow[i];
    ret', stack' := ret, stack;
    if i > 0 && ins.clnum != flow[i - 1].clnum + 1 {
      var k := 0;
      while k < ins.clnum - flow[i - 1].clnum - 1
        invariant 0 <= k <= |Gap(flow, i)| && ret' == ret + Gap(flow, i)[..k]
      {
        ret', k := ret' + [-1], k + 1;
      }
    }
    if ins.address in stack' {
      stack' := stack'[..RIndex(stack', ins.address)];
    }
    ret' := ret' + [|stack'|];
    if ins.isCall {
      stack' := stack' + [After(ins)];
    }
  }

  /** The analysis thread drops the leading entry when the map is two longer than the changelist range. */
  function Aligned(dmap: seq<int>, minclnum: nat, maxclnum: nat): seq<int> {
    if dmap != [] && |dmap| - (maxclnum - minclnum) == 2 then dmap[1..] else dmap
  }

  lemma ShiftAt(dmap: seq<int>, first: nat, minclnum: nat, maxclnum: nat, c: nat)
    requires |dmap| == maxclnum - first + 2 && (first == minclnum || first == minclnum + 1) && first <= c < maxclnum
    ensures 0 <= c - minclnum < |Aligned(dmap, minclnum, maxclnum)|
    ensures Aligned(dmap, minclnum, maxclnum)[c - minclnum] == dmap[1 + c - first]
  {
  }

  /** If the flow ends at max-1 and starts at min or min+1, position c - min is changelist c's entry. */
  lemma AlignedIsByChangelist(flow: seq<Ins>, minclnum: nat, maxclnum: nat, c: nat)
    requires flow != [] && Increasing(flow)
    requires flow[|flow| - 1].clnum == maxclnum - 1 && (flow[0].clnum == minclnum || flow[0].clnum == minclnum + 1)
    requires flow[0].clnum <= c < maxclnum
    ensures var dmap := Aligned(MapOf(flow, |flow|) + [|StackAfter([], flow)|], minclnum, maxclnum);
            0 <= c - minclnum < |dmap| && dmap[c - minclnum] == EntryFor(flow, |flow|, c)
  {
    var body := MapOf(flow, |flow|);
    MapIsByChangelist(flow, |flow|);
    assert EntryAt(flow, |flow|, body, c);
    ShiftAt(body + [|StackAfter([], flow)|], flow[0].clnum, minclnum, maxclnum, c);
  }
}
