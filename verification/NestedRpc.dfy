/**
 Two endpoints that call each other over one connection, each able to serve a
 call while it waits for the answer to one of its own.

 An endpoint's stack holds the calls it waits for and the calls it is serving.
 Messages carry no identity on the wire; the number in the model only names the
 call a message belongs to, so that it can be said that answers go to the right one.
 */
module NestedRpc {
  datatype Frame = Waiting(id: nat) | Serving(id: nat)

  datatype Msg = Call(id: nat) | Answer(id: nat, ok: bool)

  /** What an endpoint is in the middle of, innermost last, and what has been sent to it. */
  datatype End = End(stack: seq<Frame>, inbox: seq<Msg>)

  datatype Side = Client | Server

  datatype Sys = Sys(client: End, server: End, next: nat)

  function Get(s: Sys, side: Side): End {
    if side.Client? then s.client else s.server
  }

  function Other(side: Side): Side {
    if side.Client? then Server else Client
  }

  function Put(s: Sys, side: Side, me: End, other: End): Sys {
    if side.Client? then s.(client := me, server := other) else s.(client := other, server := me)
  }

  /** Receiving: in the loop of a request, or in the server's own loop. */
  predicate Blocked(s: Sys, side: Side) {
    var stack := Get(s, side).stack;
    if stack == [] then side.Server? else stack[|stack| - 1].Waiting?
  }

  /** The step taken: issue a call, finish serving one, or take the next message. */
  datatype Action = Issue | Finish(ok: bool) | Receive

  predicate Enabled(s: Sys, side: Side, a: Action) {
    match a
    case Issue => !Blocked(s, side)
    case Finish(_) => !Blocked(s, side) && Get(s, side).stack != []
    case Receive => Blocked(s, side) && Get(s, side).inbox != []
  }

  function Step(s: Sys, side: Side, a: Action): Sys
    requires Enabled(s, side, a)
  {
    var me, other := Get(s, side), Get(s, Other(side));
    match a
    case Issue =>
      Put(s.(next := s.next + 1), side,
          me.(stack := me.stack + [Waiting(s.next)]), other.(inbox := other.inbox + [Call(s.next)]))
    case Finish(ok) =>
      var n := |me.stack| - 1;
      Put(s, side, me.(stack := me.stack[..n]), other.(inbox := other.inbox + [Answer(me.stack[n].id, ok)]))
    case Receive =>
      var m, rest := me.inbox[0], me.inbox[1..];
      if m.Call? then Put(s, side, End(me.stack + [Serving(m.id)], rest), other)
      else if me.stack != [] then Put(s, side, End(me.stack[..|me.stack| - 1], rest), other)
      // the server's own loop takes an answer for a call it cannot dispatch, and answers with an exception
      else Put(s, side, me.(inbox := rest), other.(inbox := other.inbox + [Answer(m.id, false)]))
  }

  ghost predicate Init(s: Sys) {
    s.client == End([], []) && s.server == End([], [])
  }

  // ---------- the invariant ----------

  /** Waiting and serving alternate; the client's outermost frame waits, the server's serves. */
  ghost predicate Alternates(stack: seq<Frame>, side: Side) {
    && (stack != [] ==> (stack[0].Waiting? <==> side.Client?))
    && forall m {:trigger stack[m]} :: 0 < m < |stack| ==> (stack[m].Waiting? <==> stack[m - 1].Serving?)
  }

  /** Level by level, one side waits for what the other serves. */
  ghost predicate Matched(a: seq<Frame>, b: seq<Frame>) {
    forall m :: 0 <= m < |a| && m < |b| ==> a[m].id == b[m].id && (a[m].Waiting? <==> b[m].Serving?)
  }

  ghost predicate Levels(s: Sys) {
    Alternates(s.client.stack, Client) && Alternates(s.server.stack, Server) && Matched(s.client.stack, s.server.stack)
  }

  /** `caller` is one level ahead: its innermost call is on the wire, or its answer is. */
  ghost predicate OnTheWire(s: Sys, caller: Side) {
    var me, other := Get(s, caller), Get(s, Other(caller));
    && |me.stack| == |other.stack| + 1 && Blocked(s, caller) && Blocked(s, Other(caller))
    && var id := me.stack[|me.stack| - 1].id;
       || (other.inbox == [Call(id)] && me.inbox == [])
       || (other.inbox == [] && |me.inbox| == 1 && me.inbox[0].Answer? && me.inbox[0].id == id)
  }

  /** No message is under way; exactly one side runs. */
  ghost predicate AtRest(s: Sys) {
    && |s.client.stack| == |s.server.stack| && s.client.inbox == [] && s.server.inbox == []
    && (Blocked(s, Client) <==> !Blocked(s, Server))
  }

  ghost predicate Inv(s: Sys) {
    Levels(s) && (AtRest(s) || OnTheWire(s, Client) || OnTheWire(s, Server))
  }

  lemma InitInv(s: Sys)
    requires Init(s)
    ensures Inv(s)
  {
  }

  lemma IssueKeepsInv(s: Sys, side: Side)
    requires Inv(s) && Enabled(s, side, Issue)
    ensures Levels(Step(s, side, Issue)) && OnTheWire(Step(s, side, Issue), side)
  {
    PushKeepsLevels(s, side);
  }

  /** Only at rest is a side free to call, and then both are equally deep. */
  lemma PushKeepsLevels(s: Sys, side: Side)
    requires Inv(s) && Enabled(s, side, Issue)
    ensures Levels(Step(s, side, Issue))
  {
    assert AtRest(s);
  }

  lemma FinishKeepsInv(s: Sys, side: Side, ok: bool)
    requires Inv(s) && Enabled(s, side, Finish(ok))
    ensures Levels(Step(s, side, Finish(ok))) && OnTheWire(Step(s, side, Finish(ok)), Other(side))
  {
  }

  lemma CallIsServed(s: Sys, side: Side)
    requires Levels(s) && OnTheWire(s, Other(side)) && Get(s, side).inbox != []
    ensures Enabled(s, side, Receive)
    ensures Levels(Step(s, side, Receive)) && AtRest(Step(s, side, Receive))
  {
  }

  lemma AnswerIsTaken(s: Sys, side: Side)
    requires Levels(s) && OnTheWire(s, side) && Get(s, side).inbox != []
    ensures Enabled(s, side, Receive)
    ensures Levels(Step(s, side, Receive)) && AtRest(Step(s, side, Receive))
  {
  }

  lemma ReceiveKeepsInv(s: Sys, side: Side)
    requires Inv(s) && Enabled(s, side, Receive)
    ensures Levels(Step(s, side, Receive)) && AtRest(Step(s, side, Receive))
  {
    if OnTheWire(s, side) {
      AnswerIsTaken(s, side);
    } else {
      CallIsServed(s, side);
    }
  }

  lemma StepKeepsInv(s: Sys, side: Side, a: Action)
    requires Inv(s) && Enabled(s, side, a)
    ensures Inv(Step(s, side, a))
  {
    match a
    case Issue => IssueKeepsInv(s, side);
    case Finish(ok) => FinishKeepsInv(s, side, ok);
    case Receive => ReceiveKeepsInv(s, side);
  }

  // ---------- over whole runs ----------

  ghost predicate Moves(s: Sys, s': Sys) {
    exists side, a :: Enabled(s, side, a) && s' == Step(s, side, a)
  }

  ghost predicate IsRun(run: seq<Sys>) {
    run != [] && Init(run[0]) && forall i :: 0 < i < |run| ==> Moves(run[i - 1], run[i])
  }

  lemma {:induction false} RunKeepsInv(run: seq<Sys>, i: nat)
    requires IsRun(run) && i < |run|
    ensures Inv(run[i])
  {
    if i == 0 {
      InitInv(run[0]);
    } else {
      RunKeepsInv(run, i - 1);
      var side, a :| Enabled(run[i - 1], side, a) && run[i] == Step(run[i - 1], side, a);
      StepKeepsInv(run[i - 1], side, a);
    }
  }

  /** At most one message is under way, and at most one side is not waiting to receive. */
  lemma OneThread(run: seq<Sys>, i: nat)
    requires IsRun(run) && i < |run|
    ensures |run[i].client.inbox| + |run[i].server.inbox| <= 1
    ensures Blocked(run[i], Client) || Blocked(run[i], Server)
  {
    RunKeepsInv(run, i);
  }

  /** An answer is taken by the innermost call its receiver waits for, and that is the call it answers. */
  lemma AnswersFindTheirCall(run: seq<Sys>, i: nat, side: Side)
    requires IsRun(run) && i < |run| && Enabled(run[i], side, Receive) && Get(run[i], side).inbox[0].Answer?
    ensures var me := Get(run[i], side);
            me.stack != [] && me.stack[|me.stack| - 1] == Waiting(me.inbox[0].id)
  {
    RunKeepsInv(run, i);
  }

  /** A step is always possible, and never on both sides at once. */
  lemma NeverStuck(run: seq<Sys>, i: nat)
    requires IsRun(run) && i < |run|
    ensures exists side, a :: Enabled(run[i], side, a)
    ensures forall a, b :: !(Enabled(run[i], Client, a) && Enabled(run[i], Server, b))
  {
    RunKeepsInv(run, i);
    var s := run[i];
    if !Blocked(s, Client) {
      assert Enabled(s, Client, Issue);
    } else if !Blocked(s, Server) {
      assert Enabled(s, Server, Issue);
    } else if s.client.inbox != [] {
      assert Enabled(s, Client, Receive);
    } else {
      assert Enabled(s, Server, Receive);
    }
  }

  // ---------- calls and answers alternate ----------

  /** All that can happen next is that `side` takes message `m`. */
  ghost predicate OnlyTakes(s: Sys, side: Side, m: Msg) {
    && Get(s, side).inbox == [m] && Enabled(s, side, Receive)
    && forall other, a :: Enabled(s, other, a) ==> other == side && a == Receive
  }

  /** A call that has been issued is taken up next, by the other side, which then serves it. */
  lemma CallIsTakenUp(s: Sys, side: Side)
    requires Inv(s) && Enabled(s, side, Issue)
    ensures var s' := Step(s, side, Issue);
            && OnlyTakes(s', Other(side), Call(s.next))
            && Get(Step(s', Other(side), Receive), Other(side)).stack == Get(s, Other(side)).stack + [Serving(s.next)]
  {
    IssueKeepsInv(s, side);
  }

  /** An answer is taken next, by the request it answers, with the flag the callee gave it: a result or an exception. */
  lemma AnswerIsDelivered(s: Sys, side: Side, ok: bool)
    requires Inv(s) && Enabled(s, side, Finish(ok))
    ensures var s', served := Step(s, side, Finish(ok)), Get(s, side).stack[|Get(s, side).stack| - 1];
            var caller := Get(s, Other(side)).stack;
            && served.Serving? && OnlyTakes(s', Other(side), Answer(served.id, ok))
            && caller != [] && caller[|caller| - 1] == Waiting(served.id)
            && Get(Step(s', Other(side), Receive), Other(side)).stack == caller[..|caller| - 1]
  {
    FinishKeepsInv(s, side, ok);
  }

  // ---------- together the two stacks are one ----------

  /** The open calls, outermost first: the stack of the side that is ahead. */
  function CallStack(s: Sys): seq<nat> {
    var ahead := if |s.client.stack| >= |s.server.stack| then s.client.stack else s.server.stack;
    seq(|ahead|, m requires 0 <= m < |ahead| => ahead[m].id)
  }

  /** Issuing pushes a call, taking an answer pops it, and every other step leaves the call stack as it is. */
  lemma OneCallStack(s: Sys, side: Side, a: Action)
    requires Inv(s) && Enabled(s, side, a)
    ensures var before, after := CallStack(s), CallStack(Step(s, side, a));
            match a
            case Issue => after == before + [s.next]
            case Finish(_) => after == before
            case Receive =>
              var m := Get(s, side).inbox[0];
              if m.Call? then after == before else before != [] && before[|before| - 1] == m.id && after == before[..|before| - 1]
  {
    match a
    case Issue => IssuePushes(s, side);
    case Finish(ok) => FinishKeepsCalls(s, side, ok);
    case Receive =>
      if Get(s, side).inbox[0].Call? {
        ServingKeepsCalls(s, side);
      } else {
        AnswerPops(s, side);
      }
  }

  /** The open calls are those of whichever side is ahead; level by level the two agree. */
  lemma CallsOf(s: Sys, side: Side)
    requires Levels(s) && |Get(s, side).stack| >= |Get(s, Other(side)).stack|
    ensures var stack := Get(s, side).stack; CallStack(s) == seq(|stack|, m requires 0 <= m < |stack| => stack[m].id)
  {
  }

  lemma IssuePushes(s: Sys, side: Side)
    requires Inv(s) && Enabled(s, side, Issue)
    ensures CallStack(Step(s, side, Issue)) == CallStack(s) + [s.next]
  {
    IssueKeepsInv(s, side);
    CallsOf(s, side);
    CallsOf(Step(s, side, Issue), side);
  }

  lemma FinishKeepsCalls(s: Sys, side: Side, ok: bool)
    requires Inv(s) && Enabled(s, side, Finish(ok))
    ensures CallStack(Step(s, side, Finish(ok))) == CallStack(s)
  {
    FinishKeepsInv(s, side, ok);
    CallsOf(s, Other(side));
    CallsOf(Step(s, side, Finish(ok)), Other(side));
  }

  lemma ServingKeepsCalls(s: Sys, side: Side)
    requires Inv(s) && Enabled(s, side, Receive) && Get(s, side).inbox[0].Call?
    ensures CallStack(Step(s, side, Receive)) == CallStack(s)
  {
    ReceiveKeepsInv(s, side);
    CallsOf(s, Other(side));
    CallsOf(Step(s, side, Receive), Other(side));
  }

  lemma AnswerPops(s: Sys, side: Side)
    requires Inv(s) && Enabled(s, side, Receive) && Get(s, side).inbox[0].Answer?
    ensures var before := CallStack(s);
            before != [] && before[|before| - 1] == Get(s, side).inbox[0].id
            && CallStack(Step(s, side, Receive)) == before[..|before| - 1]
  {
    ReceiveKeepsInv(s, side);
    CallsOf(s, side);
    CallsOf(Step(s, side, Receive), side);
  }

  /** Calls are numbered in the order they nest, so no two open ones share a number. */
  ghost predicate Numbered(s: Sys) {
    var calls := CallStack(s);
    (forall m :: 0 <= m < |calls| ==> calls[m] < s.next) && forall m, n :: 0 <= m < n < |calls| ==> calls[m] < calls[n]
  }

  lemma {:induction false} OpenCallsAreDistinct(run: seq<Sys>, i: nat)
    requires IsRun(run) && i < |run|
    ensures Numbered(run[i])
  {
    if i > 0 {
      OpenCallsAreDistinct(run, i - 1);
      RunKeepsInv(run, i - 1);
      var side, a :| Enabled(run[i - 1], side, a) && run[i] == Step(run[i - 1], side, a);
      OneCallStack(run[i - 1], side, a);
      StepKeepsNumbers(run[i - 1], side, a);
    }
  }

  lemma StepKeepsNumbers(s: Sys, side: Side, a: Action)
    requires Inv(s) && Enabled(s, side, a) && Numbered(s)
    ensures Numbered(Step(s, side, a))
  {
    OneCallStack(s, side, a);
    assert Step(s, side, a).next == if a.Issue? then s.next + 1 else s.next;
  }
}
