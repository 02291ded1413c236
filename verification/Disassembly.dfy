/**
 The recursive-descent driver: from an entry address it finds the code of a
 function, cuts it into blocks and goes on with the functions it calls.
 The decoder is an arbitrary finite map from addresses to instructions.
 */
module Disassembly {
  import opened Prelude

  datatype Kind = Plain | Jump | CondJump | Call | Ret | Halt

  /** `target` is the immediate operand of a jump or call, if it has one. */
  datatype Insn = Insn(size: nat, kind: Kind, target: Option<nat>)

  type Decoded = i: Insn | i.size > 0 witness Insn(1, Plain, None)

  /** What can be decoded; everything else has size 0 and leads nowhere. */
  type Image = map<nat, Decoded>

  datatype Dest = Dest(addr: nat, isCall: bool)

  // ---------- the decoder interface ----------

  predicate IsJump(i: Insn) { i.kind.Jump? || i.kind.CondJump? }

  predicate IsEnding(i: Insn) { IsJump(i) || i.kind.Ret? || i.kind.Halt? }

  predicate CodeFollows(i: Insn) { !i.kind.Ret? && !i.kind.Jump? }

  /** The implicit successor first, then the target of a jump or call. */
  function Dests(img: Image, a: nat): seq<Dest> {
    if a !in img || img[a].kind.Ret? then []
    else
      var i := img[a];
      (if CodeFollows(i) then [Dest(a + i.size, false)] else [])
      + (if (IsJump(i) || i.kind.Call?) && i.target.Some? then [Dest(i.target.value, i.kind.Call?)] else [])
  }

  predicate Flows(img: Image, u: nat, c: nat) {
    Dest(c, false) in Dests(img, u)
  }

  predicate Calls(img: Image, u: nat, c: nat) {
    Dest(c, true) in Dests(img, u)
  }

  /** Where control flows from an instruction of each kind: on, to the target, both, or nowhere. */
  lemma FlowsAre(img: Image, u: nat, c: nat)
    ensures u !in img ==> !Flows(img, u, c) && !Calls(img, u, c)
    ensures u in img ==>
              var i := img[u];
              && (Flows(img, u, c) <==>
                  match i.kind
                  case Plain => c == u + i.size
                  case Call => c == u + i.size
                  case Halt => c == u + i.size
                  case CondJump => c == u + i.size || i.target == Some(c)
                  case Jump => i.target == Some(c)
                  case Ret => false)
              && (Calls(img, u, c) <==> i.kind == Call && i.target == Some(c))
  {
  }

  /** Everything any instruction leads to. */
  function AllDests(img: Image): set<nat> {
    set a, d | a in img && d in Dests(img, a) :: d.addr
  }

  ghost predicate FlowClosed(img: Image, s: set<nat>) {
    forall u, c :: u in s && Flows(img, u, c) ==> c in s
  }

  /** Every flow-closed set that contains the entry contains all of `s`. */
  ghost predicate WithinEveryClosed(img: Image, entry: nat, s: set<nat>) {
    forall t :: entry in t && FlowClosed(img, t) ==> s <= t
  }

  /** The least set that contains the entry and is closed under non-call destinations. */
  ghost predicate IsLeastClosed(img: Image, entry: nat, s: set<nat>) {
    entry in s && FlowClosed(img, s) && WithinEveryClosed(img, entry, s)
  }

  // ---------- the descent pass ----------

  function FlowTargets(img: Image, u: nat): set<nat> {
    set d | d in Dests(img, u) && !d.isCall :: d.addr
  }

  lemma FlowTargetsAre(img: Image, u: nat, c: nat)
    ensures c in FlowTargets(img, u) <==> Flows(img, u, c)
    ensures Flows(img, u, c) ==> c in AllDests(img)
  {
  }

  /** What the worklist loop keeps: everything found is wanted, and what has been visited has its targets queued. */
  ghost predicate DescentInv(img: Image, entry: nat, visited: set<nat>, pending: seq<nat>, done: set<nat>) {
    && done <= AllDests(img)
    && (forall v :: v in done || v == entry <==> v in visited || v in pending)
    && (forall u, c :: u in visited && Flows(img, u, c) ==> c in done)
    && WithinEveryClosed(img, entry, done)
  }

  lemma AddTargets(img: Image, entry: nat, u: nat, done: set<nat>)
    requires WithinEveryClosed(img, entry, done) && (u in done || u == entry)
    ensures WithinEveryClosed(img, entry, done + FlowTargets(img, u))
  {
    forall t | entry in t && FlowClosed(img, t) ensures done + FlowTargets(img, u) <= t {
      assert u in t;
      forall c | c in FlowTargets(img, u) ensures c in t {
        FlowTargetsAre(img, u, c);
      }
    }
  }

  /** Queue the destinations that are not calls and have not been queued before. */
  method Enqueue(img: Image, u: nat, pending: seq<nat>, done: set<nat>) returns (pending': seq<nat>, done': set<nat>)
    ensures done' == done + FlowTargets(img, u)
    ensures forall v :: v in pending' <==> v in pending || (v in done' && v !in done)
    ensures done' == done ==> pending' == pending
  {
    pending', done' := pending, done;
    var ds := Dests(img, u);
    for k := 0 to |ds|
      invariant done' == done + set d | d in ds[..k] && !d.isCall :: d.addr
      invariant forall v :: v in pending' <==> v in pending || (v in done' && v !in done)
      invariant done' == done ==> pending' == pending
    {
      assert ds[..k + 1] == ds[..k] + [ds[k]];
      if !ds[k].isCall && ds[k].addr !in done' {
        pending', done' := pending' + [ds[k].addr], done' + {ds[k].addr};
      }
    }
    assert ds[..|ds|] == ds;
  }

  lemma EnqueueKeepsInv(img: Image, entry: nat, visited: set<nat>, u: nat, pending: seq<nat>, done: set<nat>,
                        pending': seq<nat>, done': set<nat>)
    requires DescentInv(img, entry, visited, [u] + pending, done) && done' == done + FlowTargets(img, u)
    requires forall v :: v in pending' <==> v in pending || (v in done' && v !in done)
    ensures DescentInv(img, entry, visited + {u}, pending', done')
  {
    assert u in [u] + pending;
    forall c | c in FlowTargets(img, u) ensures c in AllDests(img) {
      FlowTargetsAre(img, u, c);
    }
    AddTargets(img, entry, u, done);
    forall c | Flows(img, u, c) ensures c in done' {
      FlowTargetsAre(img, u, c);
    }
    assert forall v :: v in [u] + pending <==> v == u || v in pending;
  }

  function Left(img: Image, done: set<nat>): nat {
    |AllDests(img) - done|
  }

  /** Take one address off the queue. */
  method Visit(img: Image, ghost entry: nat, ghost visited: set<nat>, pending: seq<nat>, done: set<nat>)
    returns (u: nat, pending': seq<nat>, done': set<nat>)
    requires pending != [] && DescentInv(img, entry, visited, pending, done)
    ensures DescentInv(img, entry, visited + {u}, pending', done')
    ensures Left(img, done') < Left(img, done) || (done' == done && |pending'| < |pending|)
  {
    u := pending[0];
    assert pending == [u] + pending[1..];
    pending', done' := Enqueue(img, u, pending[1..], done);
    EnqueueKeepsInv(img, entry, visited, u, pending[1..], done, pending', done');
    if done' != done {
      assert AllDests(img) - done' != AllDests(img) - done;
      Smaller(AllDests(img) - done', AllDests(img) - done);
    }
  }

  /** The queue of addresses to disassemble; a target is queued once, the entry possibly twice. */
  method Descend(img: Image, entry: nat) returns (visited: set<nat>)
    ensures IsLeastClosed(img, entry, visited)
  {
    visited := {};
    var pending: seq<nat>, done: set<nat> := [entry], {};
    while pending != []
      invariant DescentInv(img, entry, visited, pending, done)
      decreases Left(img, done), |pending|
    {
      var u;
      u, pending, done := Visit(img, entry, visited, pending, done);
      visited := visited + {u};
    }
    DescentEnds(img, entry, visited, done);
  }

  lemma DescentEnds(img: Image, entry: nat, visited: set<nat>, done: set<nat>)
    requires DescentInv(img, entry, visited, [], done)
    ensures IsLeastClosed(img, entry, visited)
  {
    forall t | entry in t && FlowClosed(img, t) ensures visited <= t {
      assert done <= t;
    }
  }

  // ---------- the block pass ----------

  /** Where blocks start: the entry, every target reached otherwise than by falling through, and what follows a jump. */
  predicate StartsBlock(img: Image, u: nat, c: nat) {
    u in img && Flows(img, u, c) && (c != u + img[u].size || IsJump(img[u]))
  }

  /** That is: whatever a jump, conditional or not, flows to. */
  lemma StartsBlockIff(img: Image, u: nat, c: nat)
    ensures StartsBlock(img, u, c) <==>
            u in img && ((img[u].kind.Jump? && img[u].target == Some(c))
                         || (img[u].kind.CondJump? && (c == u + img[u].size || img[u].target == Some(c))))
  {
    FlowsAre(img, u, c);
  }

  ghost predicate ReachedByBlockStart(img: Image, visited: set<nat>, c: nat) {
    exists u :: u in visited && StartsBlock(img, u, c)
  }

  ghost predicate AreBlockStarts(img: Image, entry: nat, visited: set<nat>, starts: set<nat>) {
    entry in starts
    && forall c {:trigger ReachedByBlockStart(img, visited, c)} :: c in starts <==> c == entry || ReachedByBlockStart(img, visited, c)
  }

  /** From block address `a` on to the next. */
  predicate WalksOn(img: Image, starts: set<nat>, a: nat) {
    a in img && !IsEnding(img[a]) && a + img[a].size !in starts
  }

  function Ahead(img: Image, a: nat): set<nat> {
    set k | k in img && k >= a
  }

  lemma AheadShrinks(img: Image, a: nat)
    requires a in img
    ensures |Ahead(img, a + img[a].size)| < |Ahead(img, a)|
  {
    assert a in Ahead(img, a) && a !in Ahead(img, a + img[a].size);
    Smaller(Ahead(img, a + img[a].size), Ahead(img, a));
  }

  /** The addresses of the block that starts at `a`. */
  function Walk(img: Image, starts: set<nat>, a: nat): set<nat>
    decreases |Ahead(img, a)|
  {
    {a} + if WalksOn(img, starts, a) then AheadShrinks(img, a); Walk(img, starts, a + img[a].size) else {}
  }

  method WalkBlock(img: Image, starts: set<nat>, b: nat) returns (addresses: set<nat>)
    ensures addresses == Walk(img, starts, b)
  {
    addresses := {b};
    var a: nat := b;
    while a in img && !IsEnding(img[a])
      invariant addresses + Walk(img, starts, a) == Walk(img, starts, b) && a in addresses
      decreases |Ahead(img, a)|
    {
      if a + img[a].size in starts {
        break;
      }
      AheadShrinks(img, a);
      a := a + img[a].size;
      addresses := addresses + {a};
    }
  }

  /** Walking on from any address of a block stays in the block. */
  lemma {:induction false} WalkContinues(img: Image, starts: set<nat>, b: nat, a: nat)
    requires a in Walk(img, starts, b) && WalksOn(img, starts, a)
    ensures a + img[a].size in Walk(img, starts, b)
    decreases |Ahead(img, b)|
  {
    if WalksOn(img, starts, b) {
      AheadShrinks(img, b);
      if a != b {
        WalkContinues(img, starts, b + img[b].size, a);
      }
    }
  }

  /**
   A block goes on through plain instructions and calls: each address but the first is what follows
   one of these in the block, and is no block start itself.
   */
  lemma {:induction false} WalkEntersBy(img: Image, starts: set<nat>, b: nat, v: nat) returns (p: nat)
    requires v in Walk(img, starts, b) && v != b
    ensures p in Walk(img, starts, b) && p in img && (img[p].kind.Plain? || img[p].kind.Call?)
    ensures v == p + img[p].size && v !in starts
    decreases |Ahead(img, b)|
  {
    var next := b + img[b].size;
    AheadShrinks(img, b);
    if v == next {
      p := b;
    } else {
      p := WalkEntersBy(img, starts, next, v);
    }
  }

  /** And it stops only before a block start, after an ending instruction or where nothing can be decoded. */
  lemma WalkStopsAt(img: Image, starts: set<nat>, b: nat, a: nat)
    requires a in Walk(img, starts, b) && a in img && (img[a].kind.Plain? || img[a].kind.Call?)
    ensures a + img[a].size in Walk(img, starts, b) || a + img[a].size in starts
  {
    if a + img[a].size !in starts {
      WalkContinues(img, starts, b, a);
    }
  }

  /** `v` lies in one of the function's blocks. */
  ghost predicate Covered(img: Image, starts: set<nat>, v: nat) {
    exists b :: b in starts && v in Walk(img, starts, b)
  }

  lemma StartIsCovered(img: Image, starts: set<nat>, b: nat)
    requires b in starts
    ensures Covered(img, starts, b)
  {
    assert b in Walk(img, starts, b);
  }

  lemma ContinuesUnlessStart(img: Image, u: nat, c: nat)
    requires u in img && Flows(img, u, c) && !StartsBlock(img, u, c) && !img[u].kind.Halt?
    ensures c == u + img[u].size && !IsEnding(img[u])
  {
  }

  lemma HaltFlows(img: Image, h: nat, c: nat)
    requires h in img && img[h].kind.Halt?
    ensures Flows(img, h, c) <==> c == h + img[h].size
  {
  }

  /** A visited instruction that is no halt flows to `c`. */
  ghost predicate ReachedByOther(img: Image, visited: set<nat>, c: nat) {
    exists u :: u in visited && u in img && !img[u].kind.Halt? && Flows(img, u, c)
  }

  /** If `h` is a halt, what follows it is the entry, or some other instruction leads there too. */
  ghost predicate ByTheWay(img: Image, entry: nat, visited: set<nat>, h: nat) {
    h in img && img[h].kind.Halt? ==> h + img[h].size == entry || ReachedByOther(img, visited, h + img[h].size)
  }

  ghost predicate HaltsAreByTheWay(img: Image, entry: nat, visited: set<nat>) {
    forall h {:trigger ByTheWay(img, entry, visited, h)} :: h in visited ==> ByTheWay(img, entry, visited, h)
  }

  ghost predicate AllCovered(img: Image, visited: set<nat>, starts: set<nat>) {
    forall v :: v in visited ==> Covered(img, starts, v)
  }

  /** The least closed set holds nothing but the entry and what its members flow to. */
  lemma VisitedIsReached(img: Image, entry: nat, visited: set<nat>, v: nat)
    requires IsLeastClosed(img, entry, visited) && v in visited && v != entry
    ensures exists u :: u in visited && u in img && Flows(img, u, v)
  {
    var without := visited - {v};
    assert v !in without && !(visited <= without);
    assert !FlowClosed(img, without);
    var u, c :| u in without && Flows(img, u, c) && c !in without;
    assert c == v;
  }

  lemma ReachedUnlessHalt(img: Image, entry: nat, visited: set<nat>, v: nat)
    requires IsLeastClosed(img, entry, visited) && HaltsAreByTheWay(img, entry, visited) && v in visited && v != entry
    ensures ReachedByOther(img, visited, v)
  {
    VisitedIsReached(img, entry, visited, v);
    var u :| u in visited && u in img && Flows(img, u, v);
    if img[u].kind.Halt? {
      HaltFlows(img, u, v);
      assert ByTheWay(img, entry, visited, u);
    }
  }

  ghost predicate AllReached(img: Image, entry: nat, visited: set<nat>) {
    forall v {:trigger ReachedByOther(img, visited, v)} :: v in visited && v != entry ==> ReachedByOther(img, visited, v)
  }

  /** What is no block start is entered from below, by the instruction before it. */
  lemma EnteredFromBelow(img: Image, entry: nat, visited: set<nat>, starts: set<nat>, v: nat) returns (u: nat)
    requires AllReached(img, entry, visited) && AreBlockStarts(img, entry, visited, starts) && v in visited && v !in starts
    ensures u in visited && u in img && v == u + img[u].size && WalksOn(img, starts, u)
  {
    assert ReachedByOther(img, visited, v);
    u :| u in visited && u in img && !img[u].kind.Halt? && Flows(img, u, v);
    NotStartedBy(img, entry, visited, starts, u, v);
    ContinuesUnlessStart(img, u, v);
  }

  lemma {:induction false} ReachedIsCovered(img: Image, entry: nat, visited: set<nat>, starts: set<nat>, v: nat)
    requires AllReached(img, entry, visited) && AreBlockStarts(img, entry, visited, starts) && v in visited
    ensures Covered(img, starts, v)
    decreases v
  {
    if v in starts {
      StartIsCovered(img, starts, v);
    } else {
      var u := EnteredFromBelow(img, entry, visited, starts, v);
      ReachedIsCovered(img, entry, visited, starts, u);
      StaysCovered(img, starts, u);
    }
  }

  lemma StaysCovered(img: Image, starts: set<nat>, u: nat)
    requires Covered(img, starts, u) && WalksOn(img, starts, u)
    ensures Covered(img, starts, u + img[u].size)
  {
    var b :| b in starts && u in Walk(img, starts, b);
    WalkContinues(img, starts, b, u);
  }

  lemma NotStartedBy(img: Image, entry: nat, visited: set<nat>, starts: set<nat>, u: nat, v: nat)
    requires AreBlockStarts(img, entry, visited, starts) && u in visited && v !in starts
    ensures !StartsBlock(img, u, v)
  {
    assert StartsBlock(img, u, v) ==> ReachedByBlockStart(img, visited, v);
  }

  /** Inside a block, each address but the first is entered from the one before, which is no halt. */
  lemma {:induction false} WalkIsReached(img: Image, visited: set<nat>, starts: set<nat>, b: nat, v: nat)
    requires FlowClosed(img, visited) && b in visited && v in Walk(img, starts, b) && v != b
    ensures ReachedByOther(img, visited, v)
    decreases |Ahead(img, b)|
  {
    var next := b + img[b].size;
    AheadShrinks(img, b);
    assert Flows(img, b, next);
    if v != next {
      WalkIsReached(img, visited, starts, next, v);
    }
  }

  lemma StartIsReached(img: Image, entry: nat, visited: set<nat>, starts: set<nat>, c: nat)
    requires FlowClosed(img, visited) && entry in visited && AreBlockStarts(img, entry, visited, starts) && c in starts
    ensures c in visited && (c == entry || ReachedByOther(img, visited, c))
  {
    if c != entry {
      assert ReachedByBlockStart(img, visited, c);
      var u :| u in visited && StartsBlock(img, u, c);
      if img[u].kind.Halt? {
        HaltFlows(img, u, c);
      }
    }
  }

  lemma CoveredIsReached(img: Image, entry: nat, visited: set<nat>, starts: set<nat>, v: nat)
    requires FlowClosed(img, visited) && entry in visited && AreBlockStarts(img, entry, visited, starts) && Covered(img, starts, v)
    ensures v == entry || ReachedByOther(img, visited, v)
  {
    var b :| b in starts && v in Walk(img, starts, b);
    StartIsReached(img, entry, visited, starts, b);
    if v != b {
      WalkIsReached(img, visited, starts, b, v);
    }
  }

  lemma CoveredHalts(img: Image, entry: nat, visited: set<nat>, starts: set<nat>)
    requires FlowClosed(img, visited) && entry in visited && AreBlockStarts(img, entry, visited, starts)
    requires AllCovered(img, visited, starts)
    ensures HaltsAreByTheWay(img, entry, visited)
  {
    forall h | h in visited ensures ByTheWay(img, entry, visited, h) {
      if h in img && img[h].kind.Halt? {
        HaltFlows(img, h, h + img[h].size);
        CoveredIsReached(img, entry, visited, starts, h + img[h].size);
      }
    }
  }

  lemma HaltsCovered(img: Image, entry: nat, visited: set<nat>, starts: set<nat>)
    requires IsLeastClosed(img, entry, visited) && AreBlockStarts(img, entry, visited, starts)
    requires HaltsAreByTheWay(img, entry, visited)
    ensures AllCovered(img, visited, starts)
  {
    assert AllReached(img, entry, visited) by {
      forall v | v in visited && v != entry ensures ReachedByOther(img, visited, v) {
        ReachedUnlessHalt(img, entry, visited, v);
      }
    }
    forall v | v in visited ensures Covered(img, starts, v) {
      ReachedIsCovered(img, entry, visited, starts, v);
    }
  }

  /**
   The blocks cover all the code of the function if and only if no halt is the only way to what
   follows it.
   */
  lemma BlocksCoverIff(img: Image, entry: nat, visited: set<nat>, starts: set<nat>)
    requires IsLeastClosed(img, entry, visited) && AreBlockStarts(img, entry, visited, starts)
    ensures AllCovered(img, visited, starts) <==> HaltsAreByTheWay(img, entry, visited)
  {
    if HaltsAreByTheWay(img, entry, visited) {
      HaltsCovered(img, entry, visited, starts);
    }
    if AllCovered(img, visited, starts) {
      CoveredHalts(img, entry, visited, starts);
    }
  }

  /** Without a halt, every visited address lies in some block. */
  lemma BlocksCoverCode(img: Image, entry: nat, visited: set<nat>, starts: set<nat>, v: nat)
    requires IsLeastClosed(img, entry, visited) && AreBlockStarts(img, entry, visited, starts) && v in visited
    requires forall h :: h in visited && h in img ==> !img[h].kind.Halt?
    ensures Covered(img, starts, v)
  {
    BlocksCoverIff(img, entry, visited, starts);
  }

  /** A halt at the end of the code: what follows it is visited but belongs to no block. */
  lemma HaltLeavesGap()
    ensures var img: Image := map[0 := Insn(1, Halt, None)];
            IsLeastClosed(img, 0, {0, 1}) && AreBlockStarts(img, 0, {0, 1}, {0}) && !Covered(img, {0}, 1)
  {
    var img: Image := map[0 := Insn(1, Halt, None)];
    HaltFlows(img, 0, 1);
    assert Dests(img, 0) == [Dest(1, false)] && Dests(img, 1) == [];
    assert Walk(img, {0}, 0) == {0};
  }

  // ---------- recursion over called functions ----------

  ghost predicate Closed(img: Image, s: set<nat>) {
    forall u, c :: u in s && (Flows(img, u, c) || Calls(img, u, c)) ==> c in s
  }

  /** The least set that contains `a` and is closed under all destinations. */
  ghost predicate IsLeastProgram(img: Image, a: nat, s: set<nat>) {
    a in s && Closed(img, s) && forall t :: a in t && Closed(img, t) ==> s <= t
  }

  /** Everything new, apart from calls still to be made, leads only to what is tagged. */
  ghost predicate NewClosed(img: Image, before: set<nat>, now: set<nat>, todo: set<nat>) {
    forall u, c :: u in now && u !in before && (Flows(img, u, c) || Calls(img, u, c)) ==> c in now || c in todo
  }

  /** Nothing is tagged that the program from `a` does not lead to. */
  ghost predicate OnlyNeeded(img: Image, a: nat, before: set<nat>, now: set<nat>) {
    forall t :: a in t && Closed(img, t) ==> now <= before + t
  }

  function CallTargets(img: Image, visited: set<nat>): set<nat> {
    set u, d | u in visited && d in Dests(img, u) && d.isCall :: d.addr
  }

  function BlockStarts(img: Image, entry: nat, visited: set<nat>): set<nat> {
    {entry} + set u, d | u in visited && d in Dests(img, u) && !d.isCall && StartsBlock(img, u, d.addr) :: d.addr
  }

  lemma BlockStartsAre(img: Image, entry: nat, visited: set<nat>)
    ensures AreBlockStarts(img, entry, visited, BlockStarts(img, entry, visited))
  {
    var starts := BlockStarts(img, entry, visited);
    forall c ensures c in starts <==> c == entry || ReachedByBlockStart(img, visited, c) {
      if ReachedByBlockStart(img, visited, c) {
        var u :| u in visited && StartsBlock(img, u, c);
        assert Dest(c, false) in Dests(img, u);
      }
    }
  }

  /** A function as built: its code is the descent's, its blocks are the walks from its block starts. */
  ghost predicate FunctionOk(img: Image, f: nat, blocks: map<nat, set<nat>>) {
    && (exists visited :: IsLeastClosed(img, f, visited) && AreBlockStarts(img, f, visited, blocks.Keys))
    && AreWalks(img, blocks.Keys, blocks)
  }

  ghost predicate AreWalks(img: Image, starts: set<nat>, blocks: map<nat, set<nat>>) {
    forall b :: b in blocks ==> blocks[b] == Walk(img, starts, b)
  }

  ghost predicate InSomeBlock(blocks: map<nat, set<nat>>, v: nat) {
    exists b :: b in blocks && v in blocks[b]
  }

  /** A function as built has the block starts of its code, and its blocks hold all of it exactly as `BlocksCoverIff` says. */
  lemma FunctionIsItsCode(img: Image, f: nat, blocks: map<nat, set<nat>>, visited: set<nat>)
    requires FunctionOk(img, f, blocks) && IsLeastClosed(img, f, visited)
    ensures AreBlockStarts(img, f, visited, blocks.Keys)
    ensures (forall v :: v in visited ==> InSomeBlock(blocks, v)) <==> HaltsAreByTheWay(img, f, visited)
  {
    var code :| IsLeastClosed(img, f, code) && AreBlockStarts(img, f, code, blocks.Keys);
    assert code == visited;
    BlocksCoverIff(img, f, visited, blocks.Keys);
    forall v ensures InSomeBlock(blocks, v) <==> Covered(img, blocks.Keys, v) {
      assert forall b :: b in blocks ==> blocks[b] == Walk(img, blocks.Keys, b);
    }
  }

  /** Where the recursion stands: `todo` are callees of `a` still to be made. */
  ghost predicate Tagging(img: Image, a: nat, before: set<nat>, now: set<nat>, todo: set<nat>) {
    before <= now && NewClosed(img, before, now, todo) && OnlyNeeded(img, a, before, now) && OnlyNeeded(img, a, {}, todo)
  }

  lemma DescentIsNew(img: Image, a: nat, visited: set<nat>, before: set<nat>)
    requires IsLeastClosed(img, a, visited)
    ensures Tagging(img, a, before, before + visited, CallTargets(img, visited))
  {
    forall u, c | u in visited && Calls(img, u, c) ensures c in CallTargets(img, visited) {
      assert Dest(c, true) in Dests(img, u);
    }
    forall t | a in t && Closed(img, t) ensures visited <= t && CallTargets(img, visited) <= t {
      assert FlowClosed(img, t);
      forall f | f in CallTargets(img, visited) ensures f in t {
        var u, d :| u in visited && d in Dests(img, u) && d.isCall && d.addr == f;
        assert Calls(img, u, f);
      }
    }
  }

  /** A callee has been made: its call is no longer to do. */
  lemma CalleeMade(img: Image, a: nat, f: nat, before: set<nat>, mid: set<nat>, now: set<nat>, todo: set<nat>)
    requires Tagging(img, a, before, mid, todo) && f in todo
    requires NewClosed(img, mid, now, {}) && OnlyNeeded(img, f, mid, now) && mid <= now && f in now
    ensures Tagging(img, a, before, now, todo - {f})
  {
    forall t | a in t && Closed(img, t) ensures now <= before + t && todo - {f} <= {} + t {
      assert mid <= before + t && todo <= {} + t && f in t;
      assert now <= mid + t;
    }
  }

  lemma CallsInUniverse(img: Image, visited: set<nat>)
    ensures CallTargets(img, visited) <= AllDests(img)
  {
    forall f | f in CallTargets(img, visited) ensures f in AllDests(img) {
      var u, d :| u in visited && d in Dests(img, u) && d.isCall && d.addr == f;
      assert u in img;
    }
  }

  /** The tag store: which function each address belongs to, and the blocks of each function. */
  class Static {
    const img: Image
    var owner: map<nat, nat>
    var functions: map<nat, map<nat, set<nat>>>

    constructor (img: Image)
      ensures this.img == img && owner == map[] && functions == map[]
    {
      this.img := img;
      owner, functions := map[], map[];
    }

    ghost predicate Valid()
      reads this
    {
      forall f :: f in functions ==> FunctionOk(img, f, functions[f])
    }

    /** One walk from every block start. */
    method WalkBlocks(starts: set<nat>) returns (blocks: map<nat, set<nat>>)
      ensures blocks.Keys == starts && AreWalks(img, starts, blocks)
    {
      blocks := map[];
      var todo := starts;
      while todo != {}
        invariant todo <= starts && blocks.Keys == starts - todo && AreWalks(img, starts, blocks)
        decreases |todo|
      {
        var b :| b in todo;
        var addresses := WalkBlock(img, starts, b);
        blocks := blocks[b := addresses];
        todo := todo - {b};
      }
    }

    /** The blocks of a function whose code is `visited`. */
    method MakeBlocks(address: nat, visited: set<nat>) returns (blocks: map<nat, set<nat>>)
      requires IsLeastClosed(img, address, visited)
      ensures FunctionOk(img, address, blocks)
    {
      var starts := BlockStarts(img, address, visited);
      BlockStartsAre(img, address, visited);
      blocks := WalkBlocks(starts);
    }

    /** The descent and block passes for one function; what is tagged anew is tagged with it. */
    method MakeOne(address: nat) returns (visited: set<nat>)
      requires Valid()
      modifies this
      ensures Valid() && IsLeastClosed(img, address, visited) && owner.Keys == old(owner.Keys) + visited
      ensures address in functions && functions == old(functions)[address := functions[address]]
      ensures forall v :: v in owner ==> owner[v] == if v in visited then address else old(owner)[v]
    {
      visited := Descend(img, address);
      owner := owner + map v | v in visited :: address;
      var blocks := MakeBlocks(address, visited);
      functions := functions[address := blocks];
    }

    /**
     Make the function at `address` and, recursively, every function it calls.  `universe`
     is any finite set with all destinations in it; it bounds the recursion.
     */
    method MakeFunctionAt(address: nat, ghost universe: set<nat>)
      requires Valid() && AllDests(img) <= universe && address in universe
      modifies this
      ensures Valid() && address in owner && old(owner.Keys) <= owner.Keys
      ensures address !in old(owner) ==> address in functions
      ensures old(functions.Keys) <= functions.Keys
      ensures NewClosed(img, old(owner.Keys), owner.Keys, {}) && OnlyNeeded(img, address, old(owner.Keys), owner.Keys)
      decreases |universe - owner.Keys|, 0
    {
      if address in owner {
        return;
      }
      ghost var before := owner.Keys;
      var visited := MakeOne(address);
      DescentIsNew(img, address, visited, before);
      TagShrinks(universe, before, owner.Keys, address);
      CallsInUniverse(img, visited);
      MakeCallees(address, CallTargets(img, visited), before, universe);
    }

    /** One callee after the other. */
    method MakeCallees(ghost address: nat, callees: set<nat>, ghost before: set<nat>, ghost universe: set<nat>)
      requires Valid() && AllDests(img) <= universe && callees <= universe
      requires Tagging(img, address, before, owner.Keys, callees)
      modifies this
      ensures Valid() && old(owner.Keys) <= owner.Keys && old(functions.Keys) <= functions.Keys
      ensures Tagging(img, address, before, owner.Keys, {})
      decreases |universe - owner.Keys|, 2
    {
      var todo := callees;
      while todo != {}
        invariant Valid() && old(owner.Keys) <= owner.Keys && old(functions.Keys) <= functions.Keys
        invariant todo <= universe && |universe - owner.Keys| <= |universe - old(owner.Keys)|
        invariant Tagging(img, address, before, owner.Keys, todo)
        decreases |todo|
      {
        var f :| f in todo;
        MakeCallee(address, f, before, todo, universe);
        todo := todo - {f};
      }
    }

    method MakeCallee(ghost address: nat, f: nat, ghost before: set<nat>, ghost todo: set<nat>, ghost universe: set<nat>)
      requires Valid() && AllDests(img) <= universe && f in universe && f in todo
      requires Tagging(img, address, before, owner.Keys, todo)
      modifies this
      ensures Valid() && old(owner.Keys) <= owner.Keys && old(functions.Keys) <= functions.Keys
      ensures |universe - owner.Keys| <= |universe - old(owner.Keys)|
      ensures Tagging(img, address, before, owner.Keys, todo - {f})
      decreases |universe - owner.Keys|, 1
    {
      ghost var mid := owner.Keys;
      if f !in owner {
        MakeFunctionAt(f, universe);
        Smaller(universe - owner.Keys, universe - mid);
      }
      CalleeMade(img, address, f, before, mid, owner.Keys, todo);
    }
  }

  lemma TagShrinks(universe: set<nat>, before: set<nat>, now: set<nat>, a: nat)
    requires a in universe && a !in before && a in now && before <= now
    ensures |universe - now| < |universe - before|
  {
    assert a in universe - before && a !in universe - now;
    Smaller(universe - now, universe - before);
  }

  /** Starting from nothing, the tagged addresses are exactly the program reachable from the entry. */
  lemma FromNothing(img: Image, a: nat, now: set<nat>)
    requires a in now && NewClosed(img, {}, now, {}) && OnlyNeeded(img, a, {}, now)
    ensures IsLeastProgram(img, a, now)
  {
    forall t | a in t && Closed(img, t) ensures now <= t {
      assert now <= {} + t;
    }
  }

  /** The program reachable from `entry`, made in a new store. */
  method MakeProgram(img: Image, entry: nat) returns (st: Static)
    ensures fresh(st) && st.img == img && st.Valid() && entry in st.functions
    ensures IsLeastProgram(img, entry, st.owner.Keys)
  {
    st := new Static(img);
    st.MakeFunctionAt(entry, AllDests(img) + {entry});
    FromNothing(img, entry, st.owner.Keys);
  }
}
