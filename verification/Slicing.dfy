/**
 Backward slicing of a trace, and why running only the slice is enough.

 The slicer names a location by its bare address, register or memory alike; the
 machine keeps registers and memory apart.
 */
module Slicing {
  datatype Loc = Reg(a: nat) | Mem(a: nat)

  datatype Record = Load(loc: Loc) | Store(loc: Loc) | Other

  /** The records of every changelist. */
  type Trace = nat -> seq<Record>

  const STACK_POINTER: nat := 0x10
  const FETCH_LIMIT: nat := 100
  const REACH: nat := 100
  const TOO_MANY: nat := 20

  // ---------- the slicer ----------

  function Fetch(tr: Trace, c: nat): seq<Record> {
    if |tr(c)| <= FETCH_LIMIT then tr(c) else tr(c)[..FETCH_LIMIT]
  }

  function Stores(rs: seq<Record>): set<nat> {
    set r | r in rs && r.Store? :: r.loc.a
  }

  function Loads(rs: seq<Record>): set<nat> {
    set r | r in rs && r.Load? :: r.loc.a
  }

  /** The window below `c`: down to `stop`, or to a changelist with too many records. */
  function Lowest(tr: Trace, c: nat, stop: nat): (low: nat)
    decreases c
  {
    if c <= stop || |tr(c)| > TOO_MANY then c + 1 else Lowest(tr, c - 1, stop)
  }

  /** `low` is the lowest changelist looked at, `cls` those found to matter. */
  datatype Slice = Slice(low: nat, cls: set<nat>)

  /** Walk down from `c`, looking for what produced the locations `wanted`. */
  function Walk(tr: Trace, c: nat, stop: nat, wanted: set<nat>): (s: Slice)
    ensures s.low <= c + 1 && forall x :: x in s.cls ==> s.low <= x <= c
    decreases c
  {
    if c <= stop || |Fetch(tr, c)| > TOO_MANY then Slice(c + 1, {})
    else
      var kept := wanted - {STACK_POINTER};
      var overwritten := kept * Stores(Fetch(tr, c));
      if overwritten == {} then Walk(tr, c - 1, stop, kept)
      else
        var rest := Walk(tr, c - 1, stop, kept - overwritten + Loads(Fetch(tr, c)));
        rest.(cls := rest.cls + {c})
  }

  function Start(inclnum: nat): nat {
    if inclnum < REACH then 0 else inclnum - REACH
  }

  /** The lowest changelist the slicer looks at. */
  function WindowLow(tr: Trace, inclnum: nat): nat {
    Lowest(tr, inclnum, Start(inclnum))
  }

  function SliceOf(tr: Trace, inclnum: nat): Slice {
    var s := Walk(tr, inclnum, Start(inclnum), Loads(Fetch(tr, inclnum)));
    s.(cls := s.cls - {inclnum})
  }

  /** The slicer itself. */
  method ComputeSlice(tr: Trace, inclnum: nat) returns (cls: set<nat>)
    ensures cls == SliceOf(tr, inclnum).cls
  {
    var clnum := inclnum;
    var st := Loads(Fetch(tr, clnum));
    cls := {inclnum};
    ghost var whole := Walk(tr, inclnum, Start(inclnum), st);
    while clnum > Start(inclnum)
      invariant 0 <= clnum <= inclnum && inclnum in cls
      invariant cls + Walk(tr, clnum, Start(inclnum), st).cls == {inclnum} + whole.cls
    {
      ghost var st0, cls0 := st, cls;
      st := st - {STACK_POINTER};
      if |Fetch(tr, clnum)| > TOO_MANY { break; }
      assert Fetch(tr, clnum) == tr(clnum);
      var overwrite := st * Stores(Fetch(tr, clnum));
      if overwrite != {} {
        st := st - overwrite + Loads(Fetch(tr, clnum));
        cls := cls + {clnum};
      }
      assert st == WantedBelow(tr, clnum, st0);
      assert cls == Plus(cls0, clnum, Takes(tr, clnum, st0));
      SliceStep(tr, clnum, Start(inclnum), st0, cls0, {inclnum} + whole.cls);
      clnum := clnum - 1;
    }
    assert Walk(tr, clnum, Start(inclnum), st).cls == {};
    SliceEnds(cls, whole.cls, inclnum);
    cls := cls - {inclnum};
  }

  lemma SliceEnds(cls: set<nat>, whole: set<nat>, x: nat)
    requires x in cls && cls + {} == {x} + whole
    ensures cls - {x} == whole - {x}
  {
  }

  lemma SliceStep(tr: Trace, c: nat, stop: nat, wanted: set<nat>, cls: set<nat>, goal: set<nat>)
    requires c > stop && |tr(c)| <= TOO_MANY && cls + Walk(tr, c, stop, wanted).cls == goal
    ensures Plus(cls, c, Takes(tr, c, wanted)) + Walk(tr, c - 1, stop, WantedBelow(tr, c, wanted)).cls == goal
  {
    WalkUnfolds(tr, c, stop, wanted);
  }

  // ---------- the machine ----------

  type State = Loc -> int

  /** What a changelist stores, as a function of what it loaded. */
  type Effect = (nat, Loc, map<Loc, int>) -> int

  function LoadLocs(rs: seq<Record>): set<Loc> {
    set r | r in rs && r.Load? :: r.loc
  }

  function StoreLocs(rs: seq<Record>): set<Loc> {
    set r | r in rs && r.Store? :: r.loc
  }

  function View(s: State, locs: set<Loc>): map<Loc, int> {
    map l | l in locs :: s(l)
  }

  function Exec(tr: Trace, eff: Effect, c: nat, s: State): State {
    var seen := View(s, LoadLocs(tr(c)));
    (l: Loc) => if l in StoreLocs(tr(c)) then eff(c, l, seen) else s(l)
  }

  /** Changelists low, low+1, …, hi-1, in order. */
  function RunAll(tr: Trace, eff: Effect, s: State, low: nat, hi: nat): State
    decreases hi
  {
    if hi <= low then s else Exec(tr, eff, hi - 1, RunAll(tr, eff, s, low, hi - 1))
  }

  /** The same, leaving out those not in `cls`. */
  function RunSlice(tr: Trace, eff: Effect, s: State, low: nat, hi: nat, cls: set<nat>): State
    decreases hi
  {
    if hi <= low then s
    else
      var before := RunSlice(tr, eff, s, low, hi - 1, cls);
      if hi - 1 in cls then Exec(tr, eff, hi - 1, before) else before
  }

  // ---------- what a run really depends on ----------

  ghost predicate SameOn(a: State, b: State, wanted: set<Loc>) {
    forall l :: l in wanted ==> a(l) == b(l)
  }

  /** The changelists from `low` up to `hi` that the locations `wanted`, as they stand before `hi`, depend on. */
  function Needed(tr: Trace, low: nat, hi: nat, wanted: set<Loc>): (r: set<nat>)
    ensures forall x :: x in r ==> low <= x < hi
    decreases hi
  {
    if hi <= low then {}
    else
      var c := hi - 1;
      if wanted * StoreLocs(tr(c)) == {} then Needed(tr, low, c, wanted)
      else Needed(tr, low, c, wanted - StoreLocs(tr(c)) + LoadLocs(tr(c))) + {c}
  }

  /** Whatever the changelists compute, leaving out those not in `cls` does not show in `wanted`. */
  ghost predicate Unnoticed(tr: Trace, low: nat, hi: nat, wanted: set<Loc>, cls: set<nat>) {
    forall eff: Effect, s: State ::
      SameOn(RunAll(tr, eff, s, low, hi), RunSlice(tr, eff, s, low, hi, cls), wanted)
  }

  lemma ExecAgrees(tr: Trace, eff: Effect, c: nat, a: State, b: State, wanted: set<Loc>)
    requires SameOn(a, b, wanted - StoreLocs(tr(c)) + LoadLocs(tr(c)))
    ensures SameOn(Exec(tr, eff, c, a), Exec(tr, eff, c, b), wanted)
  {
    assert View(a, LoadLocs(tr(c))) == View(b, LoadLocs(tr(c)));
  }

  lemma ExecMisses(tr: Trace, eff: Effect, c: nat, a: State, wanted: set<Loc>)
    requires wanted * StoreLocs(tr(c)) == {}
    ensures SameOn(Exec(tr, eff, c, a), a, wanted)
  {
    forall l | l in wanted ensures l !in StoreLocs(tr(c)) {
      assert l in StoreLocs(tr(c)) ==> l in wanted * StoreLocs(tr(c));
    }
  }

  lemma {:induction false} NeededSuffices(tr: Trace, eff: Effect, s: State, low: nat, hi: nat, wanted: set<Loc>, cls: set<nat>)
    requires Needed(tr, low, hi, wanted) <= cls
    ensures SameOn(RunAll(tr, eff, s, low, hi), RunSlice(tr, eff, s, low, hi, cls), wanted)
    decreases hi
  {
    if hi > low {
      var c := hi - 1;
      var a, b := RunAll(tr, eff, s, low, c), RunSlice(tr, eff, s, low, c, cls);
      if wanted * StoreLocs(tr(c)) == {} {
        NeededSuffices(tr, eff, s, low, c, wanted, cls);
        ExecMisses(tr, eff, c, a, wanted);
        ExecMisses(tr, eff, c, b, wanted);
      } else {
        NeededSuffices(tr, eff, s, low, c, wanted - StoreLocs(tr(c)) + LoadLocs(tr(c)), cls);
        ExecAgrees(tr, eff, c, a, b, wanted);
      }
    }
  }

  /** Changelist `x` marks what it stores, and marks spread from loads to stores. */
  function Taint(x: nat): Effect {
    (c: nat, l: Loc, seen: map<Loc, int>) => if c == x || 1 in seen.Values then 1 else 0
  }

  function Clean(): State { (l: Loc) => 0 }

  lemma {:induction false} SliceStaysClean(tr: Trace, x: nat, low: nat, hi: nat, cls: set<nat>, l: Loc)
    requires x !in cls
    ensures RunSlice(tr, Taint(x), Clean(), low, hi, cls)(l) == 0
    decreases hi
  {
    if hi > low {
      var before := RunSlice(tr, Taint(x), Clean(), low, hi - 1, cls);
      SliceStaysClean(tr, x, low, hi - 1, cls, l);
      forall m: Loc ensures before(m) == 0 {
        SliceStaysClean(tr, x, low, hi - 1, cls, m);
      }
      var seen := View(before, LoadLocs(tr(hi - 1)));
      assert forall m :: m in seen ==> seen[m] == 0;
      assert 1 !in seen.Values;
    }
  }

  lemma MarkSpreads(tr: Trace, x: nat, c: nat, a: State, m: Loc, l: Loc)
    requires l in StoreLocs(tr(c)) && m in LoadLocs(tr(c)) && a(m) == 1
    ensures Exec(tr, Taint(x), c, a)(l) == 1
  {
    var seen := View(a, LoadLocs(tr(c)));
    assert m in seen && seen[m] == 1;
    assert 1 in seen.Values;
  }

  /** What a needed changelist marks reaches one of the wanted locations. */
  lemma {:induction false} NeededShows(tr: Trace, x: nat, low: nat, hi: nat, wanted: set<Loc>) returns (l: Loc)
    requires x in Needed(tr, low, hi, wanted)
    ensures l in wanted && RunAll(tr, Taint(x), Clean(), low, hi)(l) == 1
    decreases hi
  {
    var c := hi - 1;
    var a, stores := RunAll(tr, Taint(x), Clean(), low, c), StoreLocs(tr(c));
    if wanted * stores == {} {
      l := NeededShows(tr, x, low, c, wanted);
      ExecMisses(tr, Taint(x), c, a, wanted);
    } else if x == c {
      l :| l in wanted * stores;
    } else {
      var m := NeededShows(tr, x, low, c, wanted - stores + LoadLocs(tr(c)));
      if m in LoadLocs(tr(c)) {
        l :| l in wanted * stores;
        MarkSpreads(tr, x, c, a, m, l);
      } else {
        l := m;
      }
    }
  }

  /** A set of changelists is enough, whatever they compute, if and only if it has all the needed ones. */
  lemma UnnoticedIff(tr: Trace, low: nat, hi: nat, wanted: set<Loc>, cls: set<nat>)
    ensures Unnoticed(tr, low, hi, wanted, cls) <==> Needed(tr, low, hi, wanted) <= cls
  {
    if Needed(tr, low, hi, wanted) <= cls {
      forall eff: Effect, s: State
        ensures SameOn(RunAll(tr, eff, s, low, hi), RunSlice(tr, eff, s, low, hi, cls), wanted)
      {
        NeededSuffices(tr, eff, s, low, hi, wanted, cls);
      }
    } else {
      var x :| x in Needed(tr, low, hi, wanted) && x !in cls;
      var l := NeededShows(tr, x, low, hi, wanted);
      SliceStaysClean(tr, x, low, hi, cls, l);
      assert !SameOn(RunAll(tr, Taint(x), Clean(), low, hi), RunSlice(tr, Taint(x), Clean(), low, hi, cls), wanted);
    }
  }

  // ---------- the slice preserves meaning ----------

  /** What the walk looks for, and what is truly wanted, once changelist `c` has been passed. */
  function WantedBelow(tr: Trace, c: nat, wanted: set<nat>): set<nat> {
    var kept := wanted - {STACK_POINTER};
    var overwritten := kept * Stores(tr(c));
    if overwritten == {} then kept else kept - overwritten + Loads(tr(c))
  }

  function TrulyBelow(tr: Trace, c: nat, truly: set<Loc>): set<Loc> {
    if truly * StoreLocs(tr(c)) == {} then truly else truly - StoreLocs(tr(c)) + LoadLocs(tr(c))
  }

  /** Does the walk take changelist `c`; does what is wanted depend on it? */
  predicate Takes(tr: Trace, c: nat, wanted: set<nat>) {
    (wanted - {STACK_POINTER}) * Stores(tr(c)) != {}
  }

  predicate Needs(tr: Trace, c: nat, truly: set<Loc>) {
    truly * StoreLocs(tr(c)) != {}
  }

  /** Whenever a changelist stores what is truly wanted, it stores one of the names looked for. */
  ghost predicate Tracked(tr: Trace, low: nat, hi: nat, truly: set<Loc>, wanted: set<nat>)
    decreases hi
  {
    hi <= low ||
    (var c := hi - 1;
     && (Needs(tr, c, truly) ==> Takes(tr, c, wanted))
     && Tracked(tr, low, c, TrulyBelow(tr, c, truly), WantedBelow(tr, c, wanted)))
  }

  lemma WalkUnfolds(tr: Trace, c: nat, stop: nat, wanted: set<nat>)
    requires c > stop && |tr(c)| <= TOO_MANY
    ensures var rest := Walk(tr, c - 1, stop, WantedBelow(tr, c, wanted)).cls;
            Walk(tr, c, stop, wanted).cls == Plus(rest, c, Takes(tr, c, wanted))
  {
    assert Fetch(tr, c) == tr(c);
  }

  lemma NeededUnfolds(tr: Trace, low: nat, c: nat, truly: set<Loc>)
    requires low <= c
    ensures var rest := Needed(tr, low, c, TrulyBelow(tr, c, truly));
            Needed(tr, low, c + 1, truly) == Plus(rest, c, Needs(tr, c, truly))
  {
  }

  function Plus(s: set<nat>, c: nat, b: bool): set<nat> {
    if b then s + {c} else s
  }

  /** A changelist above both sets makes the difference only if it is taken on one side alone. */
  lemma TopDecides(needed: set<nat>, found: set<nat>, c: nat, isNeeded: bool, isFound: bool)
    requires c !in needed && c !in found
    ensures Plus(needed, c, isNeeded) <= Plus(found, c, isFound) <==> needed <= found && (isNeeded ==> isFound)
  {
    var a, b := Plus(needed, c, isNeeded), Plus(found, c, isFound);
    if a <= b {
      assert isNeeded ==> c in a;
      forall x | x in needed ensures x in found {
        assert x in a;
      }
    }
  }

  /** The walk takes every needed changelist exactly when it keeps track. */
  lemma {:induction false} WalkIsEnoughIff(tr: Trace, top: nat, stop: nat, truly: set<Loc>, wanted: set<nat>)
    requires top > 0
    ensures var low := Lowest(tr, top - 1, stop);
            Needed(tr, low, top, truly) <= Walk(tr, top - 1, stop, wanted).cls <==> Tracked(tr, low, top, truly, wanted)
    decreases top
  {
    var c := top - 1;
    var low := Lowest(tr, c, stop);
    if c > stop && |tr(c)| <= TOO_MANY {
      var truly', wanted' := TrulyBelow(tr, c, truly), WantedBelow(tr, c, wanted);
      LowestBelow(tr, c, stop);
      WalkUnfolds(tr, c, stop, wanted);
      NeededUnfolds(tr, low, c, truly);
      WalkIsEnoughIff(tr, c, stop, truly', wanted');
      TopDecides(Needed(tr, low, c, truly'), Walk(tr, c - 1, stop, wanted').cls, c, Needs(tr, c, truly), Takes(tr, c, wanted));
    }
  }

  lemma {:induction false} LowestBelow(tr: Trace, c: nat, stop: nat)
    ensures Lowest(tr, c, stop) <= c + 1
    ensures c > stop && |tr(c)| <= TOO_MANY ==> Lowest(tr, c, stop) <= c
    decreases c
  {
    if c > stop && |tr(c)| <= TOO_MANY {
      LowestBelow(tr, c - 1, stop);
    }
  }

  /** The window: all its changelists are in reach and small, and it ends at one that is not. */
  lemma {:induction false} LowestIs(tr: Trace, c: nat, stop: nat, x: nat)
    ensures Lowest(tr, c, stop) <= x <= c ==> x > stop && |tr(x)| <= TOO_MANY
    ensures var low := Lowest(tr, c, stop); 0 < low <= c + 1 && (low - 1 <= stop || |tr(low - 1)| > TOO_MANY)
    decreases c
  {
    if c > stop && |tr(c)| <= TOO_MANY {
      LowestIs(tr, c - 1, stop, x);
    }
  }

  lemma {:induction false} SmallIsInWindow(tr: Trace, c: nat, stop: nat, x: nat)
    requires stop < x <= c + 1 && forall y :: x <= y <= c ==> |tr(y)| <= TOO_MANY
    ensures Lowest(tr, c, stop) <= x
    decreases c
  {
    if x <= c {
      SmallIsInWindow(tr, c - 1, stop, x);
    } else {
      LowestBelow(tr, c, stop);
    }
  }

  /** The window lies within the hundred changelists up to the queried one. */
  lemma WindowIsBounded(tr: Trace, inclnum: nat)
    ensures WindowLow(tr, inclnum) > 0 && WindowLow(tr, inclnum) + 100 > inclnum
  {
    var low := WindowLow(tr, inclnum);
    LowestIs(tr, inclnum, Start(inclnum), low);
    assert low <= inclnum ==> low > Start(inclnum);
  }

  /** It holds every changelist of these from which on none has more than twenty records. */
  lemma WindowReaches(tr: Trace, inclnum: nat, x: nat)
    requires 0 < x <= inclnum < x + 100 && forall y :: x <= y <= inclnum ==> |tr(y)| <= 20
    ensures WindowLow(tr, inclnum) <= x
  {
    SmallIsInWindow(tr, inclnum, Start(inclnum), x);
  }

  /** Where changelists are small, it is all of them: from the first, or the hundredth before the end, on. */
  lemma WindowIs(tr: Trace, inclnum: nat)
    requires forall y :: 0 <= y <= inclnum && inclnum < y + 100 ==> |tr(y)| <= 20
    ensures WindowLow(tr, inclnum) == if inclnum <= 100 then 1 else inclnum - 99
  {
    WindowIsBounded(tr, inclnum);
    if inclnum > 0 {
      WindowReaches(tr, inclnum, if inclnum <= 100 then 1 else inclnum - 99);
    }
  }

  /** It is what the walk looks at. */
  lemma {:induction false} WalkLow(tr: Trace, c: nat, stop: nat, wanted: set<nat>)
    ensures Walk(tr, c, stop, wanted).low == Lowest(tr, c, stop)
    decreases c
  {
    if c > stop && |tr(c)| <= TOO_MANY {
      assert Fetch(tr, c) == tr(c);
      WalkLow(tr, c - 1, stop, WantedBelow(tr, c, wanted));
    }
  }

  /** Running only the slice gives the queried changelist the same loads, whatever the changelists compute. */
  ghost predicate PreservesMeaning(tr: Trace, inclnum: nat) {
    Unnoticed(tr, WindowLow(tr, inclnum), inclnum, LoadLocs(tr(inclnum)), SliceOf(tr, inclnum).cls)
  }

  /** The queried changelist is the first one looked at, and asks for its own loads again. */
  lemma SliceUnfolds(tr: Trace, inclnum: nat) returns (next: set<nat>)
    requires inclnum > Start(inclnum) && |tr(inclnum)| <= TOO_MANY
    ensures SliceOf(tr, inclnum) == Walk(tr, inclnum - 1, Start(inclnum), next)
    ensures next - {STACK_POINTER} == Loads(tr(inclnum)) - {STACK_POINTER}
  {
    var loads, stores := Loads(Fetch(tr, inclnum)), Stores(Fetch(tr, inclnum));
    assert Fetch(tr, inclnum) == tr(inclnum);
    var kept := loads - {STACK_POINTER};
    next := if kept * stores == {} then kept else kept - kept * stores + loads;
    var rest := Walk(tr, inclnum - 1, Start(inclnum), next);
    assert inclnum !in rest.cls;
    assert rest.cls + {inclnum} - {inclnum} == rest.cls == rest.cls - {inclnum};
  }

  /** Only the names other than the stack pointer's matter. */
  lemma TrackedNames(tr: Trace, low: nat, hi: nat, truly: set<Loc>, wanted: set<nat>, same: set<nat>)
    requires wanted - {STACK_POINTER} == same - {STACK_POINTER}
    ensures Tracked(tr, low, hi, truly, wanted) <==> Tracked(tr, low, hi, truly, same)
  {
  }

  /** On every trace, aliases and all: the slice is enough if and only if the names looked for keep track of what is wanted. */
  lemma SliceTracksIff(tr: Trace, inclnum: nat)
    ensures PreservesMeaning(tr, inclnum) <==>
            Tracked(tr, WindowLow(tr, inclnum), inclnum, LoadLocs(tr(inclnum)), Loads(tr(inclnum)))
  {
    var low, loads := WindowLow(tr, inclnum), LoadLocs(tr(inclnum));
    UnnoticedIff(tr, low, inclnum, loads, SliceOf(tr, inclnum).cls);
    if inclnum > Start(inclnum) && |tr(inclnum)| <= TOO_MANY {
      var next := SliceUnfolds(tr, inclnum);
      WalkIsEnoughIff(tr, inclnum, Start(inclnum), loads, next);
      TrackedNames(tr, low, inclnum, loads, next, Loads(tr(inclnum)));
    }
  }

  // ---------- without aliases, only the stack pointer can be missed ----------

  function Locs(rs: seq<Record>): set<Loc> {
    LoadLocs(rs) + StoreLocs(rs)
  }

  /** Some changelist of the window loads or stores `l`. */
  ghost predicate Used(tr: Trace, low: nat, hi: nat, l: Loc) {
    exists c :: low <= c <= hi && l in Locs(tr(c))
  }

  /** Within the window an address means one thing: no register shares its number with memory in use. */
  ghost predicate NoAlias(tr: Trace, low: nat, hi: nat) {
    forall l, m {:trigger Used(tr, low, hi, l), Used(tr, low, hi, m)} ::
      Used(tr, low, hi, l) && Used(tr, low, hi, m) && l.a == m.a ==> l == m
  }

  ghost predicate StoresOffStack(tr: Trace, c: nat, truly: set<Loc>) {
    exists l :: l in truly && l in StoreLocs(tr(c)) && l.a != STACK_POINTER
  }

  /** No changelist stores, of what is wanted, the stack pointer's location alone. */
  ghost predicate OffStack(tr: Trace, low: nat, hi: nat, truly: set<Loc>)
    decreases hi
  {
    hi <= low ||
    (var c := hi - 1;
     && (Needs(tr, c, truly) ==> StoresOffStack(tr, c, truly))
     && OffStack(tr, low, c, TrulyBelow(tr, c, truly)))
  }

  /** The names looked for are those of the wanted locations, the stack pointer's apart. */
  ghost predicate NamesOf(truly: set<Loc>, wanted: set<nat>) {
    && (forall l :: l in truly && l.a != STACK_POINTER ==> l.a in wanted)
    && (forall a :: a in wanted && a != STACK_POINTER ==> exists l :: l in truly && l.a == a)
  }

  ghost predicate AllUsed(tr: Trace, low: nat, hi: nat, locs: set<Loc>) {
    forall l :: l in locs ==> Used(tr, low, hi, l)
  }

  lemma StoredMeansSame(tr: Trace, low: nat, hi: nat, c: nat, l: Loc)
    requires NoAlias(tr, low, hi) && low <= c <= hi && Used(tr, low, hi, l)
    ensures l.a in Stores(tr(c)) <==> l in StoreLocs(tr(c))
  {
    if l.a in Stores(tr(c)) {
      var r :| r in tr(c) && r.Store? && r.loc.a == l.a;
      assert r.loc in Locs(tr(c)) && Used(tr, low, hi, r.loc);
    }
  }

  /** The walk takes a changelist exactly when it stores something wanted other than the stack pointer. */
  lemma OverwriteIff(tr: Trace, low: nat, hi: nat, c: nat, truly: set<Loc>, wanted: set<nat>)
    requires NoAlias(tr, low, hi) && low <= c <= hi && AllUsed(tr, low, hi, truly) && NamesOf(truly, wanted)
    ensures Takes(tr, c, wanted) <==> StoresOffStack(tr, c, truly)
    ensures StoresOffStack(tr, c, truly) ==> Needs(tr, c, truly)
  {
    var kept := wanted - {STACK_POINTER};
    if StoresOffStack(tr, c, truly) {
      var l :| l in truly && l in StoreLocs(tr(c)) && l.a != STACK_POINTER;
      assert l.a in kept * Stores(tr(c)) && l in truly * StoreLocs(tr(c));
    }
    if a :| a in kept * Stores(tr(c)) {
      var l :| l in truly && l.a == a;
      StoredMeansSame(tr, low, hi, c, l);
    }
  }

  lemma LoadNames(tr: Trace, low: nat, hi: nat, c: nat)
    requires low <= c <= hi
    ensures NamesOf(LoadLocs(tr(c)), Loads(tr(c))) && AllUsed(tr, low, hi, LoadLocs(tr(c)))
  {
    forall a | a in Loads(tr(c)) ensures exists l :: l in LoadLocs(tr(c)) && l.a == a {
      var r :| r in tr(c) && r.Load? && r.loc.a == a;
      assert r.loc in LoadLocs(tr(c));
    }
    forall l | l in LoadLocs(tr(c)) ensures Used(tr, low, hi, l) {
      assert l in Locs(tr(c));
    }
  }

  /** Names dropped by the walk are those of the locations no longer wanted. */
  lemma DroppedNames(tr: Trace, low: nat, hi: nat, c: nat, truly: set<Loc>, wanted: set<nat>)
    requires NoAlias(tr, low, hi) && low <= c <= hi && AllUsed(tr, low, hi, truly) && NamesOf(truly, wanted)
    ensures NamesOf(truly - StoreLocs(tr(c)), wanted - Stores(tr(c)))
  {
    forall l | l in truly ensures l.a in Stores(tr(c)) <==> l in StoreLocs(tr(c)) {
      StoredMeansSame(tr, low, hi, c, l);
    }
  }

  lemma NamesUnion(a: set<Loc>, x: set<nat>, b: set<Loc>, y: set<nat>)
    requires NamesOf(a, x) && NamesOf(b, y)
    ensures NamesOf(a + b, x + y)
  {
    forall n | n in x + y && n != STACK_POINTER ensures exists l :: l in a + b && l.a == n {
      if n in x {
        var l :| l in a && l.a == n;
        assert l in a + b;
      } else {
        var l :| l in b && l.a == n;
        assert l in a + b;
      }
    }
  }

  lemma NamesIgnoreStack(truly: set<Loc>, x: set<nat>, y: set<nat>)
    requires NamesOf(truly, x) && x - {STACK_POINTER} == y - {STACK_POINTER}
    ensures NamesOf(truly, y)
  {
    forall a | a != STACK_POINTER ensures a in x <==> a in y {
      assert a in x - {STACK_POINTER} <==> a in y - {STACK_POINTER};
    }
  }

  lemma TakenNames(tr: Trace, low: nat, hi: nat, c: nat, truly: set<Loc>, wanted: set<nat>)
    requires NoAlias(tr, low, hi) && low <= c <= hi && AllUsed(tr, low, hi, truly) && NamesOf(truly, wanted)
    ensures NamesOf(truly - StoreLocs(tr(c)) + LoadLocs(tr(c)), wanted - Stores(tr(c)) + Loads(tr(c)))
    ensures AllUsed(tr, low, hi, truly - StoreLocs(tr(c)) + LoadLocs(tr(c)))
  {
    LoadNames(tr, low, hi, c);
    DroppedNames(tr, low, hi, c, truly, wanted);
    NamesUnion(truly - StoreLocs(tr(c)), wanted - Stores(tr(c)), LoadLocs(tr(c)), Loads(tr(c)));
  }

  lemma SameButStack(wanted: set<nat>, stores: set<nat>, loads: set<nat>)
    ensures var kept := wanted - {STACK_POINTER};
            (wanted - stores + loads) - {STACK_POINTER} == (kept - kept * stores + loads) - {STACK_POINTER}
  {
  }

  lemma NamesBelow(tr: Trace, low: nat, hi: nat, c: nat, truly: set<Loc>, wanted: set<nat>)
    requires NoAlias(tr, low, hi) && low <= c <= hi && AllUsed(tr, low, hi, truly) && NamesOf(truly, wanted)
    requires Needs(tr, c, truly) ==> StoresOffStack(tr, c, truly)
    ensures AllUsed(tr, low, hi, TrulyBelow(tr, c, truly)) && NamesOf(TrulyBelow(tr, c, truly), WantedBelow(tr, c, wanted))
  {
    OverwriteIff(tr, low, hi, c, truly, wanted);
    if Needs(tr, c, truly) {
      TakenNames(tr, low, hi, c, truly, wanted);
      SameButStack(wanted, Stores(tr(c)), Loads(tr(c)));
      NamesIgnoreStack(TrulyBelow(tr, c, truly), wanted - Stores(tr(c)) + Loads(tr(c)), WantedBelow(tr, c, wanted));
    } else {
      NamesIgnoreStack(truly, wanted, wanted - {STACK_POINTER});
    }
  }

  lemma {:induction false} TrackedIff(tr: Trace, low: nat, hi: nat, top: nat, truly: set<Loc>, wanted: set<nat>)
    requires NoAlias(tr, low, top) && hi <= top && AllUsed(tr, low, top, truly) && NamesOf(truly, wanted)
    ensures Tracked(tr, low, hi, truly, wanted) <==> OffStack(tr, low, hi, truly)
    decreases hi
  {
    if hi > low {
      var c := hi - 1;
      OverwriteIff(tr, low, top, c, truly, wanted);
      if Needs(tr, c, truly) ==> StoresOffStack(tr, c, truly) {
        NamesBelow(tr, low, top, c, truly, wanted);
        TrackedIff(tr, low, c, top, TrulyBelow(tr, c, truly), WantedBelow(tr, c, wanted));
      }
    }
  }

  /**
   On every trace without aliases: the slice is enough if and only if, going back through the window,
   no changelist stores the stack pointer's location as the only one of what is wanted.
   */
  lemma SliceIsEnoughIff(tr: Trace, inclnum: nat)
    requires NoAlias(tr, WindowLow(tr, inclnum), inclnum)
    ensures PreservesMeaning(tr, inclnum) <==> OffStack(tr, WindowLow(tr, inclnum), inclnum, LoadLocs(tr(inclnum)))
  {
    var low := WindowLow(tr, inclnum);
    SliceTracksIff(tr, inclnum);
    if low <= inclnum {
      LoadNames(tr, low, inclnum, inclnum);
      TrackedIff(tr, low, inclnum, inclnum, LoadLocs(tr(inclnum)), Loads(tr(inclnum)));
    }
  }

  lemma {:induction false} NoStackStores(tr: Trace, low: nat, hi: nat, truly: set<Loc>)
    requires forall c :: low <= c < hi ==> STACK_POINTER !in Stores(tr(c))
    ensures OffStack(tr, low, hi, truly)
    decreases hi
  {
    if hi > low {
      var c := hi - 1;
      NoStackStores(tr, low, c, TrulyBelow(tr, c, truly));
      if l :| l in truly * StoreLocs(tr(c)) {
        assert l.a in Stores(tr(c));
      }
    }
  }

  /** In particular when the stack pointer's location is not stored in the window. */
  lemma SlicePreservesMeaning(tr: Trace, eff: Effect, s: State, inclnum: nat, l: Loc)
    requires NoAlias(tr, WindowLow(tr, inclnum), inclnum)
    requires forall c :: WindowLow(tr, inclnum) <= c < inclnum ==> STACK_POINTER !in Stores(tr(c))
    requires l in LoadLocs(tr(inclnum))
    ensures RunAll(tr, eff, s, WindowLow(tr, inclnum), inclnum)(l)
            == RunSlice(tr, eff, s, WindowLow(tr, inclnum), inclnum, SliceOf(tr, inclnum).cls)(l)
  {
    var low, cls := WindowLow(tr, inclnum), SliceOf(tr, inclnum).cls;
    NoStackStores(tr, low, inclnum, LoadLocs(tr(inclnum)));
    SliceIsEnoughIff(tr, inclnum);
    assert SameOn(RunAll(tr, eff, s, low, inclnum), RunSlice(tr, eff, s, low, inclnum, cls), LoadLocs(tr(inclnum)));
  }

  /** Where changelists are small the window is known beforehand. */
  lemma SmallSlicePreservesMeaning(tr: Trace, eff: Effect, s: State, inclnum: nat, l: Loc)
    requires forall y :: 0 <= y <= inclnum && inclnum < y + 100 ==> |tr(y)| <= 20
    requires var low := if inclnum <= 100 then 1 else inclnum - 99;
             NoAlias(tr, low, inclnum) && forall c :: low <= c < inclnum ==> 0x10 !in Stores(tr(c))
    requires l in LoadLocs(tr(inclnum))
    ensures var low := if inclnum <= 100 then 1 else inclnum - 99;
            RunAll(tr, eff, s, low, inclnum)(l) == RunSlice(tr, eff, s, low, inclnum, SliceOf(tr, inclnum).cls)(l)
  {
    WindowIs(tr, inclnum);
    SlicePreservesMeaning(tr, eff, s, inclnum, l);
  }

  /** `x` stores something wanted, or something a later changelist of the slice loads. */
  ghost predicate Matters(tr: Trace, x: nat, wanted: set<nat>, cls: set<nat>) {
    exists a :: a in Stores(Fetch(tr, x)) && a != STACK_POINTER && (a in wanted || LoadedLater(tr, x, a, cls))
  }

  ghost predicate LoadedLater(tr: Trace, x: nat, a: nat, cls: set<nat>) {
    exists y :: y in cls && y > x && a in Loads(Fetch(tr, y))
  }

  lemma {:induction false} WalkKeepsWhatMatters(tr: Trace, c: nat, stop: nat, wanted: set<nat>, x: nat)
    requires x in Walk(tr, c, stop, wanted).cls
    ensures Matters(tr, x, wanted, Walk(tr, c, stop, wanted).cls)
    decreases c
  {
    var kept := wanted - {STACK_POINTER};
    var overwritten := kept * Stores(Fetch(tr, c));
    var cls := Walk(tr, c, stop, wanted).cls;
    if overwritten == {} {
      WalkKeepsWhatMatters(tr, c - 1, stop, kept, x);
      var a :| a in Stores(Fetch(tr, x)) && a != STACK_POINTER && (a in kept || LoadedLater(tr, x, a, cls));
    } else if x == c {
      var a :| a in overwritten;
      assert a in Stores(Fetch(tr, x)) && a != STACK_POINTER && a in wanted;
    } else {
      var next := kept - overwritten + Loads(Fetch(tr, c));
      var rest := Walk(tr, c - 1, stop, next).cls;
      WalkKeepsWhatMatters(tr, c - 1, stop, next, x);
      var a :| a in Stores(Fetch(tr, x)) && a != STACK_POINTER && (a in next || LoadedLater(tr, x, a, rest));
      if a !in wanted {
        LaterInWider(tr, x, a, rest, c, cls);
      }
    }
  }

  lemma LaterInWider(tr: Trace, x: nat, a: nat, rest: set<nat>, c: nat, cls: set<nat>)
    requires cls == rest + {c} && x < c && (a in Loads(Fetch(tr, c)) || LoadedLater(tr, x, a, rest))
    ensures LoadedLater(tr, x, a, cls)
  {
    if a in Loads(Fetch(tr, c)) {
      assert c in cls;
    } else {
      var y :| y in rest && y > x && a in Loads(Fetch(tr, y));
      assert y in cls;
    }
  }

  /** Nothing is kept without need: every changelist of the slice stores what a later one of them, or the queried one, loads. */
  lemma SliceIsNeeded(tr: Trace, inclnum: nat, x: nat)
    requires x in SliceOf(tr, inclnum).cls
    ensures x < inclnum && Matters(tr, x, Loads(Fetch(tr, inclnum)), SliceOf(tr, inclnum).cls + {inclnum})
  {
    var loads := Loads(Fetch(tr, inclnum));
    var cls := Walk(tr, inclnum, Start(inclnum), loads).cls;
    WalkKeepsWhatMatters(tr, inclnum, Start(inclnum), loads, x);
    var a :| a in Stores(Fetch(tr, x)) && a != STACK_POINTER && (a in loads || LoadedLater(tr, x, a, cls));
    if a !in loads {
      var y :| y in cls && y > x && a in Loads(Fetch(tr, y));
      assert y in SliceOf(tr, inclnum).cls + {inclnum};
      assert LoadedLater(tr, x, a, SliceOf(tr, inclnum).cls + {inclnum});
    }
  }

  /** Changelist 1 stores the stack pointer, changelist 2 loads it. */
  function StackTrace(c: nat): seq<Record> {
    if c == 2 then [Load(Reg(STACK_POINTER))] else [Store(Reg(STACK_POINTER))]
  }

  lemma StackSlice()
    ensures SliceOf(StackTrace, 2) == Slice(1, {})
  {
    var loads := Loads([Load(Reg(STACK_POINTER))]);
    assert loads - {STACK_POINTER} == {};
    var none: set<nat> := {};
    assert none - {STACK_POINTER} == none;
    assert Walk(StackTrace, 0, 0, none) == Slice(1, {});
    assert Walk(StackTrace, 1, 0, none) == Slice(1, {});
    assert Walk(StackTrace, 2, 0, loads) == Slice(1, {});
  }

  /** If the stack pointer's location is stored by a changelist nothing else asks for, it is missed. */
  lemma UnfollowedStackIsMissed(eff: Effect, s: State)
    requires eff(1, Reg(STACK_POINTER), map[]) != s(Reg(STACK_POINTER))
    ensures var sl, l := SliceOf(StackTrace, 2), Reg(STACK_POINTER);
            l in LoadLocs(StackTrace(2))
            && RunAll(StackTrace, eff, s, sl.low, 2)(l) != RunSlice(StackTrace, eff, s, sl.low, 2, sl.cls)(l)
  {
    StackSlice();
    var l := Reg(STACK_POINTER);
    assert Load(l) in StackTrace(2) && Store(l) in StackTrace(1);
    assert LoadLocs(StackTrace(1)) == {};
    assert View(s, {}) == map[];
    assert RunAll(StackTrace, eff, s, 1, 2) == Exec(StackTrace, eff, 1, RunAll(StackTrace, eff, s, 1, 1));
  }

  /** Changelist 1 stores register 4, changelist 2 memory at 4, and changelist 3 loads the register. */
  function AliasTrace(c: nat): seq<Record> {
    if c == 1 then [Store(Reg(4))] else if c == 2 then [Store(Mem(4))] else if c == 3 then [Load(Reg(4))] else []
  }

  lemma AliasSlice()
    ensures SliceOf(AliasTrace, 3) == Slice(1, {2})
  {
    var none: set<nat> := {};
    assert Loads([Load(Reg(4))]) == {4} && Stores([Load(Reg(4))]) == {} && Loads([Store(Mem(4))]) == {} && Stores([Store(Mem(4))]) == {4};
    assert {4} - {STACK_POINTER} == {4} && none - {STACK_POINTER} == none;
    assert Walk(AliasTrace, 1, 0, none) == Slice(1, {});
    assert {4} - {4} + {} == none;
    assert Walk(AliasTrace, 2, 0, {4}) == Slice(1, {2});
    assert Walk(AliasTrace, 3, 0, {4}) == Slice(1, {2});
  }

  lemma AliasNeeded()
    ensures Needed(AliasTrace, 1, 3, {Reg(4)}) == {1}
  {
    assert StoreLocs(AliasTrace(2)) == {Mem(4)} && StoreLocs(AliasTrace(1)) == {Reg(4)};
    assert {Reg(4)} * {Mem(4)} == {};
    assert Reg(4) in {Reg(4)} * StoreLocs(AliasTrace(1));
    NeededUnfolds(AliasTrace, 1, 1, {Reg(4)});
    NeededUnfolds(AliasTrace, 1, 2, {Reg(4)});
  }

  /** Where a register and memory share a number, the slicer takes the one's store for the other's. */
  lemma AliasIsMissed()
    ensures WindowLow(AliasTrace, 3) == 1 && Needed(AliasTrace, 1, 3, {Reg(4)}) == {1} && !PreservesMeaning(AliasTrace, 3)
  {
    AliasSlice();
    AliasNeeded();
    assert WindowLow(AliasTrace, 3) == 1 by {
      WalkLow(AliasTrace, 3, 0, Loads(Fetch(AliasTrace, 3)));
    }
    assert LoadLocs(AliasTrace(3)) == {Reg(4)};
    assert 1 !in {2};
    UnnoticedIff(AliasTrace, 1, 3, {Reg(4)}, {2});
  }
}
