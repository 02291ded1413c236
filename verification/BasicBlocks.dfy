/** Dynamic basic blocks: cutting an executed flow of instructions into blocks. */
module BasicBlocks {
  import opened Prelude
  import opened Flow

  /** Instructions `lo` to `hi - 1` of the flow. */
  datatype Range = Range(lo: nat, hi: nat)

  datatype BlockInfo = BlockInfo(clstart: nat, clend: nat, start: nat, end: nat)

  function Describe(flow: seq<Ins>, r: Range): BlockInfo
    requires r.lo < r.hi <= |flow|
  {
    BlockInfo(flow[r.lo].clnum, flow[r.hi - 1].clnum, flow[r.lo].address, flow[r.hi - 1].address)
  }

  // ---------- which addresses start a block ----------

  /** The address control came from; None for the first instruction. */
  function Prev(flow: seq<Ins>, i: nat): Option<nat>
    requires i < |flow|
  {
    if i == 0 then None else Some(flow[i - 1].address)
  }

  /** `a` was entered from two places. */
  ghost predicate TwoPrevs(flow: seq<Ins>, a: nat) {
    exists i, j :: 0 <= i < |flow| && 0 <= j < |flow| && flow[i].address == a && flow[j].address == a && Prev(flow, i) != Prev(flow, j)
  }

  /** `a` was entered from a place that also led elsewhere. */
  ghost predicate ForkTarget(flow: seq<Ins>, a: nat) {
    exists i, j :: 0 <= i < |flow| && 0 <= j < |flow| && flow[i].address == a && flow[j].address != a && Prev(flow, i) == Prev(flow, j)
  }

  ghost predicate JumpTarget(flow: seq<Ins>, a: nat) {
    exists i :: 0 < i < |flow| && flow[i - 1].address + flow[i - 1].length != flow[i].address && flow[i].address == a
  }

  ghost predicate IsStart(flow: seq<Ins>, strict: bool, a: nat) {
    (strict && JumpTarget(flow, a)) || TwoPrevs(flow, a) || ForkTarget(flow, a)
  }

  ghost predicate StartsAre(flow: seq<Ins>, strict: bool, starts: set<nat>) {
    forall a {:trigger IsStart(flow, strict, a)} :: a in starts <==> IsStart(flow, strict, a)
  }

  /** After equal addresses comes the same instruction, unless both successors start blocks. */
  lemma SameNext(flow: seq<Ins>, strict: bool, starts: set<nat>, x: nat, y: nat)
    requires StartsAre(flow, strict, starts) && x + 1 < |flow| && y + 1 < |flow| && flow[x].address == flow[y].address
    ensures flow[x + 1].address == flow[y + 1].address || (flow[x + 1].address in starts && flow[y + 1].address in starts)
  {
    if flow[x + 1].address != flow[y + 1].address {
      assert Prev(flow, x + 1) == Prev(flow, y + 1);
      assert ForkTarget(flow, flow[x + 1].address) && ForkTarget(flow, flow[y + 1].address);
      assert IsStart(flow, strict, flow[x + 1].address) && IsStart(flow, strict, flow[y + 1].address);
    }
  }

  /** Before equal addresses that start no block came the same instruction. */
  lemma SamePrev(flow: seq<Ins>, strict: bool, starts: set<nat>, x: nat, y: nat)
    requires StartsAre(flow, strict, starts) && x < |flow| && y < |flow| && flow[x].address == flow[y].address
    ensures Prev(flow, x) == Prev(flow, y) || flow[x].address in starts
  {
    if Prev(flow, x) != Prev(flow, y) {
      assert TwoPrevs(flow, flow[x].address);
      assert IsStart(flow, strict, flow[x].address);
    }
  }

  // ---------- cutting ----------

  /** Where the block of instruction `x` begins. */
  function Lo(flow: seq<Ins>, starts: set<nat>, x: nat): (lo: nat)
    requires x < |flow|
    ensures lo <= x
  {
    if x == 0 || flow[x].address in starts then x else Lo(flow, starts, x - 1)
  }

  /** Where it ends. */
  function Hi(flow: seq<Ins>, starts: set<nat>, x: nat): (hi: nat)
    requires x < |flow|
    ensures x < hi <= |flow|
    decreases |flow| - x
  {
    if x + 1 == |flow| || flow[x + 1].address in starts then x + 1 else Hi(flow, starts, x + 1)
  }

  /** The blocks from `lo` on. */
  function Ranges(flow: seq<Ins>, starts: set<nat>, lo: nat): seq<Range>
    requires lo < |flow|
    decreases |flow| - lo
  {
    var hi := Hi(flow, starts, lo);
    [Range(lo, hi)] + if hi == |flow| then [] else Ranges(flow, starts, hi)
  }

  /** None is the exception raised when the first address is itself a block start, or there is none. */
  method CutBlocks(flow: seq<Ins>, starts: set<nat>) returns (r: Option<seq<Range>>)
    ensures r == if flow == [] || flow[0].address in starts then None else Some(Ranges(flow, starts, 0))
  {
    if flow == [] || flow[0].address in starts {
      return None;
    }
    var rs: seq<Range>, lo := [], 0;
    for i := 1 to |flow|
      invariant 0 <= lo < i && Hi(flow, starts, lo) == Hi(flow, starts, i - 1)
      invariant rs + Ranges(flow, starts, lo) == Ranges(flow, starts, 0)
    {
      if flow[i].address in starts {
        assert rs + Ranges(flow, starts, lo) == rs + [Range(lo, i)] + Ranges(flow, starts, i);
        rs := rs + [Range(lo, i)];
        lo := i;
      }
    }
    assert Ranges(flow, starts, lo) == [Range(lo, |flow|)];
    r := Some(rs + [Range(lo, |flow|)]);
  }

  /** The blocks follow one another, begin at block starts and contain no other. */
  lemma {:induction false} RangesTile(flow: seq<Ins>, starts: set<nat>, lo: nat, k: nat)
    requires lo < |flow| && k < |Ranges(flow, starts, lo)|
    ensures var rs := Ranges(flow, starts, lo);
            && rs[0].lo == lo && rs[|rs| - 1].hi == |flow|
            && rs[k].lo < rs[k].hi <= |flow| && rs[k].hi == Hi(flow, starts, rs[k].lo)
            && (k > 0 ==> rs[k - 1].hi == rs[k].lo && flow[rs[k].lo].address in starts)
    decreases |flow| - lo
  {
    var hi := Hi(flow, starts, lo);
    HiIsCut(flow, starts, lo);
    if hi < |flow| {
      RangesTile(flow, starts, hi, if k > 0 then k - 1 else 0);
    }
  }

  lemma {:induction false} HiIsCut(flow: seq<Ins>, starts: set<nat>, x: nat)
    requires x < |flow|
    ensures Hi(flow, starts, x) == |flow| || flow[Hi(flow, starts, x)].address in starts
    ensures forall y :: x < y < Hi(flow, starts, x) ==> flow[y].address !in starts
    decreases |flow| - x
  {
    if Hi(flow, starts, x) != x + 1 {
      HiIsCut(flow, starts, x + 1);
    }
  }

  // ---------- what the blocks are ----------

  /** From equal addresses on, execution goes the same way to the end of the block, or of the flow. */
  ghost predicate InStep(flow: seq<Ins>, starts: set<nat>, x: nat, y: nat, d: nat)
    requires x < |flow| && y < |flow|
  {
    x + d < Hi(flow, starts, x) && y + d < |flow| ==>
      y + d < Hi(flow, starts, y) && flow[x + d].address == flow[y + d].address
  }

  lemma {:induction false} EqualGoTogether(flow: seq<Ins>, strict: bool, starts: set<nat>, x: nat, y: nat, d: nat)
    requires StartsAre(flow, strict, starts) && x < |flow| && y < |flow| && flow[x].address == flow[y].address
    ensures InStep(flow, starts, x, y, d)
    decreases d
  {
    if d > 0 && x + d < Hi(flow, starts, x) && y + d < |flow| {
      SameNext(flow, strict, starts, x, y);
      EqualGoTogether(flow, strict, starts, x + 1, y + 1, d - 1);
      OneStepMore(flow, starts, x, y, d);
    }
  }

  lemma OneStepMore(flow: seq<Ins>, starts: set<nat>, x: nat, y: nat, d: nat)
    requires d > 0 && x < |flow| && y < |flow| && x + d < Hi(flow, starts, x) && y + d < |flow|
    requires flow[x + 1].address == flow[y + 1].address && InStep(flow, starts, x + 1, y + 1, d - 1)
    ensures InStep(flow, starts, x, y, d)
  {
    assert Hi(flow, starts, x) == Hi(flow, starts, x + 1) && Hi(flow, starts, y) == Hi(flow, starts, y + 1);
  }

  /** Two blocks with the same start, neither of them the last, execute the same addresses. */
  lemma SameStartSameBlock(flow: seq<Ins>, strict: bool, starts: set<nat>, x: nat, y: nat, d: nat)
    requires StartsAre(flow, strict, starts) && x < |flow| && y < |flow| && flow[x].address == flow[y].address
    requires Hi(flow, starts, x) < |flow| && Hi(flow, starts, y) < |flow|
    ensures Hi(flow, starts, x) - x == Hi(flow, starts, y) - y
    ensures x + d < Hi(flow, starts, x) ==> flow[x + d].address == flow[y + d].address
  {
    EqualGoTogether(flow, strict, starts, x, y, d);
    EqualGoTogether(flow, strict, starts, x, y, Hi(flow, starts, y) - y);
    EqualGoTogether(flow, strict, starts, y, x, Hi(flow, starts, x) - x);
    assert InStep(flow, starts, x, y, d);
    assert InStep(flow, starts, x, y, Hi(flow, starts, y) - y);
    assert InStep(flow, starts, y, x, Hi(flow, starts, x) - x);
  }

  /** Every address belongs to blocks with a single start address. */
  lemma {:induction false} OneStartPerAddress(flow: seq<Ins>, strict: bool, starts: set<nat>, x: nat, y: nat)
    requires StartsAre(flow, strict, starts) && x < |flow| && y < |flow| && flow[x].address == flow[y].address
    ensures flow[Lo(flow, starts, x)].address == flow[Lo(flow, starts, y)].address
    decreases x
  {
    SamePrev(flow, strict, starts, x, y);
    if flow[x].address !in starts && x > 0 {
      OneStartPerAddress(flow, strict, starts, x - 1, y - 1);
    }
  }

  /** The first address starts a block, and the exception is raised, exactly when it is executed again. */
  lemma FirstIsStartIff(flow: seq<Ins>, strict: bool)
    requires flow != []
    ensures IsStart(flow, strict, flow[0].address) <==> exists i :: 0 < i < |flow| && flow[i].address == flow[0].address
  {
    var a := flow[0].address;
    if i :| 0 < i < |flow| && flow[i].address == a {
      assert Prev(flow, 0) != Prev(flow, i);
    }
  }

  // ---------- collecting the starts ----------

  /** Where control came from, for address `a`, among the first `n` instructions. */
  function Prevs(flow: seq<Ins>, n: nat, a: nat): set<Option<nat>>
    requires n <= |flow|
  {
    if n == 0 then {} else Prevs(flow, n - 1, a) + if flow[n - 1].address == a then {Prev(flow, n - 1)} else {}
  }

  /** Where control went, from `p`, among the first `n` instructions. */
  function Nexts(flow: seq<Ins>, n: nat, p: Option<nat>): set<nat>
    requires n <= |flow|
  {
    if n == 0 then {} else Nexts(flow, n - 1, p) + if Prev(flow, n - 1) == p then {flow[n - 1].address} else {}
  }

  function Entry<K, V>(m: map<K, set<V>>, k: K): set<V> {
    if k in m then m[k] else {}
  }

  lemma {:induction false} PrevsAre(flow: seq<Ins>, n: nat, a: nat, p: Option<nat>)
    requires n <= |flow|
    ensures p in Prevs(flow, n, a) <==> exists k :: 0 <= k < n && flow[k].address == a && Prev(flow, k) == p
  {
    if n > 0 {
      PrevsAre(flow, n - 1, a, p);
    }
  }

  lemma {:induction false} NextsAre(flow: seq<Ins>, n: nat, p: Option<nat>, a: nat)
    requires n <= |flow|
    ensures a in Nexts(flow, n, p) <==> exists k :: 0 <= k < n && flow[k].address == a && Prev(flow, k) == p
  {
    if n > 0 {
      NextsAre(flow, n - 1, p, a);
    }
  }

  lemma TwoElements<T>(s: set<T>, x: T, y: T)
    requires x in s && y in s && x != y
    ensures |s| > 1
  {
    assert {x, y} <= s;
    Smaller({x, y}, s);
  }

  lemma OneElement<T>(s: set<T>, x: T) returns (y: T)
    requires x in s && |s| > 1
    ensures y in s && y != x
  {
    assert |s - {x}| == |s| - 1;
    y :| y in s - {x};
  }

  lemma MergeIff(flow: seq<Ins>, a: nat)
    ensures |Prevs(flow, |flow|, a)| > 1 <==> TwoPrevs(flow, a)
  {
    var s := Prevs(flow, |flow|, a);
    if TwoPrevs(flow, a) {
      var i, j :| 0 <= i < |flow| && 0 <= j < |flow| && flow[i].address == a && flow[j].address == a && Prev(flow, i) != Prev(flow, j);
      PrevsAre(flow, |flow|, a, Prev(flow, i));
      PrevsAre(flow, |flow|, a, Prev(flow, j));
      TwoElements(s, Prev(flow, i), Prev(flow, j));
    } else if |s| > 1 {
      var x :| x in s;
      var y := OneElement(s, x);
      PrevsAre(flow, |flow|, a, x);
      PrevsAre(flow, |flow|, a, y);
    }
  }

  lemma ForkIff(flow: seq<Ins>, a: nat)
    ensures ForkTarget(flow, a) <==> exists p :: a in Nexts(flow, |flow|, p) && |Nexts(flow, |flow|, p)| > 1
  {
    if ForkTarget(flow, a) {
      var i, j :| 0 <= i < |flow| && 0 <= j < |flow| && flow[i].address == a && flow[j].address != a && Prev(flow, i) == Prev(flow, j);
      NextsAre(flow, |flow|, Prev(flow, i), a);
      NextsAre(flow, |flow|, Prev(flow, i), flow[j].address);
      TwoElements(Nexts(flow, |flow|, Prev(flow, i)), a, flow[j].address);
    } else if p :| a in Nexts(flow, |flow|, p) && |Nexts(flow, |flow|, p)| > 1 {
      var b := OneElement(Nexts(flow, |flow|, p), a);
      NextsAre(flow, |flow|, p, a);
      NextsAre(flow, |flow|, p, b);
    }
  }

  /** Everything the first pass learns about a flow. */
  datatype Edges = Edges(prevs: map<nat, set<Option<nat>>>, nexts: map<Option<nat>, set<nat>>, jumps: set<nat>)

  ghost predicate EdgesAre(flow: seq<Ins>, n: nat, e: Edges)
    requires n <= |flow|
  {
    && (forall a {:trigger Entry(e.prevs, a)} :: Entry(e.prevs, a) == Prevs(flow, n, a))
    && (forall p {:trigger Entry(e.nexts, p)} :: Entry(e.nexts, p) == Nexts(flow, n, p))
    && (forall a :: a in e.jumps <==> exists k :: 0 <= k < n && Jumps(flow, k) && flow[k].address == a)
  }

  function AddEdge(e: Edges, flow: seq<Ins>, i: nat): Edges
    requires i < |flow|
  {
    var address, prev := flow[i].address, Prev(flow, i);
    Edges(e.prevs[address := Entry(e.prevs, address) + {prev}],
          e.nexts[prev := Entry(e.nexts, prev) + {address}],
          if Jumps(flow, i) then e.jumps + {address} else e.jumps)
  }

  lemma AddEdgeKeeps(flow: seq<Ins>, i: nat, e: Edges)
    requires i < |flow| && EdgesAre(flow, i, e)
    ensures EdgesAre(flow, i + 1, AddEdge(e, flow, i))
  {
    var e' := AddEdge(e, flow, i);
    forall a: nat ensures Entry(e'.prevs, a) == Prevs(flow, i + 1, a) {
      assert Entry(e.prevs, a) == Prevs(flow, i, a);
    }
    forall p: Option<nat> ensures Entry(e'.nexts, p) == Nexts(flow, i + 1, p) {
      assert Entry(e.nexts, p) == Nexts(flow, i, p);
    }
  }

  function Merges(e: Edges): set<nat> {
    set a | a in e.prevs && |e.prevs[a]| > 1
  }

  function Forks(e: Edges): set<nat> {
    set p, a | p in e.nexts && |e.nexts[p]| > 1 && a in e.nexts[p] :: a
  }

  lemma MergesAre(flow: seq<Ins>, e: Edges, a: nat)
    requires EdgesAre(flow, |flow|, e)
    ensures a in Merges(e) <==> TwoPrevs(flow, a)
  {
    MergeIff(flow, a);
    assert Entry(e.prevs, a) == Prevs(flow, |flow|, a);
  }

  lemma ForksAre(flow: seq<Ins>, e: Edges, a: nat)
    requires EdgesAre(flow, |flow|, e)
    ensures a in Forks(e) <==> ForkTarget(flow, a)
  {
    ForkIff(flow, a);
    if a in Forks(e) {
      var p :| p in e.nexts && |e.nexts[p]| > 1 && a in e.nexts[p];
      assert Entry(e.nexts, p) == Nexts(flow, |flow|, p);
    }
    if p :| a in Nexts(flow, |flow|, p) && |Nexts(flow, |flow|, p)| > 1 {
      assert Entry(e.nexts, p) == Nexts(flow, |flow|, p);
      assert a in Forks(e);
    }
  }

  lemma JumpsAre(flow: seq<Ins>, e: Edges, a: nat)
    requires EdgesAre(flow, |flow|, e)
    ensures a in e.jumps <==> JumpTarget(flow, a)
  {
  }

  function Starts(e: Edges, strict: bool): set<nat> {
    (if strict then e.jumps else {}) + Merges(e) + Forks(e)
  }

  lemma StartsFound(flow: seq<Ins>, strict: bool, e: Edges)
    requires EdgesAre(flow, |flow|, e)
    ensures StartsAre(flow, strict, Starts(e, strict))
  {
    forall a: nat ensures a in Starts(e, strict) <==> IsStart(flow, strict, a) {
      JumpsAre(flow, e, a);
      MergesAre(flow, e, a);
      ForksAre(flow, e, a);
    }
  }

  method FindStarts(flow: seq<Ins>, strict: bool) returns (starts: set<nat>)
    ensures StartsAre(flow, strict, starts)
  {
    var e := Edges(map[], map[], {});
    for i := 0 to |flow|
      invariant EdgesAre(flow, i, e)
    {
      AddEdgeKeeps(flow, i, e);
      e := AddEdge(e, flow, i);
    }
    starts := Starts(e, strict);
    StartsFound(flow, strict, e);
  }

  /** The analysis: it fails on an empty flow and on one that comes back to its first address, and only then. */
  method GetBlocks(flow: seq<Ins>, strict: bool) returns (r: Option<seq<BlockInfo>>, starts: set<nat>)
    ensures StartsAre(flow, strict, starts)
    ensures r.None? <==> flow == [] || exists i :: 0 < i < |flow| && flow[i].address == flow[0].address
    ensures r.Some? ==> |r.value| == |Ranges(flow, starts, 0)|
    ensures r.Some? ==> forall k :: 0 <= k < |r.value| ==>
              var b, c := r.value[k], Ranges(flow, starts, 0)[k];
              && c.lo < c.hi <= |flow|
              && b.clstart == flow[c.lo].clnum && b.start == flow[c.lo].address
              && b.clend == flow[c.hi - 1].clnum && b.end == flow[c.hi - 1].address
  {
    starts := FindStarts(flow, strict);
    var cut := CutBlocks(flow, starts);
    if flow != [] {
      FirstIsStartIff(flow, strict);
      assert flow[0].address in starts <==> IsStart(flow, strict, flow[0].address);
    }
    if cut.None? {
      return None, starts;
    }
    var rs, blocks := cut.value, [];
    for k := 0 to |rs|
      invariant |blocks| == k
      invariant forall m :: 0 <= m < k ==> rs[m].lo < rs[m].hi <= |flow| && blocks[m] == Describe(flow, rs[m])
    {
      RangesTile(flow, starts, 0, k);
      blocks := blocks + [Describe(flow, rs[k])];
    }
    r := Some(blocks);
  }
}
