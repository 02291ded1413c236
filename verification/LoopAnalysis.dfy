/** The loop analysis: number the blocks, then compress until no loop is left. */
module LoopAnalysis {
  import opened Prelude
  import opened LoopCompression
  import opened LoopReports

  /** Equal numbers mean equal address ranges, numbered in the order of their first appearance. */
  ghost predicate Numbered(blocks: seq<Block>, trace: seq<nat>, keys: seq<(nat, nat)>) {
    && |trace| == |blocks|
    && (forall i :: 0 <= i < |trace| ==> trace[i] < |keys| && keys[trace[i]] == (blocks[i].start, blocks[i].end))
    && (forall i, j :: 0 <= i < j < |keys| ==> keys[i] != keys[j])
    && (forall k {:trigger HasFirst(trace, k)} :: 0 <= k < |keys| ==> HasFirst(trace, k))
  }

  /** Number `k` is handed out after all smaller ones. */
  ghost predicate HasFirst(trace: seq<nat>, k: nat) {
    exists i :: 0 <= i < |trace| && trace[i] == k && forall j :: 0 <= j < i ==> trace[j] < k
  }

  lemma HasFirstStays(trace: seq<nat>, x: nat, k: nat)
    requires HasFirst(trace, k)
    ensures HasFirst(trace + [x], k)
  {
    var i :| 0 <= i < |trace| && trace[i] == k && forall j :: 0 <= j < i ==> trace[j] < k;
    assert (trace + [x])[i] == k;
  }

  lemma HasFirstNow(trace: seq<nat>, k: nat)
    requires forall j :: 0 <= j < |trace| ==> trace[j] < k
    ensures HasFirst(trace + [k], k)
  {
    assert (trace + [k])[|trace|] == k;
  }

  function IndexOf(keys: seq<(nat, nat)>, key: (nat, nat)): (i: nat)
    requires key in keys
    ensures i < |keys| && keys[i] == key
  {
    if keys[0] == key then 0 else 1 + IndexOf(keys[1..], key)
  }

  method NumberBlocks(blocks: seq<Block>) returns (trace: seq<nat>, keys: seq<(nat, nat)>)
    ensures Numbered(blocks, trace, keys)
  {
    trace, keys := [], [];
    for i := 0 to |blocks|
      invariant |trace| == i
      invariant forall m :: 0 <= m < i ==> trace[m] < |keys| && keys[trace[m]] == (blocks[m].start, blocks[m].end)
      invariant forall m, n :: 0 <= m < n < |keys| ==> keys[m] != keys[n]
      invariant forall k {:trigger HasFirst(trace, k)} :: 0 <= k < |keys| ==> HasFirst(trace, k)
    {
      var h := (blocks[i].start, blocks[i].end);
      ghost var known := |keys|;
      if h !in keys {
        keys := keys + [h];
      }
      var number := IndexOf(keys, h);
      forall k: nat | k < |keys| ensures HasFirst(trace + [number], k) {
        if k < known {
          HasFirstStays(trace, number, k);
        } else {
          HasFirstNow(trace, k);
        }
      }
      trace := trace + [number];
    }
  }

  /** Where a compression stands. */
  datatype Stage = Stage(bb: seq<nat>, ab: seq<nat>, script: seq<Rewrite>, loops: seq<Loop>)

  ghost predicate Sound(blocks: seq<Block>, trace: seq<nat>, s: Stage) {
    && Faithful(trace, s.bb, s.ab, s.script) && Leads(trace, s.script, s.bb)
    && Reported(blocks, s.loops, s.script) && s.ab == PositionsBefore(|blocks|, s.script, |s.script|)
  }

  function Report(blocks: seq<Block>, ab: seq<nat>, w: Rewrite): Loop
    requires w.len >= 1 && w.at + w.len <= w.end < |ab| && forall m :: 0 <= m < |ab| ==> ab[m] < |blocks|
  {
    Loop(blocks[ab[w.at]].clstart, blocks[ab[w.at + w.len - 1]].clend, blocks[ab[w.end]].clend,
         ab[w.at], ab[w.at] + w.len - 1, w.count)
  }

  function Applied(blocks: seq<Block>, s: Stage, w: Rewrite): Stage
    requires w.len >= 1 && w.at + w.len <= w.end < |s.ab| == |s.bb| && forall m :: 0 <= m < |s.ab| ==> s.ab[m] < |blocks|
  {
    Stage(Fold(s.bb, w), Fold(s.ab, w), s.script + [w], s.loops + [Report(blocks, s.ab, w)])
  }

  lemma AppliedReports(blocks: seq<Block>, s: Stage, w: Rewrite)
    requires Reported(blocks, s.loops, s.script) && s.ab == PositionsBefore(|blocks|, s.script, |s.script|)
    requires w.len >= 1 && w.at + w.len <= w.end < |s.ab| == |s.bb| && forall m :: 0 <= m < |s.ab| ==> s.ab[m] < |blocks|
    ensures var t := Applied(blocks, s, w);
            Reported(blocks, t.loops, t.script) && t.ab == PositionsBefore(|blocks|, t.script, |t.script|)
  {
    ReportedSnoc(blocks, s.loops, s.script, Report(blocks, s.ab, w), w);
    PositionsOfPrefix(|blocks|, s.script, [w], |s.script|);
  }

  lemma AppliedIsSound(trace: seq<nat>, blocks: seq<Block>, s: Stage, w: Rewrite)
    requires |trace| == |blocks| && Sound(blocks, trace, s) && IsNext(s.bb, w) && w.end < |s.ab|
    ensures Sound(blocks, trace, Applied(blocks, s, w)) && |Applied(blocks, s, w).bb| < |s.bb|
  {
    FoldKeepsFaithful(trace, s.bb, s.ab, s.script, w);
    AppliedReports(blocks, s, w);
    LeadsOn(trace, s.script, s.bb, w);
  }

  datatype Progress = NothingFound | PastTheEnd | Rewritten

  method RewriteOnce(blocks: seq<Block>, ghost trace: seq<nat>, s: Stage) returns (s': Stage, p: Progress)
    requires |trace| == |blocks| && Sound(blocks, trace, s)
    ensures Sound(blocks, trace, s')
    ensures p.Rewritten? ==> |s'.bb| < |s.bb|
    ensures !p.Rewritten? ==> s' == s
    ensures p.NothingFound? ==> LoopFree(s.bb)
    ensures p.PastTheEnd? ==> MeetsEnd(s.bb) && !RareEnding(trace)
  {
    var found := FindRewrite(s.bb);
    if found.None? {
      return s, NothingFound;
    }
    var w := found.value;
    if w.end >= |s.ab| {
      TailLoopIsNotRare(trace, s.bb, s.ab, w);
      return s, PastTheEnd;
    }
    AppliedIsSound(trace, blocks, s, w);
    return Applied(blocks, s, w), Rewritten;
  }

  /**
   `failed` is the exception of asking for the block that follows a loop which ends
   the trace; what has been compressed up to there is still faithful.
   */
  method DoLoopAnalysis(blocks: seq<Block>) returns (s: Stage, failed: bool, trace: seq<nat>, keys: seq<(nat, nat)>)
    ensures Numbered(blocks, trace, keys) && Sound(blocks, trace, s)
    ensures failed <==> RunsIntoEnd(trace)
    ensures !failed ==> LoopFree(s.bb)
    ensures failed ==> MeetsEnd(s.bb) && !RareEnding(trace)
  {
    trace, keys := NumberBlocks(blocks);
    s := Stage(trace, Positions(|blocks|), [], []);
    var didUpdate := true;
    failed := false;
    while didUpdate
      invariant Sound(blocks, trace, s)
      invariant !didUpdate ==> if failed then MeetsEnd(s.bb) && !RareEnding(trace) else LoopFree(s.bb)
      decreases |s.bb|, didUpdate
    {
      var p;
      s, p := RewriteOnce(blocks, trace, s);
      didUpdate, failed := p.Rewritten?, p.PastTheEnd?;
    }
    FailsIff(trace, s.script, s.bb);
  }
}
