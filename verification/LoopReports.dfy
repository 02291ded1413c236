/**
 What the loop analysis reports, tied to the original trace.

 Rewrites are made on what earlier ones have left; `PositionsBefore` says which positions of the
 original trace that is.
 */
module LoopReports {
  import opened LoopCompression

  datatype Block = Block(start: nat, end: nat, clstart: nat, clend: nat)

  /** What the analysis reports about a loop; blockStart and blockEnd index the original blocks. */
  datatype Loop = Loop(clstart: nat, clendOne: nat, clend: nat, blockStart: nat, blockEnd: nat, count: nat)

  // ---------- which positions are left ----------

  function Positions(n: nat): (ab: seq<nat>)
    ensures |ab| == n && forall i :: 0 <= i < n ==> ab[i] == i
  {
    seq(n, i => i)
  }

  predicate InRange(ab: seq<nat>, w: Rewrite) {
    1 <= w.len && w.at + w.len <= w.end <= |ab|
  }

  /** The positions of the original trace that are left when rewrite `k` is made. */
  function PositionsBefore(n: nat, script: seq<Rewrite>, k: nat): seq<nat>
    requires k <= |script|
  {
    if k == 0 then Positions(n)
    else
      var ab := PositionsBefore(n, script, k - 1);
      if InRange(ab, script[k - 1]) then Fold(ab, script[k - 1]) else ab
  }

  ghost predicate Ascending(ab: seq<nat>) {
    forall i, j :: 0 <= i < j < |ab| ==> ab[i] < ab[j]
  }

  lemma {:induction false} PositionsAscend(n: nat, script: seq<Rewrite>, k: nat)
    requires k <= |script|
    ensures Ascending(PositionsBefore(n, script, k))
  {
    if k > 0 {
      PositionsAscend(n, script, k - 1);
    }
  }

  lemma {:induction false} PositionsOfPrefix(n: nat, script: seq<Rewrite>, more: seq<Rewrite>, k: nat)
    requires k <= |script|
    ensures PositionsBefore(n, script + more, k) == PositionsBefore(n, script, k)
  {
    if k > 0 {
      PositionsOfPrefix(n, script, more, k - 1);
      assert (script + more)[k - 1] == script[k - 1];
    }
  }

  /** Rewrite `k` takes position `x` out. */
  ghost predicate Removes(n: nat, script: seq<Rewrite>, k: nat, x: nat)
    requires k < |script|
  {
    var ab, w := PositionsBefore(n, script, k), script[k];
    InRange(ab, w) && x in ab[w.at + w.len..w.end]
  }

  lemma FoldRemoves(ab: seq<nat>, w: Rewrite, x: nat)
    requires Ascending(ab) && InRange(ab, w)
    ensures x in Fold(ab, w) <==> x in ab && x !in ab[w.at + w.len..w.end]
  {
    var a, b := w.at + w.len, w.end;
    assert ab == ab[..a] + ab[a..b] + ab[b..];
    assert Fold(ab, w) == ab[..a] + ab[b..];
  }

  ghost predicate RemovedBefore(n: nat, script: seq<Rewrite>, k: nat, x: nat)
    requires k <= |script|
  {
    exists m :: 0 <= m < k && Removes(n, script, m, x)
  }

  /** Every position is left, or has been taken out by exactly such a rewrite. */
  lemma {:induction false} LeftUnlessRemoved(n: nat, script: seq<Rewrite>, k: nat, x: nat)
    requires k <= |script| && x < n
    ensures x in PositionsBefore(n, script, k) <==> !RemovedBefore(n, script, k, x)
  {
    if k == 0 {
      assert Positions(n)[x] == x;
    } else {
      LeftUnlessRemoved(n, script, k - 1, x);
      LeftByOne(n, script, k - 1, x);
      RemovedByOneMore(n, script, k - 1, x);
    }
  }

  lemma LeftByOne(n: nat, script: seq<Rewrite>, k: nat, x: nat)
    requires k < |script|
    ensures x in PositionsBefore(n, script, k + 1) <==> x in PositionsBefore(n, script, k) && !Removes(n, script, k, x)
  {
    var ab, w := PositionsBefore(n, script, k), script[k];
    PositionsAscend(n, script, k);
    if InRange(ab, w) {
      FoldRemoves(ab, w, x);
    }
  }

  lemma RemovedByOneMore(n: nat, script: seq<Rewrite>, k: nat, x: nat)
    requires k < |script|
    ensures RemovedBefore(n, script, k + 1, x) <==> RemovedBefore(n, script, k, x) || Removes(n, script, k, x)
  {
    if m :| 0 <= m < k + 1 && Removes(n, script, m, x) && m != k {
      assert RemovedBefore(n, script, k, x);
    }
  }

  // ---------- reports ----------

  /** `l` tells of the copies `w` covers, the positions left being `ab`. */
  ghost predicate TellsOf(blocks: seq<Block>, ab: seq<nat>, l: Loop, w: Rewrite) {
    && InRange(ab, w) && w.end < |ab|
    && (forall m :: 0 <= m < |ab| ==> ab[m] < |blocks|)
    && l.count == w.count && l.blockStart == ab[w.at] && l.blockEnd == l.blockStart + w.len - 1
    && l.clstart == blocks[ab[w.at]].clstart          // where the first copy starts
    && l.clendOne == blocks[LastOfFirst(ab, w)].clend  // where it ends
    && l.clend == blocks[ab[w.end]].clend             // where the block after the last copy ends
  }

  /** The position of the first copy's last block. */
  function LastOfFirst(ab: seq<nat>, w: Rewrite): nat
    requires InRange(ab, w)
  {
    ab[w.at + w.len - 1]
  }

  /** The k-th report tells of the k-th rewrite. */
  ghost predicate ReportAt(blocks: seq<Block>, loops: seq<Loop>, script: seq<Rewrite>, k: nat)
    requires k < |loops| == |script|
  {
    TellsOf(blocks, PositionsBefore(|blocks|, script, k), loops[k], script[k])
  }

  ghost predicate Reported(blocks: seq<Block>, loops: seq<Loop>, script: seq<Rewrite>) {
    |loops| == |script| && forall k {:trigger ReportAt(blocks, loops, script, k)} ::
      0 <= k < |loops| ==> ReportAt(blocks, loops, script, k)
  }

  lemma ReportedSnoc(blocks: seq<Block>, loops: seq<Loop>, script: seq<Rewrite>, l: Loop, w: Rewrite)
    requires Reported(blocks, loops, script) && TellsOf(blocks, PositionsBefore(|blocks|, script, |script|), l, w)
    ensures Reported(blocks, loops + [l], script + [w])
  {
    forall k | 0 <= k <= |loops| ensures ReportAt(blocks, loops + [l], script + [w], k) {
      PositionsOfPrefix(|blocks|, script, [w], k);
      if k < |loops| {
        assert ReportAt(blocks, loops, script, k);
      }
    }
  }

  // ---------- where a report can mislead ----------

  lemma {:induction false} PositionsSpread(ab: seq<nat>, i: nat, d: nat)
    requires Ascending(ab) && i + d < |ab|
    ensures ab[i] + d <= ab[i + d]
  {
    if d > 0 {
      PositionsSpread(ab, i, d - 1);
    }
  }

  ghost predicate NoneMissing(ab: seq<nat>, p: nat, q: nat) {
    forall x :: p < x < q ==> x in ab
  }

  lemma {:induction false} NothingBetween(ab: seq<nat>, i: nat, d: nat)
    requires Ascending(ab) && i + d < |ab| && NoneMissing(ab, ab[i], ab[i + d])
    ensures ab[i + d] == ab[i] + d
  {
    if d > 0 {
      NothingBetween(ab, i, d - 1);
      if ab[i + d] > ab[i] + d {
        assert ab[i] + d in ab;
        var m :| 0 <= m < |ab| && ab[m] == ab[i] + d;
      }
    }
  }

  /** Neighbours in what is left are as far apart as in the original trace exactly when nothing between them is missing. */
  lemma ConsecutiveIff(ab: seq<nat>, i: nat, d: nat)
    requires Ascending(ab) && i + d < |ab|
    ensures ab[i + d] == ab[i] + d <==> NoneMissing(ab, ab[i], ab[i + d])
  {
    if NoneMissing(ab, ab[i], ab[i + d]) {
      NothingBetween(ab, i, d);
    }
    if ab[i + d] == ab[i] + d {
      forall x | ab[i] < x < ab[i + d] ensures x in ab {
        var m := x - ab[i];
        PositionsSpread(ab, i, m);
        PositionsSpread(ab, i + m, d - m);
        assert ab[i + m] == x;
      }
    }
  }

  /** An earlier rewrite took out a position between `p` and `q`. */
  ghost predicate FoldedInside(n: nat, script: seq<Rewrite>, k: nat, p: nat, q: nat)
    requires k <= |script|
  {
    exists x :: p < x < q && RemovedBefore(n, script, k, x)
  }

  /** blockEnd is the first copy's last block if and only if no earlier rewrite has folded inside that copy; otherwise it falls short. */
  lemma BlockEndIff(blocks: seq<Block>, loops: seq<Loop>, script: seq<Rewrite>, k: nat)
    requires Reported(blocks, loops, script) && k < |loops|
    ensures var ab := PositionsBefore(|blocks|, script, k);
            && InRange(ab, script[k])
            && var last := LastOfFirst(ab, script[k]);
               && loops[k].blockEnd <= last
               && (loops[k].blockEnd == last <==> !FoldedInside(|blocks|, script, k, loops[k].blockStart, last))
  {
    var n, ab, w := |blocks|, PositionsBefore(|blocks|, script, k), script[k];
    assert ReportAt(blocks, loops, script, k);
    PositionsAscend(n, script, k);
    FirstCopyIff(ab, w);
    MissingIff(n, script, k, ab[w.at], LastOfFirst(ab, w));
  }

  lemma FirstCopyIff(ab: seq<nat>, w: Rewrite)
    requires Ascending(ab) && InRange(ab, w)
    ensures ab[w.at] + w.len - 1 <= LastOfFirst(ab, w)
    ensures ab[w.at] + w.len - 1 == LastOfFirst(ab, w) <==> NoneMissing(ab, ab[w.at], LastOfFirst(ab, w))
  {
    PositionsSpread(ab, w.at, w.len - 1);
    ConsecutiveIff(ab, w.at, w.len - 1);
  }

  lemma MissingIff(n: nat, script: seq<Rewrite>, k: nat, p: nat, q: nat)
    requires k <= |script| && q <= n
    ensures NoneMissing(PositionsBefore(n, script, k), p, q) <==> !FoldedInside(n, script, k, p, q)
  {
    forall x: nat | p < x < q
      ensures x in PositionsBefore(n, script, k) <==> !RemovedBefore(n, script, k, x)
    {
      LeftUnlessRemoved(n, script, k, x);
    }
  }

  /** Where blocks end later and later, the reported clend lies past every block up to the loop's own end. */
  lemma ClendIsLate(blocks: seq<Block>, loops: seq<Loop>, script: seq<Rewrite>, k: nat, x: nat)
    requires Reported(blocks, loops, script) && k < |loops|
    requires forall i, j :: 0 <= i < j < |blocks| ==> blocks[i].clend < blocks[j].clend
    ensures var ab := PositionsBefore(|blocks|, script, k);
            InRange(ab, script[k]) && script[k].end < |ab| && (x < ab[script[k].end] <= |blocks| ==> blocks[x].clend < loops[k].clend)
  {
    assert ReportAt(blocks, loops, script, k);
  }

  // ---------- a report that falls short ----------

  lemma ThreeCopies(bb: seq<nat>, i: nat, j: nat, b: nat, c: nat, e: nat)
    requires 1 <= j && b == i + j && c == b + j && e == c + j && e <= |bb|
    requires bb[b..c] == bb[i..b] && bb[c..e] == bb[i..b]
    ensures Copies(bb, i, j, e, 3) && LoopAt(bb, i, j)
  {
    CopiesGrow(bb, i, j, b, c, 1);
    CopiesGrow(bb, i, j, c, e, 2);
    SliceIsAgain(bb, i, j, b, b, c);
    SliceIsAgain(bb, i, j, b, c, e);
  }

  lemma CopiesGrow(bb: seq<nat>, i: nat, j: nat, c: nat, e: nat, n: nat)
    requires n >= 1 && j >= 1 && i + j <= c && e == c + j <= |bb| && bb[c..e] == bb[i..i + j]
    requires if n == 1 then c == i + j else Copies(bb, i, j, c, n)
    ensures Copies(bb, i, j, e, n + 1)
  {
    assert n == 1 ==> Copies(bb, i, j, c, 1);
  }

  lemma SliceIsAgain(bb: seq<nat>, i: nat, j: nat, b: nat, c: nat, e: nat)
    requires b == i + j && e == c + j && i <= c && e <= |bb| && b <= |bb| && bb[c..e] == bb[i..b]
    ensures Again(bb, i, j, c)
  {
  }

  lemma FirstAtThree(bb: seq<nat>, w: Rewrite)
    requires Describes(bb, w) && LoopAt(bb, w.at, w.len) && !Again(bb, w.at, w.len, w.end)
    requires w.at == 3 && w.len <= 2 && !LoopAt(bb, 2, 1) && (w.len == 2 ==> !LoopAt(bb, 3, 1))
    ensures IsNext(bb, w)
  {
    forall i, j | 1 <= j < i < |bb| && (i < w.at || (i == w.at && j < w.len)) ensures !LoopAt(bb, i, j) {
      assert (i == 2 && j == 1) || (i == 3 && j == 1);
    }
  }

  lemma Differs(bb: seq<nat>, i: nat, j: nat, e: nat)
    requires 1 <= j && i < e < |bb| && bb[i] != bb[e]
    ensures !Again(bb, i, j, e) && (e == i + j ==> !LoopAt(bb, i, j))
  {
    assert Clip(bb, i, i + j)[0] == bb[i] && Clip(bb, e, e + j)[0] == bb[e];
  }

  /** Three times block 3, then 4; twice more 3 and 4; then 5.  The inner loop is folded first. */
  const NESTED: seq<nat> := [0, 1, 2, 3, 3, 3, 4, 3, 4, 3, 4, 5]
  const FLAT: seq<nat> := [0, 1, 2, 3, 4, 3, 4, 3, 4, 5]
  const DONE: seq<nat> := [0, 1, 2, 3, 4, 5]
  const INNER := Rewrite(3, 1, 3, 6)
  const OUTER := Rewrite(3, 2, 3, 9)

  lemma InnerIsNext()
    ensures IsNext(NESTED, INNER) && Fold(NESTED, INNER) == FLAT
  {
    ThreeCopies(NESTED, 3, 1, 4, 5, 6);
    Differs(NESTED, 3, 1, 6);
    Differs(NESTED, 2, 1, 3);
    FirstAtThree(NESTED, INNER);
  }

  lemma OuterIsNext()
    ensures IsNext(FLAT, OUTER) && Fold(FLAT, OUTER) == DONE
  {
    assert FLAT[3..5] == [3, 4] && FLAT[5..7] == [3, 4] && FLAT[7..9] == [3, 4];
    ThreeCopies(FLAT, 3, 2, 5, 7, 9);
    Differs(FLAT, 3, 2, 9);
    Differs(FLAT, 2, 1, 3);
    Differs(FLAT, 3, 1, 4);
    FirstAtThree(FLAT, OUTER);
  }

  /** On this trace the second report ends its first copy at block 4; it ends at block 6. */
  lemma BlockEndFallsShort(blocks: seq<Block>, loops: seq<Loop>)
    requires |blocks| == |NESTED| && Reported(blocks, loops, [INNER, OUTER])
    ensures Leads(NESTED, [INNER, OUTER], DONE)
    ensures var ab := PositionsBefore(|blocks|, [INNER, OUTER], 1);
            InRange(ab, OUTER) && LastOfFirst(ab, OUTER) == 6 && loops[1].blockEnd == 4
  {
    var script := [INNER, OUTER];
    InnerIsNext();
    OuterIsNext();
    assert script[1..] == [OUTER] && [OUTER][1..] == [];
    assert Leads(DONE, [], DONE);
    assert Leads(FLAT, [OUTER], DONE);
    assert ReportAt(blocks, loops, script, 1);
    assert PositionsBefore(12, script, 0) == Positions(12);
    assert PositionsBefore(12, script, 1) == Positions(12)[..4] + Positions(12)[6..];
  }
}
