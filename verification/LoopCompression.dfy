/**
 Loop compression: a run of blocks executed three or more times in a row is
 replaced by one copy, again and again, until none is left.
 */
module LoopCompression {
  import opened Prelude

  /** A rewrite: `count` copies of the `len` blocks at `at`, up to `end`, became one. */
  datatype Rewrite = Rewrite(at: nat, len: nat, count: nat, end: nat)

  // ---------- finding a loop ----------

  /** A slice as the source language takes it, its ends clipped to the list. */
  function Clip(s: seq<nat>, a: nat, b: nat): seq<nat>
    requires a <= b
  {
    s[Clipped(s, a)..Clipped(s, b)]
  }

  function Clipped(s: seq<nat>, a: nat): nat {
    if a < |s| then a else |s|
  }

  /** The `j` blocks at `e` are the `j` blocks at `i` again. */
  predicate Again(bb: seq<nat>, i: nat, j: nat, e: nat) {
    Clip(bb, e, e + j) == Clip(bb, i, i + j)
  }

  predicate LoopAt(bb: seq<nat>, i: nat, j: nat) {
    Again(bb, i, j, i + j) && Again(bb, i, j, i + j * 2)
  }

  /** No run of blocks occurs three times in a row at a position past its own length. */
  ghost predicate LoopFree(bb: seq<nat>) {
    forall i, j :: 1 <= j < i < |bb| ==> !LoopAt(bb, i, j)
  }

  function Repeat(x: seq<nat>, n: nat): seq<nat> {
    if n == 0 then [] else Repeat(x, n - 1) + x
  }

  /** From `i` to `e` there are `n` copies of the `j` blocks at `i`. */
  ghost predicate Copies(bb: seq<nat>, i: nat, j: nat, e: nat, n: nat)
    decreases n
  {
    i + j <= e <= |bb|
    && if n <= 1 then n == 1 && e == i + j
       else i + j + j <= e && bb[e - j..e] == bb[i..i + j] && Copies(bb, i, j, e - j, n - 1)
  }

  lemma {:induction false} CopiesAreRepeat(bb: seq<nat>, i: nat, j: nat, e: nat, n: nat)
    requires Copies(bb, i, j, e, n)
    ensures bb[i..e] == Repeat(bb[i..i + j], n)
    decreases n
  {
    if n > 1 {
      CopiesAreRepeat(bb, i, j, e - j, n - 1);
      assert bb[i..e] == bb[i..e - j] + bb[e - j..e];
    } else {
      assert Repeat(bb[i..i + j], 1) == Repeat(bb[i..i + j], 0) + bb[i..i + j];
    }
  }

  lemma AgainFits(bb: seq<nat>, i: nat, j: nat, e: nat)
    requires j >= 1 && i + j <= |bb| && Again(bb, i, j, e)
    ensures e + j <= |bb| && bb[e..e + j] == bb[i..i + j]
  {
    assert |Clip(bb, i, i + j)| == j;
  }

  /** Three equal slices, the first not empty, lie within the list. */
  lemma LoopFits(bb: seq<nat>, i: nat, j: nat)
    requires j >= 1 && i < |bb| && LoopAt(bb, i, j)
    ensures i + 3 * j <= |bb|
  {
    assert |Clip(bb, i, i + j)| > 0;
  }

  /** `w` covers copies that are there, at least three of them. */
  ghost predicate Describes(bb: seq<nat>, w: Rewrite) {
    && w.count >= 3 && 1 <= w.len < w.at && w.at + 3 * w.len <= w.end
    && Copies(bb, w.at, w.len, w.end, w.count)
  }

  /** The rewrite chosen next: at the first place, of the shortest length there, as far as it goes. */
  ghost predicate IsNext(bb: seq<nat>, w: Rewrite) {
    && Describes(bb, w) && LoopAt(bb, w.at, w.len) && !Again(bb, w.at, w.len, w.end)
    && forall i, j :: 1 <= j < i < |bb| && (i < w.at || (i == w.at && j < w.len)) ==> !LoopAt(bb, i, j)
  }

  method FindLoop(bb: seq<nat>) returns (r: Option<(nat, nat)>)
    ensures r.None? ==> LoopFree(bb)
    ensures r.Some? ==> var (x, y) := r.value;
      1 <= y < x < |bb| && LoopAt(bb, x, y)
      && forall i, j :: 1 <= j < i < |bb| && (i < x || (i == x && j < y)) ==> !LoopAt(bb, i, j)
  {
    for i := 0 to |bb|
      invariant forall x, y :: 1 <= y < x < |bb| && x < i ==> !LoopAt(bb, x, y)
    {
      var j := 1;
      while j < i
        invariant 1 <= j
        invariant forall y :: 1 <= y < j && y < i ==> !LoopAt(bb, i, y)
      {
        if LoopAt(bb, i, j) {
          return Some((i, j));
        }
        j := j + 1;
      }
    }
    r := None;
  }

  method CountLoop(bb: seq<nat>, i: nat, j: nat) returns (n: nat, e: nat)
    requires j >= 1 && i < |bb| && LoopAt(bb, i, j)
    ensures n >= 3 && i + 3 * j <= e && Copies(bb, i, j, e, n) && !Again(bb, i, j, e)
  {
    LoopFits(bb, i, j);
    n, e := 1, i + j;
    while Again(bb, i, j, e)
      invariant 1 <= n && Copies(bb, i, j, e, n)
      invariant n == 1 ==> e == i + j
      invariant n == 2 ==> e == i + j * 2
      invariant n >= 3 ==> i + 3 * j <= e
      decreases |bb| - e
    {
      AgainCopies(bb, i, j, e, n);
      n, e := n + 1, e + j;
    }
  }

  /** The copies end where their number says. */
  lemma CopiesEnd(bb: seq<nat>, i: nat, j: nat, e: nat, n: nat)
    requires Copies(bb, i, j, e, n)
    ensures e == i + j * n
  {
    CopiesAreRepeat(bb, i, j, e, n);
    RepeatLength(bb[i..i + j], n);
  }

  lemma {:induction false} RepeatLength(x: seq<nat>, n: nat)
    ensures |Repeat(x, n)| == |x| * n
  {
    if n > 0 {
      RepeatLength(x, n - 1);
      assert |x| * n == |x| * (n - 1) + |x|;
    }
  }

  lemma AgainCopies(bb: seq<nat>, i: nat, j: nat, e: nat, n: nat)
    requires j >= 1 && n >= 1 && Copies(bb, i, j, e, n) && Again(bb, i, j, e)
    ensures Copies(bb, i, j, e + j, n + 1)
  {
    AgainFits(bb, i, j, e);
  }

  method FindRewrite(bb: seq<nat>) returns (w: Option<Rewrite>)
    ensures w.None? ==> LoopFree(bb)
    ensures w.Some? ==> IsNext(bb, w.value) && w.value.end == w.value.at + w.value.len * w.value.count
  {
    var found := FindLoop(bb);
    if found.None? {
      return None;
    }
    var (i, j) := found.value;
    var n, e := CountLoop(bb, i, j);
    CopiesEnd(bb, i, j, e, n);
    w := Some(Rewrite(i, j, n, e));
  }

  // ---------- one rewrite ----------

  /** One copy stays. */
  function Fold(s: seq<nat>, w: Rewrite): seq<nat>
    requires w.at + w.len <= w.end <= |s|
  {
    s[..w.at + w.len] + s[w.end..]
  }

  function Unfold(s: seq<nat>, w: Rewrite): seq<nat> {
    if w.at + w.len <= |s| then s[..w.at] + Repeat(s[w.at..w.at + w.len], w.count) + s[w.at + w.len..] else s
  }

  lemma UnfoldFold(bb: seq<nat>, w: Rewrite)
    requires Describes(bb, w)
    ensures Unfold(Fold(bb, w), w) == bb
  {
    CopiesAreRepeat(bb, w.at, w.len, w.end, w.count);
    FoldParts(bb, w);
  }

  lemma FoldParts(bb: seq<nat>, w: Rewrite)
    requires w.at + w.len <= w.end <= |bb|
    ensures var s := Fold(bb, w);
            && s[..w.at] == bb[..w.at] && s[w.at..w.at + w.len] == bb[w.at..w.at + w.len] && s[w.at + w.len..] == bb[w.end..]
            && bb == bb[..w.at] + bb[w.at..w.end] + bb[w.end..]
  {
  }

  /** Unfold the rewrites, the last one first. */
  function Unwind(bb: seq<nat>, script: seq<Rewrite>): seq<nat>
    decreases |script|
  {
    if script == [] then bb else Unwind(Unfold(bb, script[|script| - 1]), script[..|script| - 1])
  }

  lemma UnwindSnoc(bb: seq<nat>, script: seq<Rewrite>, w: Rewrite)
    ensures Unwind(bb, script + [w]) == Unwind(Unfold(bb, w), script)
  {
    assert (script + [w])[..|script|] == script;
  }

  lemma UnwindFold(bb: seq<nat>, script: seq<Rewrite>, w: Rewrite)
    requires Describes(bb, w)
    ensures Unwind(Fold(bb, w), script + [w]) == Unwind(bb, script)
  {
    UnfoldFold(bb, w);
    UnwindSnoc(Fold(bb, w), script, w);
  }

  // ---------- what every stage keeps ----------

  /** The surviving positions increase, name the right blocks and include the last one. */
  ghost predicate Naming(trace: seq<nat>, bb: seq<nat>, ab: seq<nat>) {
    && |ab| == |bb|
    && (forall m :: 0 <= m < |ab| ==> ab[m] < |trace| && bb[m] == trace[ab[m]])
    && (forall m, n :: 0 <= m < n < |ab| ==> ab[m] < ab[n])
    && (trace != [] ==> ab != [] && ab[|ab| - 1] == |trace| - 1)
  }

  /** Cutting copies out of the middle keeps the order, the naming and the last position. */
  lemma FoldKeepsNaming(trace: seq<nat>, bb: seq<nat>, ab: seq<nat>, w: Rewrite)
    requires Naming(trace, bb, ab) && 0 < w.at + w.len <= w.end < |ab|
    ensures Naming(trace, Fold(bb, w), Fold(ab, w))
  {
  }

  /** Lossless so far, and correctly named. */
  ghost predicate Faithful(trace: seq<nat>, bb: seq<nat>, ab: seq<nat>, script: seq<Rewrite>) {
    Unwind(bb, script) == trace && Naming(trace, bb, ab)
  }

  /** Every rewrite shortens the trace, loses nothing and keeps the naming. */
  lemma FoldKeepsFaithful(trace: seq<nat>, bb: seq<nat>, ab: seq<nat>, script: seq<Rewrite>, w: Rewrite)
    requires Faithful(trace, bb, ab, script) && Describes(bb, w) && w.end < |ab|
    ensures |Fold(bb, w)| < |bb| && Faithful(trace, Fold(bb, w), Fold(ab, w), script + [w])
  {
    UnwindFold(bb, script, w);
    FoldKeepsNaming(trace, bb, ab, w);
  }

  // ---------- when the analysis fails ----------

  /** The block the trace ends with occurs at most twice. */
  ghost predicate RareEnding(trace: seq<nat>) {
    forall p, q :: 0 <= p < q < |trace| - 1 ==> trace[p] != trace[|trace| - 1] || trace[q] != trace[|trace| - 1]
  }

  lemma RepeatTail(x: seq<nat>, n: nat)
    requires n >= 3
    ensures Repeat(x, n) == Repeat(x, n - 3) + x + x + x
  {
    assert Repeat(x, n) == Repeat(x, n - 1) + x;
    assert Repeat(x, n - 1) == Repeat(x, n - 2) + x;
    assert Repeat(x, n - 2) == Repeat(x, n - 3) + x;
  }

  lemma ThreeEnds(bb: seq<nat>, front: seq<nat>, x: seq<nat>)
    requires x != [] && bb == front + x + x + x
    ensures |bb| > 2 * |x| && bb[|bb| - 1] == bb[|bb| - 1 - |x|] == bb[|bb| - 1 - 2 * |x|]
  {
    assert bb[|bb| - 1] == x[|x| - 1] && bb[|bb| - 1 - |x|] == x[|x| - 1] && bb[|bb| - 1 - 2 * |x|] == x[|x| - 1];
  }

  lemma CopiesAtEnd(bb: seq<nat>, at: nat, x: seq<nat>, n: nat)
    requires at <= |bb| && bb[at..] == Repeat(x, n) && n >= 3 && x != []
    ensures |bb| > 2 * |x| && bb[|bb| - 1] == bb[|bb| - 1 - |x|] == bb[|bb| - 1 - 2 * |x|]
  {
    RepeatTail(x, n);
    assert bb == bb[..at] + bb[at..];
    ThreeEnds(bb, bb[..at] + Repeat(x, n - 3), x);
  }

  lemma ThreePositions(trace: seq<nat>, bb: seq<nat>, ab: seq<nat>, j: nat)
    requires Naming(trace, bb, ab) && 0 < j && 2 * j < |bb|
    requires bb[|bb| - 1] == bb[|bb| - 1 - j] == bb[|bb| - 1 - 2 * j]
    ensures !RareEnding(trace)
  {
    var l := |bb| - 1;
    var p, q := ab[l - 2 * j], ab[l - j];
    assert p < q < ab[l] && trace[p] == trace[q] == trace[ab[l]];
  }

  /** A loop that ends the trace shows the trace's last block at three different positions. */
  lemma TailLoopIsNotRare(trace: seq<nat>, bb: seq<nat>, ab: seq<nat>, w: Rewrite)
    requires Naming(trace, bb, ab) && Describes(bb, w) && w.end == |bb|
    ensures !RareEnding(trace)
  {
    CopiesAreRepeat(bb, w.at, w.len, w.end, w.count);
    CopiesAtEnd(bb, w.at, bb[w.at..w.at + w.len], w.count);
    ThreePositions(trace, bb, ab, w.len);
  }

  /** A trace that ends inside a loop: the very first rewrite runs to the end of it. */
  lemma EndingInLoop()
    ensures IsNext([0, 1, 2, 2, 2], Rewrite(2, 1, 3, 5))
  {
    var bb := [0, 1, 2, 2, 2];
    assert Copies(bb, 2, 1, 3, 1) && Copies(bb, 2, 1, 4, 2) && Copies(bb, 2, 1, 5, 3);
    assert Clip(bb, 2, 3) == [2] && Clip(bb, 3, 4) == [2] && Clip(bb, 4, 5) == [2] && Clip(bb, 5, 6) == [];
  }

  /** Two copies are no loop. */
  lemma TwoCopiesStay()
    ensures LoopFree([0, 1, 2, 2, 3])
  {
    var bb := [0, 1, 2, 2, 3];
    assert Clip(bb, 2, 3) == [2] && Clip(bb, 4, 5) == [3];
    assert !LoopAt(bb, 2, 1);
    forall i, j | 1 <= j < i < |bb| ensures !LoopAt(bb, i, j) {
      if LoopAt(bb, i, j) {
        LoopFits(bb, i, j);
      }
    }
  }

  /** Nor are three at a place that is not past their own length. */
  lemma LoopsAtTheStartStay()
    ensures LoopFree([2, 2, 2, 3]) && LoopAt([2, 2, 2, 3], 0, 1)
  {
    var bb := [2, 2, 2, 3];
    forall i, j | 1 <= j < i < |bb| ensures !LoopAt(bb, i, j) {
      if LoopAt(bb, i, j) {
        LoopFits(bb, i, j);
      }
    }
    assert Clip(bb, 0, 1) == [2] && Clip(bb, 1, 2) == [2] && Clip(bb, 2, 3) == [2];
  }

  // ---------- the rewrites are determined ----------

  /** From `bb` the analysis makes these rewrites, each the next one, and is then at `end`. */
  ghost predicate Leads(bb: seq<nat>, script: seq<Rewrite>, end: seq<nat>)
    decreases |script|
  {
    if script == [] then end == bb
    else IsNext(bb, script[0]) && script[0].end < |bb| && Leads(Fold(bb, script[0]), script[1..], end)
  }

  lemma {:induction false} LeadsOn(bb: seq<nat>, script: seq<Rewrite>, end: seq<nat>, w: Rewrite)
    requires Leads(bb, script, end) && IsNext(end, w) && w.end < |end|
    ensures Leads(bb, script + [w], Fold(end, w))
    decreases |script|
  {
    if script == [] {
      assert [w][1..] == [] && [] + [w] == [w];
      LeadsBy(bb, [w], Fold(end, w));
    } else {
      FirstStep(bb, script, end);
      LeadsOn(Fold(bb, script[0]), script[1..], end, w);
      JoinLeads(bb, script, w, Fold(end, w));
    }
  }

  lemma JoinLeads(bb: seq<nat>, script: seq<Rewrite>, w: Rewrite, end: seq<nat>)
    requires script != [] && IsNext(bb, script[0]) && script[0].end < |bb|
    requires Leads(Fold(bb, script[0]), script[1..] + [w], end)
    ensures Leads(bb, script + [w], end)
  {
    assert (script + [w])[1..] == script[1..] + [w] && (script + [w])[0] == script[0];
    LeadsBy(bb, script + [w], end);
  }

  lemma LeadsBy(bb: seq<nat>, script: seq<Rewrite>, end: seq<nat>)
    requires script != [] && IsNext(bb, script[0]) && script[0].end < |bb| && Leads(Fold(bb, script[0]), script[1..], end)
    ensures Leads(bb, script, end)
  {
  }

  /** From one position on, the longer run of copies contains the shorter one and goes on after it. */
  lemma {:induction false} CopiesNested(bb: seq<nat>, i: nat, j: nat, e: nat, n: nat, e': nat, n': nat)
    requires Copies(bb, i, j, e, n) && Copies(bb, i, j, e', n') && n < n' && j >= 1
    ensures Again(bb, i, j, e)
    decreases n'
  {
    if n' == n + 1 {
      CopiesSame(bb, i, j, e, e' - j, n);
    } else {
      CopiesNested(bb, i, j, e, n, e' - j, n' - 1);
    }
  }

  lemma {:induction false} CopiesSame(bb: seq<nat>, i: nat, j: nat, e: nat, e': nat, n: nat)
    requires Copies(bb, i, j, e, n) && Copies(bb, i, j, e', n)
    ensures e == e'
    decreases n
  {
    if n > 1 {
      CopiesSame(bb, i, j, e - j, e' - j, n - 1);
    }
  }

  /** There is at most one next rewrite. */
  lemma NextIsUnique(bb: seq<nat>, w: Rewrite, v: Rewrite)
    requires IsNext(bb, w) && IsNext(bb, v)
    ensures w == v
  {
    SamePlace(bb, w, v);
    if w.count < v.count {
      CopiesNested(bb, w.at, w.len, w.end, w.count, v.end, v.count);
    } else if v.count < w.count {
      CopiesNested(bb, w.at, w.len, v.end, v.count, w.end, w.count);
    }
    CopiesSame(bb, w.at, w.len, w.end, v.end, w.count);
  }

  lemma SamePlace(bb: seq<nat>, w: Rewrite, v: Rewrite)
    requires IsNext(bb, w) && IsNext(bb, v)
    ensures w.at == v.at && w.len == v.len
  {
  }

  /** Nothing more happens: no loop is left, or the next one runs to the end of the trace. */
  ghost predicate Final(bb: seq<nat>) {
    LoopFree(bb) || MeetsEnd(bb)
  }

  /** The next rewrite runs to the end of the trace. */
  ghost predicate MeetsEnd(bb: seq<nat>) {
    exists w :: IsNext(bb, w) && w.end == |bb|
  }

  lemma FinalStays(bb: seq<nat>, script: seq<Rewrite>, end: seq<nat>)
    requires Final(bb) && Leads(bb, script, end)
    ensures script == []
  {
    if script != [] {
      var v :| IsNext(bb, v) && v.end == |bb|;
      NextIsUnique(bb, script[0], v);
    }
  }

  /** The trace alone decides where the analysis ends. */
  lemma {:induction false} OneOutcome(bb: seq<nat>, script: seq<Rewrite>, end: seq<nat>, script': seq<Rewrite>, end': seq<nat>)
    requires Leads(bb, script, end) && Leads(bb, script', end') && Final(end) && Final(end')
    ensures script == script' && end == end'
    decreases |script|
  {
    if script == [] {
      FinalStays(bb, script', end');
    } else if script' == [] {
      FinalStays(bb, script, end);
    } else {
      FirstStep(bb, script, end);
      FirstStep(bb, script', end');
      NextIsUnique(bb, script[0], script'[0]);
      OneOutcome(Fold(bb, script[0]), script[1..], end, script'[1..], end');
      SameScript(script, script');
    }
  }

  lemma FirstStep(bb: seq<nat>, script: seq<Rewrite>, end: seq<nat>)
    requires Leads(bb, script, end) && script != []
    ensures IsNext(bb, script[0]) && script[0].end < |bb| && script[0].at + script[0].len <= script[0].end
    ensures Leads(Fold(bb, script[0]), script[1..], end)
  {
  }

  lemma SameScript(s: seq<Rewrite>, t: seq<Rewrite>)
    requires s != [] && t != [] && s[0] == t[0] && s[1..] == t[1..]
    ensures s == t
  {
    assert s == [s[0]] + s[1..] && t == [t[0]] + t[1..];
  }

  /** The analysis of this trace comes to a loop that ends it. */
  ghost predicate RunsIntoEnd(trace: seq<nat>) {
    exists script, bb :: Leads(trace, script, bb) && MeetsEnd(bb)
  }

  lemma FailsIff(trace: seq<nat>, script: seq<Rewrite>, bb: seq<nat>)
    requires Leads(trace, script, bb) && Final(bb)
    ensures RunsIntoEnd(trace) <==> MeetsEnd(bb)
  {
    if RunsIntoEnd(trace) {
      var script', bb' :| Leads(trace, script', bb') && MeetsEnd(bb');
      OneOutcome(trace, script, bb, script', bb');
    }
  }
}
