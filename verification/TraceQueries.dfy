/** What the queries of the trace database answer, including while the log is still being ingested. */
module TraceQueries {
  import opened TraceLog
  import opened TraceIndex

  // ---------- records of one changelist ----------

  /** The entries below `n` with changelist number `k`, in order. */
  function OfChangelist(file: seq<Change>, n: nat, k: nat): seq<Change>
    requires n <= |file|
  {
    if n <= 1 then []
    else OfChangelist(file, n - 1, k) + if file[n - 1].clnum == k then [file[n - 1]] else []
  }

  /** The first `limit` of them; 0 means all. */
  function FirstOf(cs: seq<Change>, limit: nat): seq<Change> {
    if limit == 0 || |cs| <= limit then cs else cs[..limit]
  }

  /** Where the scan from `i` leaves changelist `k`, or the ingested part. */
  function EndOfRun(file: seq<Change>, i: nat, n: nat, k: nat): (e: nat)
    requires i <= n <= |file|
    ensures i <= e <= n
    decreases n - i
  {
    if i < n && file[i].clnum == k then EndOfRun(file, i + 1, n, k) else i
  }

  lemma {:induction false} RunIs(file: seq<Change>, i: nat, n: nat, k: nat)
    requires i <= n <= |file|
    ensures var e := EndOfRun(file, i, n, k);
            (forall j :: i <= j < e ==> file[j].clnum == k) && (e < n ==> file[e].clnum != k)
    decreases n - i
  {
    if i < n && file[i].clnum == k {
      RunIs(file, i + 1, n, k);
    }
  }

  /** What FetchChangesByClnum computes when nothing is ingested meanwhile. */
  function Fetched(file: seq<Change>, n: nat, k: nat, limit: nat): seq<Change>
    requires n <= |file|
  {
    var e := InstructionEntry(file, n, k);
    if e == 0 then [] else FirstOf(file[e..EndOfRun(file, e, n, k)], limit)
  }

  ghost predicate Shaped(file: seq<Change>, n: nat) {
    Ordered(file, n) && InstructionsOpen(file, n)
  }

  lemma {:induction false} EndIs(file: seq<Change>, i: nat, n: nat, k: nat, end: nat)
    requires i <= end <= n <= |file| && (forall j :: i <= j < end ==> file[j].clnum == k) && (end < n ==> file[end].clnum != k)
    ensures EndOfRun(file, i, n, k) == end
    decreases end - i
  {
    if i < end {
      EndIs(file, i + 1, n, k, end);
    }
  }

  /** A changelist that starts at entry `e` is the run of its number from there. */
  lemma {:induction false} ChangelistIsRun(file: seq<Change>, n: nat, e: nat, k: nat)
    requires Shaped(file, n) && 1 <= e < n && file[e].clnum == k && TypeOf(file[e].flags) == Instruction
    ensures OfChangelist(file, n, k) == file[e..EndOfRun(file, e, n, k)]
  {
    if n == e + 1 {
      ChangelistBegins(file, e, k);
    } else {
      ShapeBelow(file, n, n - 1);
      ChangelistIsRun(file, n - 1, e, k);
      ChangelistGoesOn(file, n - 1, e, k);
    }
  }

  lemma ChangelistGoesOn(file: seq<Change>, n: nat, e: nat, k: nat)
    requires Ordered(file, n + 1) && 1 <= e < n && file[e].clnum == k
    requires OfChangelist(file, n, k) == file[e..EndOfRun(file, e, n, k)]
    ensures OfChangelist(file, n + 1, k) == file[e..EndOfRun(file, e, n + 1, k)]
  {
    OneMore(file, n, k);
    RunGoesOn(file, n, e, k);
  }

  lemma ShapeBelow(file: seq<Change>, n: nat, m: nat)
    requires Shaped(file, n) && m <= n
    ensures Shaped(file, m)
  {
  }

  lemma ChangelistBegins(file: seq<Change>, e: nat, k: nat)
    requires Shaped(file, e + 1) && 1 <= e && file[e].clnum == k && TypeOf(file[e].flags) == Instruction
    ensures OfChangelist(file, e + 1, k) == file[e..EndOfRun(file, e, e + 1, k)]
  {
    NothingBefore(file, e, e, k);
    EndIs(file, e, e + 1, k, e + 1);
    OneMore(file, e, k);
    assert file[e..e + 1] == [] + [file[e]];
  }

  lemma OneMore(file: seq<Change>, n: nat, k: nat)
    requires 1 <= n < |file|
    ensures OfChangelist(file, n + 1, k) ==
            if file[n].clnum == k then OfChangelist(file, n, k) + [file[n]] else OfChangelist(file, n, k)
  {
  }

  lemma RunGoesOn(file: seq<Change>, n: nat, e: nat, k: nat)
    requires Ordered(file, n + 1) && 1 <= e < n && file[e].clnum == k
    ensures file[e..EndOfRun(file, e, n + 1, k)] ==
            if file[n].clnum == k then file[e..EndOfRun(file, e, n, k)] + [file[n]] else file[e..EndOfRun(file, e, n, k)]
  {
    if file[n].clnum == k {
      EndIs(file, e, n, k, n);
      EndIs(file, e, n + 1, k, n + 1);
      OneLonger(file, e, n);
    } else {
      RunIs(file, e, n, k);
      EndIs(file, e, n + 1, k, EndOfRun(file, e, n, k));
    }
  }

  lemma {:induction false} NothingBefore(file: seq<Change>, m: nat, e: nat, k: nat)
    requires m <= e < |file| && forall i :: 1 <= i < e ==> file[i].clnum < k
    ensures OfChangelist(file, m, k) == []
  {
    if m > 1 {
      NothingBefore(file, m - 1, e, k);
    }
  }

  /** A changelist with an instruction record is returned whole, or its first `limit` records. */
  lemma FetchedIsChangelist(file: seq<Change>, n: nat, k: nat, limit: nat)
    requires Shaped(file, n)
    ensures InstructionEntry(file, n, k) != 0 ==> Fetched(file, n, k, limit) == FirstOf(OfChangelist(file, n, k), limit)
    ensures InstructionEntry(file, n, k) == 0 ==> Fetched(file, n, k, limit) == []
  {
    var e := InstructionEntry(file, n, k);
    if e != 0 {
      ChangelistIsRun(file, n, e, k);
    }
  }

  // ---------- the same query, interleaved with ingestion ----------

  /** The ingesting thread enters an entry in the index (under one lock) before it counts it (under none). */
  datatype Writer = Writer(done: nat, indexed: nat)

  datatype Reader =
    | Called                                    // before the index lookup
    | Looked(entry: nat)                        // index lock released
    | Scanning(entry: nat, ret: seq<Change>)    // in the copying loop
    | Returned(ret: seq<Change>)

  datatype Sys = Sys(w: Writer, r: Reader)

  datatype Move = IndexNext | CountNext | Query

  ghost predicate WriterOk(file: seq<Change>, w: Writer) {
    1 <= w.done <= w.indexed <= w.done + 1 && w.indexed <= |file|
  }

  function ReaderStep(file: seq<Change>, w: Writer, r: Reader, k: nat, limit: nat): Reader
    requires w.indexed <= |file|
    requires r.Scanning? && r.entry + |r.ret| < w.done ==> r.entry + |r.ret| < |file|
  {
    match r
    case Called => Looked(InstructionEntry(file, w.indexed, k))
    case Looked(e) => if e == 0 then Returned([]) else Scanning(e, [])
    case Scanning(e, ret) =>
      if limit != 0 && |ret| >= limit then Returned(ret)
      else if e + |ret| >= w.done then Returned(ret)
      else if file[e + |ret|].clnum != k then Returned(ret)
      else Scanning(e, ret + [file[e + |ret|]])
    case Returned(_) => r
  }

  ghost predicate Step(file: seq<Change>, k: nat, limit: nat, s: Sys, m: Move, s': Sys) {
    && WriterOk(file, s.w)
    && match m
       case IndexNext => s.w.indexed == s.w.done < |file| && s' == s.(w := s.w.(indexed := s.w.done + 1))
       case CountNext => s.w.indexed == s.w.done + 1 && s' == s.(w := s.w.(done := s.w.done + 1))
       case Query => s' == s.(r := ReaderStep(file, s.w, s.r, k, limit))
  }

  /** `ret` is the answer for some prefix that was current since the call began with `low` entries. */
  ghost predicate AnswersPrefix(file: seq<Change>, k: nat, limit: nat, low: nat, high: nat, ret: seq<Change>) {
    exists n :: 1 <= low <= n <= high <= |file| && ret == Fetched(file, n, k, limit)
  }

  ghost predicate ReaderInv(file: seq<Change>, k: nat, limit: nat, low: nat, s: Sys) {
    && WriterOk(file, s.w) && 1 <= low <= s.w.done
    && match s.r
       case Called => true
       case Looked(e) =>
         if e == 0 then AnswersPrefix(file, k, limit, low, s.w.done, [])
         else 1 <= e <= s.w.done && e < |file| && IsOpening(file, e, k)
       case Scanning(e, ret) =>
         && 1 <= e && e + |ret| <= s.w.done && e < |file| && IsOpening(file, e, k)
         && ret == file[e..e + |ret|] && (forall j :: e <= j < e + |ret| ==> file[j].clnum == k)
         && (limit == 0 || |ret| <= limit)
       case Returned(ret) => AnswersPrefix(file, k, limit, low, s.w.done, ret)
  }

  predicate IsOpening(file: seq<Change>, e: nat, k: nat)
    requires e < |file|
  {
    file[e].clnum == k && TypeOf(file[e].flags) == Instruction
  }

  /** An entry not yet counted is the changelist's only instruction record, so the answer is still empty. */
  lemma NotYetCounted(file: seq<Change>, k: nat, e: nat)
    requires Shaped(file, |file|) && 1 <= e < |file| && IsOpening(file, e, k)
    ensures forall n :: e < n <= |file| ==> InstructionEntry(file, n, k) == e
    ensures forall n :: 1 <= n <= e ==> InstructionEntry(file, n, k) == 0
  {
  }

  /** The scan as it stands is the answer for the entries counted so far, once it must stop. */
  lemma StoppedScan(file: seq<Change>, k: nat, limit: nat, d: nat, e: nat, ret: seq<Change>)
    requires Shaped(file, |file|) && 1 <= e < |file| && IsOpening(file, e, k) && e + |ret| <= d <= |file|
    requires ret == file[e..e + |ret|] && (forall j :: e <= j < e + |ret| ==> file[j].clnum == k)
    requires limit == 0 || |ret| <= limit
    requires (limit != 0 && |ret| == limit) || e + |ret| == d || file[e + |ret|].clnum != k
    ensures ret == Fetched(file, d, k, limit)
  {
    NotYetCounted(file, k, e);
    if e < d {
      var end := EndOfRun(file, e, d, k);
      RunIs(file, e, d, k);
      assert end >= e + |ret|;
      if end > e + |ret| {
        assert file[e..end][..|ret|] == ret;
      }
    }
  }

  lemma ReadKeepsInv(file: seq<Change>, k: nat, limit: nat, low: nat, s: Sys, s': Sys)
    requires Shaped(file, |file|) && ReaderInv(file, k, limit, low, s) && Step(file, k, limit, s, Query, s')
    ensures ReaderInv(file, k, limit, low, s')
  {
    match s.r
    case Called => LookupKeepsInv(file, k, limit, low, s, s');
    case Looked(e) =>
    case Scanning(e, ret) => ScanKeepsInv(file, k, limit, low, s, s');
    case Returned(_) =>
  }

  lemma LookupKeepsInv(file: seq<Change>, k: nat, limit: nat, low: nat, s: Sys, s': Sys)
    requires ReaderInv(file, k, limit, low, s) && Step(file, k, limit, s, Query, s') && s.r.Called?
    ensures ReaderInv(file, k, limit, low, s')
  {
    if InstructionEntry(file, s.w.indexed, k) == 0 {
      assert InstructionEntry(file, s.w.done, k) == 0;
      assert Fetched(file, s.w.done, k, limit) == [];
    }
  }

  lemma ScanKeepsInv(file: seq<Change>, k: nat, limit: nat, low: nat, s: Sys, s': Sys)
    requires Shaped(file, |file|) && ReaderInv(file, k, limit, low, s) && Step(file, k, limit, s, Query, s') && s.r.Scanning?
    ensures ReaderInv(file, k, limit, low, s')
  {
    var e, ret := s.r.entry, s.r.ret;
    if s'.r.Returned? {
      StoppedScan(file, k, limit, s.w.done, e, ret);
    } else {
      OneLonger(file, e, e + |ret|);
    }
  }

  lemma OneLonger(file: seq<Change>, e: nat, m: nat)
    requires e <= m < |file|
    ensures file[e..m + 1] == file[e..m] + [file[m]]
  {
  }

  lemma WriterKeepsInv(file: seq<Change>, k: nat, limit: nat, low: nat, s: Sys, m: Move, s': Sys)
    requires ReaderInv(file, k, limit, low, s) && Step(file, k, limit, s, m, s') && m != Query
    ensures ReaderInv(file, k, limit, low, s')
  {
  }

  ghost predicate IsRun(file: seq<Change>, k: nat, limit: nat, run: seq<Sys>) {
    && run != [] && WriterOk(file, run[0].w) && run[0].r == Called
    && forall i :: 0 < i < |run| ==> Next(file, k, limit, run[i - 1], run[i])
  }

  ghost predicate Next(file: seq<Change>, k: nat, limit: nat, s: Sys, s': Sys) {
    exists m :: Step(file, k, limit, s, m, s')
  }

  lemma {:induction false} RunKeepsInv(file: seq<Change>, k: nat, limit: nat, run: seq<Sys>, i: nat)
    requires Shaped(file, |file|) && IsRun(file, k, limit, run) && i < |run|
    ensures ReaderInv(file, k, limit, run[0].w.done, run[i])
  {
    if i > 0 {
      RunKeepsInv(file, k, limit, run, i - 1);
      var m :| Step(file, k, limit, run[i - 1], m, run[i]);
      if m == Query {
        ReadKeepsInv(file, k, limit, run[0].w.done, run[i - 1], run[i]);
      } else {
        WriterKeepsInv(file, k, limit, run[0].w.done, run[i - 1], m, run[i]);
      }
    }
  }

  /** However the query interleaves with ingestion, it answers for a prefix current during the call. */
  lemma ConcurrentFetchIsAtomic(file: seq<Change>, k: nat, limit: nat, run: seq<Sys>, i: nat)
    requires Shaped(file, |file|) && IsRun(file, k, limit, run) && i < |run| && run[i].r.Returned?
    ensures AnswersPrefix(file, k, limit, run[0].w.done, run[i].w.done, run[i].r.ret)
  {
    RunKeepsInv(file, k, limit, run, i);
  }
}
