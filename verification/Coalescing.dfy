/**
 Writing the same byte ranges in two different orders.

 In filtered mode the recorder keeps only the last write per four-byte slot and
 emits the survivors in slot order.  This module says exactly when such a
 reordering cannot be told from the original.
 */
module Coalescing {
  import opened Prelude
  import opened ByteStores

  /** Byte `b` of `r`: from the write `f` of `data` if there is one, else from `m`. */
  predicate ByteIs(r: Bytes, m: Bytes, b: int, f: Option<Shape>, data: nat)
    requires f.Some? ==> Touches(f.value, b)
  {
    match f
    case None => SameByte(r, m, b)
    case Some(f) => b in r && r[b] == DataByte(data, b - f.addr)
  }

  /** Indices of writes, in the order they are carried out. */
  ghost predicate IsOrder(order: seq<nat>, n: nat) {
    forall k :: 0 <= k < |order| ==> order[k] < n
  }

  function ApplyOrder(m: Bytes, fs: seq<Shape>, datas: seq<nat>, order: seq<nat>): Bytes
    requires |fs| == |datas| && IsOrder(order, |fs|)
  {
    if order == [] then m
    else
      var k := |order| - 1;
      Poke(ApplyOrder(m, fs, datas, order[..k]), fs[order[k]], datas[order[k]])
  }

  /** The write whose data ends up in byte `b`. */
  function Winner(fs: seq<Shape>, order: seq<nat>, b: int): (w: Option<nat>)
    requires IsOrder(order, |fs|)
    ensures w.Some? ==> w.value < |fs| && Touches(fs[w.value], b) && w.value in order
    ensures w.None? ==> forall k :: 0 <= k < |order| ==> !Touches(fs[order[k]], b)
  {
    if order == [] then None
    else
      var k := |order| - 1;
      if Touches(fs[order[k]], b) then Some(order[k]) else Winner(fs, order[..k], b)
  }

  lemma {:induction false} ApplyOrderAt(m: Bytes, fs: seq<Shape>, datas: seq<nat>, order: seq<nat>, b: int)
    requires |fs| == |datas| && IsOrder(order, |fs|)
    ensures WonByte(ApplyOrder(m, fs, datas, order), m, fs, datas, Winner(fs, order, b), b)
  {
    if order != [] {
      var k := |order| - 1;
      ApplyOrderAt(m, fs, datas, order[..k], b);
      WinsNext(ApplyOrder(m, fs, datas, order[..k]), m, fs, datas, Winner(fs, order[..k], b), order[k], b);
    }
  }

  /** One write more: it wins the byte if it touches it. */
  lemma WinsNext(r: Bytes, m: Bytes, fs: seq<Shape>, datas: seq<nat>, w: Option<nat>, i: nat, b: int)
    requires |fs| == |datas| && i < |fs| && (w.Some? ==> w.value < |fs| && Touches(fs[w.value], b))
    requires WonByte(r, m, fs, datas, w, b)
    ensures WonByte(Poke(r, fs[i], datas[i]), m, fs, datas, if Touches(fs[i], b) then Some(i) else w, b)
  {
    PokeAt(r, fs[i], datas[i], b);
  }

  predicate WonByte(r: Bytes, m: Bytes, fs: seq<Shape>, datas: seq<nat>, w: Option<nat>, b: int)
    requires |fs| == |datas| && (w.Some? ==> w.value < |fs| && Touches(fs[w.value], b))
  {
    match w
    case None => SameByte(r, m, b)
    case Some(w) => ByteIs(r, m, b, Some(fs[w]), datas[w])
  }

  ghost predicate SameWinners(fs: seq<Shape>, o1: seq<nat>, o2: seq<nat>)
    requires IsOrder(o1, |fs|) && IsOrder(o2, |fs|)
  {
    forall b :: Winner(fs, o1, b) == Winner(fs, o2, b)
  }

  /** No data and no starting contents can tell the two orders apart. */
  ghost predicate Indistinguishable(fs: seq<Shape>, o1: seq<nat>, o2: seq<nat>)
    requires IsOrder(o1, |fs|) && IsOrder(o2, |fs|)
  {
    forall m: Bytes, datas: seq<nat> | |datas| == |fs| ::
      ApplyOrder(m, fs, datas, o1) == ApplyOrder(m, fs, datas, o2)
  }

  lemma SameWinnerSameByte(m: Bytes, fs: seq<Shape>, datas: seq<nat>, o1: seq<nat>, o2: seq<nat>, b: int)
    requires |fs| == |datas| && IsOrder(o1, |fs|) && IsOrder(o2, |fs|) && Winner(fs, o1, b) == Winner(fs, o2, b)
    ensures SameByte(ApplyOrder(m, fs, datas, o1), ApplyOrder(m, fs, datas, o2), b)
  {
    ApplyOrderAt(m, fs, datas, o1, b);
    ApplyOrderAt(m, fs, datas, o2, b);
  }

  lemma SameWinnersAgree(m: Bytes, fs: seq<Shape>, datas: seq<nat>, o1: seq<nat>, o2: seq<nat>)
    requires |fs| == |datas| && IsOrder(o1, |fs|) && IsOrder(o2, |fs|) && SameWinners(fs, o1, o2)
    ensures ApplyOrder(m, fs, datas, o1) == ApplyOrder(m, fs, datas, o2)
  {
    var r1, r2 := ApplyOrder(m, fs, datas, o1), ApplyOrder(m, fs, datas, o2);
    forall b ensures SameByte(r1, r2, b) {
      SameWinnerSameByte(m, fs, datas, o1, o2, b);
    }
    SameBytes(r1, r2);
  }

  /** A data word whose byte `i` is 255. */
  function Marked(i: nat): nat {
    if i == 0 then 255 else 256 * Marked(i - 1)
  }

  lemma {:induction false} MarkedByte(i: nat)
    ensures DataByte(Marked(i), i) == 255
  {
    if i > 0 {
      MarkedByte(i - 1);
    }
  }

  lemma {:induction false} ZeroByte(i: nat)
    ensures DataByte(0, i) == 0
  {
    if i > 0 {
      ZeroByte(i - 1);
    }
  }

  /** Data that marks the byte `b` of write `w` and is zero everywhere else. */
  function MarkData(fs: seq<Shape>, w: nat, b: int): (datas: seq<nat>)
    requires w < |fs| && Touches(fs[w], b)
    ensures |datas| == |fs| && forall i :: 0 <= i < |fs| ==> datas[i] == if i == w then Marked(b - fs[w].addr) else 0
  {
    seq(|fs|, i => if i == w then Marked(b - fs[w].addr) else 0)
  }

  lemma MarkedDiffers(r1: Bytes, r2: Bytes, fs: seq<Shape>, w: nat, v: Option<nat>, b: int)
    requires w < |fs| && Touches(fs[w], b) && v != Some(w) && (v.Some? ==> v.value < |fs| && Touches(fs[v.value], b))
    requires WonByte(r1, map[], fs, MarkData(fs, w, b), Some(w), b)
    requires WonByte(r2, map[], fs, MarkData(fs, w, b), v, b)
    ensures r1 != r2
  {
    MarkedByte(b - fs[w].addr);
    if v.Some? {
      ZeroByte(b - fs[v.value].addr);
    }
  }

  /** Different winners show: marked data for the one, zeroes for all others. */
  lemma DifferentWinnersShow(fs: seq<Shape>, o1: seq<nat>, o2: seq<nat>, b: int)
    requires IsOrder(o1, |fs|) && IsOrder(o2, |fs|)
    requires Winner(fs, o1, b).Some? && Winner(fs, o1, b) != Winner(fs, o2, b)
    ensures exists m: Bytes, datas: seq<nat> | |datas| == |fs| ::
              ApplyOrder(m, fs, datas, o1) != ApplyOrder(m, fs, datas, o2)
  {
    var w := Winner(fs, o1, b).value;
    var datas := MarkData(fs, w, b);
    ApplyOrderAt(map[], fs, datas, o1, b);
    ApplyOrderAt(map[], fs, datas, o2, b);
    MarkedDiffers(ApplyOrder(map[], fs, datas, o1), ApplyOrder(map[], fs, datas, o2), fs, w, Winner(fs, o2, b), b);
  }

  /** Two orders are indistinguishable exactly when every byte has the same winner. */
  lemma IndistinguishableIff(fs: seq<Shape>, o1: seq<nat>, o2: seq<nat>)
    requires IsOrder(o1, |fs|) && IsOrder(o2, |fs|)
    ensures Indistinguishable(fs, o1, o2) <==> SameWinners(fs, o1, o2)
  {
    if SameWinners(fs, o1, o2) {
      forall m: Bytes, datas: seq<nat> | |datas| == |fs|
        ensures ApplyOrder(m, fs, datas, o1) == ApplyOrder(m, fs, datas, o2)
      {
        SameWinnersAgree(m, fs, datas, o1, o2);
      }
    } else {
      var b :| Winner(fs, o1, b) != Winner(fs, o2, b);
      if Winner(fs, o1, b).Some? {
        DifferentWinnersShow(fs, o1, o2, b);
      } else {
        DifferentWinnersShow(fs, o2, o1, b);
      }
    }
  }

  // ---------- last write per slot, in slot order ----------

  const SLOTS: nat := 64

  /** The pending-table slot of a write; writes from 0x100 up have none. */
  predicate InSlot(f: Shape, slot: nat) {
    0 <= f.addr < 4 * SLOTS && f.addr / 4 == slot
  }

  /** The write the table holds for `slot` once all of `fs` have been entered. */
  function Kept(fs: seq<Shape>, slot: nat): (w: Option<nat>)
    ensures w.Some? ==> w.value < |fs| && InSlot(fs[w.value], slot)
  {
    if fs == [] then None
    else if InSlot(fs[|fs| - 1], slot) then Some(|fs| - 1)
    else Kept(fs[..|fs| - 1], slot)
  }

  /** The survivors of the first `n` slots. */
  function Survivors(fs: seq<Shape>, n: nat): (o: seq<nat>)
    ensures IsOrder(o, |fs|)
  {
    if n == 0 then []
    else
      var rest := Survivors(fs, n - 1);
      match Kept(fs, n - 1)
      case None => rest
      case Some(w) => rest + [w]
  }

  function InOrder(n: nat): (o: seq<nat>)
    ensures |o| == n && forall k :: 0 <= k < n ==> o[k] == k
  {
    seq(n, k => k)
  }

  /** Coalescing these writes loses nothing, whatever their data. */
  ghost predicate Lossless(fs: seq<Shape>) {
    SameWinners(fs, InOrder(|fs|), Survivors(fs, SLOTS))
  }

  /** A register file as the emulator lays it out: equal writes or separate slots and bytes. */
  ghost predicate Layout(fs: seq<Shape>) {
    && (forall i :: 0 <= i < |fs| ==> 0 <= fs[i].addr < 4 * SLOTS)
    && (forall i, j :: 0 <= i < j < |fs| ==> fs[i] == fs[j] || Apart(fs[i], fs[j]))
  }

  predicate Apart(f: Shape, g: Shape) {
    f.addr / 4 != g.addr / 4 && (f.addr + f.width <= g.addr || g.addr + g.width <= f.addr)
  }

  /** Registers of one width, aligned to it: the layout of every guest the recorder supports. */
  lemma AlignedIsLayout(fs: seq<Shape>, width: nat)
    requires width == 4 || width == 8
    requires forall i :: 0 <= i < |fs| ==> fs[i].width == width && fs[i].addr % width == 0 && 0 <= fs[i].addr < 0x100
    ensures Layout(fs)
  {
    forall i, j | 0 <= i < j < |fs| ensures fs[i] == fs[j] || Apart(fs[i], fs[j]) {
      if fs[i].addr < fs[j].addr {
        assert fs[i].addr / width < fs[j].addr / width;
      } else if fs[j].addr < fs[i].addr {
        assert fs[j].addr / width < fs[i].addr / width;
      }
    }
  }

  lemma {:induction false} KeptIsLast(fs: seq<Shape>, slot: nat, i: nat)
    requires i < |fs| && InSlot(fs[i], slot)
    ensures Kept(fs, slot).Some? && Kept(fs, slot).value >= i
  {
    if i < |fs| - 1 && !InSlot(fs[|fs| - 1], slot) {
      KeptIsLast(fs[..|fs| - 1], slot, i);
    }
  }

  lemma {:induction false} SurvivorIsListed(fs: seq<Shape>, n: nat, slot: nat)
    requires slot < n && Kept(fs, slot).Some?
    ensures Kept(fs, slot).value in Survivors(fs, n)
  {
    if slot < n - 1 {
      SurvivorIsListed(fs, n - 1, slot);
    }
  }

  lemma {:induction false} SurvivorIsKept(fs: seq<Shape>, n: nat, w: nat)
    requires w in Survivors(fs, n)
    ensures w < |fs| && 0 <= fs[w].addr && Kept(fs, fs[w].addr / 4) == Some(w)
  {
    if n > 0 && w in Survivors(fs, n - 1) {
      SurvivorIsKept(fs, n - 1, w);
    }
  }

  /** In order, the winner is the last write that touches the byte. */
  lemma {:induction false} InOrderWinner(fs: seq<Shape>, n: nat, b: int)
    requires n <= |fs|
    ensures IsOrder(InOrder(n), |fs|)
    ensures var w := Winner(fs, InOrder(n), b);
            forall k :: 0 <= k < n && Touches(fs[k], b) ==> w.Some? && k <= w.value
    ensures Winner(fs, InOrder(n), b).Some? ==> Winner(fs, InOrder(n), b).value < n
  {
    if n > 0 {
      assert InOrder(n)[..n - 1] == InOrder(n - 1);
      InOrderWinner(fs, n - 1, b);
    }
  }

  /** Two writes of a layout that share a byte, or a slot, have the same shape. */
  lemma SameShape(fs: seq<Shape>, i: nat, j: nat, b: int)
    requires Layout(fs) && i < |fs| && j < |fs|
    requires (Touches(fs[i], b) && Touches(fs[j], b)) || fs[i].addr / 4 == fs[j].addr / 4
    ensures fs[i] == fs[j]
  {
    ApartBothWays(fs[i], fs[j]);
  }

  lemma ApartBothWays(f: Shape, g: Shape)
    ensures Apart(f, g) <==> Apart(g, f)
  {
  }

  /** Of all writes that touch byte `b`, `w` is the last. */
  ghost predicate LastToTouch(fs: seq<Shape>, b: int, w: nat) {
    w < |fs| && Touches(fs[w], b) && forall k :: 0 <= k < |fs| && Touches(fs[k], b) ==> k <= w
  }

  /** It is what its slot holds in the end. */
  lemma LastIsKept(fs: seq<Shape>, b: int, w: nat)
    requires Layout(fs) && LastToTouch(fs, b, w)
    ensures Kept(fs, fs[w].addr / 4) == Some(w)
  {
    KeptIsLast(fs, fs[w].addr / 4, w);
    SameShape(fs, w, Kept(fs, fs[w].addr / 4).value, b);
  }

  lemma LastSurvives(fs: seq<Shape>, b: int, w: nat)
    requires Layout(fs) && LastToTouch(fs, b, w)
    ensures Winner(fs, Survivors(fs, SLOTS), b).Some?
  {
    LastIsKept(fs, b, w);
    SurvivorIsListed(fs, SLOTS, fs[w].addr / 4);
    var k :| 0 <= k < |Survivors(fs, SLOTS)| && Survivors(fs, SLOTS)[k] == w;
  }

  /** No other survivor touches the byte. */
  lemma OnlyLastSurvives(fs: seq<Shape>, b: int, w: nat, v: nat)
    requires Layout(fs) && LastToTouch(fs, b, w) && v in Survivors(fs, SLOTS) && v < |fs| && Touches(fs[v], b)
    ensures v == w
  {
    SurvivorIsKept(fs, SLOTS, v);
    SameShape(fs, v, w, b);
    LastIsKept(fs, b, w);
  }

  lemma LayoutWinner(fs: seq<Shape>, b: int)
    requires Layout(fs)
    ensures Winner(fs, InOrder(|fs|), b) == Winner(fs, Survivors(fs, SLOTS), b)
  {
    InOrderWinner(fs, |fs|, b);
    var live, kept := Winner(fs, InOrder(|fs|), b), Winner(fs, Survivors(fs, SLOTS), b);
    if live.Some? {
      LastSurvives(fs, b, live.value);
      OnlyLastSurvives(fs, b, live.value, kept.value);
    }
  }

  /** On any register layout, coalescing is lossless. */
  lemma LayoutIsLossless(fs: seq<Shape>)
    requires Layout(fs)
    ensures Lossless(fs)
  {
    forall b ensures Winner(fs, InOrder(|fs|), b) == Winner(fs, Survivors(fs, SLOTS), b) {
      LayoutWinner(fs, b);
    }
  }

  /** Two byte-wide writes into one slot: the first is forgotten. */
  lemma NarrowWritesAreLost()
    ensures !Lossless([Shape(0, 1), Shape(1, 1)])
  {
    var fs := [Shape(0, 1), Shape(1, 1)];
    InOrderWinner(fs, 2, 0);
    assert Winner(fs, InOrder(2), 0) == Some(0);
    if Winner(fs, Survivors(fs, SLOTS), 0) == Some(0) {
      SurvivorIsKept(fs, SLOTS, 0);
    }
  }

  /** A write at 0x100 or above is never remembered. */
  lemma HighWritesAreLost(f: Shape)
    requires f.addr >= 0x100 && f.width > 0
    ensures !Lossless([f])
  {
    InOrderWinner([f], 1, f.addr);
    if w :| Winner([f], Survivors([f], SLOTS), f.addr) == Some(w) {
      SurvivorIsKept([f], SLOTS, w);
    }
  }
}
