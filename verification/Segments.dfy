/**
  Content-defined segmentation, specified twice: as a scan that remembers the window and the size
  of the open segment, and declaratively, by where in the stream each segment must end.
 */
module Segments {
  import opened Machines
  import opened Words

  /** `hit` tells of a window whether it marks a boundary. */
  datatype Params = Params(hit: seq<byte> -> bool, windowSize: nat, min: nat, max: nat)
  {
    predicate Valid() {
      windowSize > 0 && 1 <= min <= max
    }
  }

  /** What the next cut depends on: the last bytes seen and the size of the open segment. */
  datatype Scan = Scan(window: seq<byte>, size: nat)

  function Zeros(n: nat): (z: seq<byte>)
    ensures |z| == n && forall i | 0 <= i < n :: z[i] == 0
  {
    seq(n, _ => 0)
  }

  function Fresh(p: Params): Scan {
    Scan(Zeros(p.windowSize), 0)
  }

  function Slide(w: seq<byte>, b: byte): seq<byte> {
    if w == [] then [] else w[1..] + [b]
  }

  /** A segment of the given size ends when its last bytes are w. */
  predicate CutsHere(p: Params, w: seq<byte>, size: nat) {
    size >= p.min && (p.hit(w) || size == p.max)
  }

  function Feed(p: Params, s: Scan, b: byte): Scan {
    var w := Slide(s.window, b);
    Scan(w, if CutsHere(p, w, s.size + 1) then 0 else s.size + 1)
  }

  /** The segment, if any, that byte b completes. */
  function Completed(p: Params, s: Scan, b: byte): seq<nat> {
    if CutsHere(p, Slide(s.window, b), s.size + 1) then [s.size + 1] else []
  }

  /** The scan, as a machine that emits the size of each segment it completes. */
  ghost predicate Segments(m: Machine<Scan, byte>, p: Params) {
    && (forall s, b {:trigger Feed(p, s, b)} :: m.next(s, b) == Feed(p, s, b))
    && (forall s, b {:trigger Completed(p, s, b)} :: m.out(s, b) == Completed(p, s, b))
  }

  ghost function Segmenter(p: Params): (m: Machine<Scan, byte>)
    ensures Segments(m, p)
  {
    assert Segments(Machine((s: Scan, b: byte) => Feed(p, s, b), (s: Scan, b: byte) => Completed(p, s, b)), p);
    var m :| Segments(m, p);
    m
  }

  ghost function Scanned(p: Params, s: Scan, t: seq<byte>, n: nat): Scan
    requires n <= |t|
  {
    Run(Segmenter(p), s, t, n)
  }

  /** The sizes of the segments the first n bytes of t complete. */
  ghost function Cuts(p: Params, s: Scan, t: seq<byte>, n: nat): seq<nat>
    requires n <= |t|
  {
    Output(Segmenter(p), s, t, n)
  }

  // ---------- one segment at a time ----------

  /** The first n bytes of t complete no segment. */
  ghost predicate NoCut(p: Params, s: Scan, t: seq<byte>, n: nat) {
    n <= |t| && Cuts(p, s, t, n) == [] && Scanned(p, s, t, n).size == s.size + n
  }

  /** The first n bytes of t complete one segment, with the last of them. */
  ghost predicate OneCut(p: Params, s: Scan, t: seq<byte>, n: nat) {
    0 < n <= |t| && Cuts(p, s, t, n) == [s.size + n] && Scanned(p, s, t, n).size == 0
  }

  /** Whether byte n completes the open segment decides between these two. */
  lemma CutOrNot(p: Params, s: Scan, t: seq<byte>, n: nat)
    requires n < |t| && NoCut(p, s, t, n)
    ensures Scanned(p, s, t, n + 1) == Feed(p, Scanned(p, s, t, n), t[n])
    ensures if CutsHere(p, Slide(Scanned(p, s, t, n).window, t[n]), s.size + n + 1)
            then OneCut(p, s, t, n + 1) else NoCut(p, s, t, n + 1)
  {
    var s' := Scanned(p, s, t, n);
    ScannedStep(p, s, t, n);
    assert [] + Completed(p, s', t[n]) == Completed(p, s', t[n]);
  }

  /** One more byte of a scan. */
  lemma ScannedStep(p: Params, s: Scan, t: seq<byte>, n: nat)
    requires n < |t|
    ensures Scanned(p, s, t, n + 1) == Feed(p, Scanned(p, s, t, n), t[n])
    ensures Cuts(p, s, t, n + 1) == Cuts(p, s, t, n) + Completed(p, Scanned(p, s, t, n), t[n])
  {
  }

  /** The segments completed so far are the first of those completed later. */
  lemma {:induction false} CutsGrow(p: Params, s: Scan, t: seq<byte>, n: nat, m: nat)
    requires n <= m <= |t|
    ensures Cuts(p, s, t, n) <= Cuts(p, s, t, m)
  {
    if n < m {
      CutsGrow(p, s, t, n, m - 1);
      ScannedStep(p, s, t, m - 1);
    }
  }

  /** What a call that stops at the first cut or at the end returns. */
  ghost predicate FirstCut(p: Params, s: Scan, t: seq<byte>, n: nat, isNew: bool) {
    if isNew then OneCut(p, s, t, n) else n == |t| && NoCut(p, s, t, n)
  }

  lemma FirstCutBefore(p: Params, s: Scan, t: seq<byte>, n: nat, isNew: bool, m: nat, isNew': bool)
    requires FirstCut(p, s, t, n, isNew) && FirstCut(p, s, t, m, isNew') && n <= m
    ensures n == m && isNew == isNew'
  {
    CutsGrow(p, s, t, n, m);
    var a, b := Cuts(p, s, t, n), Cuts(p, s, t, m);
    assert a != [] && b != [] ==> a[0] == b[0];
  }

  /** It is determined by the scan's state and the bytes. */
  lemma FirstCutUnique(p: Params, s: Scan, t: seq<byte>, n: nat, isNew: bool, m: nat, isNew': bool)
    requires FirstCut(p, s, t, n, isNew) && FirstCut(p, s, t, m, isNew')
    ensures n == m && isNew == isNew'
  {
    if n <= m {
      FirstCutBefore(p, s, t, n, isNew, m, isNew');
    } else {
      FirstCutBefore(p, s, t, m, isNew', n, isNew);
    }
  }

  /** Conservation: segments and open segment account for every byte scanned. */
  lemma SizesAddUp(p: Params, s: Scan, t: seq<byte>, n: nat)
    requires n <= |t|
    ensures Sum(Cuts(p, s, t, n)) + Scanned(p, s, t, n).size == s.size + n
  {
    var held := (s: Scan) => s.size;
    var m := Segmenter(p);
    forall s', b ensures held(m.next(s', b)) + Sum(m.out(s', b)) == held(s') + 1 {
      assert m.next(s', b) == Feed(p, s', b) && m.out(s', b) == Completed(p, s', b);
      SumOne(s'.size + 1);
    }
    Conservation(m, held, s, t, n);
  }

  /** Between bytes the open segment is shorter than the maximum. */
  lemma OpenBelowMax(p: Params, s: Scan, t: seq<byte>, n: nat)
    requires n <= |t| && p.Valid() && s.size < p.max
    ensures Scanned(p, s, t, n).size < p.max
  {
    var m, holds := Segmenter(p), (s: Scan) => s.size < p.max;
    forall s', b | holds(s') ensures holds(m.next(s', b)) {
      assert m.next(s', b) == Feed(p, s', b);
    }
    Invariance(m, holds, s, t, n);
  }

  // ---------- the window is the end of the stream ----------

  /** The w bytes before position n of t; zeros stand before the beginning. */
  function LastBytes(w: nat, t: seq<byte>, n: nat): seq<byte>
    requires n <= |t|
  {
    (Zeros(w) + t)[n..n + w]
  }

  lemma {:induction false} WindowIsLastBytes(p: Params, t: seq<byte>, n: nat)
    requires n <= |t| && p.windowSize > 0
    ensures Scanned(p, Fresh(p), t, n).window == LastBytes(p.windowSize, t, n)
  {
    if n > 0 {
      WindowIsLastBytes(p, t, n - 1);
      ScannedStep(p, Fresh(p), t, n - 1);
    }
  }

  // ---------- the declarative reading ----------

  /** A segment that starts at `from` may end at e. */
  predicate MayEnd(p: Params, t: seq<byte>, from: nat, e: nat)
    requires from <= e <= |t|
  {
    CutsHere(p, LastBytes(p.windowSize, t, e), e - from)
  }

  /** No segment starting at `from` may end in (from, to). */
  predicate NoEnd(p: Params, t: seq<byte>, from: nat, to: nat)
    requires to <= |t| + 1
  {
    forall e | from < e < to :: !MayEnd(p, t, from, e)
  }

  /** `lens` are the segments completed in t[from..to], each ending as early as possible. */
  predicate Segmentation(p: Params, t: seq<byte>, lens: seq<nat>, from: nat, to: nat)
    requires from <= to <= |t|
    decreases |lens|
  {
    if lens == [] then NoEnd(p, t, from, to + 1)
    else
      var e := from + lens[0];
      && from < e <= to && MayEnd(p, t, from, e) && NoEnd(p, t, from, e)
      && Segmentation(p, t, lens[1..], e, to)
  }

  /** The segment, if any, that starts at `start` and ends exactly at `to`. */
  function LastEnd(p: Params, t: seq<byte>, start: nat, to: nat): seq<nat>
    requires start <= to <= |t|
  {
    if MayEnd(p, t, start, to) then [to - start] else []
  }

  lemma OpenExtends(p: Params, t: seq<byte>, from: nat, to: nat)
    requires from <= to < |t| && Segmentation(p, t, [], from, to)
    ensures Segmentation(p, t, LastEnd(p, t, from, to + 1), from, to + 1)
  {
    if MayEnd(p, t, from, to + 1) {
      assert Segmentation(p, t, [], to + 1, to + 1);
      assert [to + 1 - from][1..] == [];
    }
  }

  lemma {:induction false} SegmentationExtends(p: Params, t: seq<byte>, lens: seq<nat>, from: nat, to: nat)
    requires from <= to < |t| && Segmentation(p, t, lens, from, to)
    ensures from + Sum(lens) <= to
    ensures Segmentation(p, t, lens + LastEnd(p, t, from + Sum(lens), to + 1), from, to + 1)
    decreases |lens|
  {
    if lens == [] {
      OpenExtends(p, t, from, to);
      assert [] + LastEnd(p, t, from, to + 1) == LastEnd(p, t, from, to + 1);
    } else {
      SegmentationExtends(p, t, lens[1..], from + lens[0], to);
      var more := LastEnd(p, t, from + Sum(lens), to + 1);
      assert (lens + more)[1..] == lens[1..] + more;
    }
  }

  /** The scan cuts exactly where the declarative reading says segments end. */
  lemma {:induction false} CutsAreSegmentation(p: Params, t: seq<byte>, n: nat)
    requires n <= |t| && p.Valid()
    ensures Segmentation(p, t, Cuts(p, Fresh(p), t, n), 0, n)
  {
    if n > 0 {
      CutsAreSegmentation(p, t, n - 1);
      ScannedStep(p, Fresh(p), t, n - 1);
      OneMoreByte(p, t, n - 1, Cuts(p, Fresh(p), t, n - 1), Scanned(p, Fresh(p), t, n - 1));
    }
  }

  lemma OneMoreByte(p: Params, t: seq<byte>, n: nat, lens: seq<nat>, s: Scan)
    requires n < |t| && p.Valid() && Segmentation(p, t, lens, 0, n)
    requires lens == Cuts(p, Fresh(p), t, n) && s == Scanned(p, Fresh(p), t, n)
    ensures Segmentation(p, t, lens + Completed(p, s, t[n]), 0, n + 1)
  {
    SegmentationExtends(p, t, lens, 0, n);
    assert Slide(s.window, t[n]) == LastBytes(p.windowSize, t, n + 1) by {
      WindowIsLastBytes(p, t, n + 1);
      ScannedStep(p, Fresh(p), t, n);
    }
    assert s.size == n - Sum(lens) by {
      SizesAddUp(p, Fresh(p), t, n);
    }
  }

  /** There is only one such list of segments. */
  lemma {:induction false} SegmentationUnique(p: Params, t: seq<byte>, a: seq<nat>, b: seq<nat>, from: nat, to: nat)
    requires from <= to <= |t| && Segmentation(p, t, a, from, to) && Segmentation(p, t, b, from, to)
    ensures a == b
    decreases |a|
  {
    if a != [] && b != [] {
      SegmentationUnique(p, t, a[1..], b[1..], from + a[0], to);
    }
  }

  /** Every segment has between min and max bytes, and what is left over is shorter than max. */
  lemma {:induction false} SegmentBounds(p: Params, t: seq<byte>, lens: seq<nat>, from: nat, to: nat)
    requires p.Valid() && from <= to <= |t| && Segmentation(p, t, lens, from, to)
    ensures forall i | 0 <= i < |lens| :: p.min <= lens[i] <= p.max
    ensures 0 <= to - from - Sum(lens) < p.max
    decreases |lens|
  {
    var last := from + p.max;
    assert last <= to ==> MayEnd(p, t, from, last);
    if lens != [] {
      SegmentBounds(p, t, lens[1..], from + lens[0], to);
    }
  }

  /**
    Resynchronisation: two streams that have both just been cut, and whose last windowSize bytes
    agree, are cut at the same places in any common continuation.
   */
  lemma Resynchronise(p: Params, t: seq<byte>, u: seq<byte>, next: seq<byte>, n: nat)
    returns (common: seq<nat>)
    requires p.Valid() && n <= |next|
    requires Scanned(p, Fresh(p), t, |t|).size == 0 && Scanned(p, Fresh(p), u, |u|).size == 0
    requires LastBytes(p.windowSize, t, |t|) == LastBytes(p.windowSize, u, |u|)
    ensures Cuts(p, Fresh(p), t + next, |t| + n) == Cuts(p, Fresh(p), t, |t|) + common
    ensures Cuts(p, Fresh(p), u + next, |u| + n) == Cuts(p, Fresh(p), u, |u|) + common
  {
    var s := Scanned(p, Fresh(p), t, |t|);
    assert s == Scanned(p, Fresh(p), u, |u|) by {
      WindowIsLastBytes(p, t, |t|);
      WindowIsLastBytes(p, u, |u|);
    }
    RunConcat(Segmenter(p), Fresh(p), t, next, n);
    RunConcat(Segmenter(p), Fresh(p), u, next, n);
    common := Cuts(p, s, next, n);
  }
}
