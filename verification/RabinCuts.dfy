/**
  Where the shipped segmenter cuts, said once more from first principles: remainders of byte strings
  read as polynomials, and sizes.
 */
module RabinCuts {
  import opened GF2
  import opened Machines
  import opened Msb
  import opened RabinPoly
  import opened RabinSpec
  import opened Segments
  import opened Words

  /** The parameters of an object made by rabin_init. */
  ghost function ShippedParams(windowSize: uint32, avg: uint32, min: uint32, max: uint32): Params
    requires avg > 0
  {
    RabinParams(Bits(FINGERPRINT_PT), Bits(MaskFor(avg)), windowSize, min, max)
  }

  predicate NoTermBelow(r: Poly, k: nat) {
    forall i | i in r :: i >= k
  }

  /** The bytes before e, as a polynomial modulo the shipped one, have no term below x^k. */
  ghost predicate Boundary(t: seq<byte>, e: nat, windowSize: nat, k: nat)
    requires e <= |t|
  {
    exists r: Poly ::
      IsRemainder(r, BytesPoly(LastBytes(windowSize, t, e)), Bits(0xbfe6b8a5bf378d83)) && NoTermBelow(r, k)
  }

  /** A segment from `from` may not run past e: e is max away, or a boundary. */
  ghost predicate Stop(t: seq<byte>, windowSize: nat, k: nat, max: nat, from: nat, e: nat)
    requires from <= e <= |t|
  {
    e - from == max || Boundary(t, e, windowSize, k)
  }

  /** There is no such place from `first` on and before `to`. */
  ghost predicate NoStop(t: seq<byte>, windowSize: nat, k: nat, max: nat, from: nat, first: nat, to: nat)
    requires from <= first && to <= |t| + 1
  {
    forall e | first <= e < to :: !Stop(t, windowSize, k, max, from, e)
  }

  /** A segment from `from` that ends at e, the first place at least min away where it may not run on. */
  ghost predicate Segment(t: seq<byte>, windowSize: nat, k: nat, min: nat, max: nat, from: nat, e: nat) {
    && from + min <= e <= |t|
    && Stop(t, windowSize, k, max, from, e) && NoStop(t, windowSize, k, max, from, from + min, e)
  }

  /** What is left behind the last segment: it goes to the end, and nothing stops it on the way. */
  ghost predicate Remainder(t: seq<byte>, windowSize: nat, k: nat, min: nat, max: nat, from: nat, e: nat) {
    from <= e == |t| && NoStop(t, windowSize, k, max, from, from + min, |t| + 1)
  }

  /** The lengths divide t into segments and a remainder. */
  ghost predicate CutsAtFirst(t: seq<byte>, windowSize: nat, k: nat, min: nat, max: nat, lens: seq<nat>) {
    Divided((from: nat, e: nat) => Segment(t, windowSize, k, min, max, from, e),
            (from: nat, e: nat) => Remainder(t, windowSize, k, min, max, from, e), lens)
  }

  // ---------- the mask ----------

  /** The bits of 2^k - 1. */
  lemma {:induction false} OnesBit(w: nat, k: nat, i: nat)
    requires w + 1 == Pow2(k)
    ensures Bit(w, i) <==> i < k
    decreases k
  {
    if k == 0 {
      ZeroBit(i);
    } else {
      assert Pow2(k) == 2 * Pow2(k - 1);
      if i > 0 {
        OnesBit(w / 2, k - 1, i - 1);
      }
    }
  }

  lemma MaskTerms(avg: uint32, k: nat, f: Poly)
    requires Pow2(k) <= avg < Pow2(k + 1)
    ensures f * Bits(MaskFor(avg)) == {} <==> NoTermBelow(f, k)
  {
    var mask := MaskFor(avg);
    MsbUnique(avg, k + 1, Fls32(avg));
    forall i: nat ensures i in Bits(mask) <==> i < k {
      BitsHas(mask, i);
      OnesBit(mask, k, i);
    }
    if f * Bits(mask) == {} {
      forall i | i in f ensures i >= k {
        assert i !in f * Bits(mask);
      }
    }
  }

  lemma HitIsBoundary(p: Params, avg: uint32, k: nat, t: seq<byte>, e: nat)
    requires avg > 0 && Pow2(k) <= avg < Pow2(k + 1) && e <= |t|
    requires p.hit == ShippedParams(0, avg, 0, 0).hit
    ensures p.hit(LastBytes(p.windowSize, t, e)) <==> Boundary(t, e, p.windowSize, k)
  {
    var a, d := BytesPoly(LastBytes(p.windowSize, t, e)), Bits(FINGERPRINT_PT);
    var f := Mod(a, d);
    MaskTerms(avg, k, f);
    ModIsRemainder(a, d);
    ShippedDegree();
    if Boundary(t, e, p.windowSize, k) {
      var r: Poly :| IsRemainder(r, a, d) && NoTermBelow(r, k);
      RemainderUnique(a, r, d);
    }
  }

  // ---------- the cuts ----------

  lemma MayEndIs(windowSize: uint32, avg: uint32, min: uint32, max: uint32, k: nat, t: seq<byte>, from: nat, e: nat)
    requires avg > 0 && Pow2(k) <= avg < Pow2(k + 1) && from <= e <= |t|
    ensures MayEnd(ShippedParams(windowSize, avg, min, max), t, from, e) <==>
      e - from >= min && Stop(t, windowSize, k, max, from, e)
  {
    HitIsBoundary(ShippedParams(windowSize, avg, min, max), avg, k, t, e);
  }

  lemma NoEndIs(windowSize: uint32, avg: uint32, min: uint32, max: uint32, k: nat, t: seq<byte>, from: nat, to: nat)
    requires 1 <= min <= avg && Pow2(k) <= avg < Pow2(k + 1) && to <= |t| + 1
    requires NoEnd(ShippedParams(windowSize, avg, min, max), t, from, to)
    ensures NoStop(t, windowSize, k, max, from, from + min, to)
  {
    forall e | from + min <= e < to ensures !Stop(t, windowSize, k, max, from, e) {
      MayEndIs(windowSize, avg, min, max, k, t, from, e);
    }
  }

  lemma EndIsSegment(windowSize: uint32, avg: uint32, min: uint32, max: uint32, k: nat, t: seq<byte>, from: nat, e: nat)
    requires 1 <= min <= avg && Pow2(k) <= avg < Pow2(k + 1) && from < e <= |t|
    requires MayEnd(ShippedParams(windowSize, avg, min, max), t, from, e)
    requires NoEnd(ShippedParams(windowSize, avg, min, max), t, from, e)
    ensures Segment(t, windowSize, k, min, max, from, e)
  {
    NoEndIs(windowSize, avg, min, max, k, t, from, e);
    MayEndIs(windowSize, avg, min, max, k, t, from, e);
  }

  /** What the recursive reading says of the i-th segment. */
  lemma {:induction false} SegmentAt(p: Params, t: seq<byte>, cuts: seq<nat>, from: nat, i: nat, a: nat, e: nat)
    requires from <= |t| && Segmentation(p, t, cuts, from, |t|) && i < |cuts|
    requires a == from + StartOf(cuts, i) && e == from + StartOf(cuts, i + 1)
    ensures a < e <= |t| && MayEnd(p, t, a, e) && NoEnd(p, t, a, e)
    decreases i
  {
    StartInTail(cuts, i + 1);
    if i > 0 {
      StartInTail(cuts, i);
      SegmentAt(p, t, cuts[1..], from + cuts[0], i - 1, a, e);
    }
  }

  /** And of what is left. */
  lemma {:induction false} OpenAt(p: Params, t: seq<byte>, cuts: seq<nat>, from: nat, a: nat)
    requires from <= |t| && Segmentation(p, t, cuts, from, |t|) && a == from + Sum(cuts)
    ensures a <= |t| && NoEnd(p, t, a, |t| + 1)
    decreases |cuts|
  {
    if cuts != [] {
      OpenAt(p, t, cuts[1..], from + cuts[0], a);
    }
  }

  lemma CutIsSegment(windowSize: uint32, avg: uint32, min: uint32, max: uint32, k: nat,
                     t: seq<byte>, cuts: seq<nat>, i: nat, a: nat, e: nat)
    requires 1 <= min <= avg && Pow2(k) <= avg < Pow2(k + 1) && i < |cuts|
    requires Segmentation(ShippedParams(windowSize, avg, min, max), t, cuts, 0, |t|)
    requires a == StartOf(cuts, i) && e == StartOf(cuts, i + 1)
    ensures Segment(t, windowSize, k, min, max, a, e)
  {
    SegmentAt(ShippedParams(windowSize, avg, min, max), t, cuts, 0, i, a, e);
    EndIsSegment(windowSize, avg, min, max, k, t, a, e);
  }

  lemma RestIsRemainder(windowSize: uint32, avg: uint32, min: uint32, max: uint32, k: nat,
                        t: seq<byte>, cuts: seq<nat>, a: nat)
    requires 1 <= min <= avg && Pow2(k) <= avg < Pow2(k + 1) && a == Sum(cuts)
    requires Segmentation(ShippedParams(windowSize, avg, min, max), t, cuts, 0, |t|)
    ensures Remainder(t, windowSize, k, min, max, a, |t|)
  {
    OpenAt(ShippedParams(windowSize, avg, min, max), t, cuts, 0, a);
    NoEndIs(windowSize, avg, min, max, k, t, a, |t| + 1);
  }

  lemma SegmentationCutsAtFirst(windowSize: uint32, avg: uint32, min: uint32, max: uint32, k: nat,
                                t: seq<byte>, cuts: seq<nat>, last: nat)
    requires 1 <= min <= avg && Pow2(k) <= avg < Pow2(k + 1)
    requires Segmentation(ShippedParams(windowSize, avg, min, max), t, cuts, 0, |t|)
    requires Sum(cuts) + last == |t|
    ensures CutsAtFirst(t, windowSize, k, min, max, cuts + [last])
  {
    var segment := (from: nat, e: nat) => Segment(t, windowSize, k, min, max, from, e);
    var rest := (from: nat, e: nat) => Remainder(t, windowSize, k, min, max, from, e);
    forall i | 0 <= i < |cuts| ensures MarksOff(segment, cuts, i) {
      CutIsSegment(windowSize, avg, min, max, k, t, cuts, i, StartOf(cuts, i), StartOf(cuts, i + 1));
    }
    RestIsRemainder(windowSize, avg, min, max, k, t, cuts, Sum(cuts));
    StartOfEnd(cuts);
    WithRest(segment, rest, cuts, last);
  }

  // ---------- a file of zeros ----------

  lemma ZerosAreBoundaries(n: nat, e: nat, windowSize: nat, k: nat)
    requires e <= n
    ensures Boundary(Zeros(n), e, windowSize, k)
  {
    var d := Bits(0xbfe6b8a5bf378d83);
    assert LastBytes(windowSize, Zeros(n), e) == Zeros(windowSize);
    BytesPolyZeros(windowSize);
    assert Mul({}, d) == Add({}, {});
    ShippedDegree();
    assert IsRemainder({}, BytesPoly(LastBytes(windowSize, Zeros(n), e)), d);
    assert NoTermBelow({}, k);
  }

  lemma ZeroSegment(n: nat, windowSize: nat, k: nat, min: nat, max: nat, from: nat, e: nat)
    ensures Segment(Zeros(n), windowSize, k, min, max, from, e) ==> e == from + min
    ensures Remainder(Zeros(n), windowSize, k, min, max, from, e) ==> e == n < from + min
  {
    if from + min <= n {
      ZerosAreBoundaries(n, from + min, windowSize, k);
      assert Stop(Zeros(n), windowSize, k, max, from, from + min);
    }
  }

  /** In zeros every place is a boundary: all segments have the minimum length. */
  lemma ZerosCutAtMin(n: nat, windowSize: nat, k: nat, min: nat, max: nat, lens: seq<nat>)
    requires CutsAtFirst(Zeros(n), windowSize, k, min, max, lens)
    ensures forall i | 0 <= i < |lens| - 1 :: lens[i] == min
    ensures lens[|lens| - 1] < min
  {
    var segment := (from: nat, e: nat) => Segment(Zeros(n), windowSize, k, min, max, from, e);
    forall i | 0 <= i < |lens| ensures if i < |lens| - 1 then lens[i] == min else lens[i] < min {
      assert i < |lens| - 1 ==> MarksOff(segment, lens, i);
      ZeroSegment(n, windowSize, k, min, max, StartOf(lens, i), StartOf(lens, i + 1));
    }
  }
}
