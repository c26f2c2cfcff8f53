/**
  What the rolling fingerprint must be: the window read as one long polynomial, reduced.  The
  lemmas say why the table-driven step computes it one byte at a time.
 */
module RabinSpec {
  import opened GF2
  import opened Words
  import opened Segments

  /** A byte string as a polynomial, first byte most significant. */
  ghost function BytesPoly(w: seq<byte>): Poly {
    if w == [] then {} else Add(Shift(BytesPoly(w[..|w| - 1]), 8), Bits(w[|w| - 1]))
  }

  /** The fingerprint of a byte string, computed from scratch. */
  ghost function Fingerprint(w: seq<byte>, poly: Poly): Poly {
    Mod(BytesPoly(w), poly)
  }

  lemma {:induction false} BytesPolyCons(b: byte, w: seq<byte>)
    ensures BytesPoly([b] + w) == Add(Shift(Bits(b), 8 * |w|), BytesPoly(w))
    decreases |w|
  {
    if w == [] {
      assert ([b] + w)[..0] == [];
      ShiftZero(Bits(b));
      assert BytesPoly([b] + w) == Add(Shift({}, 8), Bits(b));
      assert Shift({}, 8) == {};
    } else {
      var front, m := w[..|w| - 1], w[|w| - 1];
      assert ([b] + w)[..|w|] == [b] + front;
      BytesPolyCons(b, front);
      ShiftAdd(Shift(Bits(b), 8 * |front|), BytesPoly(front), 8);
      ShiftShift(Bits(b), 8 * |front|, 8);
      AddAssociates(Shift(Bits(b), 8 * |w|), Shift(BytesPoly(front), 8), Bits(m));
    }
  }

  /** Term by term: the last byte holds x^0 to x^7, the one before it x^8 to x^15, and so on. */
  lemma {:induction false} BytesPolyTerms(w: seq<byte>, i: nat)
    ensures i in BytesPoly(w) <==> i / 8 < |w| && w[|w| - 1 - i / 8] / Pow2(i % 8) % 2 == 1
    decreases |w|
  {
    if w != [] {
      var front, m := w[..|w| - 1], w[|w| - 1];
      InShift(BytesPoly(front), 8, i);
      BitsHas(m, i);
      ByteBits(m);
      if i >= 8 {
        BytesPolyTerms(front, i - 8);
        assert (i - 8) / 8 == i / 8 - 1 && (i - 8) % 8 == i % 8;
      } else {
        BitIsParity(m, i);
      }
    }
  }

  lemma {:induction false} BytesPolyZeros(n: nat)
    ensures BytesPoly(Zeros(n)) == {}
  {
    if n > 0 {
      BytesPolyZeros(n - 1);
      assert Zeros(n)[..n - 1] == Zeros(n - 1);
      assert Shift({}, 8) == {} && Bits(0) == {};
    }
  }

  // ---------- the two tables ----------

  /** T[i]: what to add to cancel the byte i standing at x^k..x^(k+7), reduced. */
  ghost predicate IsT(t: uint64, i: byte, poly: Poly)
    requires poly != {}
  {
    Bits(t) == Mod(Shift(Bits(i), Deg(poly)), poly) + Below(Shift(Bits(i), Deg(poly)), 64)
  }

  /** U[i]: the contribution of a byte i that has been shifted through the whole window. */
  ghost predicate IsU(u: uint64, i: byte, windowSize: nat, poly: Poly)
    requires windowSize > 0
  {
    Bits(u) == Mod(Shift(Bits(i), 8 * (windowSize - 1)), poly)
  }

  lemma ByteBits(m: nat)
    ensures m < 0x100 <==> Deg(Bits(m)) < 8
  {
    BitsBound(m, 8);
    assert Pow2(8) == 0x100;
  }

  /** The table entry assembled by calcT: a remainder or-ed under a truncated shift. */
  lemma TableEntry(r: uint64, i: byte, poly: Poly)
    requires 0 <= Deg(poly) && Bits(r) == Mod(Shift(Bits(i), Deg(poly)), poly)
    ensures IsT(Or(r, Shl(i, Deg(poly))), i, poly)
  {
    BitsOr(r, Shl(i, Deg(poly)));
    BitsShl(i, Deg(poly));
  }

  // ---------- appending one byte ----------

  /** The index p >> (k - 8) fits the table when p has degree below k. */
  lemma TableIndex(p: uint64, k: nat)
    requires 8 <= k && Deg(Bits(p)) < k
    ensures Shr(p, k - 8) < 0x100
  {
    var top := ShiftDown(Bits(p), k - 8);
    BitsShr(p, k - 8);
    if top != {} {
      InShiftDown(Bits(p), k - 8, Deg(top));
    }
    ByteBits(Shr(p, k - 8));
  }

  /** `high` holds the terms of `whole` from x^k up. */
  ghost predicate HighPart(high: Poly, whole: Poly, k: nat) {
    forall j: nat :: j in high <==> j in whole && j >= k
  }

  /** p * x^8 + m has its terms from x^k up exactly in the byte used as table index. */
  lemma TopByte(p: Poly, m: Poly, k: nat)
    requires 8 <= k && Deg(p) < k && Deg(m) < 8
    ensures HighPart(Shift(ShiftDown(p, k - 8), k), Add(Shift(p, 8), m), k)
  {
    var high, whole := Shift(ShiftDown(p, k - 8), k), Add(Shift(p, 8), m);
    forall j: nat ensures j in high <==> j in whole && j >= k {
      InShift(ShiftDown(p, k - 8), k, j);
      InShift(p, 8, j);
      if j >= k { InShiftDown(p, k - 8, j - k); }
    }
  }

  /** Removing the high terms and adding their remainder back is reduction. */
  lemma ReduceHigh(whole: Poly, high: Poly, poly: Poly)
    requires poly != {} && HighPart(high, whole, Deg(poly))
    ensures Add(whole - high, Mod(high, poly)) == Mod(whole, poly)
  {
    var low := whole - high;
    assert forall j | j in low :: j < Deg(poly);
    DegBelow(low, Deg(poly));
    ModSmall(low, poly);
    ModAdd(low, high, poly);
    assert Add(low, high) == whole by { assert forall j | j in high :: j in whole; }
  }

  /** Truncation to 64 bits removes the same terms from (p << 8) | m and from T[p >> shift]. */
  lemma CombineWords(whole: Poly, high: Poly, r: Poly, k: nat)
    requires k <= 63 && HighPart(high, whole, k) && Deg(r) < k
    ensures Add(Below(whole, 64), r + Below(high, 64)) == Add(whole - high, r)
  {
    forall j: nat ensures j in Add(Below(whole, 64), r + Below(high, 64)) <==> j in Add(whole - high, r) {
      if j in r { assert j < k; }
    }
  }

  /** The same, put together: the terms append8 leaves are those of the remainder. */
  lemma ReduceTruncated(whole: Poly, high: Poly, poly: Poly)
    requires 0 <= Deg(poly) <= 63 && HighPart(high, whole, Deg(poly))
    ensures Add(Below(whole, 64), Mod(high, poly) + Below(high, 64)) == Mod(whole, poly)
  {
    assert Add(whole - high, Mod(high, poly)) == Mod(whole, poly) by { ReduceHigh(whole, high, poly); }
    CombineWords(whole, high, Mod(high, poly), Deg(poly));
  }

  lemma ShiftedByte(p: uint64, m: byte)
    ensures Bits(Or(Shl(p, 8), m)) == Below(Add(Shift(Bits(p), 8), Bits(m)), 64)
  {
    BitsShl(p, 8);
    BitsOr(Shl(p, 8), m);
    ByteBits(m);
    forall j: nat ensures j in Below(Shift(Bits(p), 8), 64) + Bits(m)
                          <==> j in Below(Add(Shift(Bits(p), 8), Bits(m)), 64) {
      InShift(Bits(p), 8, j);
    }
  }

  /** Appending a byte through the table is multiplication by x^8, addition and reduction. */
  lemma AppendExact(p: uint64, m: byte, t: uint64, poly: Poly)
    requires 8 <= Deg(poly) <= 63 && Deg(Bits(p)) < Deg(poly)
    requires Shr(p, Deg(poly) - 8) < 0x100 && IsT(t, Shr(p, Deg(poly) - 8), poly)
    ensures Bits(Xor(Or(Shl(p, 8), m), t)) == Mod(Add(Shift(Bits(p), 8), Bits(m)), poly)
  {
    var shifted := Or(Shl(p, 8), m);
    assert Bits(shifted) == Below(Add(Shift(Bits(p), 8), Bits(m)), 64) by { ShiftedByte(p, m); }
    assert Bits(Shr(p, Deg(poly) - 8)) == ShiftDown(Bits(p), Deg(poly) - 8) by { BitsShr(p, Deg(poly) - 8); }
    assert Deg(Bits(m)) < 8 by { ByteBits(m); }
    TopByte(Bits(p), Bits(m), Deg(poly));
    ReduceTruncated(Add(Shift(Bits(p), 8), Bits(m)), Shift(Bits(Shr(p, Deg(poly) - 8)), Deg(poly)), poly);
    BitsXor(shifted, t);
  }

  // ---------- sliding the window ----------

  /** Dropping the oldest byte with U and appending the new one with T rolls the window. */
  lemma SlideExact(w: seq<byte>, f: uint64, m: byte, u: uint64, poly: Poly)
    requires w != [] && poly != {} && Bits(f) == Fingerprint(w, poly) && IsU(u, w[0], |w|, poly)
    ensures Bits(Xor(f, u)) == Fingerprint(w[1..], poly)
    ensures Mod(Add(Shift(Bits(Xor(f, u)), 8), Bits(m)), poly) == Fingerprint(w[1..] + [m], poly)
  {
    var rest := w[1..];
    assert w == [w[0]] + rest;
    DropOldest(w[0], rest, f, u, poly);
    assert (rest + [m])[..|rest|] == rest;
    AppendReduced(BytesPoly(rest), Bits(m), poly);
  }

  lemma DropOldest(b: byte, rest: seq<byte>, f: uint64, u: uint64, poly: Poly)
    requires poly != {} && Bits(f) == Fingerprint([b] + rest, poly) && IsU(u, b, |rest| + 1, poly)
    ensures Bits(Xor(f, u)) == Fingerprint(rest, poly)
  {
    var oldest := Shift(Bits(b), 8 * |rest|);
    BytesPolyCons(b, rest);
    ModAdd(oldest, BytesPoly(rest), poly);
    BitsXor(f, u);
    AddCommutes(Bits(f), Bits(u));
    AddCancels(Mod(oldest, poly), Mod(BytesPoly(rest), poly));
  }

  lemma AppendReduced(a: Poly, m: Poly, poly: Poly)
    requires poly != {}
    ensures Mod(Add(Shift(Mod(a, poly), 8), m), poly) == Mod(Add(Shift(a, 8), m), poly)
  {
    ModShift(a, 8, poly);
    ModAdd(Shift(Mod(a, poly), 8), m, poly);
    ModAdd(Shift(a, 8), m, poly);
  }
}
