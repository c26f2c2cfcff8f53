/**
  Unsigned machine words and the polynomials they hold.  A word is a natural number below its
  width's power of two; left shifts drop what does not fit, as C's do.  Every operation is tied
  to what it does to the set of one-bits.
 */
module Words {
  import opened GF2

  function Pow2(n: nat): (p: nat)
    ensures p > 0
  {
    if n == 0 then 1 else 2 * Pow2(n - 1)
  }

  const WORD: nat := 0x1_0000_0000_0000_0000

  type uint64 = x: nat | x < WORD
  type uint32 = x: nat | x < 0x1_0000_0000
  type byte = x: nat | x < 0x100

  /** Bit i of w is 1; C's `w & (1 << i)` as a condition. */
  predicate Bit(w: nat, i: nat) {
    if i == 0 then w % 2 == 1 else Bit(w / 2, i - 1)
  }

  /** The polynomial whose coefficients are the bits of w. */
  function Bits(w: nat): Poly {
    set i | 0 <= i < w && Bit(w, i)
  }

  /** C's bitwise operators. */
  function BitXor(a: nat, b: nat): nat {
    if a == 0 then b else if b == 0 then a else 2 * BitXor(a / 2, b / 2) + (a + b) % 2
  }

  function BitOr(a: nat, b: nat): nat {
    if a == 0 then b else if b == 0 then a
    else 2 * BitOr(a / 2, b / 2) + if a % 2 == 1 || b % 2 == 1 then 1 else 0
  }

  function BitAnd(a: nat, b: nat): nat {
    if a == 0 || b == 0 then 0
    else 2 * BitAnd(a / 2, b / 2) + if a % 2 == 1 && b % 2 == 1 then 1 else 0
  }

  function Xor(a: uint64, b: uint64): uint64 {
    BitsXor(a, b);
    WordIff(a);
    WordIff(b);
    WordIff(BitXor(a, b));
    BitXor(a, b)
  }

  function Or(a: uint64, b: uint64): uint64 {
    BitsOr(a, b);
    WordIff(a);
    WordIff(b);
    WordIff(BitOr(a, b));
    BitOr(a, b)
  }

  /** C's `w << n`, one place at a time: a bit pushed past the top is lost. */
  function Shl(w: uint64, n: nat): uint64 {
    if n == 0 then w else 2 * Shl(w, n - 1) % WORD
  }

  /** C's `w >> n`. */
  function Shr(w: uint64, n: nat): uint64 {
    if n == 0 then w else Shr(w, n - 1) / 2
  }

  /** What is left of a polynomial below x^n. */
  function Below(a: Poly, n: nat): Poly {
    set i | i in a && i < n
  }

  /** Division by x^n without the remainder. */
  function ShiftDown(a: Poly, n: nat): Poly {
    set i | i in a && i >= n :: i - n
  }

  // ---------- numbers and their bits ----------

  lemma DivFacts(w: nat, p: nat)
    requires p > 0
    ensures 0 <= w / p <= w && 0 <= w % p < p && w == w / p * p + w % p
  {
    assert w == p * (w / p) + w % p;
    QuotientBounds(w, p, w / p, w % p);
  }

  lemma QuotientBounds(w: nat, p: nat, q: int, r: nat)
    requires r < p && w == p * q + r
    ensures 0 <= q <= w && w == q * p + r
  {
    if q >= 0 {
      Grows(p, q);
    }
  }

  lemma Grows(p: nat, q: nat)
    requires p > 0
    ensures p * q >= q
  {
  }

  lemma {:induction false} Pow2Add(m: nat, n: nat)
    ensures Pow2(m + n) == Pow2(m) * Pow2(n)
    decreases m
  {
    if m > 0 {
      Pow2Add(m - 1, n);
      Doubled(Pow2(m - 1), Pow2(n));
    }
  }

  lemma Doubled(a: nat, b: nat)
    ensures (2 * a) * b == 2 * (a * b)
  {
  }

  lemma WordSize()
    ensures Pow2(32) == 0x1_0000_0000 && Pow2(64) == WORD
  {
    Square(4, 0x10);
    Square(8, 0x100);
    Square(16, 0x1_0000);
    Square(32, 0x1_0000_0000);
  }

  lemma Square(n: nat, p: nat)
    requires Pow2(n) == p
    ensures Pow2(2 * n) == p * p
  {
    Pow2Add(n, n);
  }

  lemma {:induction false} BitsHas(w: nat, i: nat)
    ensures i in Bits(w) <==> Bit(w, i)
    decreases i
  {
    if i > 0 {
      BitsHas(w / 2, i - 1);
    }
  }

  /** Two numbers with the same bits in the same places have the same polynomial. */
  /** A bit is the parity of what is left after so many halvings. */
  lemma {:induction false} BitIsParity(w: nat, i: nat)
    ensures Bit(w, i) <==> w / Pow2(i) % 2 == 1
    decreases i
  {
    if i > 0 {
      BitIsParity(w / 2, i - 1);
      HalfThen(w, Pow2(i - 1));
    }
  }

  lemma AtLeastOnce(k: nat, d: nat)
    requires k > 0
    ensures k * d >= d
  {
  }

  lemma NoLarger(q: nat, r: nat, q': nat, r': nat, d: nat)
    requires q * d + r == q' * d + r' && r < d && r' < d
    ensures q <= q'
  {
    assert (q - q') * d == q * d - q' * d;
    if q > q' {
      AtLeastOnce(q - q', d);
    }
  }

  /** Division is determined by its equation. */
  lemma QuotientIs(w: nat, d: nat, q: nat, r: nat)
    requires r < d && w == q * d + r
    ensures w / d == q
  {
    DivFacts(w, d);
    NoLarger(q, r, w / d, w % d, d);
    NoLarger(w / d, w % d, q, r, d);
  }

  lemma HalfThen(w: nat, p: nat)
    requires p > 0
    ensures w / 2 / p == w / (2 * p)
  {
    var a, b := w / 2 / p, w / 2 % p;
    DivFacts(w / 2, p);
    assert w == 2 * (a * p + b) + w % 2;
    assert 2 * (a * p + b) == a * (2 * p) + 2 * b;
    QuotientIs(w, 2 * p, a, 2 * b + w % 2);
  }

  lemma SameBits(w: nat, a: Poly)
    requires forall i: nat :: Bit(w, i) <==> i in a
    ensures Bits(w) == a
  {
    forall i: nat ensures i in Bits(w) <==> i in a {
      BitsHas(w, i);
    }
  }

  /** Writing q above the n low places occupied by r. */
  lemma {:induction false} ConcatBit(q: nat, r: nat, n: nat, i: nat)
    requires r < Pow2(n)
    ensures Bit(q * Pow2(n) + r, i) <==> if i < n then Bit(r, i) else Bit(q, i - n)
    decreases n
  {
    if n > 0 {
      var x := q * Pow2(n - 1);
      Doubled(Pow2(n - 1), q);
      HalfConcat(x, r);
      if i > 0 {
        ConcatBit(q, r / 2, n - 1, i - 1);
      }
    }
  }

  lemma HalfConcat(x: nat, r: nat)
    ensures (2 * x + r) / 2 == x + r / 2 && (2 * x + r) % 2 == r % 2
  {
  }

  /** A number below 2^n has no bit at or above place n. */
  lemma {:induction false} NoHighBit(w: nat, n: nat, i: nat)
    requires w < Pow2(n) && i >= n
    ensures !Bit(w, i)
    decreases i
  {
    if i > 0 {
      NoHighBit(w / 2, if n == 0 then 0 else n - 1, i - 1);
    }
  }

  /** A number at or above 2^n has a bit at or above place n. */
  lemma {:induction false} SomeHighBit(w: nat, n: nat) returns (i: nat)
    requires w >= Pow2(n)
    ensures i >= n && Bit(w, i)
  {
    if w == 1 {
      i := 0;
    } else {
      i := SomeHighBit(w / 2, if n == 0 then 0 else n - 1);
      i := i + 1;
    }
  }

  /** A number is below 2^n exactly when its polynomial has no term at or above x^n. */
  lemma BitsBound(w: nat, n: nat)
    ensures w < Pow2(n) <==> Deg(Bits(w)) < n
  {
    if w < Pow2(n) {
      forall i | i in Bits(w) ensures i < n {
        if i >= n { NoHighBit(w, n, i); }
      }
    } else {
      var i := SomeHighBit(w, n);
      BitsHas(w, i);
    }
  }

  lemma WordIff(w: nat)
    ensures w < WORD <==> Deg(Bits(w)) < 64
  {
    BitsBound(w, 64);
    WordSize();
  }

  /** Numbers are determined by their bits. */
  lemma BitsInjective(a: nat, b: nat)
    ensures Bits(a) == Bits(b) <==> a == b
  {
    if Bits(a) == Bits(b) {
      forall i: nat ensures Bit(a, i) == Bit(b, i) {
        BitsHas(a, i);
        BitsHas(b, i);
      }
      BitInjective(a, b);
    }
  }

  lemma {:induction false} BitInjective(a: nat, b: nat)
    requires forall i: nat :: Bit(a, i) == Bit(b, i)
    ensures a == b
    decreases a + b
  {
    if a != b {
      assert Bit(a, 0) == Bit(b, 0);
      forall i: nat ensures Bit(a / 2, i) == Bit(b / 2, i) {
        assert Bit(a, i + 1) == Bit(b, i + 1);
      }
      BitInjective(a / 2, b / 2);
    }
  }

  // ---------- what each operation does to the polynomial ----------

  lemma {:induction false} XorBit(a: nat, b: nat, i: nat)
    ensures Bit(BitXor(a, b), i) <==> Bit(a, i) != Bit(b, i)
    decreases i
  {
    if a == 0 || b == 0 {
      ZeroBit(i);
    } else {
      XorStep(a, b);
      if i > 0 {
        XorBit(a / 2, b / 2, i - 1);
      }
    }
  }

  lemma SumParity(a: nat, b: nat)
    ensures (a + b) % 2 == if a % 2 == b % 2 then 0 else 1
  {
  }

  lemma LowBit(x: nat, r: nat)
    requires r < 2
    ensures (2 * x + r) / 2 == x && (2 * x + r) % 2 == r
  {
  }

  /** One place of an exclusive or, and the rest. */
  lemma XorStep(a: nat, b: nat)
    requires a > 0 && b > 0
    ensures BitXor(a, b) / 2 == BitXor(a / 2, b / 2)
    ensures BitXor(a, b) % 2 == if a % 2 == b % 2 then 0 else 1
  {
    SumParity(a, b);
    LowBit(BitXor(a / 2, b / 2), if a % 2 == b % 2 then 0 else 1);
  }

  lemma {:induction false} OrBit(a: nat, b: nat, i: nat)
    ensures Bit(BitOr(a, b), i) <==> Bit(a, i) || Bit(b, i)
    decreases i
  {
    if a == 0 || b == 0 {
      ZeroBit(i);
    } else {
      HalfConcat(BitOr(a / 2, b / 2), if a % 2 == 1 || b % 2 == 1 then 1 else 0);
      if i > 0 {
        OrBit(a / 2, b / 2, i - 1);
      }
    }
  }

  lemma {:induction false} AndBit(a: nat, b: nat, i: nat)
    ensures Bit(BitAnd(a, b), i) <==> Bit(a, i) && Bit(b, i)
    decreases i
  {
    if a == 0 || b == 0 {
      ZeroBit(i);
    } else {
      HalfConcat(BitAnd(a / 2, b / 2), if a % 2 == 1 && b % 2 == 1 then 1 else 0);
      if i > 0 {
        AndBit(a / 2, b / 2, i - 1);
      }
    }
  }

  lemma ZeroBit(i: nat)
    ensures !Bit(0, i)
  {
    NoHighBit(0, 0, i);
  }

  lemma BitsXor(a: nat, b: nat)
    ensures Bits(BitXor(a, b)) == Add(Bits(a), Bits(b))
  {
    forall i: nat ensures Bit(BitXor(a, b), i) <==> i in Add(Bits(a), Bits(b)) {
      XorBit(a, b, i);
      BitsHas(a, i);
      BitsHas(b, i);
    }
    SameBits(BitXor(a, b), Add(Bits(a), Bits(b)));
  }

  lemma BitsOr(a: nat, b: nat)
    ensures Bits(BitOr(a, b)) == Bits(a) + Bits(b)
  {
    forall i: nat ensures Bit(BitOr(a, b), i) <==> i in Bits(a) + Bits(b) {
      OrBit(a, b, i);
      BitsHas(a, i);
      BitsHas(b, i);
    }
    SameBits(BitOr(a, b), Bits(a) + Bits(b));
  }

  lemma BitsAnd(a: nat, b: nat)
    ensures Bits(BitAnd(a, b)) == Bits(a) * Bits(b)
  {
    forall i: nat ensures Bit(BitAnd(a, b), i) <==> i in Bits(a) * Bits(b) {
      AndBit(a, b, i);
      BitsHas(a, i);
      BitsHas(b, i);
    }
    SameBits(BitAnd(a, b), Bits(a) * Bits(b));
  }

  lemma ConcatHas(w: nat, n: nat, q: nat, r: nat, i: nat)
    requires w == q * Pow2(n) + r && r < Pow2(n)
    ensures i in Bits(w) <==> if i < n then i in Bits(r) else i - n in Bits(q)
  {
    ConcatBit(q, r, n, i);
    BitsHas(w, i);
    if i < n { BitsHas(r, i); } else { BitsHas(q, i - n); }
  }

  /** Splitting a number at place n splits its polynomial there. */
  lemma BitsSplit(w: nat, n: nat, q: nat, r: nat)
    requires w == q * Pow2(n) + r && r < Pow2(n)
    ensures Bits(q) == ShiftDown(Bits(w), n)
    ensures Bits(r) == Below(Bits(w), n)
  {
    forall i: nat ensures i in Bits(q) <==> i in ShiftDown(Bits(w), n) {
      ConcatHas(w, n, q, r, i + n);
      InShiftDown(Bits(w), n, i);
    }
    forall i: nat ensures i in Bits(r) <==> i in Below(Bits(w), n) {
      ConcatHas(w, n, q, r, i);
      if i >= n && i in Bits(r) { NoHighBit(r, n, i); }
    }
  }

  lemma InShiftDown(a: Poly, n: nat, i: nat)
    ensures i in ShiftDown(a, n) <==> i + n in a
  {
    if i + n in a {
      assert i + n - n == i;
    }
  }

  lemma DoubleHas(w: uint64, i: nat)
    ensures i in Bits(2 * w % WORD) <==> 0 < i < 64 && i - 1 in Bits(w)
  {
    WordSize();
    BitsSplit(2 * w, 64, 2 * w / WORD, 2 * w % WORD);
    BitsHas(2 * w, i);
    if i > 0 { BitsHas(w, i - 1); }
  }

  lemma HalfHas(w: nat, i: nat)
    ensures i in Bits(w / 2) <==> i + 1 in Bits(w)
  {
    BitsHas(w / 2, i);
    BitsHas(w, i + 1);
  }

  lemma {:induction false} BitsShl(w: uint64, n: nat)
    ensures Bits(Shl(w, n)) == Below(Shift(Bits(w), n), 64)
  {
    if n == 0 {
      ShiftZero(Bits(w));
      WordIff(w);
    } else {
      BitsShl(w, n - 1);
      forall i: nat ensures i in Bits(Shl(w, n)) <==> i in Below(Shift(Bits(w), n), 64) {
        DoubleHas(Shl(w, n - 1), i);
        InShift(Bits(w), n, i);
        if i > 0 { InShift(Bits(w), n - 1, i - 1); }
      }
    }
  }

  lemma {:induction false} BitsShr(w: uint64, n: nat)
    ensures Bits(Shr(w, n)) == ShiftDown(Bits(w), n)
  {
    if n > 0 {
      BitsShr(w, n - 1);
    }
    forall i: nat ensures i in Bits(Shr(w, n)) <==> i in ShiftDown(Bits(w), n) {
      InShiftDown(Bits(w), n, i);
      if n > 0 {
        HalfHas(Shr(w, n - 1), i);
        InShiftDown(Bits(w), n - 1, i + 1);
      }
    }
  }

  lemma BitsOne(i: nat)
    requires i < 64
    ensures Bits(Shl(1, i)) == {i}
  {
    BitsShl(1, i);
    BitsHas(1, 0);
    assert Bits(1) == {0};
    assert Shift({0}, i) == {i};
  }

  lemma Pow2Monotone(m: nat, n: nat)
    requires m <= n
    ensures Pow2(m) <= Pow2(n)
  {
  }

  lemma Pow2Fits(n: nat)
    requires n < 64
    ensures 2 * Pow2(n) <= WORD
  {
    WordSize();
    Pow2Monotone(n + 1, 64);
  }

  lemma {:induction false} ShlOne(n: nat)
    requires n < 64
    ensures Shl(1, n) == Pow2(n) < WORD
  {
    Pow2Fits(n);
    if n > 0 {
      ShlOne(n - 1);
    }
  }
}
