/** Carry-less arithmetic on 64-bit words (the first half of rabinpoly.c). */
module PolyWords {
  import opened GF2
  import opened Words
  import opened Msb

  /** The 128-bit value nh * x^64 + nl. */
  function Wide(nh: uint64, nl: uint64): Poly {
    Add(Shift(Bits(nh), 64), Bits(nl))
  }

  // ---------- shifting across the word boundary ----------

  /** A polynomial shifted left by i < 64 splits into the carried-out and the kept part. */
  lemma SplitShift(a: Poly, i: nat)
    requires i <= 64
    ensures Add(Shift(ShiftDown(a, 64 - i), 64), Below(Shift(a, i), 64)) == Shift(a, i)
  {
    forall j: nat ensures j in Add(Shift(ShiftDown(a, 64 - i), 64), Below(Shift(a, i), 64))
                          <==> j in Shift(a, i)
    {
      InShift(a, i, j);
      InShift(ShiftDown(a, 64 - i), 64, j);
      if j >= 64 { InShiftDown(a, 64 - i, j - 64); }
    }
  }

  /** Adding a pair of words to a pair of words. */
  lemma WideXor(nh: uint64, nl: uint64, hi: uint64, lo: uint64)
    ensures Wide(Xor(nh, hi), Xor(nl, lo)) == Add(Wide(nh, nl), Wide(hi, lo))
  {
    BitsXor(nh, hi);
    BitsXor(nl, lo);
    ShiftAdd(Bits(nh), Bits(hi), 64);
    AddSwap(Shift(Bits(nh), 64), Shift(Bits(hi), 64), Bits(nl), Bits(lo));
  }

  lemma WideShift(y: uint64, i: nat)
    requires 0 < i <= 64
    ensures Wide(Shr(y, 64 - i), Shl(y, i)) == Shift(Bits(y), i)
  {
    BitsShr(y, 64 - i);
    BitsShl(y, i);
    SplitShift(Bits(y), i);
  }

  /** Adding a shifted word into a pair of words, the way both loops below do it. */
  lemma WideAddShift(nh: uint64, nl: uint64, y: uint64, i: nat)
    requires 0 < i <= 64
    ensures Wide(Xor(nh, Shr(y, 64 - i)), Xor(nl, Shl(y, i))) == Add(Wide(nh, nl), Shift(Bits(y), i))
  {
    WideXor(nh, nl, Shr(y, 64 - i), Shl(y, i));
    WideShift(y, i);
  }

  // ---------- polynomial product ----------

  /** The 128-bit product of two words. */
  method PolyMult(x: uint64, y: uint64) returns (ph: uint64, pl: uint64)
    ensures Wide(ph, pl) == Mul(Bits(x), Bits(y))
  {
    ph, pl := 0, 0;
    BitsHas(x, 0);
    MulLowBits(x, y, 0);
    if Bit(x, 0) {
      pl := y;
    }
    assert Bits(0) == {};
    MulLowBits(x, y, 0);
    var i := 1;
    while i < 64
      invariant 1 <= i <= 64
      invariant Wide(ph, pl) == Mul(Below(Bits(x), i), Bits(y))
    {
      BitsHas(x, i);
      MulLowBits(x, y, i);
      if Bit(x, i) {
        WideAddShift(ph, pl, y, i);
        ph := Xor(ph, Shr(y, 64 - i));
        pl := Xor(pl, Shl(y, i));
      }
      i := i + 1;
    }
    WordIff(x);
    assert Below(Bits(x), 64) == Bits(x);
  }

  /** The product by the lowest i + 1 bits from the product by the lowest i. */
  lemma MulLowBits(x: uint64, y: uint64, i: nat)
    ensures Mul(Below(Bits(x), i + 1), Bits(y))
         == if i in Bits(x) then Add(Mul(Below(Bits(x), i), Bits(y)), Shift(Bits(y), i))
            else Mul(Below(Bits(x), i), Bits(y))
    ensures Below(Bits(x), 0) == {}
  {
    if i in Bits(x) {
      assert Below(Bits(x), i + 1) == Add(Below(Bits(x), i), {i});
      MulToggle(Below(Bits(x), i), Bits(y), i);
    } else {
      assert Below(Bits(x), i + 1) == Below(Bits(x), i);
    }
  }

  // ---------- polynomial remainder ----------

  /**
    What one step of polymod keeps: the value h * x^64 + l is still the dividend modulo d, and
    the high word has no term above x^i.
   */
  ghost predicate HighLoop(n: Poly, h: uint64, l: uint64, d: uint64, i: int) {
    Mod(Wide(h, l), Bits(d)) == Mod(n, Bits(d)) && Deg(Bits(h)) <= i
  }

  /** The same once the high word is gone. */
  ghost predicate LowLoop(n: Poly, l: uint64, d: uint64, i: int) {
    Mod(Bits(l), Bits(d)) == Mod(n, Bits(d)) && Deg(Bits(l)) <= i
  }

  /** d moved up so that its leading bit is bit 63. */
  ghost predicate Normal(d: uint64, d': uint64, k: nat) {
    k == Deg(Bits(d)) && k < 64 && Bits(d') == Shift(Bits(d), 63 - k) && Deg(Bits(d')) == 63
  }

  lemma Normalize(d: uint64, k: nat)
    requires k == Deg(Bits(d)) && k < 64
    ensures Normal(d, Shl(d, 63 - k), k)
  {
    BitsShl(d, 63 - k);
    DegShift(Bits(d), 63 - k);
    BelowAll(Shift(Bits(d), 63 - k), 64);
  }

  lemma BelowAll(a: Poly, n: nat)
    requires Deg(a) < n
    ensures Below(a, n) == a
  {
  }

  lemma CancelHighValue(h: uint64, l: uint64, d: uint64, d': uint64, k: nat, i: nat)
    requires Normal(d, d', k) && i <= 63
    ensures Wide(Xor(h, Shr(d', 63 - i)), Xor(l, Shl(d', i + 1)))
         == Add(Wide(h, l), Shift(Bits(d), 64 - k + i))
  {
    WideAddShift(h, l, d', i + 1);
    ShiftShift(Bits(d), 63 - k, i + 1);
  }

  lemma CancelHighMod(h: uint64, l: uint64, d: uint64, d': uint64, k: nat, i: nat)
    requires Normal(d, d', k) && d != 0 && i <= 63
    ensures Mod(Wide(Xor(h, Shr(d', 63 - i)), Xor(l, Shl(d', i + 1))), Bits(d)) == Mod(Wide(h, l), Bits(d))
  {
    CancelHighValue(h, l, d, d', k, i);
    ModStep(Wide(h, l), Bits(d), 64 - k + i);
  }

  lemma CancelDegree(h: uint64, d': uint64, i: nat)
    requires i <= 63 && Deg(Bits(h)) == i && Deg(Bits(d')) == 63
    ensures Deg(Bits(Xor(h, Shr(d', 63 - i)))) < i
  {
    var s := Bits(Shr(d', 63 - i));
    BitsShr(d', 63 - i);
    BitsXor(h, Shr(d', 63 - i));
    InShiftDown(Bits(d'), 63 - i, i);
    DegBelow(Add(Bits(h), s), i);
  }

  lemma DegIfHas(a: Poly, i: nat)
    requires Deg(a) <= i
    ensures if i in a then Deg(a) == i else Deg(a) <= i - 1
  {
  }

  /** One pass of the first loop. */
  lemma HighStep(n: Poly, h: uint64, l: uint64, d: uint64, d': uint64, k: nat, i: nat)
    requires Normal(d, d', k) && d != 0 && i <= 63 && HighLoop(n, h, l, d, i)
    ensures if Bit(h, i) then HighLoop(n, Xor(h, Shr(d', 63 - i)), Xor(l, Shl(d', i + 1)), d, i - 1)
            else HighLoop(n, h, l, d, i - 1)
  {
    BitsHas(h, i);
    DegIfHas(Bits(h), i);
    if Bit(h, i) {
      CancelHighMod(h, l, d, d', k, i);
      CancelDegree(h, d', i);
    }
  }

  /** Shifts by nothing and by everything: the form the top bit is cancelled in. */
  lemma TopShifts(d': uint64, l: uint64)
    ensures Shr(d', 0) == d' && Xor(l, Shl(d', 64)) == l
  {
    BitsShl(d', 64);
    BitsInjective(Shl(d', 64), 0);
    assert Below(Shift(Bits(d'), 64), 64) == {};
  }

  lemma CancelLowValue(l: uint64, d: uint64, d': uint64, k: nat, i: nat)
    requires Normal(d, d', k) && k <= i <= 63
    ensures Bits(Xor(l, Shr(d', 63 - i))) == Add(Bits(l), Shift(Bits(d), i - k))
  {
    BitsShr(d', 63 - i);
    BitsXor(l, Shr(d', 63 - i));
    ShiftBack(Bits(d), 63 - k, 63 - i);
  }

  lemma CancelLowMod(l: uint64, d: uint64, d': uint64, k: nat, i: nat)
    requires Normal(d, d', k) && d != 0 && k <= i <= 63
    ensures Mod(Bits(Xor(l, Shr(d', 63 - i))), Bits(d)) == Mod(Bits(l), Bits(d))
  {
    CancelLowValue(l, d, d', k, i);
    ModStep(Bits(l), Bits(d), i - k);
  }

  lemma ShiftBack(a: Poly, m: nat, n: nat)
    requires n <= m
    ensures ShiftDown(Shift(a, m), n) == Shift(a, m - n)
  {
    forall j: nat ensures j in ShiftDown(Shift(a, m), n) <==> j in Shift(a, m - n) {
      InShiftDown(Shift(a, m), n, j);
      InShift(a, m, j + n);
      InShift(a, m - n, j);
    }
  }

  /** One pass of the second loop. */
  lemma LowStep(n: Poly, l: uint64, d: uint64, d': uint64, k: nat, i: nat)
    requires Normal(d, d', k) && d != 0 && k <= i <= 63 && LowLoop(n, l, d, i)
    ensures if Bit(l, i) then LowLoop(n, Xor(l, Shr(d', 63 - i)), d, i - 1)
            else LowLoop(n, l, d, i - 1)
  {
    BitsHas(l, i);
    DegIfHas(Bits(l), i);
    if Bit(l, i) {
      CancelLowMod(l, d, d', k, i);
      CancelDegree(l, d', i);
    }
  }

  lemma LoopStart(nh: uint64, nl: uint64, d: uint64)
    ensures HighLoop(Wide(nh, nl), nh, nl, d, 63)
  {
    WordIff(nh);
  }

  lemma HighToLow(n: Poly, h: uint64, l: uint64, d: uint64, i: int)
    requires HighLoop(n, h, l, d, i) && (i == -1 || h == 0)
    ensures LowLoop(n, l, d, 63)
  {
    assert Bits(h) == {};
    assert Wide(h, l) == Bits(l) by { assert Shift({}, 64) == {}; }
    WordIff(l);
  }

  lemma LoopEnd(n: Poly, l: uint64, d: uint64)
    requires d != 0 && LowLoop(n, l, d, Deg(Bits(d)) - 1)
    ensures Bits(l) == Mod(n, Bits(d))
  {
    BitsBound(d, 0);
    ModSmall(Bits(l), Bits(d));
  }

  /** The remainder of the 128-bit polynomial nh * x^64 + nl by d. */
  method PolyMod(nh: uint64, nl: uint64, d: uint64) returns (r: uint64)
    requires d != 0
    ensures Bits(r) == Mod(Wide(nh, nl), Bits(d))
  {
    var h, l, i := nh, nl, 63;
    ghost var n := Wide(nh, nl);
    var k := Fls64(d) - 1;
    FlsIsDegree(d);
    var d' := Shl(d, 63 - k);
    Normalize(d, k);
    LoopStart(h, l, d);
    if h != 0 {
      HighStep(n, h, l, d, d', k, 63);
      TopShifts(d', l);
      if Bit(h, 63) {
        h := Xor(h, d');
      }
      i := 62;
      while i >= 0
        invariant -1 <= i <= 62 && HighLoop(n, h, l, d, i)
      {
        HighStep(n, h, l, d, d', k, i);
        if Bit(h, i) {
          h, l := Xor(h, Shr(d', 63 - i)), Xor(l, Shl(d', i + 1));
        }
        i := i - 1;
      }
    }
    HighToLow(n, h, l, d, i);
    i := 63;
    while i >= k
      invariant k - 1 <= i <= 63 && LowLoop(n, l, d, i)
    {
      LowStep(n, l, d, d', k, i);
      if Bit(l, i) {
        l := Xor(l, Shr(d', 63 - i));
      }
      i := i - 1;
    }
    LoopEnd(n, l, d);
    r := l;
  }

  /** Multiplication modulo d. */
  method PolyMMult(x: uint64, y: uint64, d: uint64) returns (r: uint64)
    requires d != 0
    ensures Bits(r) == Mod(Mul(Bits(x), Bits(y)), Bits(d))
  {
    var h, l := PolyMult(x, y);
    r := PolyMod(h, l, d);
  }
}
