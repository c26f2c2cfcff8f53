/**
  Polynomials over the two-element field.  A polynomial is the set of the exponents whose
  coefficient is 1, so addition is symmetric difference and has no carries and no word size.
  The 64-bit code of the fingerprint library is specified against this module.
 */
module GF2 {

  type Poly = set<nat>

  function Add(a: Poly, b: Poly): Poly {
    (a - b) + (b - a)
  }

  /** a * x^n */
  function Shift(a: Poly, n: nat): Poly {
    set i | i in a :: i + n
  }

  /** k is the largest exponent of a. */
  ghost predicate Leads(k: nat, a: Poly) {
    k in a && forall i | i in a :: i <= k
  }

  lemma SomeLeads(a: Poly)
    requires a != {}
    ensures exists k: nat :: Leads(k, a)
  {
    var x :| x in a;
    assert forall i | i in a :: i == x || i in a - {x};
    if a - {x} == {} {
      assert Leads(x, a);
    } else {
      SomeLeads(a - {x});
      var m: nat :| Leads(m, a - {x});
      assert Leads(if x > m then x else m, a);
    }
  }

  /** The degree; -1 for the zero polynomial. */
  ghost function Deg(a: Poly): (d: int)
    ensures -1 <= d
    ensures forall i | i in a :: i <= d
    ensures a != {} <==> d >= 0
    ensures a != {} ==> d in a
  {
    if a == {} then -1
    else
      SomeLeads(a);
      var k: nat :| Leads(k, a);
      k
  }

  /** The product, by distributing the first factor over its terms, leading term first. */
  ghost function Mul(a: Poly, b: Poly): Poly
    decreases |a|
  {
    if a == {} then {}
    else Add(Shift(b, Deg(a)), Mul(a - {Deg(a)}, b))
  }

  /** a and b differ by a multiple of d. */
  ghost predicate Congruent(a: Poly, b: Poly, d: Poly) {
    exists q: Poly :: Mul(q, d) == Add(a, b)
  }

  /** r is what division of a by d leaves. */
  ghost predicate IsRemainder(r: Poly, a: Poly, d: Poly) {
    Congruent(a, r, d) && (d != {} ==> Deg(r) < Deg(d))
  }

  /** The remainder of a by d. */
  ghost function Mod(a: Poly, d: Poly): (r: Poly)
    ensures d != {} ==> Deg(r) < Deg(d)
  {
    SomeRemainder(a, d);
    var r :| IsRemainder(r, a, d);
    r
  }

  // ---------- addition ----------

  lemma AddZero(a: Poly)
    ensures Add(a, {}) == a
  {
  }

  lemma AddAssociates(a: Poly, b: Poly, c: Poly)
    ensures Add(Add(a, b), c) == Add(a, Add(b, c))
  {
  }

  lemma AddCommutes(a: Poly, b: Poly)
    ensures Add(a, b) == Add(b, a)
  {
  }

  lemma AddSwap(a: Poly, b: Poly, c: Poly, d: Poly)
    ensures Add(Add(a, b), Add(c, d)) == Add(Add(a, c), Add(b, d))
  {
    AddAssociates(a, b, Add(c, d));
    AddAssociates(b, c, d);
    AddCommutes(b, c);
    AddAssociates(c, b, d);
    AddAssociates(a, c, Add(b, d));
  }

  lemma AddCancels(a: Poly, b: Poly)
    ensures Add(a, Add(a, b)) == b
  {
  }

  // ---------- degrees and shifts ----------

  lemma DegIs(a: Poly, k: int)
    requires -1 <= k && (k >= 0 ==> k in a) && forall i | i in a :: i <= k
    ensures Deg(a) == k
  {
  }

  lemma DegBelow(a: Poly, k: int)
    requires 0 <= k && forall i | i in a :: i < k
    ensures Deg(a) < k
  {
  }

  lemma DegOfSum(a: Poly, b: Poly)
    requires Deg(b) < Deg(a)
    ensures Deg(Add(a, b)) == Deg(a)
  {
    DegIs(Add(a, b), Deg(a));
  }

  lemma DegShift(a: Poly, n: nat)
    requires a != {}
    ensures Deg(Shift(a, n)) == Deg(a) + n
  {
    assert Deg(a) + n in Shift(a, n);
    DegIs(Shift(a, n), Deg(a) + n);
  }

  lemma CancelLeading(a: Poly, s: Poly, d: Poly, n: nat)
    requires d != {} && s == Shift(d, n) && Deg(a) == Deg(d) + n
    ensures Deg(Add(a, s)) < Deg(a)
  {
    DegShift(d, n);
    DegBelow(Add(a, s), Deg(a));
  }

  lemma ShiftAdd(a: Poly, b: Poly, n: nat)
    ensures Shift(Add(a, b), n) == Add(Shift(a, n), Shift(b, n))
  {
    forall i | i in Add(Shift(a, n), Shift(b, n)) ensures i in Shift(Add(a, b), n) {
      assert i - n in Add(a, b);
    }
  }

  lemma ShiftShift(a: Poly, m: nat, n: nat)
    ensures Shift(Shift(a, m), n) == Shift(a, m + n)
  {
    forall i | i in Shift(a, m + n) ensures i in Shift(Shift(a, m), n) {
      assert i - n in Shift(a, m);
    }
  }

  lemma ShiftRemove(a: Poly, m: nat, n: nat)
    ensures Shift(a, n) - {m + n} == Shift(a - {m}, n)
  {
    forall i | i in Shift(a, n) - {m + n} ensures i in Shift(a - {m}, n) {
      assert i - n in a - {m};
    }
  }

  lemma ShiftZero(a: Poly)
    ensures Shift(a, 0) == a
  {
    forall i | i in a ensures i in Shift(a, 0) {
      assert i + 0 in Shift(a, 0);
    }
  }

  // ---------- multiplication ----------

  /** The product may be expanded at any term, not only at the leading one. */
  lemma {:induction false} MulTerm(a: Poly, b: Poly, i: nat)
    requires i in a
    ensures Mul(a, b) == Add(Shift(b, i), Mul(a - {i}, b))
    decreases |a|
  {
    var m := Deg(a);
    if i != m {
      MulTerm(a - {m}, b, i);
      DegIs(a - {i}, m);
      assert a - {m} - {i} == a - {i} - {m};
      assert Mul(a - {i}, b) == Add(Shift(b, m), Mul(a - {i} - {m}, b));
    }
  }

  /** Adding one term to, or cancelling it from, the first factor adds one shifted copy. */
  lemma MulToggle(a: Poly, b: Poly, i: nat)
    ensures Mul(Add(a, {i}), b) == Add(Mul(a, b), Shift(b, i))
  {
    if i in a {
      MulTerm(a, b, i);
      assert Add(a, {i}) == a - {i};
    } else {
      MulTerm(a + {i}, b, i);
      assert Add(a, {i}) == a + {i};
      assert a + {i} - {i} == a;
    }
  }

  lemma MulAddOneTerm(a: Poly, b: Poly, c: Poly, m: nat)
    requires m !in b && Mul(Add(a, b), c) == Add(Mul(a, c), Mul(b, c))
    ensures Mul(Add(a, b + {m}), c) == Add(Mul(a, c), Mul(b + {m}, c))
  {
    assert b + {m} == Add(b, {m});
    AddAssociates(a, b, {m});
    MulToggle(Add(a, b), c, m);
    MulToggle(b, c, m);
    AddAssociates(Mul(a, c), Mul(b, c), Shift(c, m));
  }

  lemma {:induction false} MulAddLeft(a: Poly, b: Poly, c: Poly)
    ensures Mul(Add(a, b), c) == Add(Mul(a, c), Mul(b, c))
    decreases |b|
  {
    if b == {} {
      AddZero(a);
      AddZero(Mul(a, c));
    } else {
      var m: nat :| m in b;
      var rest := b - {m};
      assert b == rest + {m};
      MulAddLeft(a, rest, c);
      MulAddOneTerm(a, rest, c, m);
    }
  }

  lemma {:induction false} MulAddRight(a: Poly, b: Poly, c: Poly)
    ensures Mul(a, Add(b, c)) == Add(Mul(a, b), Mul(a, c))
    decreases |a|
  {
    if a != {} {
      var m := Deg(a);
      MulAddRight(a - {m}, b, c);
      ShiftAdd(b, c, m);
      AddSwap(Shift(b, m), Shift(c, m), Mul(a - {m}, b), Mul(a - {m}, c));
    }
  }

  lemma {:induction false} MulShiftLeft(a: Poly, b: Poly, n: nat)
    ensures Mul(Shift(a, n), b) == Shift(Mul(a, b), n)
    decreases |a|
  {
    if a == {} {
      assert Shift(a, n) == {};
    } else {
      MulShiftLeft(a - {Deg(a)}, b, n);
      MulShiftTerm(a, a - {Deg(a)}, b, Deg(a), n);
    }
  }

  lemma MulShiftTerm(a: Poly, rest: Poly, b: Poly, m: nat, n: nat)
    requires m in a && rest == a - {m} && Mul(Shift(rest, n), b) == Shift(Mul(rest, b), n)
    ensures Mul(Shift(a, n), b) == Shift(Mul(a, b), n)
  {
    InShift(a, n, m + n);
    MulTerm(Shift(a, n), b, m + n);
    ShiftRemove(a, m, n);
    MulTerm(a, b, m);
    ShiftShift(b, m, n);
    ShiftAdd(Shift(b, m), Mul(rest, b), n);
  }

  /** The exponents i of a that pair with an exponent of b to give k. */
  ghost function Pairs(a: Poly, b: Poly, k: nat): set<nat> {
    set i | i in a && i <= k && k - i in b
  }

  /** The coefficient of x^k in a product is the parity of the number of pairs adding up to k. */
  lemma {:induction false} MulCoefficient(a: Poly, b: Poly, k: nat)
    ensures k in Mul(a, b) <==> |Pairs(a, b, k)| % 2 == 1
    decreases |a|
  {
    if a == {} {
      assert Pairs(a, b, k) == {};
    } else {
      var m := Deg(a);
      MulCoefficient(a - {m}, b, k);
      InShift(b, m, k);
      PairsTerm(a, b, k, m);
    }
  }

  lemma InShift(a: Poly, n: nat, k: nat)
    ensures k in Shift(a, n) <==> k >= n && k - n in a
  {
  }

  lemma PairsTerm(a: Poly, b: Poly, k: nat, m: nat)
    requires m in a
    ensures |Pairs(a, b, k)| == |Pairs(a - {m}, b, k)| + if m <= k && k - m in b then 1 else 0
  {
    var rest := Pairs(a - {m}, b, k);
    assert Pairs(a, b, k) == if m <= k && k - m in b then rest + {m} else rest;
  }

  lemma MulSingle(i: nat, b: Poly)
    ensures Mul({i}, b) == Shift(b, i)
  {
    DegIs({i}, i);
    assert {i} - {i} == {};
  }

  lemma {:induction false} MulZeroRight(a: Poly)
    ensures Mul(a, {}) == {}
    decreases |a|
  {
    if a != {} {
      MulZeroRight(a - {Deg(a)});
    }
  }

  lemma {:induction false} MulCommutes(a: Poly, b: Poly)
    ensures Mul(a, b) == Mul(b, a)
    decreases |a|
  {
    if a == {} {
      MulZeroRight(b);
    } else {
      var m := Deg(a);
      MulCommutes(a - {m}, b);
      MulSingleRight(b, m);
      MulAddRight(b, {m}, a - {m});
      assert Add({m}, a - {m}) == a;
    }
  }

  lemma {:induction false} MulSingleRight(a: Poly, n: nat)
    ensures Mul(a, {n}) == Shift(a, n)
    decreases |a|
  {
    if a != {} {
      var m := Deg(a);
      MulSingleRight(a - {m}, n);
      assert Add({m}, a - {m}) == a;
      ShiftAdd({m}, a - {m}, n);
      assert Shift({n}, m) == {m + n} == Shift({m}, n);
    }
  }

  lemma {:induction false} MulAssociates(a: Poly, b: Poly, c: Poly)
    ensures Mul(Mul(a, b), c) == Mul(a, Mul(b, c))
    decreases |a|
  {
    if a != {} {
      var m := Deg(a);
      MulAssociates(a - {m}, b, c);
      MulAddLeft(Shift(b, m), Mul(a - {m}, b), c);
      MulShiftLeft(b, c, m);
    }
  }

  lemma DegLeadingTerm(b: Poly, m: nat, low: Poly)
    requires b != {} && Deg(low) < m + Deg(b)
    ensures Deg(Add(Shift(b, m), low)) == m + Deg(b)
  {
    DegShift(b, m);
    DegOfSum(Shift(b, m), low);
  }

  /** There are no zero divisors: degrees add. */
  lemma {:induction false} DegMul(a: Poly, b: Poly)
    requires a != {} && b != {}
    ensures Deg(Mul(a, b)) == Deg(a) + Deg(b)
    decreases |a|
  {
    var m := Deg(a);
    var rest := a - {m};
    if rest != {} {
      DegMul(rest, b);
      assert Deg(rest) < m;
    }
    DegLeadingTerm(b, m, Mul(rest, b));
  }

  // ---------- congruence ----------

  lemma CongruentRefl(a: Poly, d: Poly)
    ensures Congruent(a, a, d)
  {
    assert Mul({}, d) == Add(a, a);
  }

  lemma CongruentAdd(a: Poly, b: Poly, a': Poly, b': Poly, d: Poly)
    requires Congruent(a, b, d) && Congruent(a', b', d)
    ensures Congruent(Add(a, a'), Add(b, b'), d)
  {
    var q: Poly :| Mul(q, d) == Add(a, b);
    var q': Poly :| Mul(q', d) == Add(a', b');
    MulAddLeft(q, q', d);
    AddSwap(a, b, a', b');
    assert Mul(Add(q, q'), d) == Add(Add(a, a'), Add(b, b'));
  }

  lemma CongruentTrans(a: Poly, b: Poly, c: Poly, d: Poly)
    requires Congruent(a, b, d) && Congruent(b, c, d)
    ensures Congruent(a, c, d)
  {
    CongruentAdd(a, b, b, c, d);
    assert Add(Add(a, b), Add(b, c)) == Add(a, c);
    var q: Poly :| Mul(q, d) == Add(Add(a, b), Add(b, c));
    assert Mul(q, d) == Add(a, c);
  }

  lemma CongruentSym(a: Poly, b: Poly, d: Poly)
    requires Congruent(a, b, d)
    ensures Congruent(b, a, d)
  {
    assert Add(a, b) == Add(b, a);
  }

  lemma CongruentMul(a: Poly, b: Poly, c: Poly, d: Poly)
    requires Congruent(a, b, d)
    ensures Congruent(Mul(c, a), Mul(c, b), d)
  {
    var q: Poly :| Mul(q, d) == Add(a, b);
    MulAddRight(c, a, b);
    MulAssociates(c, q, d);
    assert Mul(Mul(c, q), d) == Add(Mul(c, a), Mul(c, b));
  }

  lemma CongruentShift(a: Poly, b: Poly, n: nat, d: Poly)
    requires Congruent(a, b, d)
    ensures Congruent(Shift(a, n), Shift(b, n), d)
  {
    CongruentMul(a, b, {n}, d);
    MulSingle(n, a);
    MulSingle(n, b);
  }

  /** Long division: cancelling the leading term with a shifted divisor ends in a remainder. */
  lemma {:induction false} SomeRemainder(a: Poly, d: Poly)
    ensures exists r: Poly :: IsRemainder(r, a, d)
    decreases Deg(a)
  {
    if d == {} || Deg(a) < Deg(d) {
      CongruentRefl(a, d);
      assert IsRemainder(a, a, d);
    } else {
      var n := Deg(a) - Deg(d);
      var s := Shift(d, n);
      CancelLeading(a, s, d, n);
      SomeRemainder(Add(a, s), d);
      var r: Poly :| IsRemainder(r, Add(a, s), d);
      LongDivisionStep(a, s, d, n);
      CongruentTrans(a, Add(a, s), r, d);
      assert IsRemainder(r, a, d);
    }
  }

  lemma LongDivisionStep(a: Poly, s: Poly, d: Poly, n: nat)
    requires s == Shift(d, n)
    ensures Congruent(a, Add(a, s), d)
  {
    MulSingle(n, d);
    assert Add(a, Add(a, s)) == s;
    assert Mul({n}, d) == Add(a, Add(a, s));
  }

  lemma ModIsRemainder(a: Poly, d: Poly)
    ensures IsRemainder(Mod(a, d), a, d)
  {
    SomeRemainder(a, d);
  }

  /** Remainders are unique. */
  lemma RemainderUnique(a: Poly, r: Poly, d: Poly)
    requires d != {} && Congruent(a, r, d) && Deg(r) < Deg(d)
    ensures r == Mod(a, d)
  {
    ModIsRemainder(a, d);
    var r' := Mod(a, d);
    CongruentSym(a, r, d);
    CongruentTrans(r, a, r', d);
    var q: Poly :| Mul(q, d) == Add(r, r');
    if q != {} {
      DegMul(q, d);
      assert false;
    }
    assert Add(r, r') == {};
    assert r <= r' && r' <= r;
  }

  /** Congruent polynomials have the same remainder, and only they do. */
  lemma ModEqual(a: Poly, b: Poly, d: Poly)
    requires d != {}
    ensures Congruent(a, b, d) <==> Mod(a, d) == Mod(b, d)
  {
    ModIsRemainder(a, d);
    ModIsRemainder(b, d);
    CongruentSym(b, Mod(b, d), d);
    if Congruent(a, b, d) {
      CongruentTrans(a, b, Mod(b, d), d);
      RemainderUnique(a, Mod(b, d), d);
    }
    if Mod(a, d) == Mod(b, d) {
      CongruentTrans(a, Mod(a, d), b, d);
    }
  }

  /** Adding a shifted divisor does not change the remainder. */
  lemma ModStep(a: Poly, d: Poly, n: nat)
    requires d != {}
    ensures Mod(Add(a, Shift(d, n)), d) == Mod(a, d)
  {
    LongDivisionStep(a, Shift(d, n), d, n);
    ModEqual(a, Add(a, Shift(d, n)), d);
  }

  /** Reduction is linear. */
  lemma ModAdd(a: Poly, b: Poly, d: Poly)
    requires d != {}
    ensures Mod(Add(a, b), d) == Add(Mod(a, d), Mod(b, d))
  {
    ModIsRemainder(a, d);
    ModIsRemainder(b, d);
    CongruentAdd(a, Mod(a, d), b, Mod(b, d), d);
    DegBelow(Add(Mod(a, d), Mod(b, d)), Deg(d));
    RemainderUnique(Add(a, b), Add(Mod(a, d), Mod(b, d)), d);
  }

  /** A factor may be reduced before multiplying by x^n. */
  lemma ModShift(a: Poly, n: nat, d: Poly)
    requires d != {}
    ensures Mod(Shift(Mod(a, d), n), d) == Mod(Shift(a, n), d)
  {
    ModIsRemainder(a, d);
    CongruentShift(a, Mod(a, d), n, d);
    ModEqual(Shift(a, n), Shift(Mod(a, d), n), d);
  }

  /** A factor may be reduced before multiplying. */
  lemma ModMul(c: Poly, a: Poly, d: Poly)
    requires d != {}
    ensures Mod(Mul(c, Mod(a, d)), d) == Mod(Mul(c, a), d)
  {
    ModIsRemainder(a, d);
    CongruentMul(a, Mod(a, d), c, d);
    ModEqual(Mul(c, a), Mul(c, Mod(a, d)), d);
  }

  lemma ModSmall(a: Poly, d: Poly)
    requires d != {} && Deg(a) < Deg(d)
    ensures Mod(a, d) == a
  {
    CongruentRefl(a, d);
    RemainderUnique(a, a, d);
  }
}
