/** The most significant bit of a word (msb.h, with the table of msb.c). */
module Msb {
  import opened GF2
  import opened Words

  /** The position, counted from 1, of the most significant 1; 0 when there is none. */
  ghost predicate IsMsb(v: nat, r: int) {
    if v == 0 then r == 0 else r >= 1 && Pow2(r - 1) <= v < Pow2(r)
  }

  function Repeat(v: nat, count: nat): seq<nat> {
    seq(count, _ => v)
  }

  /** The table bytemsb: 0, 1, then runs of equal entries that double in length. */
  const BYTE_MSB: seq<nat> :=
    [0, 1, 2, 2] + Repeat(3, 4) + Repeat(4, 8) + Repeat(5, 16) + Repeat(6, 32) + Repeat(7, 64) + Repeat(8, 128)

  lemma ByteMsbExact(v: byte)
    ensures |BYTE_MSB| == 256 && IsMsb(v, BYTE_MSB[v]) && BYTE_MSB[v] <= 8
  {
    assert Pow2(1) == 2 && Pow2(2) == 4 && Pow2(3) == 8 && Pow2(4) == 16;
    assert Pow2(5) == 32 && Pow2(6) == 64 && Pow2(7) == 128 && Pow2(8) == 256;
  }

  /** The most significant bit of a word is that of its upper part, if there is one. */
  lemma UpperMsb(v: nat, n: nat, r: int)
    requires v / Pow2(n) > 0 && IsMsb(v / Pow2(n), r)
    ensures IsMsb(v, n + r)
  {
    var q := v / Pow2(n);
    DivFacts(v, Pow2(n));
    Pow2Add(r - 1, n);
    Pow2Add(r, n);
    Scaled(Pow2(r - 1), q, Pow2(r), Pow2(n), v % Pow2(n));
    assert Pow2(n) <= v by { Scaled(1, q, q + 1, Pow2(n), v % Pow2(n)); }
  }

  lemma Scaled(lo: nat, q: nat, hi: nat, p: nat, r: nat)
    requires lo <= q < hi && r < p
    ensures lo * p <= q * p + r < hi * p
  {
    ScaledUp(lo, q, p);
    ScaledUp(q + 1, hi, p);
  }

  lemma ScaledUp(a: nat, b: nat, p: nat)
    requires a <= b
    ensures a * p <= b * p
  {
  }

  /** A byte of a word, looked up in the table. */
  lemma UpperByte(v: nat, n: nat, p: nat)
    requires p == Pow2(n) && 0 < v / p < 0x100
    ensures IsMsb(v, n + BYTE_MSB[v / p]) && BYTE_MSB[v / p] <= 8
  {
    ByteMsbExact(v / p);
    UpperMsb(v, n, BYTE_MSB[v / p]);
  }

  lemma BytePowers()
    ensures Pow2(8) == 0x100 && Pow2(16) == 0x1_0000 && Pow2(24) == 0x100_0000
  {
    Square(4, 0x10);
    Square(8, 0x100);
    Pow2Add(8, 16);
  }

  /** fls32; the masks of the source test whether anything is left above 2, 3 or 1 bytes. */
  function Fls32(v: uint32): (r: nat)
    ensures IsMsb(v, r) && r <= 32
  {
    BytePowers();
    ByteMsbExact(0);
    if v >= 0x1_0000 then
      if v >= 0x100_0000 then
        UpperByte(v, 24, 0x100_0000);
        24 + BYTE_MSB[v / 0x100_0000]
      else
        UpperByte(v, 16, 0x1_0000);
        16 + BYTE_MSB[v / 0x1_0000]
    else if v >= 0x100 then
      UpperByte(v, 8, 0x100);
      8 + BYTE_MSB[v / 0x100]
    else
      ByteMsbExact(v);
      BYTE_MSB[v]
  }

  function Fls64(v: uint64): (r: nat)
    ensures IsMsb(v, r)
  {
    var h: uint32 := v / 0x1_0000_0000;
    if h != 0 then
      UpperWord(v, h);
      32 + Fls32(h)
    else
      Fls32(v % 0x1_0000_0000)
  }

  lemma UpperWord(v: nat, h: uint32)
    requires h == v / 0x1_0000_0000 && h != 0
    ensures IsMsb(v, 32 + Fls32(h))
  {
    WordSize();
    UpperMsb(v, 32, Fls32(h));
  }

  /** Ceiling of the base-2 logarithm; -1 at zero. */
  function Log2c64(v: uint64): (r: int)
    ensures v == 0 <==> r == -1
    ensures v >= 1 ==> r >= 0 && v <= Pow2(r) && (r > 0 ==> Pow2(r - 1) < v)
  {
    if v != 0 then Fls64(v - 1) else -1
  }

  /** At most one position is the most significant one. */
  lemma MsbUnique(v: nat, r: int, r': int)
    requires IsMsb(v, r) && IsMsb(v, r')
    ensures r == r'
  {
    if v > 0 {
      if r < r' { Pow2Monotone(r, r' - 1); }
      if r' < r { Pow2Monotone(r', r - 1); }
    }
  }

  /** As polynomials: fls64(v) - 1 is the degree of the polynomial v holds. */
  lemma FlsIsDegree(v: uint64)
    ensures Fls64(v) == Deg(Bits(v)) + 1
    ensures Fls64(v) <= 64
  {
    MsbIsDegree(v, Fls64(v));
    WordIff(v);
  }

  lemma MsbIsDegree(v: nat, r: int)
    requires IsMsb(v, r)
    ensures r == Deg(Bits(v)) + 1
  {
    BitsBound(v, r);
    if v > 0 {
      BitsBound(v, r - 1);
    }
  }
}
