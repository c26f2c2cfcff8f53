/**
  The Rabin fingerprint object (rabinpoly.c): two lookup tables, a ring buffer holding the window
  and a rolling fingerprint, updated in place.
 */
module RabinPoly {
  import opened GF2
  import opened Words
  import opened Msb
  import opened PolyWords
  import opened Segments
  import opened RabinSpec

  const DEFAULT_WINDOW_SIZE := 32
  const FINGERPRINT_PT: uint64 := 0xbfe6b8a5bf378d83

  /** Cutting where the fingerprint vanishes under the mask. */
  ghost function RabinParams(poly: Poly, mask: Poly, windowSize: nat, min: nat, max: nat): Params {
    Params(w => Fingerprint(w, poly) * mask == {}, windowSize, min, max)
  }

  /** A ring's contents from just after `pos`; from its start when pos is the -1 of a new object. */
  function Ring(b: seq<byte>, pos: nat): (w: seq<byte>)
    ensures |w| == |b|
  {
    if pos < |b| then b[pos + 1..] + b[..pos + 1] else b
  }

  lemma RingAt(b: seq<byte>, pos: nat, i: nat)
    requires pos < |b| && i < |b|
    ensures Ring(b, pos)[i] == b[if pos + 1 + i < |b| then pos + 1 + i else pos + 1 + i - |b|]
  {
  }

  /** Writing at the place after pos drops the oldest byte and appends the new one. */
  lemma RingStep(b: seq<byte>, pos: nat, m: byte)
    requires 0 < |b|
    ensures var pos' := if pos + 1 < |b| then pos + 1 else 0;
      (pos < |b| || pos' == 0) ==>
        Ring(b, pos)[0] == b[pos'] && Ring(b[pos' := m], pos') == Ring(b, pos)[1..] + [m]
  {
    var pos' := if pos + 1 < |b| then pos + 1 else 0;
    if pos < |b| || pos' == 0 {
      var after, wanted := Ring(b[pos' := m], pos'), Ring(b, pos)[1..] + [m];
      assert |after| == |wanted|;
      forall i | 0 <= i < |b| ensures after[i] == wanted[i] {
        RingAt(b[pos' := m], pos', i);
        if pos < |b| && i + 1 < |b| {
          RingAt(b, pos, i + 1);
        }
      }
    }
  }

  class Rabin {
    const poly: uint64
    const windowSize: uint32
    const avgSegmentSize: uint32
    const minSegmentSize: uint32
    const maxSegmentSize: uint32
    const fingerprintMask: uint64
    var fingerprint: uint64
    const buf: array<byte>
    var bufpos: uint32
    var curSegSize: uint32
    var shift: nat
    const T: array<uint64>
    const U: array<uint64>

    // ---------- abstract state ----------

    ghost function Modulus(): Poly {
      Bits(poly)
    }

    ghost function P(): Params {
      RabinParams(Modulus(), Bits(fingerprintMask), windowSize, minSegmentSize, maxSegmentSize)
    }

    /** The bytes in the ring, oldest first: it starts just after bufpos. */
    ghost function Window(): seq<byte>
      reads this, buf
    {
      Ring(buf[..], bufpos)
    }

    ghost function State(): Scan
      reads this, buf
    {
      Scan(Window(), curSegSize)
    }

    ghost predicate Shape()
      reads this
    {
      && 8 <= Deg(Modulus()) <= 63
      && buf.Length == windowSize > 0 && T.Length == 256 && U.Length == 256 && T != U
      && 1 <= minSegmentSize <= maxSegmentSize
      && (bufpos < windowSize || bufpos == 0xffff_ffff)
    }

    ghost predicate TableT()
      requires Shape()
      reads this, T
    {
      shift == Deg(Modulus()) - 8 && forall i: byte :: IsT(T[i], i, Modulus())
    }

    ghost predicate TableU()
      requires Shape()
      reads this, U
    {
      forall i: byte :: IsU(U[i], i, windowSize, Modulus())
    }

    ghost predicate Valid()
      reads this, buf, T, U
    {
      && Shape() && TableT() && TableU()
      && Bits(fingerprint) == Fingerprint(Window(), Modulus())
      && curSegSize < maxSegmentSize
    }

    // ---------- rolling ----------

    /** One byte more: multiplication by x^8, addition and reduction through the table. */
    function Append8(p: uint64, m: byte): (r: uint64)
      requires Shape() && TableT() && Deg(Bits(p)) < Deg(Modulus())
      reads this, T
      ensures Bits(r) == Mod(Add(Shift(Bits(p), 8), Bits(m)), Modulus())
    {
      TableIndex(p, Deg(Modulus()));
      AppendExact(p, m, T[Shr(p, shift)], Modulus());
      Xor(Or(Shl(p, 8), m), T[Shr(p, shift)])
    }

    /** The ring-buffer half of slide8: the new byte replaces the oldest, which is returned. */
    method Replace(m: byte) returns (om: byte)
      requires Shape()
      modifies this`bufpos, buf
      ensures Shape() && |old(Window())| == windowSize
      ensures om == old(Window())[0] && Window() == old(Window())[1..] + [m]
    {
      RingStep(buf[..], bufpos, m);
      bufpos := (bufpos + 1) % 0x1_0000_0000;
      if bufpos >= windowSize {
        bufpos := 0;
      }
      om := buf[bufpos];
      buf[bufpos] := m;
      assert buf[..] == old(buf[..])[bufpos := m];
    }

    method Slide8(m: byte)
      requires Valid()
      modifies this`bufpos, this`fingerprint, buf
      ensures Valid() && |old(Window())| == windowSize && Window() == old(Window())[1..] + [m]
    {
      ghost var w, f := Window(), fingerprint;
      var om := Replace(m);
      assert IsU(U[om], w[0], |w|, Modulus());
      SlideExact(w, f, m, U[om], Modulus());
      fingerprint := Append8(Xor(fingerprint, U[om]), m);
    }

    // ---------- building the tables ----------

    /** The three loops of calcT. */
    method CalcT()
      requires Shape()
      modifies this`shift, T, U
      ensures Shape() && TableT() && TableU()
    {
      FillT();
      var sizeshift := ShiftThroughWindow();
      FillU(sizeshift);
    }

    method EntryT(i: byte, t1: uint64, xshift: nat) returns (t: uint64)
      requires Shape() && xshift == Deg(Modulus()) && Bits(t1) == Mod({xshift}, Modulus())
      ensures IsT(t, i, Modulus())
    {
      assert poly != 0 by { FlsIsDegree(poly); }
      var r := PolyMMult(i, t1, poly);
      MulPower(i, xshift, Modulus());
      TableEntry(r, i, Modulus());
      t := Or(r, Shl(i, xshift));
    }

    method EntryU(i: byte, sizeshift: uint64) returns (u: uint64)
      requires Shape() && Bits(sizeshift) == Mod({8 * (windowSize - 1)}, Modulus())
      ensures IsU(u, i, windowSize, Modulus())
    {
      assert poly != 0 by { FlsIsDegree(poly); }
      u := PolyMMult(i, sizeshift, poly);
      WindowEntry(u, i, sizeshift, windowSize, Modulus());
    }

    method FillT()
      requires Shape()
      modifies this`shift, T
      ensures Shape() && TableT()
    {
      var xshift := Fls64(poly) - 1;
      FlsIsDegree(poly);
      assert poly != 0;
      shift := xshift - 8;
      var t1 := PolyMod(0, Shl(1, xshift), poly);
      LeadingPower(t1, xshift, Modulus());
      var i := 0;
      while i < 256
        invariant 0 <= i <= 256 && shift == xshift - 8
        invariant forall j: byte | j < i :: IsT(T[j], j, Modulus())
      {
        var t := EntryT(i, t1, xshift);
        T[i] := t;
        i := i + 1;
      }
    }

    /** append8 of a zero byte: one more power of x^8. */
    method AppendZero(s: uint64, ghost n: nat) returns (r: uint64)
      requires Shape() && TableT() && Bits(s) == Mod({n}, Modulus())
      ensures Bits(r) == Mod({n + 8}, Modulus())
    {
      r := Append8(s, 0);
      PowerStep(s, r, n, Modulus());
    }

    /** What a 1 becomes on its way through the window. */
    method ShiftThroughWindow() returns (sizeshift: uint64)
      requires Shape() && TableT()
      ensures Bits(sizeshift) == Mod({8 * (windowSize - 1)}, Modulus())
    {
      sizeshift := 1;
      PowerStart(Modulus());
      ghost var n := 0;
      var i := 1;
      while i < windowSize
        invariant 1 <= i <= windowSize && n == 8 * (i - 1)
        invariant Bits(sizeshift) == Mod({n}, Modulus())
      {
        sizeshift := AppendZero(sizeshift, n);
        i, n := i + 1, n + 8;
      }
    }

    method FillU(sizeshift: uint64)
      requires Shape() && Bits(sizeshift) == Mod({8 * (windowSize - 1)}, Modulus())
      modifies U
      ensures Shape() && TableU()
    {
      var i := 0;
      while i < 256
        invariant 0 <= i <= 256
        invariant forall j: byte | j < i :: IsU(U[j], j, windowSize, Modulus())
      {
        var u := EntryU(i, sizeshift);
        U[i] := u;
        i := i + 1;
      }
    }

    // ---------- the interface ----------

    /** rabin_init after its checks, for any polynomial of degree 8 to 63. */
    constructor (poly: uint64, windowSize: uint32, avg: uint32, min: uint32, max: uint32)
      requires 8 <= Deg(Bits(poly)) <= 63 && windowSize > 0 && 1 <= min <= avg <= max
      ensures Valid() && fresh(buf) && fresh(T) && fresh(U) && State() == Fresh(P())
      ensures this.poly == poly && this.windowSize == windowSize
      ensures minSegmentSize == min && avgSegmentSize == avg && maxSegmentSize == max
      ensures fingerprintMask == MaskFor(avg)
    {
      this.poly, this.windowSize := poly, windowSize;
      avgSegmentSize, minSegmentSize, maxSegmentSize := avg, min, max;
      fingerprintMask := MaskFor(avg);
      fingerprint, bufpos, curSegSize, shift := 0, 0xffff_ffff, 0, 0;
      buf := new byte[windowSize](_ => 0);
      T := new uint64[256];
      U := new uint64[256];
      new;
      CalcT();
      assert Window() == Zeros(windowSize);
      ZeroFingerprint(windowSize, Modulus());
    }

    /** One round of the loop below: roll, count, and test for the end of the segment. */
    method Take(b: byte) returns (cut: bool)
      requires Valid()
      modifies this`bufpos, this`fingerprint, this`curSegSize, buf
      ensures Valid() && State() == Feed(P(), old(State()), b)
      ensures cut == CutsHere(P(), Window(), old(curSegSize) + 1)
    {
      ghost var w := Window();
      Slide8(b);
      assert Window() == Slide(w, b);
      curSegSize := curSegSize + 1;
      if curSegSize < minSegmentSize {
        return false;
      }
      MaskTest(fingerprint, fingerprintMask);
      if BitAnd(fingerprint, fingerprintMask) == 0 || curSegSize == maxSegmentSize {
        curSegSize := 0;
        return true;
      }
      return false;
    }

    /** The same on the n-th byte of the data, no cut having been made before it. */
    method TakeNext(data: seq<byte>, n: nat, ghost s: Scan) returns (cut: bool, n': nat)
      requires Valid() && n < |data| && NoCut(P(), s, data, n) && State() == Scanned(P(), s, data, n)
      modifies this`bufpos, this`fingerprint, this`curSegSize, buf
      ensures Valid() && n' == n + 1 && State() == Scanned(P(), s, data, n')
      ensures if cut then OneCut(P(), s, data, n') else NoCut(P(), s, data, n')
    {
      CutOrNot(P(), s, data, n);
      cut := Take(data[n]);
      n' := n + 1;
    }

    /**
      Consumes bytes up to the end of the data or of the current segment.  The count is returned
      before its conversion to a C int.
     */
    method SegmentNext(data: seq<byte>) returns (n: nat, isNew: bool)
      requires Valid() && |data| < 0x1_0000_0000
      modifies this`bufpos, this`fingerprint, this`curSegSize, buf
      ensures Valid() && n <= |data| && (|data| > 0 ==> n > 0) && (!isNew ==> n == |data|)
      ensures State() == Scanned(P(), old(State()), data, n)
      ensures if isNew then OneCut(P(), old(State()), data, n) else NoCut(P(), old(State()), data, n)
    {
      ghost var p, s := P(), State();
      n, isNew := 0, false;
      while n < |data| && !isNew
        invariant n <= |data| && Valid() && (isNew ==> n > 0) && State() == Scanned(p, s, data, n)
        invariant if isNew then OneCut(p, s, data, n) else NoCut(p, s, data, n)
      {
        isNew, n := TakeNext(data, n, s);
      }
    }

    /** Back to the state of a new object. */
    method Reset()
      requires Shape() && TableT() && TableU()
      modifies this`bufpos, this`fingerprint, this`curSegSize, buf
      ensures Valid() && State() == Fresh(P()) && fingerprint == 0 && bufpos == 0xffff_ffff
    {
      fingerprint := 0;
      bufpos := 0xffff_ffff;
      curSegSize := 0;
      forall i | 0 <= i < buf.Length {
        buf[i] := 0;
      }
      assert Window() == Zeros(windowSize);
      ZeroFingerprint(windowSize, Modulus());
    }
  }

  /**
    Two valid objects with the same polynomial, window size and abstract state hold the same
    fingerprint and the same tables, wherever their rings start.
   */
  lemma StateDeterminesObject(a: Rabin, b: Rabin)
    requires a.Valid() && b.Valid() && a.poly == b.poly && a.windowSize == b.windowSize
    requires a.State() == b.State()
    ensures a.fingerprint == b.fingerprint && a.curSegSize == b.curSegSize && a.shift == b.shift
    ensures forall i: byte :: a.T[i] == b.T[i] && a.U[i] == b.U[i]
  {
    BitsInjective(a.fingerprint, b.fingerprint);
    forall i: byte ensures a.T[i] == b.T[i] && a.U[i] == b.U[i] {
      BitsInjective(a.T[i], b.T[i]);
      BitsInjective(a.U[i], b.U[i]);
    }
  }

  predicate SameParameters(a: Rabin, b: Rabin) {
    && a.poly == b.poly && a.windowSize == b.windowSize && a.fingerprintMask == b.fingerprintMask
    && a.minSegmentSize == b.minSegmentSize && a.maxSegmentSize == b.maxSegmentSize
  }

  /** The object has read the first n bytes of t since it was new or reset. */
  ghost predicate HasRead(rp: Rabin, t: seq<byte>, n: nat)
    reads rp, rp.buf
  {
    n <= |t| && rp.State() == Scanned(rp.P(), Fresh(rp.P()), t, n)
  }

  /**
    After any history an object that is reset and then reads a stream holds, after every byte, the
    fingerprint and the segment size of an object just initialised.
   */
  lemma ResetIsNew(reset: Rabin, made: Rabin, t: seq<byte>, n: nat)
    requires reset.Valid() && made.Valid() && SameParameters(reset, made)
    requires HasRead(reset, t, n) && HasRead(made, t, n)
    ensures reset.fingerprint == made.fingerprint && reset.curSegSize == made.curSegSize
  {
    StateDeterminesObject(reset, made);
  }

  /**
    Resynchronisation of two objects: if both have just cut, and the streams they have read end in
    the same window, they are in the same state, wherever their rings stand.
   */
  lemma Resynchronised(a: Rabin, b: Rabin, t: seq<byte>, u: seq<byte>)
    requires a.Valid() && b.Valid() && SameParameters(a, b)
    requires HasRead(a, t, |t|) && HasRead(b, u, |u|) && a.curSegSize == 0 && b.curSegSize == 0
    requires LastBytes(a.windowSize, t, |t|) == LastBytes(b.windowSize, u, |u|)
    ensures a.State() == b.State() && a.fingerprint == b.fingerprint
  {
    WindowIsLastBytes(a.P(), t, |t|);
    WindowIsLastBytes(b.P(), u, |u|);
    StateDeterminesObject(a, b);
  }

  /** They share nothing they write to, and no table. */
  ghost predicate Unshared(a: Rabin, b: Rabin) {
    a != b && a.buf != b.buf && a.T != b.T && a.U != b.U && a.T != b.U && a.U != b.T
  }

  /** Two objects in the same state return the same for the same buffer, and are in the same state again. */
  method SegmentAlike(a: Rabin, b: Rabin, data: seq<byte>) returns (n: nat, isNew: bool, m: nat, isNew': bool)
    requires a.Valid() && b.Valid() && SameParameters(a, b) && a.State() == b.State()
    requires Unshared(a, b) && |data| < 0x1_0000_0000
    modifies a`bufpos, a`fingerprint, a`curSegSize, a.buf, b`bufpos, b`fingerprint, b`curSegSize, b.buf
    ensures a.Valid() && b.Valid() && n == m && isNew == isNew'
    ensures n <= |data| && (|data| > 0 ==> n > 0)
    ensures a.State() == b.State() && a.fingerprint == b.fingerprint
  {
    ghost var s := a.State();
    n, isNew := a.SegmentNext(data);
    m, isNew' := b.SegmentNext(data);
    FirstCutUnique(a.P(), s, data, n, isNew, m, isNew');
    StateDeterminesObject(a, b);
  }

  /**
    Rolling is computing from scratch: an object that has read the stream t since it was new or
    reset holds the remainder of t's last windowSize bytes, zeros standing before the beginning.
   */
  lemma RollingIsFromScratch(rp: Rabin, t: seq<byte>)
    requires rp.Valid() && rp.State() == Scanned(rp.P(), Fresh(rp.P()), t, |t|)
    ensures IsRemainder(Bits(rp.fingerprint), BytesPoly(LastBytes(rp.windowSize, t, |t|)), rp.Modulus())
  {
    WindowIsLastBytes(rp.P(), t, |t|);
    ModIsRemainder(BytesPoly(rp.Window()), rp.Modulus());
  }

  // ---------- what the table loops compute ----------

  lemma LeadingPower(t1: uint64, k: nat, poly: Poly)
    requires k == Deg(poly) && k <= 63 && Bits(t1) == Mod(Wide(0, Shl(1, k)), poly)
    ensures Bits(t1) == Mod({k}, poly)
  {
    BitsOne(k);
    assert Shift({}, 64) == {} && Bits(0) == {};
    assert Add({}, {k}) == {k};
  }

  lemma MulPower(i: nat, n: nat, poly: Poly)
    requires poly != {}
    ensures Mod(Mul(Bits(i), Mod({n}, poly)), poly) == Mod(Shift(Bits(i), n), poly)
  {
    ModMul(Bits(i), {n}, poly);
    MulSingleRight(Bits(i), n);
  }

  lemma WindowEntry(u: uint64, i: byte, sizeshift: uint64, windowSize: nat, poly: Poly)
    requires poly != {} && windowSize > 0 && Bits(sizeshift) == Mod({8 * (windowSize - 1)}, poly)
    requires Bits(u) == Mod(Mul(Bits(i), Bits(sizeshift)), poly)
    ensures IsU(u, i, windowSize, poly)
  {
    MulPower(i, 8 * (windowSize - 1), poly);
  }

  lemma PowerStart(poly: Poly)
    requires Deg(poly) >= 8
    ensures Bits(1) == Mod({0}, poly)
  {
    BitsHas(1, 0);
    assert Bits(1) == {0};
    DegIs({0}, 0);
    ModSmall({0}, poly);
  }

  lemma PowerStep(before: uint64, after: uint64, n: nat, poly: Poly)
    requires poly != {} && Bits(before) == Mod({n}, poly)
    requires Bits(after) == Mod(Add(Shift(Bits(before), 8), Bits(0)), poly)
    ensures Bits(after) == Mod({n + 8}, poly)
  {
    ModShift({n}, 8, poly);
    assert Shift({n}, 8) == {n + 8};
    AddNothing(Shift(Bits(before), 8));
  }

  lemma AddNothing(a: Poly)
    ensures Add(a, Bits(0)) == a
  {
    assert Bits(0) == {};
  }

  lemma ZeroFingerprint(n: nat, poly: Poly)
    requires poly != {}
    ensures Bits(0) == Fingerprint(Zeros(n), poly)
  {
    BytesPolyZeros(n);
    assert Bits(0) == {};
    ModSmall({}, poly);
  }

  // ---------- the boundary mask ----------

  /** (1 << (fls32(avg) - 1)) - 1 */
  function MaskFor(avg: uint32): (mask: uint64)
    requires avg > 0
    ensures Pow2(Fls32(avg) - 1) == mask + 1 <= avg < 2 * (mask + 1)
  {
    MaskSize(avg);
    Shl(1, Fls32(avg) - 1) - 1
  }

  /** mask + 1 is the largest power of two not above the average size. */
  lemma MaskSize(avg: uint32)
    requires avg > 0
    ensures Fls32(avg) > 0 && Shl(1, Fls32(avg) - 1) == Pow2(Fls32(avg) - 1)
    ensures Pow2(Fls32(avg) - 1) <= avg < Pow2(Fls32(avg))
  {
    ShlOne(Fls32(avg) - 1);
  }

  lemma MaskTest(f: uint64, mask: uint64)
    ensures BitAnd(f, mask) == 0 <==> Bits(f) * Bits(mask) == {}
  {
    BitsAnd(f, mask);
    BitsInjective(BitAnd(f, mask), 0);
    assert Bits(0) == {};
  }

  /** rabin_init: rejects inconsistent sizes and windows below the default. */
  method RabinInit(windowSize: uint32, avg: uint32, min: uint32, max: uint32) returns (rp: Rabin?)
    ensures rp == null <==>
      min == 0 || avg == 0 || max == 0 || min > avg || max < avg || windowSize < DEFAULT_WINDOW_SIZE
    ensures rp != null ==> rp.Valid() && fresh(rp) && fresh(rp.buf) && fresh(rp.T) && fresh(rp.U)
    ensures rp != null ==> rp.State() == Fresh(rp.P()) && rp.poly == FINGERPRINT_PT
    ensures rp != null ==> rp.windowSize == windowSize && rp.minSegmentSize == min && rp.maxSegmentSize == max
    ensures rp != null ==> rp.fingerprintMask == MaskFor(avg)
  {
    if min == 0 || avg == 0 || max == 0 || min > avg || max < avg || windowSize < DEFAULT_WINDOW_SIZE {
      return null;
    }
    ShippedDegree();
    rp := new Rabin(FINGERPRINT_PT, windowSize, avg, min, max);
  }

  /** The shipped polynomial has degree 63. */
  lemma ShippedDegree()
    ensures Deg(Bits(FINGERPRINT_PT)) == 63
  {
    WordSize();
    assert Pow2(64) == 2 * Pow2(63);
    MsbIsDegree(FINGERPRINT_PT, 64);
  }
}
