/** The segmenting loop of rabin-example.c, without the MD5 sums it prints beside each length. */
module RabinDriver {
  import opened Machines
  import opened Words
  import opened Segments
  import opened RabinCuts
  import opened RabinPoly

  const READ_SIZE := 1024

  /** What successive reads of a file return before the first empty one. */
  predicate Reads(chunks: seq<seq<byte>>) {
    forall i | 0 <= i < |chunks| :: 0 < |chunks[i]| <= READ_SIZE
  }

  function Flatten(chunks: seq<seq<byte>>): seq<byte> {
    if chunks == [] then [] else Flatten(chunks[..|chunks| - 1]) + chunks[|chunks| - 1]
  }

  /** The lengths a stream must be cut into: its segments, then what is left. */
  ghost function Lengths(p: Params, t: seq<byte>): seq<nat> {
    Cuts(p, Fresh(p), t, |t|) + [Scanned(p, Fresh(p), t, |t|).size]
  }

  /** Where the i-th chunk starts in the stream. */
  function Start(chunks: seq<seq<byte>>, i: nat): nat
    requires i <= |chunks|
  {
    if i == 0 then 0 else Start(chunks, i - 1) + |chunks[i - 1]|
  }

  lemma {:induction false} ChunkInPlace(chunks: seq<seq<byte>>, i: nat)
    requires i < |chunks|
    ensures PieceAt(Flatten(chunks), Start(chunks, i), chunks[i])
    ensures Start(chunks, i + 1) == Start(chunks, i) + |chunks[i]|
    decreases |chunks|
  {
    var front, last := chunks[..|chunks| - 1], chunks[|chunks| - 1];
    SameStart(front, chunks, i);
    StreamLength(front);
    if i < |chunks| - 1 {
      ChunkInPlace(front, i);
    }
  }

  lemma {:induction false} SameStart(a: seq<seq<byte>>, b: seq<seq<byte>>, i: nat)
    requires i <= |a| <= |b| && forall j | 0 <= j < |a| :: a[j] == b[j]
    ensures Start(a, i) == Start(b, i)
    decreases i
  {
    if i > 0 {
      SameStart(a, b, i - 1);
    }
  }

  lemma {:induction false} StreamLength(chunks: seq<seq<byte>>)
    ensures Start(chunks, |chunks|) == |Flatten(chunks)|
    decreases |chunks|
  {
    if chunks != [] {
      StreamLength(chunks[..|chunks| - 1]);
      SameStart(chunks[..|chunks| - 1], chunks, |chunks| - 1);
    }
  }

  /** What the loops below have done after k bytes of t. */
  ghost predicate Progress(p: Params, t: seq<byte>, k: nat, state: Scan, lens: seq<nat>, open: nat) {
    Stands(Segmenter(p), Fresh(p), t, k, state, lens) && open == state.size
  }

  /** The same, counted back from a later position `end`. */
  ghost predicate Left(p: Params, t: seq<byte>, end: nat, bytes: nat, state: Scan, lens: seq<nat>, open: nat) {
    bytes <= end && Progress(p, t, end - bytes, state, lens, open)
  }

  lemma ProgressStart(p: Params, t: seq<byte>)
    ensures Progress(p, t, 0, Fresh(p), [], 0)
  {
  }

  lemma ProgressEnd(p: Params, t: seq<byte>, k: nat, state: Scan, lens: seq<nat>, open: nat)
    requires Progress(p, t, k, state, lens, open) && k == |t|
    ensures lens + [open] == Lengths(p, t)
  {
  }

  /** One call of rabin_segment_next on what stands at position k. */
  lemma ProgressStep(p: Params, t: seq<byte>, k: nat, piece: seq<byte>, n: nat, s: Scan, s': Scan,
                     lens: seq<nat>, open: nat, isNew: bool)
    requires PieceAt(t, k, piece) && n <= |piece|
    requires Progress(p, t, k, s, lens, open) && s' == Scanned(p, s, piece, n)
    requires if isNew then OneCut(p, s, piece, n) else NoCut(p, s, piece, n)
    ensures if isNew then Progress(p, t, k + n, s', lens + [open + n], 0)
            else Progress(p, t, k + n, s', lens, open + n)
  {
    RunPiece(Segmenter(p), Fresh(p), t, k, piece, n);
  }

  /**
    One round of the inner loop: a call of rabin_segment_next on the last `bytes` bytes of the
    buffer, which ends at position `end` of the stream t, and the bookkeeping after it.
   */
  method SegmentOnce(rp: Rabin, buffer: seq<byte>, bytes: nat, lens0: seq<nat>, open0: nat,
                     ghost t: seq<byte>, ghost end: nat)
    returns (rest: nat, lens: seq<nat>, open: nat)
    requires rp.Valid() && 0 < bytes <= |buffer| <= READ_SIZE && EndsAt(t, end, buffer)
    requires Left(rp.P(), t, end, bytes, rp.State(), lens0, open0)
    modifies rp, rp.buf
    ensures rp.Valid() && rest < bytes && Left(rp.P(), t, end, rest, rp.State(), lens, open)
  {
    ghost var s := rp.State();
    var buftoread := buffer[|buffer| - bytes..];
    PieceRest(t, end - |buffer|, buffer, bytes, end - bytes);
    var len, newSegment := rp.SegmentNext(buftoread);
    rest := bytes - len;
    ProgressStep(rp.P(), t, end - bytes, buftoread, len, s, rp.State(), lens0, open0, newSegment);
    lens, open := lens0, open0 + len;
    if newSegment {
      lens, open := lens + [open], 0;
    }
  }

  ghost predicate EndsAt(t: seq<byte>, end: nat, piece: seq<byte>) {
    |piece| <= end && PieceAt(t, end - |piece|, piece)
  }

  /** The inner loop: one buffer of bytes, ending at position `end` of the stream t. */
  method SegmentBuffer(rp: Rabin, buffer: seq<byte>, lens0: seq<nat>, open0: nat, ghost t: seq<byte>, ghost end: nat)
    returns (lens: seq<nat>, open: nat)
    requires rp.Valid() && |buffer| <= READ_SIZE && EndsAt(t, end, buffer)
    requires Left(rp.P(), t, end, |buffer|, rp.State(), lens0, open0)
    modifies rp, rp.buf
    ensures rp.Valid() && Left(rp.P(), t, end, 0, rp.State(), lens, open)
  {
    var bytes: nat := |buffer|;
    lens, open := lens0, open0;
    while bytes != 0
      invariant rp.Valid() && bytes <= |buffer|
      invariant Left(rp.P(), t, end, bytes, rp.State(), lens, open)
    {
      bytes, lens, open := SegmentOnce(rp, buffer, bytes, lens, open, t, end);
    }
  }

  /**
    Feeds the chunks to rp and collects the printed segment lengths; the last one is what is left
    over at the end of the file.
   */
  method SegmentChunks(rp: Rabin, chunks: seq<seq<byte>>) returns (lens: seq<nat>)
    requires Reads(chunks) && rp.Valid() && rp.State() == Fresh(rp.P())
    modifies rp, rp.buf
    ensures rp.Valid() && lens == Lengths(rp.P(), Flatten(chunks))
  {
    ghost var t, k := Flatten(chunks), 0;
    var segmentLen := 0;
    lens := [];
    ProgressStart(rp.P(), t);
    var i := 0;
    while i < |chunks|
      invariant 0 <= i <= |chunks| && rp.Valid() && k == Start(chunks, i)
      invariant Progress(rp.P(), t, k, rp.State(), lens, segmentLen)
    {
      ChunkInPlace(chunks, i);
      var chunk := chunks[i];
      lens, segmentLen := SegmentBuffer(rp, chunk, lens, segmentLen, t, k + |chunk|);
      i, k := i + 1, k + |chunk|;
      assert k == Start(chunks, i);
      assert Progress(rp.P(), t, k, rp.State(), lens, segmentLen);
    }
    StreamLength(chunks);
    ProgressEnd(rp.P(), t, k, rp.State(), lens, segmentLen);
    lens := lens + [segmentLen];
  }

  /** Two objects in the same state cut one buffer alike, down to the last call. */
  method SegmentBuffersAlike(a: Rabin, b: Rabin, buffer: seq<byte>) returns (lens: seq<nat>, lens': seq<nat>)
    requires a.Valid() && b.Valid() && SameParameters(a, b) && a.State() == b.State() && Unshared(a, b)
    requires |buffer| < 0x1_0000_0000
    modifies a`bufpos, a`fingerprint, a`curSegSize, a.buf, b`bufpos, b`fingerprint, b`curSegSize, b.buf
    ensures a.Valid() && b.Valid() && lens == lens' && a.State() == b.State() && a.fingerprint == b.fingerprint
  {
    lens, lens' := [], [];
    var done := 0;
    StateDeterminesObject(a, b);
    while done < |buffer|
      invariant done <= |buffer| && a.Valid() && b.Valid() && a.State() == b.State()
      invariant a.fingerprint == b.fingerprint && lens == lens'
    {
      var n, isNew, m, isNew' := SegmentAlike(a, b, buffer[done..]);
      lens, lens' := lens + [n], lens' + [m];
      done := done + n;
    }
  }

  /**
    After any history, an object that is reset cuts every stream, however it is divided, as a new
    object with its parameters does.
   */
  method ResetAgainstNew(rp: Rabin, other: Rabin, chunks: seq<seq<byte>>, chunks': seq<seq<byte>>)
    returns (lens: seq<nat>, lens': seq<nat>)
    requires rp.Valid() && other.Valid() && SameParameters(rp, other) && other.State() == Fresh(other.P())
    requires Unshared(rp, other) && Reads(chunks) && Reads(chunks') && Flatten(chunks) == Flatten(chunks')
    modifies rp, rp.buf, other, other.buf
    ensures lens == lens'
  {
    rp.Reset();
    lens := SegmentChunks(rp, chunks);
    lens' := SegmentChunks(other, chunks');
  }

  /**
    The whole program: the printed lengths depend on the file's bytes only, not on how reads
    divided them; they add up to the file, and all but the last are between min and max.
   */
  method SegmentFile(windowSize: uint32, avg: uint32, min: uint32, max: uint32, chunks: seq<seq<byte>>)
    returns (ok: bool, lens: seq<nat>)
    requires Reads(chunks)
    ensures ok <==> 1 <= min <= avg <= max && windowSize >= 32
    ensures ok ==> lens == Lengths(ShippedParams(windowSize, avg, min, max), Flatten(chunks))
    ensures ok ==> lens != [] && Sum(lens) == |Flatten(chunks)| && lens[|lens| - 1] < max
    ensures ok ==> forall i | 0 <= i < |lens| - 1 :: min <= lens[i] <= max
    ensures ok ==> forall k: nat | Pow2(k) <= avg < Pow2(k + 1) ::
      CutsAtFirst(Flatten(chunks), windowSize, k, min, max, lens)
  {
    var rp := RabinInit(windowSize, avg, min, max);
    if rp == null {
      return false, [];
    }
    lens := SegmentChunks(rp, chunks);
    LengthsBounded(rp.P(), Flatten(chunks));
    LengthsCutAtFirst(windowSize, avg, min, max, Flatten(chunks));
    return true, lens;
  }

  lemma LengthsCutAtFirst(windowSize: uint32, avg: uint32, min: uint32, max: uint32, t: seq<byte>)
    requires windowSize > 0 && 1 <= min <= avg <= max
    ensures forall k: nat | Pow2(k) <= avg < Pow2(k + 1) ::
      CutsAtFirst(t, windowSize, k, min, max, Lengths(ShippedParams(windowSize, avg, min, max), t))
  {
    var p := ShippedParams(windowSize, avg, min, max);
    var cuts, last := Cuts(p, Fresh(p), t, |t|), Scanned(p, Fresh(p), t, |t|).size;
    CutsAreSegmentation(p, t, |t|);
    SizesAddUp(p, Fresh(p), t, |t|);
    forall k: nat | Pow2(k) <= avg < Pow2(k + 1)
      ensures CutsAtFirst(t, windowSize, k, min, max, cuts + [last])
    {
      SegmentationCutsAtFirst(windowSize, avg, min, max, k, t, cuts, last);
    }
  }

  /** 2048 zeros, cut with an average of 2048 and bounds of 1024 and 4096. */
  lemma ZeroFile()
    ensures Lengths(ShippedParams(32, 2048, 1024, 4096), Zeros(2048)) == [1024, 1024, 0]
  {
    var lens := Lengths(ShippedParams(32, 2048, 1024, 4096), Zeros(2048));
    LengthsCutAtFirst(32, 2048, 1024, 4096, Zeros(2048));
    assert Pow2(11) == 2048 && Pow2(12) == 4096 by {
      Square(4, 0x10);
      assert Pow2(8) == 0x100;
    }
    ZerosCutAtMin(2048, 32, 11, 1024, 4096, lens);
    LengthsBounded(ShippedParams(32, 2048, 1024, 4096), Zeros(2048));
    TwoSegments(lens);
  }

  lemma TwoSegments(lens: seq<nat>)
    requires lens != [] && (forall i | 0 <= i < |lens| - 1 :: lens[i] == 1024) && lens[|lens| - 1] < 1024
    requires Sum(lens) == 2048
    ensures lens == [1024, 1024, 0]
  {
    if |lens| > 1 {
      assert lens[1..][1..] == lens[2..];
      if |lens| > 2 {
        assert Sum(lens) == 2048 + Sum(lens[2..]);
        assert lens[2..] != [] && Sum(lens[2..]) == lens[2] + Sum(lens[2..][1..]);
      }
    }
  }

  lemma LengthsBounded(p: Params, t: seq<byte>)
    requires p.Valid()
    ensures var lens := Lengths(p, t);
      Sum(lens) == |t| && lens[|lens| - 1] < p.max && forall i | 0 <= i < |lens| - 1 :: p.min <= lens[i] <= p.max
  {
    var cuts := Cuts(p, Fresh(p), t, |t|);
    CutsAreSegmentation(p, t, |t|);
    SegmentBounds(p, t, cuts, 0, |t|);
    SizesAddUp(p, Fresh(p), t, |t|);
    SumConcat(cuts, [Scanned(p, Fresh(p), t, |t|).size]);
    SumOne(Scanned(p, Fresh(p), t, |t|).size);
  }
}
