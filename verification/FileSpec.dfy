/**
  What a user of the mounted file system may observe.  `IdealStep` is a plain map from paths to
  contents, with sessions on open files; `Step` adds what the implementation remembers besides.
 */
module FileSpec {
  import opened Common
  import opened Streams
  import opened Words

  type Path = string

  function Lookup<K, V>(m: map<K, V>, k: K): Option<V> {
    if k in m then Some(m[k]) else None
  }

  datatype Mode = ReadOnly | WriteOnly | ReadWrite

  /** An open file; once unlinked its contents live in the session alone. */
  datatype Session = Session(mode: Mode, orphan: Option<Bytes>)

  datatype Plain = Plain(files: map<Path, Bytes>, sessions: map<Path, Session>)

  datatype Op =
    | Mknod(path: Path)
    | Open(path: Path, mode: Mode)
    | Read(path: Path, offset: nat, size: nat)
    | Write(path: Path, offset: nat, data: Bytes)
    | Release(path: Path)
    | Unlink(path: Path)
    | Getattr(path: Path)

  datatype Errno = ENOENT | EEXIST | EBADF

  datatype Result = Done | Got(data: Bytes) | Count(n: nat) | Size(size: nat) | Failed(errno: Errno)

  // ---------- reading and writing a file's bytes ----------

  /** pread */
  function Slice(b: Bytes, offset: nat, size: nat): Bytes {
    if offset <= |b| then b[offset..Min(offset + size, |b|)] else []
  }

  /** b extended with zeros to at least n bytes. */
  function Padded(b: Bytes, n: nat): Bytes {
    if |b| < n then b + seq(n - |b|, _ => 0) else b
  }

  /** pwrite */
  function Overwrite(b: Bytes, offset: nat, data: Bytes): Bytes {
    if data == [] then b
    else
      var wide := Padded(b, offset + |data|);
      wide[..offset] + data + wide[offset + |data|..]
  }

  // ---------- the ideal steps ----------

  /** What the caller must respect: one session per path, and handles only while open. */
  predicate Allowed(open: set<Path>, op: Op) {
    match op
    case Open(p, _) => p !in open
    case Read(p, _, _) => p in open
    case Write(p, _, _) => p in open
    case Release(p) => p in open
    case _ => true
  }

  function OpenAfter(open: set<Path>, op: Op): set<Path> {
    match op
    case Open(p, _) => open + {p}
    case Release(p) => open - {p}
    case _ => open
  }

  /** The bytes a session works on. */
  function Current(s: Plain, p: Path): Bytes
    requires p in s.sessions
  {
    match s.sessions[p].orphan
    case Some(b) => b
    case None => if p in s.files then s.files[p] else []
  }

  /** The same state with other bytes under a session. */
  function WithCurrent(s: Plain, p: Path, b: Bytes): Plain
    requires p in s.sessions
  {
    match s.sessions[p].orphan
    case Some(_) => s.(sessions := s.sessions[p := s.sessions[p].(orphan := Some(b))])
    case None => s.(files := s.files[p := b])
  }

  /** What opening leaves of a file, given what the file held. */
  function Opened(s: Plain, p: Path, mode: Mode, kept: Bytes): Plain {
    Plain(s.files[p := kept], s.sessions[p := Session(mode, None)])
  }

  /** Removing a name; an open session keeps the bytes. */
  function Unlinked(s: Plain, p: Path): Plain
    requires p in s.files
  {
    Plain(s.files - {p},
          if p in s.sessions && s.sessions[p].orphan == None
          then s.sessions[p := s.sessions[p].(orphan := Some(s.files[p]))] else s.sessions)
  }

  function Closed(s: Plain, p: Path): Plain {
    s.(sessions := s.sessions - {p})
  }

  /** A file system that keeps what it is given; opening a missing file creates it. */
  function IdealStep(s: Plain, op: Op): (r: (Plain, Result))
    requires Allowed(s.sessions.Keys, op)
    ensures r.0.sessions.Keys == OpenAfter(s.sessions.Keys, op)
  {
    match op
    case Mknod(p) =>
      if p in s.files then (s, Failed(EEXIST)) else (s.(files := s.files[p := []]), Done)
    case Open(p, mode) =>
      (Opened(s, p, mode, if p in s.files then s.files[p] else []), Done)
    case Read(p, offset, size) =>
      (s, if s.sessions[p].mode == WriteOnly then Failed(EBADF) else Got(Slice(Current(s, p), offset, size)))
    case Write(p, offset, data) =>
      if s.sessions[p].mode == ReadOnly then (s, Failed(EBADF))
      else (WithCurrent(s, p, Overwrite(Current(s, p), offset, data)), Count(|data|))
    case Release(p) =>
      (Closed(s, p), Done)
    case Unlink(p) =>
      if p in s.files then (Unlinked(s, p), Done) else (s, Failed(ENOENT))
    case Getattr(p) =>
      (s, SizeOf(s, p))
  }

  function SizeOf(s: Plain, p: Path): Result {
    if p in s.files then Size(|s.files[p]|) else Failed(ENOENT)
  }

  // ---------- the steps as implemented ----------

  /**
    The files a user finds, and: the paths whose contents are an object in the cloud; the sessions
    whose local copy came from the cloud and on which no write has been attempted; the names that
    are links to metadata that is gone.
   */
  datatype Tiered = Tiered(plain: Plain, remote: set<Path>, clean: set<Path>, dangling: set<Path>)

  function Empty(): Tiered {
    Tiered(Plain(map[], map[]), {}, {}, {})
  }

  /** What opening really leaves: only contents longer than the threshold come back. */
  function Survives(threshold: int, b: Bytes): Bytes {
    if |b| > threshold then b else []
  }

  /** Closing an unwritten copy of an object whose name was unlinked and has been created again. */
  predicate Stale(s: Tiered, p: Path) {
    p in s.clean && p in s.plain.files && p in s.plain.sessions && s.plain.sessions[p].orphan.Some?
  }

  /** Release looks at the name, not at the descriptor. */
  function Released(threshold: int, s: Tiered, p: Path): (Tiered, Result) {
    var closed := s.(plain := Closed(s.plain, p), clean := s.clean - {p});
    if p !in s.plain.files then (closed, Failed(ENOENT))
    else if Stale(s, p) then
      (closed.(plain := closed.plain.(files := closed.plain.files - {p}), dangling := s.dangling + {p}), Done)
    else if p in s.clean then (closed, Done)
    else
      (closed.(remote := if |s.plain.files[p]| > threshold then s.remote + {p} else s.remote - {p}), Done)
  }

  function OnPlain(s: Tiered, op: Op): (Tiered, Result)
    requires Allowed(s.plain.sessions.Keys, op)
  {
    var (plain, r) := IdealStep(s.plain, op);
    (s.(plain := plain), r)
  }

  /** The file system as implemented, seen from outside. */
  function Step(threshold: int, s: Tiered, op: Op): (r: (Tiered, Result))
    requires Allowed(s.plain.sessions.Keys, op)
    ensures r.0.plain.sessions.Keys == OpenAfter(s.plain.sessions.Keys, op)
  {
    match op
    case Mknod(p) =>
      if p in s.dangling then (s, Failed(EEXIST)) else OnPlain(s, op)
    case Open(p, mode) =>
      var kept := if p in s.plain.files then Survives(threshold, s.plain.files[p]) else [];
      (Tiered(Opened(s.plain, p, mode, kept), s.remote,
              if p in s.remote then s.clean + {p} else s.clean - {p}, s.dangling - {p}), Done)
    case Write(p, _, _) =>
      OnPlain(s.(clean := s.clean - {p}), op)
    case Release(p) =>
      Released(threshold, s, p)
    case Unlink(p) =>
      if p in s.dangling then (s.(dangling := s.dangling - {p}), Done)
      else OnPlain(s.(remote := s.remote - {p}), op)
    case _ =>
      OnPlain(s, op)
  }

  /** Two states agree on every path but p. */
  ghost predicate Elsewhere(s: Tiered, s': Tiered, p: Path) {
    forall q | q != p :: SamePath(s, s', q)
  }

  predicate SamePath(s: Tiered, s': Tiered, q: Path) {
    && Lookup(s'.plain.files, q) == Lookup(s.plain.files, q)
    && Lookup(s'.plain.sessions, q) == Lookup(s.plain.sessions, q)
    && (q in s'.remote <==> q in s.remote)
    && (q in s'.clean <==> q in s.clean)
    && (q in s'.dangling <==> q in s.dangling)
  }

  /** A step on one path changes nothing another path sees. */
  lemma StepElsewhere(threshold: int, s: Tiered, op: Op)
    requires Allowed(s.plain.sessions.Keys, op)
    ensures Elsewhere(s, Step(threshold, s, op).0, op.path)
  {
  }

  // ---------- runs ----------

  /** Every operation of the run is allowed when its turn comes. */
  predicate Disciplined(open: set<Path>, ops: seq<Op>)
    decreases |ops|
  {
    ops == [] || (Allowed(open, ops[0]) && Disciplined(OpenAfter(open, ops[0]), ops[1..]))
  }

  function Results(threshold: int, s: Tiered, ops: seq<Op>): (rs: seq<Result>)
    requires Disciplined(s.plain.sessions.Keys, ops)
    ensures |rs| == |ops|
    decreases |ops|
  {
    if ops == [] then []
    else [Step(threshold, s, ops[0]).1] + Results(threshold, Step(threshold, s, ops[0]).0, ops[1..])
  }

  function Final(threshold: int, s: Tiered, ops: seq<Op>): Tiered
    requires Disciplined(s.plain.sessions.Keys, ops)
    decreases |ops|
  {
    if ops == [] then s else Final(threshold, Step(threshold, s, ops[0]).0, ops[1..])
  }

  function IdealResults(s: Plain, ops: seq<Op>): (rs: seq<Result>)
    requires Disciplined(s.sessions.Keys, ops)
    ensures |rs| == |ops|
    decreases |ops|
  {
    if ops == [] then []
    else [IdealStep(s, ops[0]).1] + IdealResults(IdealStep(s, ops[0]).0, ops[1..])
  }

  /** The caller of close never learns what release returns. */
  predicate SameAnswer(op: Op, r: Result, r': Result) {
    op.Release? || r == r'
  }

  predicate SameAnswers(ops: seq<Op>, rs: seq<Result>, rs': seq<Result>)
    requires |rs| == |ops| == |rs'|
  {
    forall i | 0 <= i < |ops| :: SameAnswer(ops[i], rs[i], rs'[i])
  }

  /** No file looks different. */
  ghost predicate LooksLike(s: Plain, i: Plain) {
    forall p: Path :: SizeOf(s, p) == SizeOf(i, p)
  }

  /** Throughout the run every answer is that of the plain map, and so is every file's size. */
  ghost predicate Follows(threshold: int, s: Tiered, i: Plain, ops: seq<Op>)
    requires Disciplined(s.plain.sessions.Keys, ops) && s.plain.sessions.Keys == i.sessions.Keys
    decreases |ops|
  {
    && LooksLike(s.plain, i)
    && (ops == [] ||
        var (s', r) := Step(threshold, s, ops[0]);
        var (i', r') := IdealStep(i, ops[0]);
        SameAnswer(ops[0], r, r') && Follows(threshold, s', i', ops[1..]))
  }

  /** Opening a file that stayed on the SSD. */
  predicate LosesContents(threshold: int, s: Tiered, op: Op) {
    op.Open? && op.path in s.plain.files && 0 < |s.plain.files[op.path]| <= threshold
  }

  predicate LosesName(s: Tiered, op: Op) {
    op.Release? && Stale(s, op.path)
  }

  predicate Harmless(threshold: int, s: Tiered, op: Op) {
    !LosesContents(threshold, s, op) && !LosesName(s, op)
  }

  predicate AllHarmless(threshold: int, s: Tiered, ops: seq<Op>)
    requires Disciplined(s.plain.sessions.Keys, ops)
    decreases |ops|
  {
    ops == [] ||
      (Harmless(threshold, s, ops[0]) && AllHarmless(threshold, Step(threshold, s, ops[0]).0, ops[1..]))
  }

  /** No release in the run is stale. */
  predicate NeverStale(threshold: int, s: Tiered, ops: seq<Op>)
    requires Disciplined(s.plain.sessions.Keys, ops)
    decreases |ops|
  {
    ops == [] ||
      (!LosesName(s, ops[0]) && NeverStale(threshold, Step(threshold, s, ops[0]).0, ops[1..]))
  }

  /** One harmless step is the plain map's step, but for what release returns. */
  lemma HarmlessStep(threshold: int, s: Tiered, op: Op)
    requires Allowed(s.plain.sessions.Keys, op) && s.dangling == {} && Harmless(threshold, s, op)
    ensures Step(threshold, s, op).0.plain == IdealStep(s.plain, op).0
    ensures Step(threshold, s, op).0.dangling == {}
    ensures SameAnswer(op, Step(threshold, s, op).1, IdealStep(s.plain, op).1)
  {
  }

  /** One harmful step shows at once: the file has another size, or is gone. */
  lemma HarmfulStep(threshold: int, s: Tiered, op: Op)
    requires Allowed(s.plain.sessions.Keys, op) && !Harmless(threshold, s, op)
    ensures SizeOf(Step(threshold, s, op).0.plain, op.path) != SizeOf(IdealStep(s.plain, op).0, op.path)
  {
  }

  /**
    A run is indistinguishable from a run of the plain map exactly when no open loses contents and
    no release is stale, for every threshold.
   */
  lemma {:induction false} FollowsExactly(threshold: int, s: Tiered, ops: seq<Op>)
    requires Disciplined(s.plain.sessions.Keys, ops) && s.dangling == {}
    ensures Follows(threshold, s, s.plain, ops) <==> AllHarmless(threshold, s, ops)
    decreases |ops|
  {
    if ops != [] {
      if Harmless(threshold, s, ops[0]) {
        HarmlessStep(threshold, s, ops[0]);
        FollowsExactly(threshold, Step(threshold, s, ops[0]).0, ops[1..]);
      } else {
        HarmfulStep(threshold, s, ops[0]);
        assert !LooksLike(Step(threshold, s, ops[0]).0.plain, IdealStep(s.plain, ops[0]).0);
      }
    }
  }

  lemma {:induction false} HarmlessWithoutThreshold(threshold: int, s: Tiered, ops: seq<Op>)
    requires threshold <= 0 && Disciplined(s.plain.sessions.Keys, ops)
    ensures AllHarmless(threshold, s, ops) <==> NeverStale(threshold, s, ops)
    decreases |ops|
  {
    if ops != [] {
      HarmlessWithoutThreshold(threshold, Step(threshold, s, ops[0]).0, ops[1..]);
    }
  }

  /**
    With no threshold a run is one of the plain map exactly when no session that was opened on an
    object and not written is released after its name was unlinked and created again.
   */
  lemma FollowsUnlessStale(threshold: int, s: Tiered, ops: seq<Op>)
    requires threshold <= 0 && Disciplined(s.plain.sessions.Keys, ops) && s.dangling == {}
    ensures Follows(threshold, s, s.plain, ops) <==> NeverStale(threshold, s, ops)
  {
    FollowsExactly(threshold, s, ops);
    HarmlessWithoutThreshold(threshold, s, ops);
  }

  lemma {:induction false} FollowsGivesAnswers(threshold: int, s: Tiered, i: Plain, ops: seq<Op>)
    requires Disciplined(s.plain.sessions.Keys, ops) && s.plain.sessions.Keys == i.sessions.Keys
    requires Follows(threshold, s, i, ops)
    ensures SameAnswers(ops, Results(threshold, s, ops), IdealResults(i, ops))
    decreases |ops|
  {
    if ops != [] {
      FollowsGivesAnswers(threshold, Step(threshold, s, ops[0]).0, IdealStep(i, ops[0]).0, ops[1..]);
      var rs, rs' := Results(threshold, s, ops), IdealResults(i, ops);
      forall k | 0 <= k < |ops| ensures SameAnswer(ops[k], rs[k], rs'[k]) {
        if k > 0 {
          assert SameAnswer(ops[1..][k - 1], rs[1..][k - 1], rs'[1..][k - 1]);
        }
      }
    }
  }

  /** Names are left dangling by stale releases only. */
  lemma {:induction false} NeverStaleNeverDangles(threshold: int, s: Tiered, ops: seq<Op>)
    requires Disciplined(s.plain.sessions.Keys, ops) && s.dangling == {} && NeverStale(threshold, s, ops)
    ensures Final(threshold, s, ops).dangling == {}
    decreases |ops|
  {
    if ops != [] {
      NeverStaleNeverDangles(threshold, Step(threshold, s, ops[0]).0, ops[1..]);
    }
  }

  ghost predicate NoneOrphaned(s: Tiered) {
    forall p | p in s.plain.sessions :: s.plain.sessions[p].orphan == None
  }

  /** Only a run that unlinks a name can release it stale. */
  lemma {:induction false} StaleNeedsUnlink(threshold: int, s: Tiered, ops: seq<Op>)
    requires Disciplined(s.plain.sessions.Keys, ops) && NoneOrphaned(s)
    requires forall i | 0 <= i < |ops| :: !ops[i].Unlink?
    ensures NeverStale(threshold, s, ops)
    decreases |ops|
  {
    if ops != [] {
      assert !ops[0].Unlink?;
      assert NoneOrphaned(Step(threshold, s, ops[0]).0);
      StaleNeedsUnlink(threshold, Step(threshold, s, ops[0]).0, ops[1..]);
    }
  }

  /** Release complains exactly when the name is gone; the plain map's never does. */
  lemma ReleaseComplains(threshold: int, s: Tiered, p: Path)
    requires p in s.plain.sessions
    ensures Step(threshold, s, Op.Release(p)).1 == Failed(ENOENT) <==> p !in s.plain.files
    ensures IdealStep(s.plain, Op.Release(p)).1 == Done
  {
  }

  /** One open loses a file's contents exactly when they are not empty and not above the threshold. */
  lemma OpenKeeps(threshold: int, s: Tiered, p: Path, mode: Mode)
    requires p !in s.plain.sessions && p in s.plain.files
    ensures Step(threshold, s, Op.Open(p, mode)).0.plain == IdealStep(s.plain, Op.Open(p, mode)).0 <==>
      |s.plain.files[p]| > threshold || s.plain.files[p] == []
  {
    var tiered, ideal := Step(threshold, s, Op.Open(p, mode)).0.plain, IdealStep(s.plain, Op.Open(p, mode)).0;
    assert tiered.files[p] == Survives(threshold, s.plain.files[p]) && ideal.files[p] == s.plain.files[p];
  }

  // ---------- the answers of a run, one by one ----------

  /** The run is allowed, and these are its answers. */
  predicate Yields(threshold: int, s: Tiered, ops: seq<Op>, rs: seq<Result>) {
    Disciplined(s.plain.sessions.Keys, ops) && Results(threshold, s, ops) == rs
  }

  predicate IdealYields(s: Plain, ops: seq<Op>, rs: seq<Result>) {
    Disciplined(s.sessions.Keys, ops) && IdealResults(s, ops) == rs
  }

  lemma First(threshold: int, s: Tiered, op: Op, s': Tiered, r: Result, ops: seq<Op>, rs: seq<Result>)
    requires Allowed(s.plain.sessions.Keys, op) && Step(threshold, s, op) == (s', r)
    requires Yields(threshold, s', ops, rs)
    ensures Yields(threshold, s, [op] + ops, [r] + rs)
  {
    assert ([op] + ops)[1..] == ops;
  }

  lemma IdealFirst(s: Plain, op: Op, s': Plain, r: Result, ops: seq<Op>, rs: seq<Result>)
    requires Allowed(s.sessions.Keys, op) && IdealStep(s, op) == (s', r)
    requires IdealYields(s', ops, rs)
    ensures IdealYields(s, [op] + ops, [r] + rs)
  {
    assert ([op] + ops)[1..] == ops;
  }

  /** What a read returns: the bytes from the offset on, as many as asked for or as there are. */
  lemma SliceExact(b: Bytes, offset: nat, size: nat)
    ensures |Slice(b, offset, size)| ==
      if offset > |b| then 0 else if size < |b| - offset then size else |b| - offset
    ensures forall i | 0 <= i < |Slice(b, offset, size)| :: Slice(b, offset, size)[i] == b[offset + i]
  {
  }

  /** Reading enough of a file from its start gives all of it, and getattr its length. */
  lemma ReadsAll(threshold: int, s: Tiered, p: Path, mode: Mode, n: nat)
    requires p !in s.plain.sessions && p in s.plain.files && mode != WriteOnly && n >= |s.plain.files[p]|
    ensures var b := s.plain.files[p];
      var there := if |b| > threshold then b else [];
      && Yields(threshold, s, [Open(p, mode)] + ([Read(p, 0, n)] + ([Getattr(p)] + [])),
                [Done] + ([Got(there)] + ([Size(|there|)] + [])))
      && IdealYields(s.plain, [Open(p, mode)] + ([Read(p, 0, n)] + ([Getattr(p)] + [])),
                     [Done] + ([Got(b)] + ([Size(|b|)] + [])))
  {
    var b := s.plain.files[p];
    var there := if |b| > threshold then b else [];
    var s1 := Step(threshold, s, Open(p, mode)).0;
    assert Slice(there, 0, n) == there && Slice(b, 0, n) == b;
    First(threshold, s1, Getattr(p), s1, Size(|there|), [], []);
    First(threshold, s1, Read(p, 0, n), s1, Got(there), [Getattr(p)] + [], [Size(|there|)] + []);
    First(threshold, s, Open(p, mode), s1, Done, [Read(p, 0, n)] + ([Getattr(p)] + []),
          [Got(there)] + ([Size(|there|)] + []));
    var i1 := IdealStep(s.plain, Open(p, mode)).0;
    IdealFirst(i1, Getattr(p), i1, Size(|b|), [], []);
    IdealFirst(i1, Read(p, 0, n), i1, Got(b), [Getattr(p)] + [], [Size(|b|)] + []);
    IdealFirst(s.plain, Open(p, mode), i1, Done, [Read(p, 0, n)] + ([Getattr(p)] + []),
               [Got(b)] + ([Size(|b|)] + []));
  }

  /** A session reads on as before when its name is unlinked. */
  lemma ReadsOnUnlinked(threshold: int, s: Tiered, p: Path, offset: nat, size: nat)
    requires p in s.plain.sessions
    ensures Step(threshold, Step(threshold, s, Unlink(p)).0, Read(p, offset, size)).1
         == Step(threshold, s, Read(p, offset, size)).1
    ensures IdealStep(IdealStep(s.plain, Unlink(p)).0, Read(p, offset, size)).1
         == IdealStep(s.plain, Read(p, offset, size)).1
  {
  }

  /** A name from its creation to its removal. */
  lemma NameLife(threshold: int, s: Tiered, p: Path)
    requires p !in s.plain.files && p !in s.dangling
    ensures Yields(threshold, s,
      [Mknod(p)] + ([Getattr(p)] + ([Mknod(p)] + ([Unlink(p)] + ([Getattr(p)] + ([Unlink(p)] + []))))),
      [Done] + ([Size(0)] + ([Failed(EEXIST)] + ([Done] + ([Failed(ENOENT)] + ([Failed(ENOENT)] + []))))))
  {
    var made := Step(threshold, s, Mknod(p)).0;
    var gone := Step(threshold, made, Unlink(p)).0;
    var last := Step(threshold, gone, Unlink(p)).0;
    var unlink, none := [Unlink(p)] + [], [Failed(ENOENT)] + [];
    var getattr, nones := [Getattr(p)] + unlink, [Failed(ENOENT)] + none;
    var remove, removed := [Unlink(p)] + getattr, [Done] + nones;
    var again, taken := [Mknod(p)] + remove, [Failed(EEXIST)] + removed;
    First(threshold, gone, Unlink(p), last, Failed(ENOENT), [], []);
    First(threshold, gone, Getattr(p), gone, Failed(ENOENT), unlink, none);
    First(threshold, made, Unlink(p), gone, Done, getattr, nones);
    First(threshold, made, Mknod(p), made, Failed(EEXIST), remove, removed);
    First(threshold, made, Getattr(p), made, Size(0), again, taken);
    First(threshold, s, Mknod(p), made, Done, [Getattr(p)] + again, [Size(0)] + taken);
  }

  /** A session from opening to release: it reads what it has written, also once its name is gone. */
  lemma SessionLife(threshold: int, s: Tiered, p: Path, offset: nat, data: Bytes)
    requires p !in s.plain.sessions
    ensures Yields(threshold, s,
      [Open(p, ReadWrite)] + ([Write(p, offset, data)] + ([Read(p, offset, |data|)] +
        ([Unlink(p)] + ([Read(p, offset, |data|)] + ([Release(p)] + []))))),
      [Done] + ([Count(|data|)] + ([Got(data)] + ([Done] + ([Got(data)] + ([Failed(ENOENT)] + []))))))
  {
    var s1 := Step(threshold, s, Open(p, ReadWrite)).0;
    var s2 := Step(threshold, s1, Write(p, offset, data)).0;
    var s3 := Step(threshold, s2, Unlink(p)).0;
    var s4 := Step(threshold, s3, Release(p)).0;
    WriteThenRead(s1.plain.files[p], offset, data, 0, 0);
    ReadsOnUnlinked(threshold, s2, p, offset, |data|);
    var release, fails := [Release(p)] + [], [Failed(ENOENT)] + [];
    var read, got := [Read(p, offset, |data|)] + release, [Got(data)] + fails;
    var unlink, done := [Unlink(p)] + read, [Done] + got;
    var first, same := [Read(p, offset, |data|)] + unlink, [Got(data)] + done;
    First(threshold, s3, Release(p), s4, Failed(ENOENT), [], []);
    First(threshold, s3, Read(p, offset, |data|), s3, Got(data), release, fails);
    First(threshold, s2, Unlink(p), s3, Done, read, got);
    First(threshold, s2, Read(p, offset, |data|), s2, Got(data), unlink, done);
    First(threshold, s1, Write(p, offset, data), s2, Count(|data|), first, same);
    First(threshold, s, Open(p, ReadWrite), s1, Done, [Write(p, offset, data)] + first, [Count(|data|)] + same);
  }

  /** A session opened for one kind of access refuses the other. */
  lemma RefusedAccess(threshold: int, s: Tiered, p: Path, offset: nat, size: nat, data: Bytes)
    requires p !in s.plain.sessions
    ensures Yields(threshold, s, [Open(p, ReadOnly)] + ([Write(p, offset, data)] + []), [Done] + ([Failed(EBADF)] + []))
    ensures Yields(threshold, s, [Open(p, WriteOnly)] + ([Read(p, offset, size)] + []), [Done] + ([Failed(EBADF)] + []))
  {
    var read := Step(threshold, s, Open(p, ReadOnly)).0;
    var write := Step(threshold, s, Open(p, WriteOnly)).0;
    First(threshold, read, Write(p, offset, data), Step(threshold, read, Write(p, offset, data)).0, Failed(EBADF),
          [], []);
    First(threshold, s, Open(p, ReadOnly), read, Done, [Write(p, offset, data)] + [], [Failed(EBADF)] + []);
    First(threshold, write, Read(p, offset, size), write, Failed(EBADF), [], []);
    First(threshold, s, Open(p, WriteOnly), write, Done, [Read(p, offset, size)] + [], [Failed(EBADF)] + []);
  }

  // ---------- two runs that differ ----------

  const NOTHING := Plain(map[], map[])

  function Holding(b: Bytes): Plain {
    Plain(map["/f" := b], map[])
  }

  function Working(b: Bytes, mode: Mode): Plain {
    Plain(map["/f" := b], map["/f" := Session(mode, None)])
  }

  /** The name is gone, or created again, while the file is open. */
  function Orphaned(b: Bytes, files: map<Path, Bytes>): Plain {
    Plain(files, map["/f" := Session(ReadOnly, Some(b))])
  }

  function OnSsd(s: Plain): Tiered {
    Tiered(s, {}, {}, {})
  }

  /** A file written once and closed, and what comes after. */
  function Fill(data: Bytes, rest: seq<Op>): seq<Op> {
    [Mknod("/f")] + ([Open("/f", ReadWrite)] + ([Write("/f", 0, data)] + ([Release("/f")] + rest)))
  }

  function FillAnswers(data: Bytes, rest: seq<Result>): seq<Result> {
    [Done] + ([Done] + ([Count(|data|)] + ([Done] + rest)))
  }

  function Filled(threshold: int, data: Bytes): Tiered {
    Tiered(Holding(data), if |data| > threshold then {"/f"} else {}, {}, {})
  }

  /** The first write to an empty file sets its contents. */
  lemma FirstWrite(data: Bytes)
    ensures Overwrite([], 0, data) == data
  {
    assert Padded([], |data|)[|data|..] == [];
  }

  lemma IdealFillSteps(data: Bytes)
    ensures IdealStep(NOTHING, Mknod("/f")) == (Holding([]), Done)
    ensures IdealStep(Holding([]), Open("/f", ReadWrite)) == (Working([], ReadWrite), Done)
    ensures IdealStep(Working([], ReadWrite), Write("/f", 0, data)) == (Working(data, ReadWrite), Count(|data|))
    ensures IdealStep(Working(data, ReadWrite), Release("/f")) == (Holding(data), Done)
  {
    FirstWrite(data);
    assert Holding([]).files == NOTHING.files["/f" := []];
    assert Opened(Holding([]), "/f", ReadWrite, []) == Working([], ReadWrite);
    assert WithCurrent(Working([], ReadWrite), "/f", data) == Working(data, ReadWrite);
    assert Closed(Working(data, ReadWrite), "/f") == Holding(data);
  }

  lemma FillSteps(threshold: int, data: Bytes)
    ensures Step(threshold, OnSsd(NOTHING), Mknod("/f")) == (OnSsd(Holding([])), Done)
    ensures Step(threshold, OnSsd(Holding([])), Open("/f", ReadWrite)) == (OnSsd(Working([], ReadWrite)), Done)
    ensures Step(threshold, OnSsd(Working([], ReadWrite)), Write("/f", 0, data)) ==
      (OnSsd(Working(data, ReadWrite)), Count(|data|))
    ensures Step(threshold, OnSsd(Working(data, ReadWrite)), Release("/f")) == (Filled(threshold, data), Done)
  {
    IdealFillSteps(data);
    assert {"/f"} - {"/f"} == {} && {} + {"/f"} == {"/f"} && {} - {"/f"} == {};
  }

  lemma RunFill(threshold: int, data: Bytes, rest: seq<Op>, rs: seq<Result>)
    requires Yields(threshold, Filled(threshold, data), rest, rs)
    ensures Yields(threshold, Empty(), Fill(data, rest), FillAnswers(data, rs))
  {
    FillSteps(threshold, data);
    var release, released := [Release("/f")] + rest, [Done] + rs;
    var write, written := [Write("/f", 0, data)] + release, [Count(|data|)] + released;
    First(threshold, OnSsd(Working(data, ReadWrite)), Release("/f"), Filled(threshold, data), Done, rest, rs);
    First(threshold, OnSsd(Working([], ReadWrite)), Write("/f", 0, data), OnSsd(Working(data, ReadWrite)),
          Count(|data|), release, released);
    First(threshold, OnSsd(Holding([])), Open("/f", ReadWrite), OnSsd(Working([], ReadWrite)), Done, write, written);
    First(threshold, Empty(), Mknod("/f"), OnSsd(Holding([])), Done,
          [Open("/f", ReadWrite)] + write, [Done] + written);
  }

  lemma IdealFill(data: Bytes, rest: seq<Op>, rs: seq<Result>)
    requires IdealYields(Holding(data), rest, rs)
    ensures IdealYields(NOTHING, Fill(data, rest), FillAnswers(data, rs))
  {
    IdealFillSteps(data);
    var release, released := [Release("/f")] + rest, [Done] + rs;
    var write, written := [Write("/f", 0, data)] + release, [Count(|data|)] + released;
    IdealFirst(Working(data, ReadWrite), Release("/f"), Holding(data), Done, rest, rs);
    IdealFirst(Working([], ReadWrite), Write("/f", 0, data), Working(data, ReadWrite),
               Count(|data|), release, released);
    IdealFirst(Holding([]), Open("/f", ReadWrite), Working([], ReadWrite), Done, write, written);
    IdealFirst(NOTHING, Mknod("/f"), Holding([]), Done, [Open("/f", ReadWrite)] + write, [Done] + written);
  }

  function ReadBack(): seq<Op> {
    [Open("/f", ReadOnly)] + ([Read("/f", 0, 1)] + [])
  }

  lemma ReadBackSteps(threshold: int)
    requires threshold > 0
    ensures Step(threshold, Filled(threshold, [1]), Open("/f", ReadOnly)) == (OnSsd(Working([], ReadOnly)), Done)
    ensures Step(threshold, OnSsd(Working([], ReadOnly)), Read("/f", 0, 1)) == (OnSsd(Working([], ReadOnly)), Got([]))
    ensures IdealStep(Holding([1]), Open("/f", ReadOnly)) == (Working([1], ReadOnly), Done)
    ensures IdealStep(Working([1], ReadOnly), Read("/f", 0, 1)) == (Working([1], ReadOnly), Got([1]))
  {
    assert Slice([1], 0, 1) == [1];
    assert Opened(Holding([1]), "/f", ReadOnly, []) == Working([], ReadOnly);
    assert Opened(Holding([1]), "/f", ReadOnly, [1]) == Working([1], ReadOnly);
    assert Slice([], 0, 1) == [] && {} - {"/f"} == {};
  }

  /** A one-byte file written, closed, opened again and read. */
  lemma WriteOnceDiffers(threshold: int)
    requires threshold > 0
    ensures Yields(threshold, Empty(), Fill([1], ReadBack()), FillAnswers([1], [Done] + ([Got([])] + [])))
    ensures IdealYields(NOTHING, Fill([1], ReadBack()), FillAnswers([1], [Done] + ([Got([1])] + [])))
  {
    ReadBackSteps(threshold);
    var read := [Read("/f", 0, 1)] + [];
    First(threshold, OnSsd(Working([], ReadOnly)), Read("/f", 0, 1), OnSsd(Working([], ReadOnly)), Got([]), [], []);
    First(threshold, Filled(threshold, [1]), Open("/f", ReadOnly), OnSsd(Working([], ReadOnly)), Done,
          read, [Got([])] + []);
    IdealFirst(Working([1], ReadOnly), Read("/f", 0, 1), Working([1], ReadOnly), Got([1]), [], []);
    IdealFirst(Holding([1]), Open("/f", ReadOnly), Working([1], ReadOnly), Done, read, [Got([1])] + []);
    RunFill(threshold, [1], ReadBack(), [Done] + ([Got([])] + []));
    IdealFill([1], ReadBack(), [Done] + ([Got([1])] + []));
  }

  /** From an empty store: a file longer than the threshold is read back whole. */
  lemma WrittenIsReadBack(threshold: int, data: Bytes, n: nat)
    requires |data| > threshold && n >= |data|
    ensures Yields(threshold, Empty(),
                   Fill(data, [Open("/f", ReadOnly)] + ([Read("/f", 0, n)] + ([Getattr("/f")] + []))),
                   FillAnswers(data, [Done] + ([Got(data)] + ([Size(|data|)] + []))))
  {
    ReadsAll(threshold, Filled(threshold, data), "/f", ReadOnly, n);
    RunFill(threshold, data, [Open("/f", ReadOnly)] + ([Read("/f", 0, n)] + ([Getattr("/f")] + [])),
            [Done] + ([Got(data)] + ([Size(|data|)] + [])));
  }

  /** While a fetched copy is open, its name is unlinked and created again; then it is closed. */
  function Recreate(): seq<Op> {
    [Open("/f", ReadOnly)] + ([Unlink("/f")] + ([Mknod("/f")] + ([Release("/f")] + ([Getattr("/f")] + []))))
  }

  function RecreateAnswers(size: Result): seq<Result> {
    [Done] + ([Done] + ([Done] + ([Done] + ([size] + []))))
  }

  lemma IdealRecreateSteps(data: Bytes)
    ensures IdealStep(Holding(data), Open("/f", ReadOnly)) == (Working(data, ReadOnly), Done)
    ensures IdealStep(Working(data, ReadOnly), Unlink("/f")) == (Orphaned(data, map[]), Done)
    ensures IdealStep(Orphaned(data, map[]), Mknod("/f")) == (Orphaned(data, map["/f" := []]), Done)
    ensures IdealStep(Orphaned(data, map["/f" := []]), Release("/f")) == (Holding([]), Done)
    ensures IdealStep(Holding([]), Getattr("/f")) == (Holding([]), Size(0))
  {
    assert Opened(Holding(data), "/f", ReadOnly, data) == Working(data, ReadOnly);
    assert Unlinked(Working(data, ReadOnly), "/f") == Orphaned(data, map[]);
    assert Closed(Orphaned(data, map["/f" := []]), "/f") == Holding([]);
  }

  lemma RecreateSteps(threshold: int, data: Bytes)
    requires |data| > threshold
    ensures Step(threshold, Filled(threshold, data), Open("/f", ReadOnly)) ==
      (Tiered(Working(data, ReadOnly), {"/f"}, {"/f"}, {}), Done)
    ensures Step(threshold, Tiered(Working(data, ReadOnly), {"/f"}, {"/f"}, {}), Unlink("/f")) ==
      (Tiered(Orphaned(data, map[]), {}, {"/f"}, {}), Done)
    ensures Step(threshold, Tiered(Orphaned(data, map[]), {}, {"/f"}, {}), Mknod("/f")) ==
      (Tiered(Orphaned(data, map["/f" := []]), {}, {"/f"}, {}), Done)
    ensures Step(threshold, Tiered(Orphaned(data, map["/f" := []]), {}, {"/f"}, {}), Release("/f")) ==
      (Tiered(NOTHING, {}, {}, {"/f"}), Done)
    ensures Step(threshold, Tiered(NOTHING, {}, {}, {"/f"}), Getattr("/f")) ==
      (Tiered(NOTHING, {}, {}, {"/f"}), Failed(ENOENT))
  {
    IdealRecreateSteps(data);
    assert {"/f"} - {"/f"} == {} && {} + {"/f"} == {"/f"} && {} - {"/f"} == {};
    assert Holding([]).files - {"/f"} == NOTHING.files;
  }

  lemma RunRecreate(threshold: int, data: Bytes)
    requires |data| > threshold
    ensures Yields(threshold, Filled(threshold, data), Recreate(), RecreateAnswers(Failed(ENOENT)))
  {
    RecreateSteps(threshold, data);
    var lost := Tiered(NOTHING, {}, {}, {"/f"});
    var recreated := Tiered(Orphaned(data, map["/f" := []]), {}, {"/f"}, {});
    var orphaned := Tiered(Orphaned(data, map[]), {}, {"/f"}, {});
    var fetched := Tiered(Working(data, ReadOnly), {"/f"}, {"/f"}, {});
    var getattr, gone := [Getattr("/f")] + [], [Failed(ENOENT)] + [];
    var release, released := [Release("/f")] + getattr, [Done] + gone;
    var mknod, made := [Mknod("/f")] + release, [Done] + released;
    First(threshold, lost, Getattr("/f"), lost, Failed(ENOENT), [], []);
    First(threshold, recreated, Release("/f"), lost, Done, getattr, gone);
    First(threshold, orphaned, Mknod("/f"), recreated, Done, release, released);
    First(threshold, fetched, Unlink("/f"), orphaned, Done, mknod, made);
    First(threshold, Filled(threshold, data), Open("/f", ReadOnly), fetched, Done,
          [Unlink("/f")] + mknod, [Done] + made);
  }

  lemma IdealRecreate(data: Bytes)
    ensures IdealYields(Holding(data), Recreate(), RecreateAnswers(Size(0)))
  {
    IdealRecreateSteps(data);
    var recreated, orphaned := Orphaned(data, map["/f" := []]), Orphaned(data, map[]);
    var getattr, there := [Getattr("/f")] + [], [Size(0)] + [];
    var release, released := [Release("/f")] + getattr, [Done] + there;
    var mknod, made := [Mknod("/f")] + release, [Done] + released;
    IdealFirst(Holding([]), Getattr("/f"), Holding([]), Size(0), [], []);
    IdealFirst(recreated, Release("/f"), Holding([]), Done, getattr, there);
    IdealFirst(orphaned, Mknod("/f"), recreated, Done, release, released);
    IdealFirst(Working(data, ReadOnly), Unlink("/f"), orphaned, Done, mknod, made);
    IdealFirst(Holding(data), Open("/f", ReadOnly), Working(data, ReadOnly), Done,
               [Unlink("/f")] + mknod, [Done] + made);
  }

  /** The file created anew is lost, whatever the threshold, if the first one went to the cloud. */
  lemma StaleRunDiffers(threshold: int, data: Bytes)
    requires |data| > threshold
    ensures Yields(threshold, Empty(), Fill(data, Recreate()), FillAnswers(data, RecreateAnswers(Failed(ENOENT))))
    ensures IdealYields(NOTHING, Fill(data, Recreate()), FillAnswers(data, RecreateAnswers(Size(0))))
  {
    RunRecreate(threshold, data);
    IdealRecreate(data);
    RunFill(threshold, data, Recreate(), RecreateAnswers(Failed(ENOENT)));
    IdealFill(data, Recreate(), RecreateAnswers(Size(0)));
  }

  /** A run whose answers differ from the plain map's does not follow it. */
  lemma DifferentAnswers(threshold: int, ops: seq<Op>, rs: seq<Result>, rs': seq<Result>, k: nat)
    requires Yields(threshold, Empty(), ops, rs) && IdealYields(NOTHING, ops, rs')
    requires k < |ops| && !ops[k].Release? && rs[k] != rs'[k]
    ensures Disciplined(Empty().plain.sessions.Keys, ops) && !Follows(threshold, Empty(), NOTHING, ops)
  {
    assert !SameAnswer(ops[k], rs[k], rs'[k]);
    if Follows(threshold, Empty(), NOTHING, ops) {
      FollowsGivesAnswers(threshold, Empty(), NOTHING, ops);
    }
  }

  /** So no threshold makes every run one of the plain map. */
  lemma NoThresholdIsSafe(threshold: int)
    ensures exists ops :: Disciplined(Empty().plain.sessions.Keys, ops) && !Follows(threshold, Empty(), NOTHING, ops)
  {
    var data: Bytes := seq(if threshold < 0 then 0 else threshold + 1, _ => 0);
    StaleRunDiffers(threshold, data);
    DifferentAnswers(threshold, Fill(data, Recreate()), FillAnswers(data, RecreateAnswers(Failed(ENOENT))),
                     FillAnswers(data, RecreateAnswers(Size(0))), 8);
  }

  /** Every run from an empty store without a stale release is one of the plain map. */
  ghost predicate RunsAgree(threshold: int) {
    forall ops | Disciplined(Empty().plain.sessions.Keys, ops) && NeverStale(threshold, Empty(), ops) ::
      Follows(threshold, Empty(), NOTHING, ops)
  }

  lemma WriteOnceOps()
    ensures var ops := Fill([1], ReadBack());
      |ops| == 6 && ops[5] == Read("/f", 0, 1) && forall i | 0 <= i < |ops| :: !ops[i].Unlink?
  {
    assert Fill([1], ReadBack()) == [Mknod("/f"), Open("/f", ReadWrite), Write("/f", 0, [1]), Release("/f"),
                                     Open("/f", ReadOnly), Read("/f", 0, 1)];
  }

  lemma ThresholdDisagrees(threshold: int)
    requires threshold > 0
    ensures !RunsAgree(threshold)
  {
    var ops := Fill([1], ReadBack());
    WriteOnceDiffers(threshold);
    WriteOnceOps();
    DifferentAnswers(threshold, ops, FillAnswers([1], [Done] + ([Got([])] + [])),
                     FillAnswers([1], [Done] + ([Got([1])] + [])), 5);
    StaleNeedsUnlink(threshold, Empty(), ops);
  }

  /** Stale releases apart, the store keeps what it is given exactly when the threshold is not positive. */
  lemma AgreesIffNoThreshold(threshold: int)
    ensures RunsAgree(threshold) <==> threshold <= 0
  {
    if threshold <= 0 {
      forall ops | Disciplined(Empty().plain.sessions.Keys, ops) && NeverStale(threshold, Empty(), ops)
        ensures Follows(threshold, Empty(), NOTHING, ops)
      {
        FollowsUnlessStale(threshold, Empty(), ops);
      }
    } else {
      ThresholdDisagrees(threshold);
    }
  }

  // ---------- one path at a time ----------

  /** Operations on other paths leave a path alone, over a whole run. */
  lemma {:induction false} RunElsewhere(threshold: int, s: Tiered, ops: seq<Op>, p: Path)
    requires Disciplined(s.plain.sessions.Keys, ops) && forall i | 0 <= i < |ops| :: ops[i].path != p
    ensures SamePath(s, Final(threshold, s, ops), p)
    decreases |ops|
  {
    if ops != [] {
      StepElsewhere(threshold, s, ops[0]);
      RunElsewhere(threshold, Step(threshold, s, ops[0]).0, ops[1..], p);
    }
  }

  /**
    What a session leaves, the next session on the path sees, whatever happens elsewhere in
    between: all of it if it is longer than the threshold, nothing otherwise.
   */
  lemma ReopenSees(threshold: int, s: Tiered, p: Path, between: seq<Op>, mode: Mode)
    requires p in s.plain.sessions && s.plain.sessions[p].orphan == None && p in s.plain.files
    requires forall i | 0 <= i < |between| :: between[i].path != p
    requires Disciplined(OpenAfter(s.plain.sessions.Keys, Op.Release(p)), between)
    ensures var closed := Final(threshold, Step(threshold, s, Op.Release(p)).0, between);
      && Allowed(closed.plain.sessions.Keys, Op.Open(p, mode))
      && Current(Step(threshold, closed, Op.Open(p, mode)).0.plain, p) == Survives(threshold, Current(s.plain, p))
  {
    RunElsewhere(threshold, Step(threshold, s, Op.Release(p)).0, between, p);
  }

  lemma OverwriteAt(b: Bytes, offset: nat, data: Bytes, i: nat)
    requires data != []
    ensures |Overwrite(b, offset, data)| == if offset + |data| > |b| then offset + |data| else |b|
    ensures i < |Overwrite(b, offset, data)| ==>
      Overwrite(b, offset, data)[i] ==
        if offset <= i < offset + |data| then data[i - offset] else if i < |b| then b[i] else 0
  {
  }

  lemma SameSlice(v: Bytes, w: Bytes, at: nat, size: nat)
    requires |v| == |w| || at + size <= Min(|v|, |w|) || (|v| <= at && |w| <= at)
    requires forall i | at <= i < at + size && i < |v| && i < |w| :: v[i] == w[i]
    ensures Slice(v, at, size) == Slice(w, at, size)
  {
  }

  /** Bytes written are the bytes read back, and bytes outside the write are as before. */
  lemma WriteThenRead(b: Bytes, offset: nat, data: Bytes, at: nat, size: nat)
    ensures Slice(Overwrite(b, offset, data), offset, |data|) == data
    ensures (at + size <= offset && at + size <= |b|) || offset + |data| <= at ==>
      Slice(Overwrite(b, offset, data), at, size) == Slice(b, at, size)
  {
    if data != [] {
      WrittenIsRead(b, offset, data);
      if (at + size <= offset && at + size <= |b|) || offset + |data| <= at {
        ReadElsewhere(b, offset, data, at, size);
      }
    }
  }

  lemma WrittenIsRead(b: Bytes, offset: nat, data: Bytes)
    requires data != []
    ensures Slice(Overwrite(b, offset, data), offset, |data|) == data
  {
    var w := Overwrite(b, offset, data);
    OverwriteAt(b, offset, data, offset);
    forall i | 0 <= i < |data| ensures w[offset + i] == data[i] {
      OverwriteAt(b, offset, data, offset + i);
    }
  }

  lemma ReadElsewhere(b: Bytes, offset: nat, data: Bytes, at: nat, size: nat)
    requires data != []
    requires (at + size <= offset && at + size <= |b|) || offset + |data| <= at
    ensures Slice(Overwrite(b, offset, data), at, size) == Slice(b, at, size)
  {
    var w := Overwrite(b, offset, data);
    OverwriteAt(b, offset, data, 0);
    forall i | at <= i < at + size && i < |w| && i < |b| ensures w[i] == b[i] {
      OverwriteAt(b, offset, data, i);
    }
    SameSlice(w, b, at, size);
  }
}
