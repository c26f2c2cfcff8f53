/**
  The two-tier store of cloudfs.c and s3_cloudfs.c: a file is either on the SSD or an object in
  the cloud, with a symbolic link on the SSD to a metadata file.  Every operation is carried out
  by the same sequence of system and S3 calls, all of which are taken to succeed.
 */
module CloudFs {
  import opened CloudApi
  import opened Common
  import opened FileSpec
  import opened Streams

  /** What a name in the local file system denotes; a metadata file holds one struct stat. */
  datatype Entry = File(data: Bytes) | Stat(size: nat) | Link(target: string)

  /** fh_t; once the name is gone the open descriptor keeps the bytes. */
  datatype Handle = Handle(mode: Mode, proxy: bool, dirty: bool, orphan: Option<Bytes>)

  // ---------- keys ----------

  function KeyChar(c: char): char {
    if c != '/' then c else '+'
  }

  function KeyOf(path: Path): string {
    seq(|path|, i requires 0 <= i < |path| => KeyChar(path[i]))
  }

  /** get_key */
  method GetKey(path: Path) returns (key: string)
    ensures key == KeyOf(path)
  {
    key := "";
    var i := 0;
    while i < |path|
      invariant 0 <= i <= |path| && key == KeyOf(path)[..i]
    {
      if path[i] != '/' {
        key := key + [path[i]];
      } else {
        key := key + ['+'];
      }
      i := i + 1;
    }
  }

  /** Two paths share a key exactly when they differ only by '/' against '+'. */
  lemma KeyCollision(p: Path, q: Path)
    ensures KeyOf(p) == KeyOf(q) <==>
      |p| == |q| && forall i | 0 <= i < |p| :: p[i] == q[i] || {p[i], q[i]} == {'/', '+'}
  {
    if KeyOf(p) == KeyOf(q) {
      forall i | 0 <= i < |p| ensures p[i] == q[i] || {p[i], q[i]} == {'/', '+'} {
        assert KeyOf(p)[i] == KeyOf(q)[i];
      }
    }
    if |p| == |q| && forall i | 0 <= i < |p| :: p[i] == q[i] || {p[i], q[i]} == {'/', '+'} {
      forall i | 0 <= i < |p| ensures KeyOf(p)[i] == KeyOf(q)[i] {
        if p[i] != q[i] {
          assert p[i] in {'/', '+'} && q[i] in {'/', '+'};
        }
      }
    }
  }

  /** In particular keys are injective on paths without '+'. */
  lemma KeyInjective(p: Path, q: Path)
    requires '+' !in p && '+' !in q && KeyOf(p) == KeyOf(q)
    ensures p == q
  {
    KeyCollision(p, q);
    forall i | 0 <= i < |p| ensures p[i] == q[i] {
      assert p[i] in p && q[i] in q;
      assert '+' in {'/', '+'};
    }
  }

  function Stored(cloud: map<string, Bytes>, p: Path, b: Bytes): map<string, Bytes> {
    cloud[KeyOf(p) := b]
  }

  function Deleted(cloud: map<string, Bytes>, p: Path): map<string, Bytes> {
    cloud - {KeyOf(p)}
  }

  /** Uploading b for p, or deleting p's object, leaves what a download for q finds. */
  predicate Untouched(cloud: map<string, Bytes>, b: Bytes, p: Path, q: Path) {
    && Lookup(Stored(cloud, p, b), KeyOf(q)) == Lookup(cloud, KeyOf(q))
    && Lookup(Deleted(cloud, p), KeyOf(q)) == Lookup(cloud, KeyOf(q))
  }

  ghost predicate Isolated(p: Path, q: Path) {
    forall cloud: map<string, Bytes>, b: Bytes :: Untouched(cloud, b, p, q)
  }

  /** Two paths are isolated in the cloud exactly when their keys differ. */
  lemma IsolatedExactly(p: Path, q: Path)
    ensures Isolated(p, q) <==> KeyOf(p) != KeyOf(q)
  {
    if KeyOf(p) == KeyOf(q) {
      assert !Untouched(map[], [], p, q);
    }
  }

  /** Two paths that are not. */
  lemma TwinPaths()
    ensures KeyOf("/a+b") == KeyOf("/a/b") == "+a+b" && !Isolated("/a+b", "/a/b")
  {
    assert KeyOf("/a+b") == "+a+b" && KeyOf("/a/b") == "+a+b";
    IsolatedExactly("/a+b", "/a/b");
  }

  // ---------- how the tiers represent one file ----------

  function Max0(t: int): nat {
    if t < 0 then 0 else t
  }

  /** A closed file: absent, a dangling link, on the SSD, or in the cloud behind a link to its metadata. */
  ghost predicate ClosedFile(t: int, m: string, entry: Option<Entry>, meta: Option<Entry>, obj: Option<Bytes>,
                             file: Option<Bytes>, dangling: bool)
  {
    match file
    case None => entry == (if dangling then Some(Link(m)) else None) && meta == None && obj == None
    case Some(b) =>
      && !dangling
      && (|| (entry == Some(File(b)) && meta == None && obj == None && |b| <= Max0(t))
          || (entry == Some(Link(m)) && meta == Some(Stat(|b|)) && obj == Some(b) && |b| > t))
  }

  /** An open file: a local copy, beside the object it was fetched from if it was a proxy. */
  ghost predicate OpenFile(t: int, entry: Option<Entry>, meta: Option<Entry>, obj: Option<Bytes>, file: Option<Bytes>,
                           proxy: bool, dirty: bool)
  {
    && file.Some? && entry == Some(File(file.value))
    && if proxy then
         obj.Some? && meta == Some(Stat(|obj.value|)) && |obj.value| > t && (!dirty ==> obj == file)
       else obj == None && meta == None
  }

  ghost predicate Tied(t: int, m: string, entry: Option<Entry>, meta: Option<Entry>, obj: Option<Bytes>,
                       h: Option<Handle>, file: Option<Bytes>, session: Option<Session>, dangling: bool)
  {
    match h
    case None => session == None && ClosedFile(t, m, entry, meta, obj, file, dangling)
    case Some(Handle(mode, proxy, dirty, orphan)) =>
      && session == Some(Session(mode, orphan)) && !dangling
      && if orphan.Some? then ClosedFile(t, m, entry, meta, obj, file, false) && obj == None
         else OpenFile(t, entry, meta, obj, file, proxy, dirty)
  }

  /** What a path's places hold agrees with what the specification says of it. */
  ghost predicate TiedTo(t: int, m: string, entry: Option<Entry>, meta: Option<Entry>, obj: Option<Bytes>,
                         h: Option<Handle>, s: Tiered, p: Path)
  {
    && Tied(t, m, entry, meta, obj, h, Lookup(s.plain.files, p), Lookup(s.plain.sessions, p), p in s.dangling)
    && (p in s.remote <==> obj.Some?)
    && (p in s.clean <==> h.Some? && h.value.proxy && !h.value.dirty)
  }

  /** A descriptor whose name is unlinked keeps the bytes. */
  function OrphanedHandle(h: Option<Handle>, entry: Option<Entry>): Option<Handle> {
    if h.Some? && h.value.orphan == None && entry.Some? && entry.value.File?
    then Some(h.value.(orphan := Some(entry.value.data))) else h
  }

  /** Unlink, seen from the places of its path. */
  lemma UnlinkTied(t: int, m: string, entry: Option<Entry>, meta: Option<Entry>, obj: Option<Bytes>,
                   h: Option<Handle>, s: Tiered, p: Path)
    requires TiedTo(t, m, entry, meta, obj, h, s, p)
    ensures TiedTo(t, m, None, None, None, OrphanedHandle(h, entry), Step(t, s, Op.Unlink(p)).0, p)
    ensures Step(t, s, Op.Unlink(p)).1 == if entry.Some? then Done else Failed(ENOENT)
    ensures meta == None ==> obj == None
  {
  }

  class CloudFs {
    const ssdPath: string
    const metadataPath: string
    const threshold: int
    const sizes: BufferSizes
    /** The paths in use. */
    ghost const paths: iset<Path>

    var names: map<string, Entry>
    var cloud: map<string, Bytes>
    var handles: map<Path, Handle>
    /** What the user sees, and what decides what comes next. */
    ghost var seen: Tiered

    function Absolute(p: Path): string {
      ssdPath + p
    }

    function Metadata(p: Path): string {
      metadataPath + "/" + KeyOf(p)
    }

    /** The places p is stored in are not those q is stored in. */
    ghost predicate Separate(p: Path, q: Path) {
      && Absolute(p) != Absolute(q) && Metadata(p) != Metadata(q) && KeyOf(p) != KeyOf(q)
      && Absolute(p) != Metadata(q) && Absolute(q) != Metadata(p)
    }

    ghost predicate Apart() {
      && (forall p, q | p in paths && q in paths && p != q :: Separate(p, q))
      && (forall p | p in paths :: Absolute(p) != Metadata(p))
    }

    ghost predicate TiedAt(p: Path)
      reads this
    {
      TiedTo(threshold, Metadata(p), Lookup(names, Absolute(p)), Lookup(names, Metadata(p)),
             Lookup(cloud, KeyOf(p)), Lookup(handles, p), seen, p)
    }

    ghost predicate Valid()
      reads this
    {
      Positive(sizes) && Apart() && forall p | p in paths :: TiedAt(p)
    }

    /** Only the places of p have changed. */
    twostate predicate OnlyAt(p: Path)
      reads this
    {
      && (forall a | a != Absolute(p) && a != Metadata(p) :: Lookup(names, a) == Lookup(old(names), a))
      && (forall k | k != KeyOf(p) :: Lookup(cloud, k) == Lookup(old(cloud), k))
      && (forall q | q != p :: Lookup(handles, q) == Lookup(old(handles), q))
      && Elsewhere(old(seen), seen, p)
    }

    /** Nothing that belongs to q has changed, on either tier. */
    twostate predicate SameAt(q: Path)
      reads this
    {
      && Lookup(names, Absolute(q)) == Lookup(old(names), Absolute(q))
      && Lookup(names, Metadata(q)) == Lookup(old(names), Metadata(q))
      && Lookup(cloud, KeyOf(q)) == Lookup(old(cloud), KeyOf(q))
      && Lookup(handles, q) == Lookup(old(handles), q)
      && SamePath(old(seen), seen, q)
    }

    twostate lemma OnlyAtIsolates(p: Path)
      requires Apart() && p in paths && OnlyAt(p)
      ensures forall q | q in paths && q != p :: SameAt(q)
    {
      forall q | q in paths && q != p ensures SameAt(q) {
        assert Separate(p, q);
        assert SamePath(old(seen), seen, q);
      }
    }

    /** A step that stays within the places of its path keeps every file in order. */
    twostate lemma OthersKept(p: Path)
      requires old(Valid()) && p in paths && OnlyAt(p) && TiedAt(p)
      ensures Valid()
    {
      OnlyAtIsolates(p);
      forall q | q in paths ensures TiedAt(q) {
        if q != p {
          assert SameAt(q);
          assert old(TiedAt(q));
        }
      }
    }

    // ---------- system and S3 calls ----------

    /** unlink(absolute path); a descriptor open on the file keeps its bytes. */
    method UnlinkName(p: Path) returns (ok: bool)
      modifies this`names, this`handles
      ensures ok == (Absolute(p) in old(names)) && names == old(names) - {Absolute(p)}
      ensures Lookup(handles, p) == OrphanedHandle(Lookup(old(handles), p), Lookup(old(names), Absolute(p)))
      ensures forall q | q != p :: Lookup(handles, q) == Lookup(old(handles), q)
    {
      var a := Absolute(p);
      ok := a in names;
      if p in handles && handles[p].orphan == None && ok && names[a].File? {
        handles := handles[p := handles[p].(orphan := Some(names[a].data))];
      }
      names := names - {a};
    }

    /** s3_cloudfs_get: recreates the local file, empty unless the object exists. */
    method S3Get(p: Path) returns (ok: bool)
      requires Positive(sizes)
      modifies this`names
      ensures ok == (KeyOf(p) in cloud)
      ensures names == old(names)[Absolute(p) := File(if ok then cloud[KeyOf(p)] else [])]
    {
      var key := GetKey(p);
      var outfile := new Stream([]);
      ok := GetObject(Lookup(cloud, key), outfile, sizes);
      names := names[Absolute(p) := File(outfile.data)];
      assert ok ==> outfile.data == cloud[KeyOf(p)];
    }

    /** s3_cloudfs_put followed by rewriting the metadata file with what lstat reported. */
    method S3Put(p: Path)
      requires Positive(sizes) && Absolute(p) in names && names[Absolute(p)].File?
      modifies this`names, this`cloud
      ensures var b := old(names)[Absolute(p)].data;
        cloud == Stored(old(cloud), p, b) && names == old(names)[Metadata(p) := Stat(|b|)]
    {
      var b := names[Absolute(p)].data;
      var key := GetKey(p);
      var infile := new Stream(b);
      var stored := PutObject(infile, |b|, sizes);
      cloud := cloud[key := stored];
      names := names[Metadata(p) := Stat(|b|)];
    }

    // ---------- the operations, for any paths whatever ----------

    method MakeNode(p: Path) returns (r: Result)
      modifies this`names
      ensures if Absolute(p) in old(names) then r == Failed(EEXIST) && names == old(names)
              else r == Done && names == old(names)[Absolute(p) := File([])]
    {
      if Absolute(p) in names {
        return Failed(EEXIST);
      }
      names := names[Absolute(p) := File([])];
      return Done;
    }

    /** The local copy is what the cloud has, or empty. */
    method OpenLocal(p: Path, mode: Mode) returns (r: Result)
      requires Positive(sizes)
      modifies this`names, this`handles
      ensures r == Done
      ensures var proxy := KeyOf(p) in cloud;
        && names == old(names)[Absolute(p) := File(if proxy then cloud[KeyOf(p)] else [])]
        && Lookup(handles, p) == Some(Handle(mode, proxy, false, None))
      ensures forall q | q != p :: Lookup(handles, q) == Lookup(old(handles), q)
    {
      var _ := UnlinkName(p);
      var proxy := S3Get(p);
      handles := handles[p := Handle(mode, proxy, false, None)];
      return Done;
    }

    /** The bytes behind an open descriptor. */
    function Descriptor(p: Path): Bytes
      requires p in handles
      requires handles[p].orphan == None ==> Absolute(p) in names && names[Absolute(p)].File?
      reads this
    {
      match handles[p].orphan
      case Some(b) => b
      case None => names[Absolute(p)].data
    }

    function ReadDescriptor(p: Path, offset: nat, size: nat): Result
      requires p in handles
      requires handles[p].orphan == None ==> Absolute(p) in names && names[Absolute(p)].File?
      reads this
    {
      if handles[p].mode == WriteOnly then Failed(EBADF) else Got(Slice(Descriptor(p), offset, size))
    }

    /** The dirty bit and pwrite. */
    method WriteDescriptor(p: Path, offset: nat, data: Bytes) returns (r: Result)
      requires p in handles
      requires handles[p].orphan == None ==> Absolute(p) in names && names[Absolute(p)].File?
      modifies this`names, this`handles
      ensures var h, b := old(handles[p]), Overwrite(old(Descriptor(p)), offset, data);
        var marked := h.(dirty := h.dirty || h.proxy);
        if h.mode == ReadOnly then
          r == Failed(EBADF) && names == old(names) && handles == old(handles)[p := marked]
        else if h.orphan.Some? then
          r == Count(|data|) && names == old(names) && handles == old(handles)[p := marked.(orphan := Some(b))]
        else
          r == Count(|data|) && names == old(names)[Absolute(p) := File(b)] && handles == old(handles)[p := marked]
    {
      if handles[p].proxy {
        handles := handles[p := handles[p].(dirty := true)];
      }
      if handles[p].mode == ReadOnly {
        return Failed(EBADF);
      }
      var b := Overwrite(Descriptor(p), offset, data);
      if handles[p].orphan.Some? {
        handles := handles[p := handles[p].(orphan := Some(b))];
      } else {
        names := names[Absolute(p) := File(b)];
      }
      r := Count(|data|);
    }

    /** What release makes of a file whose name is there, by dirty bit and size. */
    ghost predicate Migrated(names0: map<string, Entry>, cloud0: map<string, Bytes>, p: Path, h: Handle)
      requires Absolute(p) in names0 && names0[Absolute(p)].File?
      reads this
    {
      var a, m := Absolute(p), Metadata(p);
      var b := names0[a].data;
      if h.proxy && !h.dirty then
        cloud == cloud0 && names == names0[a := Link(m)]
      else if |b| > threshold then
        cloud == Stored(cloud0, p, b) && names == names0[m := Stat(|b|)][a := Link(m)]
      else if h.proxy then
        cloud == Deleted(cloud0, p) && names == names0 - {m}
      else
        cloud == cloud0 && names == names0
    }

    /** The decision release takes by dirty bit and size, for a file whose name is still there. */
    method Migrate(p: Path, h: Handle)
      requires Positive(sizes) && Absolute(p) != Metadata(p)
      requires Absolute(p) in names && names[Absolute(p)].File?
      modifies this`names, this`cloud, this`handles
      ensures forall q | q != p :: Lookup(handles, q) == Lookup(old(handles), q)
      ensures Migrated(old(names), old(cloud), p, h)
    {
      var size := |names[Absolute(p)].data|;
      if h.proxy {
        if h.dirty {
          if size <= threshold {
            var key := GetKey(p);
            cloud := cloud - {key};
            names := names - {Metadata(p)};
            return;
          }
          S3Put(p);
        }
      } else {
        if size <= threshold {
          return;
        }
        S3Put(p);
      }
      var _ := UnlinkName(p);
      names := names[Absolute(p) := Link(Metadata(p))];
    }

    /** Release looks at the name, and closes the descriptor in any case. */
    method CloseLocal(p: Path) returns (r: Result)
      requires Positive(sizes) && p in handles && Absolute(p) != Metadata(p)
      requires Absolute(p) in names ==> names[Absolute(p)].File?
      modifies this`names, this`cloud, this`handles
      ensures p !in handles && forall q | q != p :: Lookup(handles, q) == Lookup(old(handles), q)
      ensures if Absolute(p) in old(names) then r == Done && Migrated(old(names), old(cloud), p, old(handles)[p])
              else r == Failed(ENOENT) && names == old(names) && cloud == old(cloud)
    {
      if Absolute(p) !in names {
        r := Failed(ENOENT);
      } else {
        Migrate(p, handles[p]);
        r := Done;
      }
      handles := handles - {p};
    }

    /** The object and the metadata of a file in the cloud. */
    method Forget(p: Path)
      modifies this`names, this`cloud
      ensures names == old(names) - {Metadata(p)}
      ensures cloud == if Metadata(p) in old(names) then Deleted(old(cloud), p) else old(cloud)
    {
      if Metadata(p) in names {
        var key := GetKey(p);
        cloud := cloud - {key};
        names := names - {Metadata(p)};
      }
    }

    method RemoveAll(p: Path) returns (r: Result)
      requires Absolute(p) != Metadata(p)
      modifies this`names, this`cloud, this`handles
      ensures r == if Absolute(p) in old(names) then Done else Failed(ENOENT)
      ensures names == old(names) - {Metadata(p)} - {Absolute(p)}
      ensures cloud == if Metadata(p) in old(names) then Deleted(old(cloud), p) else old(cloud)
      ensures Lookup(handles, p) == OrphanedHandle(Lookup(old(handles), p), Lookup(old(names), Absolute(p)))
      ensures forall q | q != p :: Lookup(handles, q) == Lookup(old(handles), q)
    {
      Forget(p);
      var ok := UnlinkName(p);
      r := if ok then Done else Failed(ENOENT);
    }

    /** lstat, and reading the metadata through a link. */
    method Attributes(p: Path) returns (r: Result)
      ensures var entry: Option<Entry> := Lookup(names, Absolute(p));
        r == match entry
        case None => Failed(ENOENT)
        case Some(File(b)) => Size(|b|)
        case Some(Stat(n)) => Size(n)
        case Some(Link(target)) =>
          if target in names && names[target].Stat? then Size(names[target].size) else Failed(ENOENT)
    {
      if Absolute(p) !in names {
        return Failed(ENOENT);
      }
      match names[Absolute(p)]
      case File(b) => return Size(|b|);
      case Stat(n) => return Size(n);
      case Link(target) =>
        if target in names && names[target].Stat? {
          return Size(names[target].size);
        }
        return Failed(ENOENT);
    }

    // ---------- the operations refine the specification ----------

    method Mknod(p: Path) returns (r: Result)
      requires Valid() && p in paths && Allowed(seen.plain.sessions.Keys, Op.Mknod(p))
      modifies this`names, this`seen
      ensures Valid() && (seen, r) == Step(threshold, old(seen), Op.Mknod(p))
      ensures OnlyAt(p)
    {
      assert TiedAt(p);
      StepElsewhere(threshold, seen, Op.Mknod(p));
      seen := Step(threshold, seen, Op.Mknod(p)).0;
      r := MakeNode(p);
      OthersKept(p);
    }

    method Open(p: Path, mode: Mode) returns (r: Result)
      requires Valid() && p in paths && Allowed(seen.plain.sessions.Keys, Op.Open(p, mode))
      modifies this`names, this`handles, this`seen
      ensures Valid() && (seen, r) == Step(threshold, old(seen), Op.Open(p, mode))
      ensures OnlyAt(p)
    {
      assert TiedAt(p);
      StepElsewhere(threshold, seen, Op.Open(p, mode));
      seen := Step(threshold, seen, Op.Open(p, mode)).0;
      r := OpenLocal(p, mode);
      OthersKept(p);
    }

    method Read(p: Path, offset: nat, size: nat) returns (r: Result)
      requires Valid() && p in paths && Allowed(seen.plain.sessions.Keys, Op.Read(p, offset, size))
      ensures (seen, r) == Step(threshold, seen, Op.Read(p, offset, size))
    {
      assert TiedAt(p);
      r := ReadDescriptor(p, offset, size);
    }

    method Write(p: Path, offset: nat, data: Bytes) returns (r: Result)
      requires Valid() && p in paths && Allowed(seen.plain.sessions.Keys, Op.Write(p, offset, data))
      modifies this`names, this`handles, this`seen
      ensures Valid() && (seen, r) == Step(threshold, old(seen), Op.Write(p, offset, data))
      ensures OnlyAt(p)
    {
      assert TiedAt(p);
      StepElsewhere(threshold, seen, Op.Write(p, offset, data));
      seen := Step(threshold, seen, Op.Write(p, offset, data)).0;
      r := WriteDescriptor(p, offset, data);
      OthersKept(p);
    }

    method Release(p: Path) returns (r: Result)
      requires Valid() && p in paths && Allowed(seen.plain.sessions.Keys, Op.Release(p))
      modifies this
      ensures Valid() && (seen, r) == Step(threshold, old(seen), Op.Release(p))
      ensures OnlyAt(p)
    {
      assert TiedAt(p);
      StepElsewhere(threshold, seen, Op.Release(p));
      seen := Step(threshold, seen, Op.Release(p)).0;
      r := CloseLocal(p);
      OthersKept(p);
    }

    method Unlink(p: Path) returns (r: Result)
      requires Valid() && p in paths
      modifies this
      ensures Valid() && (seen, r) == Step(threshold, old(seen), Op.Unlink(p))
      ensures OnlyAt(p)
    {
      assert TiedAt(p);
      StepElsewhere(threshold, seen, Op.Unlink(p));
      UnlinkTied(threshold, Metadata(p), Lookup(names, Absolute(p)), Lookup(names, Metadata(p)),
                 Lookup(cloud, KeyOf(p)), Lookup(handles, p), seen, p);
      seen := Step(threshold, seen, Op.Unlink(p)).0;
      r := RemoveAll(p);
      OthersKept(p);
    }

    method Getattr(p: Path) returns (r: Result)
      requires Valid() && p in paths
      ensures (seen, r) == Step(threshold, seen, Op.Getattr(p))
    {
      assert TiedAt(p);
      r := Attributes(p);
    }

    // ---------- whole runs ----------

    method Apply(op: Op) returns (r: Result)
      requires Valid() && op.path in paths && Allowed(seen.plain.sessions.Keys, op)
      modifies this
      ensures Valid() && (seen, r) == Step(threshold, old(seen), op)
      ensures OnlyAt(op.path)
    {
      match op
      case Mknod(p) => r := Mknod(p);
      case Open(p, mode) => r := Open(p, mode);
      case Read(p, offset, size) => r := Read(p, offset, size);
      case Write(p, offset, data) => r := Write(p, offset, data);
      case Release(p) => r := Release(p);
      case Unlink(p) => r := Unlink(p);
      case Getattr(p) => r := Getattr(p);
    }

    /** The first operation of a run: it spares what the whole run spares. */
    method ApplyFirst(ops: seq<Op>) returns (r: Result)
      requires Valid() && ops != [] && ops[0].path in paths && Allowed(seen.plain.sessions.Keys, ops[0])
      modifies this
      ensures Valid() && (seen, r) == Step(threshold, old(seen), ops[0])
      ensures forall q | q in paths && Avoids(ops, q) :: SameAt(q) && Avoids(ops[1..], q)
    {
      r := Apply(ops[0]);
      OnlyAtIsolates(ops[0].path);
      forall q | q in paths && Avoids(ops, q) ensures SameAt(q) && Avoids(ops[1..], q) {
        assert ops[0].path != q;
      }
    }

    /**
      Every run answers as the specification does, keeps every state on it in order, and changes
      nothing of the paths it does not name.
     */
    method Execute(ops: seq<Op>) returns (results: seq<Result>)
      requires Valid() && Disciplined(seen.plain.sessions.Keys, ops)
      requires forall i | 0 <= i < |ops| :: ops[i].path in paths
      modifies this
      ensures Valid() && results == Results(threshold, old(seen), ops) && seen == Final(threshold, old(seen), ops)
      ensures forall q | q in paths && Avoids(ops, q) :: SameAt(q)
      decreases |ops|
    {
      if ops == [] {
        return [];
      }
      var r := ApplyFirst(ops);
      label applied:
      var rest := Execute(ops[1..]);
      forall q | q in paths && Avoids(ops, q) ensures SameAt(q) {
        assert SameAt@applied(q);
      }
      results := [r] + rest;
    }

    /**
      With no threshold, and without a stale release, every answer that reaches a caller is that of
      a plain map from paths to bytes, and every name stays what it should be.
     */
    method ExecutePlainly(ops: seq<Op>) returns (results: seq<Result>)
      requires Valid() && threshold <= 0 && seen.dangling == {}
      requires Disciplined(seen.plain.sessions.Keys, ops) && NeverStale(threshold, seen, ops)
      requires forall i | 0 <= i < |ops| :: ops[i].path in paths
      modifies this
      ensures Valid() && seen.dangling == {} && |results| == |ops|
      ensures SameAnswers(ops, results, IdealResults(old(seen.plain), ops))
    {
      FollowsUnlessStale(threshold, seen, ops);
      FollowsGivesAnswers(threshold, seen, seen.plain, ops);
      NeverStaleNeverDangles(threshold, seen, ops);
      results := Execute(ops);
    }

    /** An empty store.  No path lies under the metadata directory and no two share a key. */
    constructor (ssdPath: string, metadataPath: string, threshold: int, sizes: BufferSizes, ghost paths: iset<Path>)
      requires Positive(sizes)
      requires forall p, q | p in paths && q in paths && KeyOf(p) == KeyOf(q) :: p == q
      requires forall p, q | p in paths && q in paths :: ssdPath + p != metadataPath + "/" + KeyOf(q)
      ensures Valid() && seen == Empty() && this.threshold == threshold && this.paths == paths
      ensures names == map[] && cloud == map[] && handles == map[]
      ensures this.ssdPath == ssdPath && this.metadataPath == metadataPath
    {
      this.ssdPath, this.metadataPath, this.threshold, this.sizes, this.paths :=
        ssdPath, metadataPath, threshold, sizes, paths;
      names, cloud, handles, seen := map[], map[], map[], Empty();
      new;
      forall p, q | p in paths && q in paths && p != q ensures Separate(p, q) {
        SamePrefix(ssdPath, p, q);
        SamePrefix(metadataPath + "/", KeyOf(p), KeyOf(q));
      }
    }
  }

  /** No operation of the run names q. */
  predicate Avoids(ops: seq<Op>, q: Path) {
    forall i | 0 <= i < |ops| :: ops[i].path != q
  }

  lemma SamePrefix(a: string, p: string, q: string)
    requires p != q
    ensures a + p != a + q
  {
    assert (a + p)[|a|..] == p && (a + q)[|a|..] == q;
  }

  /** What opening a path downloads, when another path with its key is in the cloud: that file's bytes. */
  method FetchTwin(fs: CloudFs, p: Path, q: Path) returns (proxy: bool)
    requires fs.Valid() && p in fs.paths && p !in fs.handles && p in fs.seen.remote && KeyOf(q) == KeyOf(p)
    modifies fs`names
    ensures proxy && p in fs.seen.plain.files
    ensures Lookup(fs.names, fs.Absolute(q)) == Some(File(fs.seen.plain.files[p]))
  {
    assert fs.TiedAt(p);
    proxy := fs.S3Get(q);
  }

  /** p is in the cloud and closed; nothing else is anywhere. */
  ghost predicate OnlyInCloud(fs: CloudFs, p: Path, data: Bytes)
    reads fs
  {
    && fs.names == map[fs.Metadata(p) := Stat(|data|), fs.Absolute(p) := Link(fs.Metadata(p))]
    && fs.cloud == map[KeyOf(p) := data] && p !in fs.handles
  }

  /** Create, open, write and release, from an empty store. */
  method FillTwin(fs: CloudFs, p: Path, data: Bytes)
    requires Positive(fs.sizes) && fs.names == map[] && fs.cloud == map[] && fs.handles == map[]
    requires fs.Absolute(p) != fs.Metadata(p) && |data| > fs.threshold
    modifies fs
    ensures OnlyInCloud(fs, p, data)
  {
    var made := fs.MakeNode(p);
    var open := fs.OpenLocal(p, ReadWrite);
    FirstWrite(data);
    var written := fs.WriteDescriptor(p, 0, data);
    assert fs.names == map[fs.Absolute(p) := File(data)];
    var closed := fs.CloseLocal(p);
  }

  /**
    Two paths with one key.  p is written and released; q, which nobody ever made, is opened, read,
    released and unlinked.  The read gives p's bytes, and p, which nobody unlinked, is gone.
   */
  method TwinRun(fs: CloudFs, p: Path, q: Path, data: Bytes) returns (read: Result, unlinked: Result, attr: Result)
    requires Positive(fs.sizes) && fs.names == map[] && fs.cloud == map[] && fs.handles == map[]
    requires p != q && KeyOf(p) == KeyOf(q) && |data| > fs.threshold
    requires fs.Absolute(p) != fs.Metadata(p) && fs.Absolute(q) != fs.Metadata(q)
    modifies fs
    ensures read == Got(data) && unlinked == Done && attr == Failed(ENOENT)
  {
    SamePrefix(fs.ssdPath, p, q);
    FillTwin(fs, p, data);
    var open := fs.OpenLocal(q, ReadOnly);
    read := fs.ReadDescriptor(q, 0, |data|);
    var closed := fs.CloseLocal(q);
    unlinked := fs.RemoveAll(q);
    attr := fs.Attributes(p);
  }

  /** A closed file is where it belongs. */
  ghost predicate Placed(fs: CloudFs, p: Path)
    requires fs.Absolute(p) in fs.names
    reads fs
  {
    match fs.names[fs.Absolute(p)]
    case File(b) => |b| <= Max0(fs.threshold) && fs.Metadata(p) !in fs.names && KeyOf(p) !in fs.cloud
    case Stat(_) => false
    case Link(target) =>
      && KeyOf(p) in fs.cloud && |fs.cloud[KeyOf(p)]| > fs.threshold
      && target == fs.Metadata(p) && Lookup(fs.names, target) == Some(Stat(|fs.cloud[KeyOf(p)]|))
  }

  /**
    Placement, for every threshold: a closed file is on the SSD, not longer than the threshold,
    with neither object nor metadata; or it is a link to metadata giving the length of an object
    longer than the threshold.  Only the names that stale releases leave dangling are neither.
   */
  lemma Placement(fs: CloudFs, p: Path)
    requires fs.Valid() && p in fs.paths && p !in fs.handles && fs.Absolute(p) in fs.names
    ensures Placed(fs, p) <==> p !in fs.seen.dangling
  {
    assert fs.TiedAt(p);
  }

  /** No object and no metadata file outlives its file. */
  lemma NothingLeftBehind(fs: CloudFs, p: Path)
    requires fs.Valid() && p in fs.paths && fs.Absolute(p) !in fs.names
    ensures fs.Metadata(p) !in fs.names && KeyOf(p) !in fs.cloud && p !in fs.seen.plain.files
  {
    assert fs.TiedAt(p);
  }
}
