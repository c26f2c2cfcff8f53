/** The paginated listing of cloudapi.c. */
module ListBucket {
  import opened Common

  type Key = string

  /** Size of the nextMarker array, one character of which is the terminator. */
  const MARKER_SIZE := 1024

  /** What snprintf writes for the null pointer that the listing starts from. */
  const NULL_TEXT: Key := "(null)"

  // ---------- keys in order ----------

  /** The order of a bucket: by the first character that differs, a prefix first. */
  predicate Less(a: Key, b: Key) {
    b != "" && (a == "" || a[0] < b[0] || (a[0] == b[0] && Less(a[1..], b[1..])))
  }

  lemma {:induction false} LessTransitive(a: Key, b: Key, c: Key)
    requires Less(a, b) && Less(b, c)
    ensures Less(a, c)
  {
    if a != "" && a[0] == b[0] == c[0] {
      LessTransitive(a[1..], b[1..], c[1..]);
    }
  }

  lemma {:induction false} LessIrreflexive(a: Key)
    ensures !Less(a, a)
  {
    if a != "" {
      LessIrreflexive(a[1..]);
    }
  }

  lemma {:induction false} PrefixLess(a: Key, n: nat)
    requires n < |a|
    ensures Less(a[..n], a)
  {
    if n > 0 {
      assert a[..n][1..] == a[1..][..n - 1];
      PrefixLess(a[1..], n - 1);
    }
  }

  /** In other words: one is a proper prefix of the other, or is smaller where they first differ. */
  ghost predicate ComesFirst(a: Key, b: Key) {
    exists i: nat :: DiffersAt(a, b, i)
  }

  predicate DiffersAt(a: Key, b: Key, i: nat) {
    i <= |a| && i < |b| && a[..i] == b[..i] && (i == |a| || a[i] < b[i])
  }

  lemma {:induction false} LessIsFirst(a: Key, b: Key)
    ensures Less(a, b) <==> ComesFirst(a, b)
  {
    if b != "" && a != "" && a[0] == b[0] {
      LessIsFirst(a[1..], b[1..]);
      if ComesFirst(a[1..], b[1..]) {
        var i: nat :| DiffersAt(a[1..], b[1..], i);
        assert a[..i + 1] == [a[0]] + a[1..][..i] && b[..i + 1] == [b[0]] + b[1..][..i];
        assert DiffersAt(a, b, i + 1);
      }
      if ComesFirst(a, b) {
        var i: nat :| DiffersAt(a, b, i);
        assert a[1..][..i - 1] == a[..i][1..] && b[1..][..i - 1] == b[..i][1..];
        assert DiffersAt(a[1..], b[1..], i - 1);
      }
    } else if b != "" && (a == "" || a[0] < b[0]) {
      assert DiffersAt(a, b, 0);
    } else {
      forall i: nat ensures !DiffersAt(a, b, i) {
        if 0 < i <= |a| && i <= |b| {
          assert a[..i][0] == a[0] && b[..i][0] == b[0];
        }
      }
    }
  }

  ghost predicate Sorted(bucket: seq<Key>) {
    forall i, j | 0 <= i < j < |bucket| :: Less(bucket[i], bucket[j])
  }

  /** The keys of a sorted bucket above a marker. */
  function After(bucket: seq<Key>, marker: Key): seq<Key> {
    if bucket == [] || Less(marker, bucket[0]) then bucket else After(bucket[1..], marker)
  }

  lemma {:induction false} AfterIsExact(bucket: seq<Key>, marker: Key)
    requires Sorted(bucket)
    ensures Sorted(After(bucket, marker))
    ensures forall k :: k in After(bucket, marker) <==> k in bucket && Less(marker, k)
  {
    if bucket != [] {
      if Less(marker, bucket[0]) {
        forall i | 0 < i < |bucket| ensures Less(marker, bucket[i]) {
          LessTransitive(marker, bucket[0], bucket[i]);
        }
      } else {
        AfterIsExact(bucket[1..], marker);
        assert bucket == [bucket[0]] + bucket[1..];
      }
    }
  }

  lemma NotBelowSmaller(a: Key, b: Key)
    requires Less(a, b)
    ensures !Less(b, a)
  {
    if Less(b, a) {
      LessTransitive(a, b, a);
      LessIrreflexive(a);
    }
  }

  lemma {:induction false} AfterOwnKey(bucket: seq<Key>, i: nat)
    requires Sorted(bucket) && i < |bucket|
    ensures After(bucket, bucket[i]) == bucket[i + 1..]
  {
    var rest := bucket[1..];
    if i == 0 {
      LessIrreflexive(bucket[0]);
      assert rest != [] ==> Less(bucket[0], rest[0]);
    } else {
      NotBelowSmaller(bucket[0], bucket[i]);
      AfterOwnKey(rest, i - 1);
    }
  }

  lemma {:induction false} AfterKey(bucket: seq<Key>, marker: Key, i: nat)
    requires Sorted(bucket) && i < |After(bucket, marker)|
    ensures After(bucket, After(bucket, marker)[i]) == After(bucket, marker)[i + 1..]
  {
    if Less(marker, bucket[0]) {
      AfterOwnKey(bucket, i);
    } else {
      var rest := bucket[1..];
      var key := After(rest, marker)[i];
      AfterIsExact(rest, marker);
      assert key in rest;
      NotBelowSmaller(bucket[0], key);
      AfterKey(rest, marker, i);
    }
  }

  function Clip(key: Key): Key {
    if |key| < MARKER_SIZE then key else key[..MARKER_SIZE - 1]
  }

  /**
    The request that follows a page continues right behind it exactly when the page's last key
    fits the marker array; otherwise the clipped marker lies below that key, which comes again.
   */
  lemma ResumesExactly(bucket: seq<Key>, marker: Key, n: nat)
    requires Sorted(bucket) && 0 < n <= |After(bucket, marker)|
    ensures var last := After(bucket, marker)[n - 1];
            After(bucket, Clip(last)) == After(bucket, marker)[n..] <==> |last| < MARKER_SIZE
  {
    var last := After(bucket, marker)[n - 1];
    AfterKey(bucket, marker, n - 1);
    if |last| >= MARKER_SIZE {
      PrefixLess(last, MARKER_SIZE - 1);
      AfterIsExact(bucket, marker);
      AfterIsExact(bucket, Clip(last));
      AfterIsExact(bucket, last);
      LessIrreflexive(last);
      assert last in After(bucket, Clip(last)) && last !in After(bucket, marker)[n..];
    }
  }

  /** The listing covers the bucket exactly when no key lies at or below the text of the null pointer. */
  lemma CoversBucket(bucket: seq<Key>)
    requires Sorted(bucket)
    ensures After(bucket, NULL_TEXT) == bucket <==> forall k :: k in bucket ==> Less(NULL_TEXT, k)
  {
    AfterIsExact(bucket, NULL_TEXT);
    if forall k :: k in bucket ==> Less(NULL_TEXT, k) {
      assert bucket != [] ==> bucket[0] in bucket;
    }
  }

  /** The starting marker and the array's size, at keys: what they hide and what they cut. */
  lemma StartAndSize(key: Key)
    ensures After(["!a", "(null)", "(nulm", "a"], NULL_TEXT) == ["(nulm", "a"]
    ensures |Clip(key)| == if |key| < 1024 then |key| else 1023
    ensures Clip(key) <= key
  {
    assert Less("(null)", "(nulm") && !Less("(null)", "(null)") && !Less("(null)", "!a") by {
      assert DiffersAt("(null)", "(nulm", 4);
      LessIsFirst("(null)", "(nulm");
      LessIrreflexive("(null)");
    }
    var bucket := ["!a", "(null)", "(nulm", "a"];
    assert bucket[1..] == ["(null)", "(nulm", "a"] && bucket[1..][1..] == ["(nulm", "a"];
  }

  // ---------- what the service answers ----------

  /** The arguments of one call of the listing callback. */
  datatype Batch = Batch(isTruncated: bool, nextMarker: Option<Key>, contents: seq<Key>)

  /** One request: the callbacks it leads to and the status it completes with. */
  datatype Response = Response(batches: seq<Batch>, ok: bool)

  function Contents(batches: seq<Batch>): seq<Key> {
    if batches == [] then [] else Contents(batches[..|batches| - 1]) + batches[|batches| - 1].contents
  }

  predicate IsTruncated(r: Response) {
    r.batches != [] && r.batches[|r.batches| - 1].isTruncated
  }

  function MarkerOf(nextMarker: Option<Key>, contents: seq<Key>): Key {
    if nextMarker.Some? && nextMarker.value != "" then nextMarker.value
    else if contents != [] then contents[|contents| - 1]
    else ""
  }

  /**
    A page of the keys above the marker: everything unless truncated; a truncated page is not empty
    and its last callback carries its largest key, as the last content or as the next marker.
   */
  ghost predicate Honest(bucket: seq<Key>, marker: Key, r: Response) {
    var keys := Contents(r.batches);
    && keys <= After(bucket, marker)
    && (r.ok && !IsTruncated(r) ==> keys == After(bucket, marker))
    && (r.ok && IsTruncated(r) ==>
          var last := r.batches[|r.batches| - 1];
          && keys != []
          && (last.nextMarker.Some? && last.nextMarker.value != "" ==> last.nextMarker.value == keys[|keys| - 1])
          && (last.contents == [] ==> last.nextMarker == Some(keys[|keys| - 1])))
  }

  ghost predicate HonestService(bucket: seq<Key>, respond: (nat, Key) -> Response) {
    forall n: nat, marker: Key :: Honest(bucket, marker, respond(n, marker))
  }

  predicate Fit(keys: seq<Key>) {
    forall i | 0 <= i < |keys| :: |keys[i]| < MARKER_SIZE
  }

  // ---------- whole listings ----------

  datatype Progress = Progress(marker: Key, reported: seq<Key>, ok: bool, more: bool)

  /** What one more request does to a listing; a listing that is over stays as it is. */
  function Next(p: Progress, r: Response): Progress {
    if !p.more then p
    else
      var marker :=
        if r.batches == [] then p.marker
        else Clip(MarkerOf(r.batches[|r.batches| - 1].nextMarker, r.batches[|r.batches| - 1].contents));
      Progress(marker, p.reported + Contents(r.batches), r.ok, r.ok && IsTruncated(r))
  }

  /** The listing after at most n requests. */
  function Listing(respond: (nat, Key) -> Response, n: nat): Progress {
    if n == 0 then Progress(NULL_TEXT, [], true, true)
    else
      var p := Listing(respond, n - 1);
      Next(p, respond(n - 1, p.marker))
  }

  /** A truncated page advances the marker to its last key and leaves fewer keys to list. */
  lemma PageAdvances(bucket: seq<Key>, marker: Key, r: Response)
    requires Sorted(bucket) && Honest(bucket, marker, r) && r.ok && IsTruncated(r)
    requires Fit(After(bucket, marker))
    ensures var last := r.batches[|r.batches| - 1];
            var marker' := Clip(MarkerOf(last.nextMarker, last.contents));
            && Contents(r.batches) + After(bucket, marker') == After(bucket, marker)
            && |After(bucket, marker')| < |After(bucket, marker)|
  {
    var keys := Contents(r.batches);
    var last := r.batches[|r.batches| - 1];
    assert MarkerOf(last.nextMarker, last.contents) == keys[|keys| - 1];
    assert After(bucket, marker)[|keys| - 1] == keys[|keys| - 1];
    ResumesExactly(bucket, marker, |keys|);
  }

  ghost predicate Finishes(respond: (nat, Key) -> Response) {
    exists n: nat :: !Listing(respond, n).more
  }

  /** The callbacks of the requests made so far, in order. */
  function Made(respond: (nat, Key) -> Response, n: nat): seq<Batch> {
    if n == 0 then []
    else
      var p := Listing(respond, n - 1);
      Made(respond, n - 1) + if p.more then respond(n - 1, p.marker).batches else []
  }

  lemma {:induction false} ContentsConcat(a: seq<Batch>, b: seq<Batch>)
    ensures Contents(a + b) == Contents(a) + Contents(b)
    decreases |b|
  {
    if b == [] {
      assert a + b == a;
    } else {
      var front := b[..|b| - 1];
      assert (a + b)[..|a + b| - 1] == a + front;
      ContentsConcat(a, front);
    }
  }

  /** Every callback's keys are reported, also those of a request that fails in the end. */
  lemma {:induction false} ReportsAll(respond: (nat, Key) -> Response, n: nat)
    ensures Listing(respond, n).reported == Contents(Made(respond, n))
  {
    if n > 0 {
      ReportsAll(respond, n - 1);
      var p := Listing(respond, n - 1);
      ContentsConcat(Made(respond, n - 1), if p.more then respond(n - 1, p.marker).batches else []);
    }
  }

  /** The status is good exactly when every request made completed so. */
  ghost predicate EveryRequestOk(respond: (nat, Key) -> Response, n: nat) {
    forall i: nat | i < n && Listing(respond, i).more :: respond(i, Listing(respond, i).marker).ok
  }

  lemma {:induction false} OkExactly(respond: (nat, Key) -> Response, n: nat)
    ensures Listing(respond, n).ok <==> EveryRequestOk(respond, n)
    ensures Listing(respond, n).more ==> Listing(respond, n).ok
  {
    if n > 0 {
      OkExactly(respond, n - 1);
      var p := Listing(respond, n - 1);
      if EveryRequestOk(respond, n) {
        assert EveryRequestOk(respond, n - 1);
      }
      if EveryRequestOk(respond, n - 1) && (p.more ==> respond(n - 1, p.marker).ok) {
        assert EveryRequestOk(respond, n);
      }
    }
  }

  /** Between requests the keys reported and the keys still to come make up the whole. */
  ghost predicate OnTrack(bucket: seq<Key>, p: Progress) {
    && (p.more ==> p.ok && p.reported + After(bucket, p.marker) == After(bucket, NULL_TEXT))
    && (!p.more && p.ok ==> p.reported == After(bucket, NULL_TEXT))
    && p.reported <= After(bucket, NULL_TEXT)
  }

  lemma NextOnTrack(bucket: seq<Key>, p: Progress, r: Response)
    requires Sorted(bucket) && Fit(After(bucket, NULL_TEXT))
    requires OnTrack(bucket, p) && p.more && Honest(bucket, p.marker, r)
    ensures OnTrack(bucket, Next(p, r))
    ensures Next(p, r).more ==> |After(bucket, Next(p, r).marker)| < |After(bucket, p.marker)|
  {
    FitRest(p.reported, After(bucket, p.marker));
    var p' := Next(p, r);
    if p'.more {
      PageAdvances(bucket, p.marker, r);
      Regroup(p.reported, Contents(r.batches), After(bucket, p'.marker));
    }
  }

  lemma FitRest(front: seq<Key>, rest: seq<Key>)
    requires Fit(front + rest)
    ensures Fit(rest)
  {
    assert forall i | 0 <= i < |rest| :: rest[i] == (front + rest)[|front| + i];
  }

  /** Once on track a listing ends, after no more requests than there are keys, and one. */
  lemma {:induction false} Ends(bucket: seq<Key>, respond: (nat, Key) -> Response, n: nat) returns (m: nat)
    requires Sorted(bucket) && Fit(After(bucket, NULL_TEXT)) && HonestService(bucket, respond)
    requires OnTrack(bucket, Listing(respond, n))
    ensures !Listing(respond, m).more && OnTrack(bucket, Listing(respond, m))
    ensures m <= n + |After(bucket, Listing(respond, n).marker)| + 1
    decreases Listing(respond, n).more, |After(bucket, Listing(respond, n).marker)|
  {
    var p := Listing(respond, n);
    if p.more {
      NextOnTrack(bucket, p, respond(n, p.marker));
      if Listing(respond, n + 1).more {
        m := Ends(bucket, respond, n + 1);
      } else {
        m := n + 1;
      }
    } else {
      m := n;
    }
  }

  /** A service whose pages hold one key each. */
  function OneByOne(bucket: seq<Key>): (nat, Key) -> Response {
    (n, marker) =>
      var keys := After(bucket, marker);
      if keys == [] then Response([], true) else Response([Batch(true, None, [keys[0]])], true)
  }

  lemma OneByOneIsHonest(bucket: seq<Key>)
    ensures HonestService(bucket, OneByOne(bucket))
  {
    forall n: nat, marker: Key ensures Honest(bucket, marker, OneByOne(bucket)(n, marker)) {
      var r := OneByOne(bucket)(n, marker);
      if r.batches != [] {
        assert r.batches[..0] == [];
        assert Contents(r.batches) == [After(bucket, marker)[0]];
      }
    }
  }

  lemma ClipBelow(key: Key, top: Key)
    requires key == top || Less(key, top)
    requires key == top ==> |key| >= MARKER_SIZE
    ensures Less(Clip(key), top)
  {
    if |key| >= MARKER_SIZE {
      PrefixLess(key, MARKER_SIZE - 1);
      if key != top {
        LessTransitive(Clip(key), key, top);
      }
    }
  }

  /** The clipped marker never gets past a key that is too long for it. */
  lemma {:induction false} NeverPast(bucket: seq<Key>, long: Key, n: nat)
    requires Sorted(bucket) && long in After(bucket, NULL_TEXT) && |long| >= MARKER_SIZE
    ensures var p := Listing(OneByOne(bucket), n); p.more && Less(p.marker, long)
  {
    AfterIsExact(bucket, NULL_TEXT);
    if n > 0 {
      NeverPast(bucket, long, n - 1);
      var p := Listing(OneByOne(bucket), n - 1);
      var keys := After(bucket, p.marker);
      AfterIsExact(bucket, p.marker);
      assert long in keys;
      var i :| 0 <= i < |keys| && keys[i] == long;
      assert i > 0 ==> Less(keys[0], keys[i]);
      ClipBelow(keys[0], long);
    }
  }

  /**
    A listing ends, whatever pages the service chooses, exactly when every key to be listed is
    shorter than the marker array.
   */
  lemma EndsExactly(bucket: seq<Key>)
    requires Sorted(bucket)
    ensures Fit(After(bucket, NULL_TEXT))
       <==> forall respond: (nat, Key) -> Response :: HonestService(bucket, respond) ==> Finishes(respond)
  {
    if Fit(After(bucket, NULL_TEXT)) {
      forall respond: (nat, Key) -> Response | HonestService(bucket, respond) ensures Finishes(respond) {
        var n := Ends(bucket, respond, 0);
      }
    } else {
      var keys := After(bucket, NULL_TEXT);
      var i :| 0 <= i < |keys| && |keys[i]| >= MARKER_SIZE;
      OneByOneIsHonest(bucket);
      forall n: nat ensures Listing(OneByOne(bucket), n).more {
        NeverPast(bucket, keys[i], n);
      }
    }
  }

  // ---------- the client ----------

  /** list_bucket_callback_data; `reported` is what the filler has been called with. */
  class ListData {
    var isTruncated: bool
    var nextMarker: Key
    var keyCount: int
    var reported: seq<Key>

    constructor (marker: Key)
      ensures nextMarker == marker && reported == []
    {
      nextMarker, reported := marker, [];
    }

    /** listBucketCallback */
    method Callback(batch: Batch)
      modifies this
      ensures isTruncated == batch.isTruncated
      ensures nextMarker == Clip(MarkerOf(batch.nextMarker, batch.contents))
      ensures reported == old(reported) + batch.contents
      ensures keyCount == old(keyCount) + |batch.contents|
    {
      isTruncated := batch.isTruncated;
      var marker := batch.nextMarker;
      if (marker.None? || marker.value == "") && |batch.contents| != 0 {
        marker := Some(batch.contents[|batch.contents| - 1]);
      }
      nextMarker := if marker.Some? then Clip(marker.value) else "";
      var i := 0;
      while i < |batch.contents|
        invariant 0 <= i <= |batch.contents|
        invariant reported == old(reported) + batch.contents[..i]
        invariant isTruncated == batch.isTruncated && keyCount == old(keyCount)
        invariant nextMarker == Clip(MarkerOf(batch.nextMarker, batch.contents))
      {
        reported := reported + [batch.contents[i]];
        i := i + 1;
      }
      keyCount := keyCount + |batch.contents|;
    }

    /** S3_list_bucket: the callbacks of one response, in order. */
    method Request(r: Response)
      modifies this
      ensures r.batches == [] ==> isTruncated == old(isTruncated) && nextMarker == old(nextMarker)
      ensures r.batches != [] ==> var last := r.batches[|r.batches| - 1];
                isTruncated == last.isTruncated && nextMarker == Clip(MarkerOf(last.nextMarker, last.contents))
      ensures reported == old(reported) + Contents(r.batches)
    {
      var i := 0;
      while i < |r.batches|
        invariant 0 <= i <= |r.batches|
        invariant i == 0 ==> isTruncated == old(isTruncated) && nextMarker == old(nextMarker)
        invariant i > 0 ==> isTruncated == r.batches[i - 1].isTruncated
        invariant i > 0 ==> nextMarker == Clip(MarkerOf(r.batches[i - 1].nextMarker, r.batches[i - 1].contents))
        invariant reported == old(reported) + Contents(r.batches[..i])
      {
        assert r.batches[..i + 1][..i] == r.batches[..i];
        Callback(r.batches[i]);
        i := i + 1;
      }
      assert r.batches[..i] == r.batches;
    }
  }

  /** The body of the loop. */
  method OneRequest(data: ListData, respond: (nat, Key) -> Response, n: nat) returns (ok: bool, more: bool, n': nat)
    requires Listing(respond, n) == Progress(data.nextMarker, data.reported, true, true)
    modifies data
    ensures n' == n + 1
    ensures Listing(respond, n') == Next(Listing(respond, n), respond(n, old(data.nextMarker)))
    ensures Listing(respond, n') == Progress(data.nextMarker, data.reported, ok, more)
  {
    var response := respond(n, data.nextMarker);
    data.isTruncated := false;
    data.Request(response);
    ok := response.ok;
    more := ok && data.isTruncated;
    n' := n + 1;
  }

  /** A listing that is over stays as it is. */
  lemma {:induction false} StaysOver(respond: (nat, Key) -> Response, n: nat, m: nat)
    requires n <= m && !Listing(respond, n).more
    ensures Listing(respond, m) == Listing(respond, n)
    decreases m
  {
    if n < m {
      StaysOver(respond, n, m - 1);
    }
  }

  lemma {:induction false} AlwaysOnTrack(bucket: seq<Key>, respond: (nat, Key) -> Response, n: nat)
    requires Sorted(bucket) && Fit(After(bucket, NULL_TEXT)) && HonestService(bucket, respond)
    ensures OnTrack(bucket, Listing(respond, n))
  {
    if n > 0 {
      AlwaysOnTrack(bucket, respond, n - 1);
      var p := Listing(respond, n - 1);
      if p.more {
        NextOnTrack(bucket, p, respond(n - 1, p.marker));
      }
    }
  }

  /**
    cloud_list_bucket; `respond` is what the service answers to the n-th request with a given
    marker.  For every service with which it ends at all, it ends with what so many requests give;
    if the service is honest about a bucket that does not change meanwhile, and the keys fit, that
    is every key above the starting marker, once and in order, or a prefix of them after a failure.
   */
  method CloudListBucket(ghost bucket: seq<Key>, respond: (nat, Key) -> Response)
    returns (ok: bool, reported: seq<Key>, ghost n: nat)
    requires Finishes(respond)
    ensures var p := Listing(respond, n); !p.more && p.ok == ok && p.reported == reported
    ensures Sorted(bucket) && Fit(After(bucket, NULL_TEXT)) && HonestService(bucket, respond) ==>
      reported <= After(bucket, NULL_TEXT) && (ok ==> reported == After(bucket, NULL_TEXT))
    ensures ok <==> EveryRequestOk(respond, n)
    ensures (forall i: nat, marker: Key :: respond(i, marker).ok) ==> ok
  {
    ghost var last: nat :| !Listing(respond, last).more;
    var data := new ListData(NULL_TEXT);
    var i, more := 0, true;
    ok := true;
    while more
      invariant Listing(respond, i) == Progress(data.nextMarker, data.reported, ok, more) && (more ==> ok)
      invariant more ==> i < last
      decreases more, last - i
    {
      if last <= i + 1 {
        StaysOver(respond, last, i + 1);
      }
      ok, more, i := OneRequest(data, respond, i);
    }
    reported, n := data.reported, i;
    OkExactly(respond, n);
    if Sorted(bucket) && Fit(After(bucket, NULL_TEXT)) && HonestService(bucket, respond) {
      AlwaysOnTrack(bucket, respond, n);
    }
  }
}
