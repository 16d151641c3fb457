/** How a listing read page by page ends, and what that says of the storage: a failure is about an
    object that is there, and with nothing changed meanwhile either end is that of one listing. */
module ScanOutcome {
  import opened Wrappers
  import opened KeyOrder
  import opened Paths
  import opened Metadata
  import opened Listing
  import opened PagedScan
  import S = Storage

  /** An object at a well-formed path under the prefix lacks the metadata key, or has a malformed one. */
  ghost predicate Unreadable(f: S.Flat, prefix: Key, key: string) {
    exists k :: k in f.objects && prefix <= k && ValidPath(k) && FromMap(f.objects[k].metadata) == Failure(key)
  }

  /** The scan got so far, and its next page, of the last state, has an object that cannot be read. */
  ghost predicate FailsAfter(hist: seq<S.Flat>, scan: Scan, size: nat, prefix: Key, key: string) {
    && hist != [] && size >= 1 && !scan.complete && ScanOk(hist, scan.beganClock, prefix, scan)
    && ListPrefix(hist[|hist| - 1], prefix, scan.cursor, size) == Failure(key)
  }

  /** A scan begun since time `n` fails at the last state. */
  ghost predicate ScanFails(hist: seq<S.Flat>, n: nat, prefix: Key, key: string) {
    exists scan, size :: FailsAfter(hist, scan, size, prefix, key) && n <= scan.began
  }

  /** How a scan begun at time `n` may end. */
  ghost predicate ScanEnds(hist: seq<S.Flat>, n: nat, prefix: Key, r: Result<seq<FileEntry>, string>) {
    match r
    case Success(entries) => ScanOk(hist, 0, prefix, Scan(n, 0, entries, None, true))
    case Failure(key) => ScanFails(hist, n, prefix, key)
  }

  /** Since time `n` nothing under the prefix has changed. */
  ghost predicate SameSince(hist: seq<S.Flat>, n: nat, prefix: Key) {
    hist != [] && forall t, k :: n <= t < |hist| && prefix <= k ==> S.Get(hist[t], k) == S.Get(hist[|hist| - 1], k)
  }

  lemma ListedAppend(f: S.Flat, a: seq<Key>, b: seq<Key>)
    requires forall k :: k in a + b ==> k in f.objects
    ensures (forall k :: k in a ==> k in f.objects) && (forall k :: k in b ==> k in f.objects)
    ensures S.ListedAll(f, a + b) == S.ListedAll(f, a) + S.ListedAll(f, b)
  {
    assert forall k :: k in a ==> k in a + b;
    assert forall k :: k in b ==> k in a + b;
  }

  /** Entries of two stretches, one after the other: the first failure wins. */
  lemma {:induction false} EntriesAppend(a: seq<S.Listed>, b: seq<S.Listed>)
    ensures EntriesOf(a + b) == if EntriesOf(a).Failure? then EntriesOf(a)
                                else if EntriesOf(b).Failure? then EntriesOf(b)
                                else Success(EntriesOf(a).value + EntriesOf(b).value)
  {
    hide ValidPath, FromMap;
    if a == [] {
      assert a + b == b;
      if EntriesOf(b).Success? {
        assert [] + EntriesOf(b).value == EntriesOf(b).value;
      }
    } else {
      assert (a + b)[0] == a[0] && (a + b)[1..] == a[1..] + b;
      EntriesAppend(a[1..], b);
      if ValidPath(a[0].key) && EntriesOf(a).Success? && EntriesOf(b).Success? {
        var e, x, y := EntriesOf(a).value[0], EntriesOf(a[1..]).value, EntriesOf(b).value;
        assert EntriesOf(a).value == [e] + x && [e] + (x + y) == [e] + x + y;
      }
    }
  }

  lemma {:induction false} EntriesSucceed(objs: seq<S.Listed>)
    requires forall i :: 0 <= i < |objs| && ValidPath(objs[i].key) ==> FromMap(objs[i].metadata).Success?
    ensures EntriesOf(objs).Success?
  {
    hide ValidPath, FromMap;
    if objs == [] {
    } else {
      EntriesSucceed(objs[1..]);
    }
  }

  lemma {:induction false} EntriesBlame(objs: seq<S.Listed>, key: string)
    requires EntriesOf(objs) == Failure(key)
    ensures exists i :: 0 <= i < |objs| && ValidPath(objs[i].key) && FromMap(objs[i].metadata) == Failure(key)
  {
    hide ValidPath, FromMap;
    if objs == [] {
    } else if ValidPath(objs[0].key) && FromMap(objs[0].metadata).Failure? {
    } else {
      EntriesBlame(objs[1..], key);
      var i :| 0 <= i < |objs[1..]| && ValidPath(objs[1..][i].key) && FromMap(objs[1..][i].metadata) == Failure(key);
      assert objs[i + 1] == objs[1..][i];
    }
  }

  /** A failure is about an object that is there, at a path the scan had not passed. */
  lemma FailureIsStored(hist: seq<S.Flat>, n: nat, prefix: Key, key: string)
    requires ScanFails(hist, n, prefix, key)
    ensures hist != [] && Unreadable(hist[|hist| - 1], prefix, key)
  {
    hide ScanOk, ValidPath, FromMap, Lt;
    var scan, size :| FailsAfter(hist, scan, size, prefix, key) && n <= scan.began;
    var f := hist[|hist| - 1];
    var keys := PageObjects(f, prefix, scan.cursor, size);
    var objs := S.ListedAll(f, keys);
    EntriesBlame(objs, key);
    var i :| 0 <= i < |objs| && ValidPath(objs[i].key) && FromMap(objs[i].metadata) == Failure(key);
    assert keys[i] in keys && keys[i] in Beyond(f.objects.Keys, prefix, scan.cursor);
  }

  /** The listing of an entity, as one storage scan returns it. */
  lemma ListingIs(entries: seq<FileEntry>, f: S.Flat, prefix: Key)
    requires IsListing(entries, f, prefix)
    ensures EntriesOf(S.Listing(f, prefix)) == Success(entries)
  {
    hide ValidPath, FromMap, Lt, EntriesOf, PathsAscend;
    var keys := Sorted(Beyond(f.objects.Keys, prefix, None));
    assert forall k :: k in keys ==> k in f.objects && prefix <= k;
    var objs := S.Listing(f, prefix);
    forall i | 0 <= i < |objs| && ValidPath(objs[i].key)
      ensures FromMap(objs[i].metadata).Success?
    {
      assert keys[i] in keys;
      assert Sees(entries, f, keys[i]);
    }
    EntriesSucceed(objs);
    ScannedIsListing(f, prefix, keys);
    ListingUnique(entries, EntriesOf(objs).value, f, prefix);
  }

  lemma ScannedIsListing(f: S.Flat, prefix: Key, keys: seq<Key>)
    requires keys == Sorted(Beyond(f.objects.Keys, prefix, None)) && forall k :: k in keys ==> k in f.objects && prefix <= k
    requires EntriesOf(S.ListedAll(f, keys)).Success?
    ensures IsListing(EntriesOf(S.ListedAll(f, keys)).value, f, prefix)
  {
    var entries := EntriesOf(S.ListedAll(f, keys)).value;
    EntriesWithin(f, keys);
    hide ValidPath, FromMap, Lt, EntriesOf, PathsAscend;
    forall k | prefix <= k
      ensures Sees(entries, f, k)
    {
      if k in f.objects {
        assert k in Beyond(f.objects.Keys, prefix, None);
        EntriesSee(f, keys, k);
      } else {
        assert k !in keys;
      }
    }
  }

  /** What a scan passed is in the last state as it was seen, if nothing under the prefix has changed. */
  lemma SeenIsNow(hist: seq<S.Flat>, clock: nat, prefix: Key, scan: Scan, k: Key)
    requires ScanOk(hist, clock, prefix, scan) && SameSince(hist, scan.began, prefix) && prefix <= k && Reached(scan, k)
    ensures Sees(scan.entries, hist[|hist| - 1], k)
  {
    hide Sees;
    assert SeenSince(scan.entries, hist, scan.began, k);
    var t :| scan.began <= t < |hist| && Sees(scan.entries, hist[t], k);
    SameObjectSeen(scan.entries, hist[t], hist[|hist| - 1], k);
  }

  /** The keys up to a cursor, and those beyond it. */
  lemma CursorSplit(keys: set<Key>, prefix: Key, cursor: Option<Key>) returns (front: seq<Key>)
    ensures Sorted(Beyond(keys, prefix, None)) == front + Sorted(Beyond(keys, prefix, cursor))
    ensures forall k :: k in front ==> k in keys && prefix <= k && cursor.Some? && Le(k, cursor.value)
  {
    hide Sorted, Lt;
    var all, ahead := Beyond(keys, prefix, None), Beyond(keys, prefix, cursor);
    if cursor.None? {
      front := [];
      assert all == ahead && front + Sorted(ahead) == Sorted(ahead);
    } else {
      var passed := set k | k in all && Le(k, cursor.value);
      front := Sorted(passed);
      forall k | k in all
        ensures k in passed <==> k !in ahead
      {
        LeOrLt(k, cursor);
      }
      forall i, j | 0 <= i < |front| && 0 <= j < |Sorted(ahead)|
        ensures Lt(front[i], Sorted(ahead)[j])
      {
        assert front[i] in front && Sorted(ahead)[j] in Sorted(ahead);
        if front[i] != cursor.value {
          LtTransitive(front[i], cursor.value, Sorted(ahead)[j]);
        }
      }
      forall k
        ensures k in front + Sorted(ahead) <==> k in all
      {
      }
      SortedIs(all, front + Sorted(ahead));
    }
  }

  /** If everything up to the cursor can be read, the page that fails decides the whole listing. */
  lemma PageDecides(f: S.Flat, prefix: Key, cursor: Option<Key>, size: nat, key: string)
    requires size >= 1 && ListPrefix(f, prefix, cursor, size) == Failure(key)
    requires forall k :: k in f.objects && prefix <= k && cursor.Some? && Le(k, cursor.value) && ValidPath(k) ==>
                           FromMap(f.objects[k].metadata).Success?
    ensures EntriesOf(S.Listing(f, prefix)) == Failure(key)
  {
    hide ValidPath, FromMap, Lt, EntriesOf, Sorted;
    var front := CursorSplit(f.objects.Keys, prefix, cursor);
    var ahead := Sorted(Beyond(f.objects.Keys, prefix, cursor));
    var page := PageObjects(f, prefix, cursor, size);
    var rest := PageFirst(f.objects.Keys, prefix, cursor, size, page);
    assert forall k :: k in front + ahead ==> k in f.objects;
    ListedAppend(f, front, ahead);
    ListedAppend(f, page, rest);
    var objs := S.ListedAll(f, front);
    forall i | 0 <= i < |objs| && ValidPath(objs[i].key)
      ensures FromMap(objs[i].metadata).Success?
    {
      assert front[i] in front;
    }
    EntriesSucceed(objs);
    EntriesAppend(objs, S.ListedAll(f, ahead));
    EntriesAppend(S.ListedAll(f, page), S.ListedAll(f, rest));
  }

  lemma PageFirst(keys: set<Key>, prefix: Key, cursor: Option<Key>, size: nat, page: seq<Key>) returns (rest: seq<Key>)
    requires page == PageKeys(keys, prefix, cursor, size)
    ensures Sorted(Beyond(keys, prefix, cursor)) == page + rest
  {
    rest := Sorted(Beyond(keys, prefix, cursor))[|page|..];
  }

  /** With nothing under the prefix changed since the scan began, it ends as one listing does. */
  lemma EndsAsListing(hist: seq<S.Flat>, n: nat, prefix: Key, r: Result<seq<FileEntry>, string>)
    requires ScanEnds(hist, n, prefix, r) && SameSince(hist, n, prefix)
    ensures r == EntriesOf(S.Listing(hist[|hist| - 1], prefix))
  {
    var f := hist[|hist| - 1];
    hide Sees, PathsAscend, EntriesOf, Lt, SeenSince;
    match r
    case Success(entries) =>
      var scan := Scan(n, 0, entries, None, true);
      forall k | prefix <= k
        ensures Sees(entries, f, k)
      {
        SeenIsNow(hist, 0, prefix, scan, k);
      }
      ListingIs(entries, f, prefix);
    case Failure(key) =>
      var scan, size :| FailsAfter(hist, scan, size, prefix, key) && n <= scan.began;
      forall k | k in f.objects && prefix <= k && scan.cursor.Some? && Le(k, scan.cursor.value) && ValidPath(k)
        ensures FromMap(f.objects[k].metadata).Success?
      {
        SeenIsNow(hist, scan.beganClock, prefix, scan, k);
        SeenIsReadable(scan.entries, f, k);
      }
      PageDecides(f, prefix, scan.cursor, size, key);
  }

  lemma SeenIsReadable(entries: seq<FileEntry>, f: S.Flat, k: Key)
    requires Sees(entries, f, k) && k in f.objects && ValidPath(k)
    ensures FromMap(f.objects[k].metadata).Success?
  {
  }
}
