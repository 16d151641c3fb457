/** One page of `list_prefix`: file entries read off a storage page, and a cursor for the next. */
module Listing {
  import opened Wrappers
  import opened KeyOrder
  import opened Paths
  import opened Metadata
  import S = Storage

  datatype FileEntry = FileEntry(path: Key, metadata: FileMetadata, version: S.Version)

  datatype Page = Page(entries: seq<FileEntry>, next: Option<Key>)

  /** The entries of the well-formed paths in a storage page, or the first metadata key that is
      missing or malformed. Objects at other keys are omitted. */
  function EntriesOf(objs: seq<S.Listed>): Result<seq<FileEntry>, string> {
    if objs == [] then Success([])
    else if !ValidPath(objs[0].key) then EntriesOf(objs[1..])
    else
      match FromMap(objs[0].metadata)
      case Failure(key) => Failure(key)
      case Success(m) =>
        var rest := EntriesOf(objs[1..]);
        if rest.Failure? then rest
        else Success([FileEntry(objs[0].key, m, objs[0].version)] + rest.value)
  }

  /** A page asks for one object more than it returns, to learn whether more follow. */
  function ListPrefix(f: S.Flat, prefix: Key, after: Option<Key>, size: nat): Result<Page, string>
    requires size >= 1
  {
    PageFrom(S.ListPage(f, prefix, after, size + 1), size)
  }

  function PageFrom(objs: seq<S.Listed>, size: nat): Result<Page, string>
    requires size >= 1
  {
    var page := Take(objs, size);
    match EntriesOf(page)
    case Failure(key) => Failure(key)
    case Success(entries) =>
      Success(Page(entries, if |objs| > size then Some(page[|page| - 1].key) else None))
  }

  predicate PathsAscend(entries: seq<FileEntry>) {
    forall i, j :: 0 <= i < j < |entries| ==> Lt(entries[i].path, entries[j].path)
  }

  /** `entries` shows key `k` as `f` has it: its entry if it is a well-formed path with readable
      metadata, nothing if it is absent or not a memory path. */
  ghost predicate Sees(entries: seq<FileEntry>, f: S.Flat, k: Key) {
    if k in f.objects && ValidPath(k) then
      && FromMap(f.objects[k].metadata).Success?
      && FileEntry(k, FromMap(f.objects[k].metadata).value, f.objects[k].version) in entries
    else
      forall e :: e in entries ==> e.path != k
  }

  /** The storage holds exactly the file that the entry describes. */
  predicate StoredAs(f: S.Flat, e: FileEntry) {
    && e.path in f.objects && f.objects[e.path].version == e.version
    && FromMap(f.objects[e.path].metadata) == Success(e.metadata)
  }

  lemma SameObjectSeen(entries: seq<FileEntry>, f: S.Flat, f': S.Flat, k: Key)
    requires Sees(entries, f, k) && S.Get(f, k) == S.Get(f', k)
    ensures Sees(entries, f', k)
  {
  }

  /** `entries` is exactly what a listing of everything under `prefix` returns. */
  ghost predicate IsListing(entries: seq<FileEntry>, f: S.Flat, prefix: Key) {
    && PathsAscend(entries)
    && (forall e :: e in entries ==> prefix <= e.path)
    && (forall k :: prefix <= k ==> Sees(entries, f, k))
  }

  lemma {:induction false} EntriesWithin(f: S.Flat, keys: seq<Key>)
    requires Ascending(keys) && forall x :: x in keys ==> x in f.objects
    requires EntriesOf(S.ListedAll(f, keys)).Success?
    ensures var entries := EntriesOf(S.ListedAll(f, keys)).value;
            PathsAscend(entries) && forall e :: e in entries ==> e.path in keys
  {
    if keys == [] {
    } else {
      TailEntries(f, keys);
      EntriesWithin(f, keys[1..]);
      var entries := EntriesOf(S.ListedAll(f, keys)).value;
      var rest := EntriesOf(S.ListedAll(f, keys[1..])).value;
      forall e | e in rest
        ensures Lt(keys[0], e.path) && e.path in keys
      {
        var i :| 0 <= i < |keys[1..]| && keys[1..][i] == e.path;
        assert keys[i + 1] == e.path;
      }
      if ValidPath(keys[0]) {
        assert entries == [entries[0]] + rest && entries[0].path == keys[0];
      }
    }
  }

  lemma TailEntries(f: S.Flat, keys: seq<Key>)
    requires keys != [] && forall x :: x in keys ==> x in f.objects
    ensures forall x :: x in keys[1..] ==> x in f.objects
    ensures S.ListedAll(f, keys)[1..] == S.ListedAll(f, keys[1..])
  {
    assert forall x :: x in keys[1..] ==> x in keys;
  }

  lemma {:induction false} EntriesSee(f: S.Flat, keys: seq<Key>, k: Key)
    requires Ascending(keys) && forall x :: x in keys ==> x in f.objects
    requires EntriesOf(S.ListedAll(f, keys)).Success?
    requires k in keys
    ensures Sees(EntriesOf(S.ListedAll(f, keys)).value, f, k)
  {
    hide Sees, FromMap, ValidPath, Lt;
    TailEntries(f, keys);
    if k == keys[0] {
      HeadSeen(f, keys);
    } else {
      assert keys == [keys[0]] + keys[1..];
      EntriesSee(f, keys[1..], k);
      var objs := S.ListedAll(f, keys);
      assert objs[0].key == keys[0];
      if ValidPath(objs[0].key) {
        var head := EntriesOf(objs).value[0];
        assert EntriesOf(objs).value == [head] + EntriesOf(objs[1..]).value;
        SeesCons(head, EntriesOf(objs[1..]).value, f, k);
      }
    }
  }

  lemma HeadSeen(f: S.Flat, keys: seq<Key>)
    requires keys != [] && Ascending(keys) && forall x :: x in keys ==> x in f.objects
    requires EntriesOf(S.ListedAll(f, keys)).Success?
    ensures Sees(EntriesOf(S.ListedAll(f, keys)).value, f, keys[0])
  {
    var k := keys[0];
    TailEntries(f, keys);
    var objs := S.ListedAll(f, keys);
    assert objs[0] == S.ListedAt(f, k);
    if ValidPath(k) {
      var e := FileEntry(k, FromMap(f.objects[k].metadata).value, f.objects[k].version);
      assert EntriesOf(objs).value[0] == e;
    } else {
      assert EntriesOf(objs) == EntriesOf(objs[1..]);
      EntriesWithin(f, keys[1..]);
      SuffixLacks(keys, k);
    }
  }

  lemma SeesCons(e: FileEntry, rest: seq<FileEntry>, f: S.Flat, k: Key)
    requires Sees(rest, f, k) && e.path != k
    ensures Sees([e] + rest, f, k)
  {
  }

  lemma SuffixLacks(keys: seq<Key>, k: Key)
    requires keys != [] && Ascending(keys) && k == keys[0]
    ensures k !in keys[1..]
  {
    LtIrreflexive(k);
  }

  /** Listings of the same keys that see them alike are the same sequence. */
  lemma ListingUnique(a: seq<FileEntry>, b: seq<FileEntry>, f: S.Flat, prefix: Key)
    requires IsListing(a, f, prefix) && IsListing(b, f, prefix)
    ensures a == b
  {
    SameElements(a, b, f, prefix);
    SameElements(b, a, f, prefix);
    EntriesUnique(a, b);
  }

  lemma SameElements(a: seq<FileEntry>, b: seq<FileEntry>, f: S.Flat, prefix: Key)
    requires IsListing(a, f, prefix) && IsListing(b, f, prefix)
    ensures forall e :: e in a ==> e in b
  {
    forall e | e in a
      ensures e in b
    {
      assert Sees(a, f, e.path) && Sees(b, f, e.path);
      var same := FileEntry(e.path, FromMap(f.objects[e.path].metadata).value, f.objects[e.path].version);
      OnePath(a, e, same);
    }
  }

  lemma OnePath(a: seq<FileEntry>, e: FileEntry, e': FileEntry)
    requires PathsAscend(a) && e in a && e' in a && e.path == e'.path
    ensures e == e'
  {
    LtIrreflexive(e.path);
  }

  lemma {:induction false} EntriesUnique(a: seq<FileEntry>, b: seq<FileEntry>)
    requires PathsAscend(a) && PathsAscend(b)
    requires forall e :: e in a <==> e in b
    ensures a == b
  {
    assert b != [] ==> b[0] in b;
    if a == [] {
    } else {
      assert a[0] in b;
      assert b[0] in a;
      if a[0] != b[0] {
        var i :| 0 <= i < |b| && b[i] == a[0];
        var j :| 0 <= j < |a| && a[j] == b[0];
        LtAsymmetric(a[0].path, b[0].path);
      }
      LtIrreflexive(a[0].path);
      assert a == [a[0]] + a[1..] && b == [b[0]] + b[1..];
      forall e
        ensures e in a[1..] <==> e in b[1..]
      {
        assert e in a <==> e == a[0] || e in a[1..];
        assert e in b <==> e == b[0] || e in b[1..];
      }
      EntriesUnique(a[1..], b[1..]);
    }
  }

  lemma TakeOfListed(f: S.Flat, keys: seq<Key>, n: nat)
    requires forall x :: x in keys ==> x in f.objects
    ensures forall x :: x in Take(keys, n) ==> x in f.objects
    ensures Take(S.ListedAll(f, keys), n) == S.ListedAll(f, Take(keys, n))
  {
    assert forall x :: x in Take(keys, n) ==> x in keys;
  }

  /** The keys whose objects a page returns, and whether the page ends the listing. */
  lemma PageObjects(f: S.Flat, prefix: Key, after: Option<Key>, size: nat) returns (keys: seq<Key>)
    requires size >= 1
    ensures keys == PageKeys(f.objects.Keys, prefix, after, size)
    ensures forall x :: x in keys ==> x in f.objects
    ensures var objs := S.ListPage(f, prefix, after, size + 1);
            && Take(objs, size) == S.ListedAll(f, keys)
            && (|objs| > size ==> keys != [])
            && (|objs| <= size ==> keys == Sorted(Beyond(f.objects.Keys, prefix, after)))
  {
    var all := Sorted(Beyond(f.objects.Keys, prefix, after));
    var more := PageKeys(f.objects.Keys, prefix, after, size + 1);
    keys := PageKeys(f.objects.Keys, prefix, after, size);
    assert Take(more, size) == keys;
    TakeOfListed(f, more, size);
  }

  /** Position `k` is covered by a page that started after `after` and ended at `next`. */
  predicate Covered(k: Key, prefix: Key, after: Option<Key>, next: Option<Key>) {
    prefix <= k && (after.Some? ==> Lt(after.value, k)) && (next.Some? ==> Le(k, next.value))
  }

  /** A page shows every key between its cursors as the storage has it, and nothing else. */
  lemma PageSees(f: S.Flat, prefix: Key, after: Option<Key>, size: nat)
    requires size >= 1 && ListPrefix(f, prefix, after, size).Success?
    ensures var page := ListPrefix(f, prefix, after, size).value;
            && PathsAscend(page.entries)
            && (forall e :: e in page.entries ==> Covered(e.path, prefix, after, page.next))
            && (page.next.Some? ==> page.next.value in Beyond(f.objects.Keys, prefix, after))
            && (forall k :: Covered(k, prefix, after, page.next) ==> Sees(page.entries, f, k))
  {
    var page := ListPrefix(f, prefix, after, size).value;
    var keys := PageObjects(f, prefix, after, size);
    EntriesWithin(f, keys);
    if page.next.Some? {
      assert page.next.value == keys[|keys| - 1];
      PageSplit(f.objects.Keys, prefix, after, size);
    }
    forall e | e in page.entries
      ensures Covered(e.path, prefix, after, page.next)
    {
      CoveredInPage(f, prefix, after, page.next, keys, e.path);
    }
    forall k | Covered(k, prefix, after, page.next)
      ensures Sees(page.entries, f, k)
    {
      if k in f.objects {
        CoveredInPage(f, prefix, after, page.next, keys, k);
        EntriesSee(f, keys, k);
      } else {
        assert k !in keys;
      }
    }
  }

  /** A page names a cursor exactly when more follows it, and passes as many keys as it may before that. */
  lemma PageEnds(f: S.Flat, prefix: Key, after: Option<Key>, size: nat)
    requires size >= 1 && ListPrefix(f, prefix, after, size).Success?
    ensures var next := ListPrefix(f, prefix, after, size).value.next;
            && (next.Some? ==> |Beyond(f.objects.Keys, prefix, after)| == size + |Beyond(f.objects.Keys, prefix, next)|)
            && (next.Some? <==> |Beyond(f.objects.Keys, prefix, after)| > size)
  {
    hide *;
    var objs := S.ListPage(f, prefix, after, size + 1);
    PageCursor(f, prefix, after, size);
    KeysOnPage(f, prefix, after, size);
    if |objs| > size {
      var page := PageKeys(f.objects.Keys, prefix, after, size);
      PageSplit(f.objects.Keys, prefix, after, size);
      SortedSize(Beyond(f.objects.Keys, prefix, after));
      SortedSize(Beyond(f.objects.Keys, prefix, Some(page[|page| - 1])));
    }
  }

  lemma PageCursor(f: S.Flat, prefix: Key, after: Option<Key>, size: nat)
    requires size >= 1 && ListPrefix(f, prefix, after, size).Success?
    ensures var objs := S.ListPage(f, prefix, after, size + 1);
            var next := ListPrefix(f, prefix, after, size).value.next;
            if |objs| <= size then next.None? else next == Some(objs[size - 1].key)
  {
    hide EntriesOf, S.ListPage;
  }

  /** How many keys a page and the page asked for have. */
  lemma KeysOnPage(f: S.Flat, prefix: Key, after: Option<Key>, size: nat)
    requires size >= 1
    ensures var all, objs := |Beyond(f.objects.Keys, prefix, after)|, S.ListPage(f, prefix, after, size + 1);
            var page := PageKeys(f.objects.Keys, prefix, after, size);
            && (|objs| > size <==> all > size)
            && (|objs| > size ==> |page| == size && page[size - 1] == objs[size - 1].key)
  {
    hide Sorted, Beyond;
    SortedSize(Beyond(f.objects.Keys, prefix, after));
  }

  lemma SortedSize(keys: set<Key>)
    ensures |Sorted(keys)| == |keys|
  {
    DistinctCount(Sorted(keys), keys);
  }

  lemma {:induction false} DistinctCount(s: seq<Key>, keys: set<Key>)
    requires Ascending(s) && forall k :: k in s <==> k in keys
    ensures |s| == |keys|
  {
    hide Lt;
    if s == [] {
      assert keys == {};
    } else {
      LtIrreflexive(s[0]);
      assert s == [s[0]] + s[1..];
      assert s[0] !in s[1..];
      DistinctCount(s[1..], keys - {s[0]});
    }
  }

  lemma CoveredInPage(f: S.Flat, prefix: Key, after: Option<Key>, next: Option<Key>, keys: seq<Key>, k: Key)
    requires Ascending(keys) && forall x :: x in keys ==> x in Beyond(f.objects.Keys, prefix, after)
    requires if next.Some? then
               && keys != [] && next.value == keys[|keys| - 1]
               && forall x :: x in Beyond(f.objects.Keys, prefix, after) ==>
                                x in keys || x in Beyond(f.objects.Keys, prefix, next)
             else forall x :: x in Beyond(f.objects.Keys, prefix, after) ==> x in keys
    requires k in f.objects
    ensures k in keys <==> Covered(k, prefix, after, next)
  {
    if k in Beyond(f.objects.Keys, prefix, after) && next.Some? {
      LtIrreflexive(k);
      if Lt(next.value, k) && Lt(k, next.value) {
        LtAsymmetric(k, next.value);
      }
      if k in keys {
        var i :| 0 <= i < |keys| && keys[i] == k;
        assert i == |keys| - 1 || Lt(keys[i], keys[|keys| - 1]);
      }
    }
  }
}
