/** The bucket backend, where it does more than forward: a listing whose start offset is inclusive,
    and a get made of two calls. */
module GcsStorage {
  import opened Wrappers
  import opened KeyOrder
  import opened Utf8
  import opened SharedStorage
  import S = Storage

  const GET_RETRY_ATTEMPTS := 3

  /** The names a bucket lists from an offset, which it includes. */
  function FromOffset(keys: set<Key>, prefix: Key, start: Option<Key>): set<Key> {
    set k | k in keys && prefix <= k && (start.Some? ==> Le(start.value, k))
  }

  function BlobNames(f: S.Flat, prefix: Key, start: Option<Key>, max: nat): (names: seq<Key>)
    ensures forall k :: k in names ==> k in f.objects
  {
    assert forall k :: k in Take(Sorted(FromOffset(f.objects.Keys, prefix, start)), max) ==>
                         k in Sorted(FromOffset(f.objects.Keys, prefix, start));
    Take(Sorted(FromOffset(f.objects.Keys, prefix, start)), max)
  }

  /** `list_blobs`: the first `max` of them. */
  function Blobs(f: S.Flat, prefix: Key, start: Option<Key>, max: nat): seq<S.Listed> {
    S.ListedAll(f, BlobNames(f, prefix, start, max))
  }

  /** The bucket's own order, by the bytes of the names, is the order of the keys. */
  lemma BlobsInByteOrder(f: S.Flat, prefix: Key, start: Option<Key>, max: nat, i: nat, j: nat)
    requires i < j < |Blobs(f, prefix, start, max)|
    ensures var blobs := Blobs(f, prefix, start, max); BytesLt(Encode(blobs[i].key), Encode(blobs[j].key))
  {
    var names := BlobNames(f, prefix, start, max);
    assert Lt(names[i], names[j]);
    OrderAgrees(names[i], names[j]);
  }

  function Without(names: seq<Key>, start: Option<Key>): seq<Key> {
    if names == [] then []
    else Without(names[..|names| - 1], start) + if Some(names[|names| - 1]) == start then [] else [names[|names| - 1]]
  }

  lemma {:induction false} WithoutAbsent(names: seq<Key>, start: Option<Key>)
    requires start.Some? ==> start.value !in names
    ensures Without(names, start) == names
    decreases |names|
  {
    if names == [] {
    } else {
      WithoutAbsent(names[..|names| - 1], start);
    }
  }

  lemma {:induction false} WithoutFirst(first: Key, rest: seq<Key>)
    requires first !in rest
    ensures Without([first] + rest, Some(first)) == rest
    decreases |rest|
  {
    var names := [first] + rest;
    if rest != [] {
      WithoutFirst(first, rest[..|rest| - 1]);
      assert names[..|names| - 1] == [first] + rest[..|rest| - 1];
    } else {
      assert names[..0] == [];
    }
  }

  /** The offset itself, if it is there, comes first; what follows is the window after it. */
  lemma OffsetFirst(keys: set<Key>, prefix: Key, start: Key)
    ensures var window := Sorted(Beyond(keys, prefix, Some(start)));
            && start !in window
            && Sorted(FromOffset(keys, prefix, Some(start)))
               == if start in keys && prefix <= start then [start] + window else window
  {
    var window := Sorted(Beyond(keys, prefix, Some(start)));
    LtIrreflexive(start);
    if start in keys && prefix <= start {
      AscendingCons(start, window);
      SortedIs(FromOffset(keys, prefix, Some(start)), [start] + window);
    } else {
      SortedIs(FromOffset(keys, prefix, Some(start)), window);
    }
  }

  /** Asking for one more than the limit, from the cursor on and dropping it, is the window. */
  lemma OffsetIsWindow(f: S.Flat, prefix: Key, after: Option<Key>, limit: nat)
    ensures Take(Without(BlobNames(f, prefix, after, limit + 1), after), limit)
            == PageKeys(f.objects.Keys, prefix, after, limit)
  {
    var keys := f.objects.Keys;
    var window := Sorted(Beyond(keys, prefix, after));
    hide Lt, Sorted, Without, Take;
    if after.None? {
      assert FromOffset(keys, prefix, after) == Beyond(keys, prefix, after);
      DropNothing(window, after, limit);
    } else {
      OffsetFirst(keys, prefix, after.value);
      if after.value in keys && prefix <= after.value {
        DropFirst(window, after.value, limit);
      } else {
        DropNothing(window, after, limit);
      }
    }
  }

  lemma DropFirst(window: seq<Key>, first: Key, limit: nat)
    requires first !in window
    ensures Take(Without(Take([first] + window, limit + 1), Some(first)), limit) == Take(window, limit)
  {
    assert Take([first] + window, limit + 1) == [first] + Take(window, limit);
    WithoutFirst(first, Take(window, limit));
  }

  lemma DropNothing(window: seq<Key>, start: Option<Key>, limit: nat)
    requires start.Some? ==> start.value !in window
    ensures Take(Without(Take(window, limit + 1), start), limit) == Take(window, limit)
  {
    WithoutAbsent(Take(window, limit + 1), start);
  }

  class GcsStorage {
    const bucket: SharedStorage
    const me: Client
    /** How many downloads were attempted. */
    ghost var downloads: nat

    constructor (bucket: SharedStorage, me: Client)
      ensures this.bucket == bucket && this.me == me
    {
      this.bucket, this.me, downloads := bucket, me, 0;
    }

    /** `list_page`: the listing contract's window, from a listing that includes the cursor. */
    method ListPage(prefix: Key, after: Option<Key>, limit: nat) returns (page: seq<S.Listed>)
      requires bucket.Valid()
      modifies bucket`flat, bucket`log, bucket`others
      ensures bucket.Valid() && page == S.ListPage(bucket.flat, prefix, after, limit)
      ensures old(bucket.log) <= bucket.log && Mine(me, bucket.log, |old(bucket.log)|) == []
      ensures bucket.others == old(bucket.others) ==> bucket.flat == old(bucket.flat)
    {
      bucket.Interfere(me);
      page := WindowOf(bucket.flat, prefix, after, limit);
    }

    /** `get`: metadata and generation first, then the data of that generation. Whatever happens in
        between, the answer is one object as it is stored at the end; it gives up only after the key
        changed under it every time. */
    method Get(key: Key) returns (r: Result<Option<S.Object>, ()>)
      requires bucket.Valid()
      modifies bucket`flat, bucket`log, bucket`others, this`downloads
      ensures downloads <= old(downloads) + 3 && (r.Failure? ==> downloads == old(downloads) + 3)
      ensures bucket.Valid()
      ensures old(bucket.log) <= bucket.log && Mine(me, bucket.log, |old(bucket.log)|) == []
      ensures r.Success? ==> r.value == S.Get(bucket.flat, key)
      ensures bucket.others + (if r.Failure? then 3 else 0) <= old(bucket.others)
      ensures bucket.others == old(bucket.others) ==> bucket.flat == old(bucket.flat)
    {
      var attempt := 0;
      while attempt < GET_RETRY_ATTEMPTS
        invariant 0 <= attempt <= GET_RETRY_ATTEMPTS && bucket.Valid() && downloads == old(downloads) + attempt
        invariant old(bucket.log) <= bucket.log && Mine(me, bucket.log, |old(bucket.log)|) == []
        invariant bucket.others + attempt <= old(bucket.others)
        invariant bucket.others == old(bucket.others) ==> bucket.flat == old(bucket.flat)
      {
        ghost var before := bucket.log;
        var blob := bucket.Get(me, key);
        MineGrows(me, before, bucket.log, |old(bucket.log)|);
        if blob.None? {
          return Success(None);
        }
        ghost var seen := bucket.flat;
        before := bucket.log;
        var data := Download(key, blob.value.version);
        MineGrows(me, before, bucket.log, |old(bucket.log)|);
        if data.Some? {
          S.VersionNamesOneWrite(seen, bucket.flat, key);
          return Success(Some(S.Object(data.value, blob.value.metadata, blob.value.version)));
        }
        attempt := attempt + 1;
      }
      return Failure(());
    }

    /** `download_as_bytes` at a generation; None if the object is gone or has another by now. */
    method Download(key: Key, generation: S.Version) returns (data: Option<seq<Byte>>)
      requires bucket.Valid() && key in bucket.flat.objects && bucket.flat.objects[key].version == generation
      modifies bucket`flat, bucket`log, bucket`others, this`downloads
      ensures downloads == old(downloads) + 1
      ensures bucket.Valid() && S.Evolves(old(bucket.flat), bucket.flat) && bucket.others <= old(bucket.others)
      ensures old(bucket.log) <= bucket.log && Mine(me, bucket.log, |old(bucket.log)|) == []
      ensures bucket.others == old(bucket.others) ==> bucket.flat == old(bucket.flat)
      ensures data.Some? ==> S.AtVersion(bucket.flat, key, Some(generation)) && data.value == bucket.flat.objects[key].data
      ensures data.None? ==> bucket.others < old(bucket.others)
    {
      downloads := downloads + 1;
      bucket.Interfere(me);
      if !S.AtVersion(bucket.flat, key, Some(generation)) {
        return None;
      }
      return Some(bucket.flat.objects[key].data);
    }
  }

  lemma WithoutStep(names: seq<Key>, i: nat, start: Option<Key>)
    requires i < |names|
    ensures Without(names[..i + 1], start) == Without(names[..i], start) + if Some(names[i]) == start then [] else [names[i]]
    ensures i == 0 ==> Without(names[..i], start) == []
  {
    assert names[..i + 1][..i] == names[..i];
  }

  lemma WithoutNone(names: seq<Key>, start: Option<Key>)
    requires names == []
    ensures Without(names, start) == []
  {
  }

  method WindowOf(f: S.Flat, prefix: Key, after: Option<Key>, limit: nat) returns (page: seq<S.Listed>)
    ensures page == S.ListPage(f, prefix, after, limit)
  {
    hide Lt, Sorted, PageKeys, BlobNames, Without;
    var blobs := Blobs(f, prefix, after, limit + 1);
    ghost var names := BlobNames(f, prefix, after, limit + 1);
    var results: seq<S.Listed> := [];
    WithoutNone(names[..0], after);
    for i := 0 to |blobs|
      invariant Shows(f, Without(names[..i], after), results)
    {
      WithoutStep(names, i, after);
      assert names[i] in names;
      if after.Some? && blobs[i].key == after.value {
        continue;
      }
      results := results + [blobs[i]];
    }
    assert names[..|blobs|] == names;
    OffsetIsWindow(f, prefix, after, limit);
    page := Take(results, limit);
  }

  /** The results list these names, as the storage has them. */
  predicate Shows(f: S.Flat, names: seq<Key>, results: seq<S.Listed>) {
    |results| == |names| && forall i :: 0 <= i < |names| ==> names[i] in f.objects && results[i] == S.ListedAt(f, names[i])
  }
}
