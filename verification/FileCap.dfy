/** The cap on an entity's files: which files count, and the paged count of them. */
module FileCap {
  import opened Wrappers
  import opened KeyOrder
  import opened Paths
  import opened SharedStorage
  import S = Storage

  /** The keys the cap counts: well-formed paths outside the system area. */
  predicate Counted(k: Key) {
    ValidPath(k) && Parts(k).area != SYSTEM_AREA
  }

  function CountedKeys(f: S.Flat, prefix: Key): set<Key> {
    set k | k in f.objects && prefix <= k && Counted(k)
  }

  /** Every well-formed path outside an area named "system" counts, and nothing else does. */
  lemma OrdinaryFilesCount(scope: string, entity: string, area: string, name: string)
    requires BuildPath(scope, entity, area, name).Some?
    ensures Counted(BuildPath(scope, entity, area, name).value) <==> area != "system"
    ensures forall k :: !ValidPath(k) ==> !Counted(k)
  {
    BuildThenParse(scope, entity, area, name);
  }

  /** A file in an area named "system". */
  ghost predicate SystemFile(k: Key) {
    exists scope, entity, name :: BuildPath(scope, entity, "system", name) == Some(k)
  }

  /** The two storages differ in system files at most. */
  ghost predicate AgreeElsewhere(f: S.Flat, g: S.Flat) {
    forall k :: !SystemFile(k) ==> S.Get(f, k) == S.Get(g, k)
  }

  lemma SystemFileUncounted(k: Key)
    requires SystemFile(k)
    ensures !Counted(k)
  {
    var scope, entity, name :| BuildPath(scope, entity, "system", name) == Some(k);
    OrdinaryFilesCount(scope, entity, "system", name);
  }

  /** System files take no room: the count of the others, and so the cap's answer, does not see them. */
  lemma SystemFilesTakeNoRoom(f: S.Flat, g: S.Flat, path: string, limit: nat)
    requires AgreeElsewhere(f, g)
    ensures forall prefix :: CountedKeys(f, prefix) == CountedKeys(g, prefix)
    ensures AtLimit(f, path, limit) <==> AtLimit(g, path, limit)
    ensures SystemFile(path) ==> !AtLimit(f, path, limit)
  {
    hide Counted, SystemFile;
    forall prefix
      ensures CountedKeys(f, prefix) == CountedKeys(g, prefix)
    {
      forall k
        ensures k in CountedKeys(f, prefix) <==> k in CountedKeys(g, prefix)
      {
        if SystemFile(k) {
          SystemFileUncounted(k);
        } else {
          assert S.Get(f, k) == S.Get(g, k);
        }
      }
    }
    if SystemFile(path) {
      SystemFileUncounted(path);
    }
  }

  function CapPrefix(path: string): string
    requires ValidPath(path)
  {
    EntityPrefix(Parts(path).scope, Parts(path).entity)
  }

  /** A new file at `path` would count, and its entity holds as many files as it may. */
  predicate AtLimit(f: S.Flat, path: string, limit: nat) {
    Counted(path) && |CountedKeys(f, CapPrefix(path))| >= limit
  }

  /** Between two lengths of the log. */
  datatype Window = Window(from: nat, to: nat)

  /** The counted files that were there all through the window. */
  ghost function Throughout(start: S.Flat, log: seq<Commit>, w: Window, prefix: Key): set<Key>
    requires w.from <= w.to <= |log|
  {
    set k | k in CountedKeys(StateAt(start, log, w.from), prefix)
            && forall i :: w.from <= i <= w.to ==> k in StateAt(start, log, i).objects
  }

  /** A count over the window found room for a new file at `path`: fewer files than the limit were
      there all through it. */
  ghost predicate RoomIn(start: S.Flat, log: seq<Commit>, w: Window, path: string, limit: nat) {
    && w.from <= w.to <= |log|
    && (Counted(path) ==> |Throughout(start, log, w, CapPrefix(path))| < limit)
  }

  function CountIn(keys: seq<Key>): nat {
    if keys == [] then 0 else (if Counted(keys[0]) then 1 else 0) + CountIn(keys[1..])
  }

  lemma {:induction false} CountAppend(a: seq<Key>, b: seq<Key>)
    ensures CountIn(a + b) == CountIn(a) + CountIn(b)
  {
    if a == [] {
      assert a + b == b;
    } else {
      assert (a + b)[0] == a[0] && (a + b)[1..] == a[1..] + b;
      CountAppend(a[1..], b);
    }
  }

  /** Counting along an ascending sequence is the size of the counted set. */
  lemma {:induction false} CountIsSize(keys: seq<Key>, counted: set<Key>)
    requires Ascending(keys) && forall k :: k in counted <==> k in keys && Counted(k)
    ensures CountIn(keys) == |counted|
  {
    hide Lt, Counted;
    if keys == [] {
      assert counted == {};
    } else {
      var k := keys[0];
      LtIrreflexive(k);
      assert keys == [k] + keys[1..];
      CountIsSize(keys[1..], counted - {k});
      if Counted(k) {
        assert counted == counted - {k} + {k};
      } else {
        assert counted == counted - {k};
      }
    }
  }

  function KeysOf(objs: seq<S.Listed>): (keys: seq<Key>)
    ensures |keys| == |objs| && forall i :: 0 <= i < |objs| ==> keys[i] == objs[i].key
  {
    seq(|objs|, i requires 0 <= i < |objs| => objs[i].key)
  }

  lemma KeysOfListed(f: S.Flat, keys: seq<Key>)
    requires forall k :: k in keys ==> k in f.objects
    ensures KeysOf(S.ListedAll(f, keys)) == keys
  {
  }

  method CountPage(objs: seq<S.Listed>) returns (count: nat)
    ensures count == CountIn(KeysOf(objs))
  {
    count := 0;
    ghost var keys := KeysOf(objs);
    for i := 0 to |objs|
      invariant count == CountIn(keys[..i])
    {
      CountAppend(keys[..i], [keys[i]]);
      assert keys[..i + 1] == keys[..i] + [keys[i]];
      if Counted(objs[i].key) {
        count := count + 1;
      }
    }
    assert keys[..|objs|] == keys;
  }

  lemma KeysOfPage(f: S.Flat, prefix: Key, cursor: Option<Key>, size: nat)
    ensures KeysOf(S.ListPage(f, prefix, cursor, size)) == PageKeys(f.objects.Keys, prefix, cursor, size)
  {
    KeysOfListed(f, PageKeys(f.objects.Keys, prefix, cursor, size));
  }

  function Max(a: nat, b: nat): nat {
    if a >= b then a else b
  }

  /** Something was stored at the key at some time since the first `n` commits. */
  ghost predicate StoredOnce(start: S.Flat, log: seq<Commit>, n: nat, k: Key) {
    exists i :: n <= i <= |log| && k in StateAt(start, log, i).objects
  }

  ghost predicate SeenFiles(start: S.Flat, log: seq<Commit>, n: nat, prefix: Key, seen: set<Key>) {
    forall k :: k in seen ==> Counted(k) && prefix <= k && StoredOnce(start, log, n, k)
  }

  /** As many counted files as the limit were each there at some time since the first `n` commits. */
  ghost predicate LimitSeen(start: S.Flat, log: seq<Commit>, n: nat, prefix: Key, limit: nat) {
    exists seen :: SeenFiles(start, log, n, prefix, seen) && |seen| >= limit
  }

  lemma SeenLonger(start: S.Flat, shorter: seq<Commit>, log: seq<Commit>, n: nat, prefix: Key, seen: set<Key>)
    requires shorter <= log && SeenFiles(start, shorter, n, prefix, seen)
    ensures SeenFiles(start, log, n, prefix, seen)
  {
    hide Counted;
    forall k | k in seen
      ensures StoredOnce(start, log, n, k)
    {
      var i :| n <= i <= |shorter| && k in StateAt(start, shorter, i).objects;
      assert StateAt(start, log, i) == StateAt(start, shorter, i);
    }
  }

  lemma LimitSeenLonger(start: S.Flat, shorter: seq<Commit>, log: seq<Commit>, n: nat, prefix: Key, limit: nat)
    requires shorter <= log && LimitSeen(start, shorter, n, prefix, limit)
    ensures LimitSeen(start, log, n, prefix, limit)
  {
    hide SeenFiles;
    var seen :| SeenFiles(start, shorter, n, prefix, seen) && |seen| >= limit;
    SeenLonger(start, shorter, log, n, prefix, seen);
  }

  lemma LimitSeenSince(start: S.Flat, log: seq<Commit>, m: nat, n: nat, prefix: Key, limit: nat)
    requires n <= m && LimitSeen(start, log, m, prefix, limit)
    ensures LimitSeen(start, log, n, prefix, limit)
  {
    hide Counted;
    var seen :| SeenFiles(start, log, m, prefix, seen) && |seen| >= limit;
    assert SeenFiles(start, log, n, prefix, seen);
  }

  lemma NothingSeen(start: S.Flat, log: seq<Commit>, prefix: Key)
    ensures SeenFiles(start, log, |log|, prefix, {}) && Behind({}, None)
  {
  }

  /** No key seen is ahead of the cursor. */
  predicate Behind(seen: set<Key>, cursor: Option<Key>) {
    forall k :: k in seen ==> cursor.Some? && Le(k, cursor.value)
  }

  function CountedOf(keys: seq<Key>): set<Key> {
    set k | k in keys && Counted(k)
  }

  /** A page's counted keys are new, and were there when it was read. */
  lemma SeenMore(start: S.Flat, log: seq<Commit>, n: nat, prefix: Key, seen: set<Key>, cursor: Option<Key>, size: nat)
    requires n <= |log| && SeenFiles(start, log, n, prefix, seen) && Behind(seen, cursor)
    ensures var keys := PageKeys(StateAt(start, log, |log|).objects.Keys, prefix, cursor, size);
            && SeenFiles(start, log, n, prefix, seen + CountedOf(keys))
            && |seen + CountedOf(keys)| == |seen| + CountIn(keys)
            && (keys != [] ==> Behind(seen + CountedOf(keys), Some(keys[|keys| - 1])))
  {
    hide *;
    var f := StateAt(start, log, |log|);
    var keys := PageKeys(f.objects.Keys, prefix, cursor, size);
    CountedKeysOf(keys);
    CountIsSize(keys, CountedOf(keys));
    PageIsNew(f.objects.Keys, prefix, seen, cursor, size);
    SeenNow(start, log, n, prefix, seen, cursor, size);
    assert |seen + CountedOf(keys)| == |seen| + |CountedOf(keys)|;
    BehindMore(f.objects.Keys, prefix, seen, cursor, size);
  }

  lemma CountedKeysOf(keys: seq<Key>)
    ensures forall k :: k in CountedOf(keys) <==> k in keys && Counted(k)
  {
    hide Counted;
  }

  lemma PageIsNew(stored: set<Key>, prefix: Key, seen: set<Key>, cursor: Option<Key>, size: nat)
    requires Behind(seen, cursor)
    ensures CountedOf(PageKeys(stored, prefix, cursor, size)) !! seen
  {
    hide Counted, Sorted, Lt, PageKeys;
    forall k | k in CountedOf(PageKeys(stored, prefix, cursor, size))
      ensures k !in seen
    {
      assert k in Beyond(stored, prefix, cursor);
      LtIrreflexive(k);
      if cursor.Some? {
        LtAsymmetric(cursor.value, k);
      }
    }
  }

  lemma SeenNow(start: S.Flat, log: seq<Commit>, n: nat, prefix: Key, seen: set<Key>, cursor: Option<Key>, size: nat)
    requires n <= |log| && SeenFiles(start, log, n, prefix, seen)
    ensures var keys := PageKeys(StateAt(start, log, |log|).objects.Keys, prefix, cursor, size);
            SeenFiles(start, log, n, prefix, seen + CountedOf(keys))
  {
    hide Counted, Sorted, Lt, PageKeys;
    var f := StateAt(start, log, |log|);
    forall k | k in CountedOf(PageKeys(f.objects.Keys, prefix, cursor, size))
      ensures Counted(k) && prefix <= k && StoredOnce(start, log, n, k)
    {
      assert k in Beyond(f.objects.Keys, prefix, cursor);
    }
  }

  lemma BehindMore(stored: set<Key>, prefix: Key, seen: set<Key>, cursor: Option<Key>, size: nat)
    requires Behind(seen, cursor)
    ensures var keys := PageKeys(stored, prefix, cursor, size);
            keys != [] ==> Behind(seen + CountedOf(keys), Some(keys[|keys| - 1]))
  {
    hide Counted, Sorted, Lt, PageKeys;
    var keys := PageKeys(stored, prefix, cursor, size);
    if keys != [] {
      assert keys[|keys| - 1] in keys;
      forall k | k in seen + CountedOf(keys)
        ensures Le(k, keys[|keys| - 1])
      {
        BehindLast(stored, prefix, cursor, keys, k, k in seen);
      }
    }
  }

  lemma BehindLast(stored: set<Key>, prefix: Key, cursor: Option<Key>, keys: seq<Key>, k: Key, before: bool)
    requires keys != [] && Ascending(keys) && keys[|keys| - 1] in Beyond(stored, prefix, cursor)
    requires if before then cursor.Some? && Le(k, cursor.value) else k in keys
    ensures Le(k, keys[|keys| - 1])
  {
    hide Lt;
    var last := keys[|keys| - 1];
    if before {
      if k != cursor.value {
        LtTransitive(k, cursor.value, last);
      }
    } else {
      var i :| 0 <= i < |keys| && keys[i] == k;
    }
  }

  /** Every file there since the count began has been seen, or is ahead of the cursor. */
  predicate Caught(steady: set<Key>, seen: set<Key>, cursor: Option<Key>) {
    forall k :: k in steady && k !in seen ==> cursor.None? || Lt(cursor.value, k)
  }

  /** A page catches the steady files it covers; a short page covers all that is ahead. */
  lemma CaughtMore(stored: set<Key>, prefix: Key, steady: set<Key>, seen: set<Key>, cursor: Option<Key>, size: nat)
    requires size >= 1 && Caught(steady, seen, cursor)
    requires forall k :: k in steady ==> k in stored && prefix <= k && Counted(k)
    ensures var keys := PageKeys(stored, prefix, cursor, size);
            && (|keys| < size ==> steady <= seen + CountedOf(keys))
            && (|keys| >= size ==> keys[|keys| - 1] in Beyond(stored, prefix, cursor)
                                   && Caught(steady, seen + CountedOf(keys), Some(keys[|keys| - 1])))
  {
    hide Counted, Sorted, Lt, PageKeys;
    var keys := PageKeys(stored, prefix, cursor, size);
    var ahead := Sorted(Beyond(stored, prefix, cursor));
    if |keys| < size {
      ShortPageIsAll(stored, prefix, cursor, size);
    } else {
      var rest := RestOfPage(stored, prefix, cursor, size, keys);
      assert keys[|keys| - 1] in ahead;
      forall k | k in steady && k !in seen + CountedOf(keys)
        ensures Lt(keys[|keys| - 1], k)
      {
        assert k in ahead && k !in keys;
        assert k in rest;
      }
    }
  }

  /** As the log grows, fewer files have been there all through. */
  lemma ThroughoutShrinks(start: S.Flat, shorter: seq<Commit>, log: seq<Commit>, n: nat, prefix: Key)
    requires n <= |shorter| && shorter <= log
    ensures Throughout(start, log, Window(n, |log|), prefix) <= Throughout(start, shorter, Window(n, |shorter|), prefix)
    ensures forall k :: k in Throughout(start, log, Window(n, |log|), prefix) ==>
                          k in StateAt(start, log, |log|).objects && prefix <= k && Counted(k)
  {
    hide Counted;
    assert forall i :: n <= i <= |shorter| ==> StateAt(start, log, i) == StateAt(start, shorter, i);
  }

  /** A window of a shorter log is the same window of a longer one. */
  lemma ThroughoutLonger(start: S.Flat, shorter: seq<Commit>, log: seq<Commit>, w: Window, prefix: Key)
    requires w.from <= w.to <= |shorter| && shorter <= log
    ensures Throughout(start, log, w, prefix) == Throughout(start, shorter, w, prefix)
  {
    hide Counted;
    assert forall i :: w.from <= i <= w.to ==> StateAt(start, log, i) == StateAt(start, shorter, i);
  }

  /** With no commit in between, there throughout is there now, and seen is there now. */
  lemma StillWindow(start: S.Flat, log: seq<Commit>, f: S.Flat, prefix: Key, limit: nat)
    requires f == StateAt(start, log, |log|)
    ensures Throughout(start, log, Window(|log|, |log|), prefix) == CountedKeys(f, prefix)
    ensures LimitSeen(start, log, |log|, prefix, limit) ==> |CountedKeys(f, prefix)| >= limit
  {
    hide Counted;
    assert forall i :: |log| <= i <= |log| ==> StateAt(start, log, i) == f;
    if LimitSeen(start, log, |log|, prefix, limit) {
      var seen :| SeenFiles(start, log, |log|, prefix, seen) && |seen| >= limit;
      SubsetCardinality(seen, CountedKeys(f, prefix));
    }
  }

  /** `_at_file_cap`, however many malformed or system keys the pages carry, however their size
      changes and whatever the others do meanwhile: it is true only if as many counted files as the
      limit were each there at some time of the count, and false only if fewer were there all
      through it. With no commit in between that is the exact answer. */
  method AtFileCap(storage: SharedStorage, me: Client, prefix: Key, limit: nat, pageSize: nat) returns (full: bool)
    requires storage.Valid() && pageSize >= 1
    modifies storage`flat, storage`log, storage`others, storage`pages
    ensures storage.Valid() && old(storage.log) <= storage.log && storage.others <= old(storage.others)
    ensures Mine(me, storage.log, |old(storage.log)|) == []
    ensures storage.others == old(storage.others) ==> storage.log == old(storage.log)
    ensures full ==> LimitSeen(storage.start, storage.log, |old(storage.log)|, prefix, limit)
    ensures !full ==> |Throughout(storage.start, storage.log, Window(|old(storage.log)|, |storage.log|), prefix)| < limit
    ensures storage.log == old(storage.log) ==>
              storage.flat == old(storage.flat) && (full <==> |CountedKeys(storage.flat, prefix)| >= limit)
  {
    hide *;
    ghost var n := |storage.log|;
    ghost var seen: set<Key> := {};
    NothingSeen(storage.start, storage.log, prefix);
    var count := 0;
    var cursor: Option<Key> := None;
    MineEndsEmpty(me, storage.log);
    LatestState(storage);
    NothingCaught(storage.start, storage.log, prefix);
    while count < limit
      invariant storage.Valid() && old(storage.log) <= storage.log && storage.others <= old(storage.others)
      invariant Mine(me, storage.log, n) == []
      invariant storage.others == old(storage.others) ==> storage.log == old(storage.log)
      invariant SeenFiles(storage.start, storage.log, n, prefix, seen) && Behind(seen, cursor)
      invariant |seen| == count
      invariant Caught(Throughout(storage.start, storage.log, Window(n, |storage.log|), prefix), seen, cursor)
      decreases storage.others, |Beyond(storage.flat.objects.Keys, prefix, cursor)|
    {
      var size := Max(limit - count, pageSize);
      MaxIs(limit - count, pageSize);
      ghost var before := storage.log;
      var objs := storage.ListPage(me, prefix, cursor, size);
      MineGrows(me, before, storage.log, n);
      KeysOfPage(storage.flat, prefix, cursor, size);
      SeenLonger(storage.start, before, storage.log, n, prefix, seen);
      LatestState(storage);
      SeenMore(storage.start, storage.log, n, prefix, seen, cursor, size);
      ghost var steady := Throughout(storage.start, storage.log, Window(n, |storage.log|), prefix);
      ThroughoutShrinks(storage.start, before, storage.log, n, prefix);
      CaughtFewer(steady, Throughout(storage.start, before, Window(n, |before|), prefix), seen, cursor);
      CaughtMore(storage.flat.objects.Keys, prefix, steady, seen, cursor, size);
      seen := seen + CountedOf(KeysOf(objs));
      var found := CountPage(objs);
      count := count + found;
      if |objs| < size {
        SubsetCardinality(steady, seen);
        break;
      }
      CursorAdvances(storage.flat.objects.Keys, prefix, cursor, objs[|objs| - 1].key);
      cursor := Some(objs[|objs| - 1].key);
    }
    EnoughSeen(storage.start, storage.log, n, prefix, seen, limit);
    full := count >= limit;
    LatestState(storage);
    if storage.log == old(storage.log) {
      StillWindow(storage.start, storage.log, storage.flat, prefix, limit);
    }
  }

  lemma NothingCaught(start: S.Flat, log: seq<Commit>, prefix: Key)
    ensures Caught(Throughout(start, log, Window(|log|, |log|), prefix), {}, None)
  {
  }

  lemma CaughtFewer(fewer: set<Key>, steady: set<Key>, seen: set<Key>, cursor: Option<Key>)
    requires fewer <= steady && Caught(steady, seen, cursor)
    ensures Caught(fewer, seen, cursor)
  {
  }

  lemma MaxIs(a: nat, b: nat)
    ensures Max(a, b) >= a && Max(a, b) >= b
  {
  }

  lemma EnoughSeen(start: S.Flat, log: seq<Commit>, n: nat, prefix: Key, seen: set<Key>, limit: nat)
    requires SeenFiles(start, log, n, prefix, seen)
    ensures |seen| >= limit ==> LimitSeen(start, log, n, prefix, limit)
  {
    hide SeenFiles;
  }
}
