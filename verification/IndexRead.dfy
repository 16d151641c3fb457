/** `get_memory_index` over shared storage: every entity of a scope map is listed, and the listings
    become one index. */
module IndexRead {
  import opened Wrappers
  import opened KeyOrder
  import opened Paths
  import opened Metadata
  import opened Listing
  import opened PagedScan
  import opened SharedStorage
  import opened ScanOutcome
  import opened Scans
  import opened MemoryIndex
  import S = Storage

  datatype IndexError = InvalidScope(scope: string) | InvalidEntity(entity: string) | BadMetadata(key: string)

  type ScopeMap = map<string, string>

  predicate WellFormed(m: ScopeMap) {
    forall s :: s in m ==> ValidSegment(s) && ValidSegment(m[s])
  }

  function PairError(m: ScopeMap, s: string): Option<IndexError>
    requires s in m
  {
    if !ValidSegment(s) then Some(InvalidScope(s))
    else if !ValidSegment(m[s]) then Some(InvalidEntity(m[s]))
    else None
  }

  function PrefixOf(m: ScopeMap, s: string): Key
    requires s in m
  {
    EntityPrefix(s, m[s])
  }

  /** The files read for a scope are those of the entity the map gives it. */
  lemma ReadsEntity(m: ScopeMap, s: string, scope: string, entity: string, area: string, name: string)
    requires WellFormed(m) && s in m && BuildPath(scope, entity, area, name).Some?
    ensures PrefixOf(m, s) <= BuildPath(scope, entity, area, name).value <==> scope == s && entity == m[s]
  {
    var path := BuildPath(scope, entity, area, name).value;
    SplitFour(scope, entity, area, name + MD_SUFFIX);
    EntityPrefixSegments(s, m[s], path);
  }

  /** The scopes are checked in ascending order; the first bad pair is reported. */
  method CheckPairs(m: ScopeMap, scopes: seq<string>) returns (error: Option<IndexError>)
    requires scopes == Sorted(m.Keys)
    ensures error.None? <==> WellFormed(m)
    ensures error.Some? ==>
              exists s :: s in m && PairError(m, s) == error && forall t :: t in m && Lt(t, s) ==> PairError(m, t).None?
  {
    hide Lt, ValidSegment, Sorted;
    InSorted(m, scopes);
    for i := 0 to |scopes|
      invariant forall j :: 0 <= j < i ==> scopes[j] in m && PairError(m, scopes[j]).None?
    {
      assert scopes[i] in scopes;
      error := PairError(m, scopes[i]);
      if error.Some? {
        forall t | t in m && Lt(t, scopes[i])
          ensures PairError(m, t).None?
        {
          EarlierScope(m, scopes, i, t);
        }
        return;
      }
    }
    assert forall s :: s in m ==> s in scopes;
    return None;
  }

  lemma EarlierScope(m: ScopeMap, scopes: seq<string>, i: nat, t: string)
    requires scopes == Sorted(m.Keys) && i < |scopes| && t in m && Lt(t, scopes[i])
    ensures exists j :: 0 <= j < i && scopes[j] == t
  {
    assert t in scopes;
    var j :| 0 <= j < |scopes| && scopes[j] == t;
    LtIrreflexive(t);
    if j > i {
      LtAsymmetric(scopes[i], t);
    }
  }

  /** Collected so far: for the scopes done, every key is shown as it was at some time of the call,
      and nothing else is there. */
  ghost predicate Collected(hist: seq<S.Flat>, n: nat, m: ScopeMap, done: seq<string>, all: seq<FileEntry>) {
    && AllValid(all) && DistinctPaths(all)
    && (forall s :: s in done ==> s in m)
    && (forall e :: e in all ==> exists s :: s in done && s in m && PrefixOf(m, s) <= e.path)
    && (forall s, k :: s in done && PrefixOf(m, s) <= k ==> SeenSince(all, hist, n, k))
  }

  lemma CollectedLonger(start: S.Flat, shorter: seq<Commit>, log: seq<Commit>, n: nat, m: ScopeMap,
                        done: seq<string>, all: seq<FileEntry>)
    requires shorter <= log && Collected(States(start, shorter), n, m, done, all)
    ensures Collected(States(start, log), n, m, done, all)
  {
    hide AllValid, DistinctPaths, Sees;
    StatesGrow(start, shorter, log);
    forall s, k | s in done && PrefixOf(m, s) <= k
      ensures SeenSince(all, States(start, log), n, k)
    {
      assert SeenSince(all, States(start, shorter), n, k);
    }
  }

  predicate NoneUnder(entries: seq<FileEntry>, prefix: Key) {
    forall e :: e in entries ==> !(prefix <= e.path)
  }

  /** No other scope's entry is under this scope's prefix. */
  lemma OthersElsewhere(hist: seq<S.Flat>, n: nat, m: ScopeMap, done: seq<string>, all: seq<FileEntry>, s: string)
    requires Collected(hist, n, m, done, all) && WellFormed(m) && s in m && s !in done
    ensures NoneUnder(all, PrefixOf(m, s))
  {
    hide AllValid, DistinctPaths, SeenSince;
    forall e | e in all
      ensures !(PrefixOf(m, s) <= e.path)
    {
      var t :| t in done && t in m && PrefixOf(m, t) <= e.path;
      if PrefixOf(m, s) <= e.path {
        EntitiesDisjoint(s, m[s], t, m[t], e.path);
      }
    }
  }

  predicate AllUnder(entries: seq<FileEntry>, prefix: Key) {
    forall e :: e in entries ==> prefix <= e.path
  }

  /** A complete scan: well-formed paths under the prefix, each once, each key as it was at some time. */
  lemma ScanIsListing(hist: seq<S.Flat>, prefix: Key, began: nat, entries: seq<FileEntry>)
    requires ScanOk(hist, 0, prefix, Scan(began, 0, entries, None, true))
    ensures AllValid(entries) && DistinctPaths(entries) && AllUnder(entries, prefix)
    ensures forall k :: prefix <= k ==> SeenSince(entries, hist, began, k)
  {
    hide ValidPath, Lt;
    forall i | 0 <= i < |entries|
      ensures ValidPath(entries[i].path)
    {
      var e := entries[i];
      assert e in entries && Reached(Scan(began, 0, entries, None, true), e.path);
      assert SeenSince(entries, hist, began, e.path);
      var t :| began <= t < |hist| && Sees(entries, hist[t], e.path);
    }
    forall i, j | 0 <= i < j < |entries|
      ensures entries[i].path != entries[j].path
    {
      LtIrreflexive(entries[i].path);
    }
    forall k | prefix <= k
      ensures SeenSince(entries, hist, began, k)
    {
      assert Reached(Scan(began, 0, entries, None, true), k);
    }
  }

  lemma SeesEither(a: seq<FileEntry>, b: seq<FileEntry>, prefix: Key, f: S.Flat, k: Key)
    requires (prefix <= k && Sees(b, f, k) && NoneUnder(a, prefix))
             || (!(prefix <= k) && Sees(a, f, k) && AllUnder(b, prefix))
    ensures Sees(a + b, f, k)
  {
    hide ValidPath, FromMap;
  }

  lemma SeenEither(a: seq<FileEntry>, b: seq<FileEntry>, prefix: Key, hist: seq<S.Flat>, n: nat, n': nat, k: Key)
    requires n <= n'
    requires (prefix <= k && SeenSince(b, hist, n', k) && NoneUnder(a, prefix))
             || (!(prefix <= k) && SeenSince(a, hist, n, k) && AllUnder(b, prefix))
    ensures SeenSince(a + b, hist, n, k)
  {
    hide Sees;
    if prefix <= k {
      var t :| n' <= t < |hist| && Sees(b, hist[t], k);
      SeesEither(a, b, prefix, hist[t], k);
    } else {
      var t :| n <= t < |hist| && Sees(a, hist[t], k);
      SeesEither(a, b, prefix, hist[t], k);
    }
  }

  lemma DistinctJoin(a: seq<FileEntry>, b: seq<FileEntry>, prefix: Key)
    requires AllValid(a) && AllValid(b) && DistinctPaths(a) && DistinctPaths(b) && NoneUnder(a, prefix) && AllUnder(b, prefix)
    ensures AllValid(a + b) && DistinctPaths(a + b)
  {
    hide ValidPath;
    forall i, j | 0 <= i < j < |a + b|
      ensures (a + b)[i].path != (a + b)[j].path
    {
      if i < |a| <= j {
        assert a[i] in a && b[j - |a|] in b;
      }
    }
  }

  /** One more scope's listing joins those collected. */
  lemma CollectOne(hist: seq<S.Flat>, n: nat, m: ScopeMap, done: seq<string>, all: seq<FileEntry>, s: string,
                   began: nat, entries: seq<FileEntry>)
    requires Collected(hist, n, m, done, all) && WellFormed(m) && s in m && s !in done && n <= began
    requires ScanOk(hist, 0, PrefixOf(m, s), Scan(began, 0, entries, None, true))
    ensures Collected(hist, n, m, done + [s], all + entries)
  {
    var prefix := PrefixOf(m, s);
    ScanIsListing(hist, prefix, began, entries);
    OthersElsewhere(hist, n, m, done, all, s);
    DistinctJoin(all, entries, prefix);
    hide AllValid, DistinctPaths, ScanOk, EntityPrefix, SeenSince;
    forall t, k | t in done + [s] && PrefixOf(m, t) <= k
      ensures SeenSince(all + entries, hist, n, k)
    {
      if t != s && prefix <= k {
        EntitiesDisjoint(s, m[s], t, m[t], k);
      }
      SeenEither(all, entries, prefix, hist, n, began, k);
    }
    forall e | e in all + entries
      ensures exists t :: t in done + [s] && t in m && PrefixOf(m, t) <= e.path
    {
      if e in all {
        var t :| t in done && t in m && PrefixOf(m, t) <= e.path;
        assert t in done + [s];
      } else {
        assert s in done + [s];
      }
    }
  }

  /** One-shot listings of all the scopes, one after the other. */
  function ListAll(f: S.Flat, m: ScopeMap, scopes: seq<string>): Result<seq<FileEntry>, string>
    requires forall s :: s in scopes ==> s in m
  {
    if scopes == [] then Success([])
    else
      var shorter, last := scopes[..|scopes| - 1], scopes[|scopes| - 1];
      assert forall s :: s in shorter ==> s in scopes;
      var before := ListAll(f, m, shorter);
      if before.Failure? then before
      else
        var entries := EntriesOf(S.Listing(f, PrefixOf(m, last)));
        if entries.Failure? then entries else Success(before.value + entries.value)
  }

  /** What the index must show: each key of each entity as it was at some time of the call. */
  ghost predicate ReadOk(hist: seq<S.Flat>, n: nat, m: ScopeMap, index: MemoryIndex, priority: seq<string>,
                         r: Rendering, budget: nat)
  {
    exists all :: Collected(hist, n, m, Sorted(m.Keys), all) && IsIndex(index, all, priority, r, budget)
  }

  /** An entry that was stored, exactly so, and that no index can show. */
  ghost predicate Unrenderable(hist: seq<S.Flat>, n: nat, prefix: Key, e: FileEntry, r: Rendering) {
    prefix <= e.path && !Renderable(e, r) && StoredSince(hist, n, e)
  }

  /** Why an index read may report a metadata key: an entity's listing fails on an object that is there,
      or an entry stored during the call has a time that cannot be rendered. */
  ghost predicate ReadFails(hist: seq<S.Flat>, n: nat, m: ScopeMap, key: string, r: Rendering) {
    || (exists s :: s in m && ScanFails(hist, n, PrefixOf(m, s), key))
    || (key == LAST_UPDATED_KEY && exists s, e :: s in m && Unrenderable(hist, n, PrefixOf(m, s), e, r))
  }

  /** So with no unreadable object in the last state and no unrenderable entry in any, the read succeeds. */
  lemma FailureIsExplained(hist: seq<S.Flat>, n: nat, m: ScopeMap, key: string, r: Rendering)
    requires ReadFails(hist, n, m, key, r) && hist != []
    ensures || (exists s :: s in m && Unreadable(hist[|hist| - 1], PrefixOf(m, s), key))
            || (key == LAST_UPDATED_KEY && exists s, e :: s in m && Unrenderable(hist, n, PrefixOf(m, s), e, r))
  {
    hide ScanFails, Unreadable, PrefixOf, Unrenderable;
    if s :| s in m && ScanFails(hist, n, PrefixOf(m, s), key) {
      FailureIsStored(hist, n, PrefixOf(m, s), key);
    }
  }

  /** The outcome with nobody interfering. */
  ghost predicate ReadAlone(f: S.Flat, m: ScopeMap, result: Result<MemoryIndex, IndexError>, priority: seq<string>,
                            r: Rendering, budget: nat)
  {
    match ListAll(f, m, Sorted(m.Keys))
    case Failure(key) => result == Failure(BadMetadata(key))
    case Success(all) =>
      if exists e :: e in all && !Renderable(e, r) then result == Failure(BadMetadata(LAST_UPDATED_KEY))
      else result.Success? && IsIndex(result.value, all, priority, r, budget)
  }

  lemma NothingCollected(hist: seq<S.Flat>, n: nat, m: ScopeMap, f: S.Flat)
    ensures Collected(hist, n, m, [], []) && ListAll(f, m, []) == Success([])
  {
  }

  lemma ListOneMore(f: S.Flat, m: ScopeMap, scopes: seq<string>, i: nat)
    requires scopes == Sorted(m.Keys) && i < |scopes|
    ensures (forall s :: s in scopes[..i] ==> s in m) && (forall s :: s in scopes[..i + 1] ==> s in m)
    ensures scopes[i] in m && scopes[i] !in scopes[..i] && scopes[..i + 1] == scopes[..i] + [scopes[i]]
    ensures ListAll(f, m, scopes[..i + 1])
            == match ListAll(f, m, scopes[..i])
               case Failure(key) => Failure(key)
               case Success(before) =>
                 var entries := EntriesOf(S.Listing(f, PrefixOf(m, scopes[i])));
                 if entries.Failure? then entries else Success(before + entries.value)
  {
    hide *;
    ScopesSplit(m, scopes, i);
    ListLast(f, m, scopes[..i], scopes[i]);
  }

  lemma ScopesSplit(m: ScopeMap, scopes: seq<string>, i: nat)
    requires scopes == Sorted(m.Keys) && i < |scopes|
    ensures (forall s :: s in scopes[..i] ==> s in m) && (forall s :: s in scopes[..i + 1] ==> s in m)
    ensures scopes[i] in m && scopes[i] !in scopes[..i] && scopes[..i + 1] == scopes[..i] + [scopes[i]]
  {
    hide *;
    InSorted(m, scopes);
    assert forall s :: s in scopes[..i + 1] ==> s in scopes;
    assert scopes[i] in scopes;
    EarlierDiffers(scopes, i);
  }

  lemma InSorted(m: ScopeMap, scopes: seq<string>)
    requires scopes == Sorted(m.Keys)
    ensures Ascending(scopes) && forall s :: s in scopes <==> s in m
  {
  }

  lemma EarlierDiffers(scopes: seq<string>, i: nat)
    requires Ascending(scopes) && i < |scopes|
    ensures scopes[i] !in scopes[..i]
  {
    hide Lt;
    LtIrreflexive(scopes[i]);
  }

  lemma ListLast(f: S.Flat, m: ScopeMap, shorter: seq<string>, last: string)
    requires (forall s :: s in shorter ==> s in m) && last in m
    ensures forall s :: s in shorter + [last] ==> s in m
    ensures ListAll(f, m, shorter + [last])
            == match ListAll(f, m, shorter)
               case Failure(key) => Failure(key)
               case Success(before) =>
                 var entries := EntriesOf(S.Listing(f, PrefixOf(m, last)));
                 if entries.Failure? then entries else Success(before + entries.value)
  {
    hide EntriesOf, S.Listing, PrefixOf;
    assert (shorter + [last])[..|shorter|] == shorter;
  }

  lemma {:induction false} ListFails(f: S.Flat, m: ScopeMap, scopes: seq<string>, i: nat)
    requires scopes == Sorted(m.Keys) && i <= |scopes| && forall s :: s in scopes[..i] ==> s in m
    requires ListAll(f, m, scopes[..i]).Failure?
    ensures ListAll(f, m, scopes) == ListAll(f, m, scopes[..i])
    decreases |scopes| - i
  {
    if i < |scopes| {
      ListOneMore(f, m, scopes, i);
      ListFails(f, m, scopes, i + 1);
    } else {
      assert scopes[..i] == scopes;
    }
  }

  lemma EmptyIndex(priority: seq<string>, r: Rendering, budget: nat)
    ensures IsIndex(MemoryIndex([], []), [], priority, r, budget)
  {
    assert IndexWith(MemoryIndex([], []), [], [], priority, r, budget);
  }

  /** `get_memory_index` without a cache. A bad pair is refused before any storage call. Whatever
      others do, the index is of entries each as it was at some time of the call, with no key missed
      that was there throughout, and a metadata error is one of an object or entry that was there;
      undisturbed, it is the index of one listing of every entity. */
  method GetMemoryIndex(storage: SharedStorage, me: Client, m: ScopeMap, priority: seq<string>, r: Rendering,
                        size: nat, budget: nat)
    returns (result: Result<MemoryIndex, IndexError>)
    requires storage.Valid() && size >= 1
    modifies storage`flat, storage`log, storage`others, storage`pages
    ensures storage.Valid() && old(storage.log) <= storage.log && storage.others <= old(storage.others)
    ensures Mine(me, storage.log, |old(storage.log)|) == []
    ensures result.Failure? && !result.error.BadMetadata? <==> !WellFormed(m)
    ensures !WellFormed(m) ==> storage.log == old(storage.log)
    ensures result.Success? ==>
              ReadOk(States(storage.start, storage.log), |old(storage.log)|, m, result.value, priority, r, budget)
    ensures result.Failure? && result.error.BadMetadata? ==>
              ReadFails(States(storage.start, storage.log), |old(storage.log)|, m, result.error.key, r)
    ensures WellFormed(m) && storage.others == old(storage.others) ==>
              storage.flat == old(storage.flat) && ReadAlone(storage.flat, m, result, priority, r, budget)
  {
    hide *;
    MineEndsEmpty(me, storage.log);
    var scopes := Sorted(m.Keys);
    var error := CheckPairs(m, scopes);
    PairErrorIsPlain(m);
    if error.Some? {
      return Failure(error.value);
    }
    ghost var n := |storage.log|;
    var all: seq<FileEntry> := [];
    NothingCollected(States(storage.start, storage.log), n, m, storage.flat);
    assert scopes[..0] == [];
    if |scopes| == 0 {
      EmptyIndex(priority, r, budget);
      AloneSucceeds(storage.flat, m, MemoryIndex([], []), [], priority, r, budget);
      AnswersRead(States(storage.start, storage.log), n, m, MemoryIndex([], []), [], priority, r, budget);
      return Success(MemoryIndex([], []));
    }
    for i := 0 to |scopes|
      invariant storage.Valid() && old(storage.log) <= storage.log && storage.others <= old(storage.others)
      invariant Mine(me, storage.log, n) == []
      invariant Collected(States(storage.start, storage.log), n, m, scopes[..i], all)
      invariant forall s :: s in scopes[..i] ==> s in m
      invariant storage.others == old(storage.others) ==>
                  storage.flat == old(storage.flat) && ListAll(storage.flat, m, scopes[..i]) == Success(all)
    {
      ghost var before := storage.log;
      ListOneMore(storage.flat, m, scopes, i);
      var entries := Drain(storage, me, PrefixOf(m, scopes[i]), size);
      MineGrows(me, before, storage.log, n);
      EndsWithin(States(storage.start, storage.log), n, |before|, m, scopes[i], entries, r);
      if entries.Failure? {
        ListFailsAt(storage.flat, m, scopes, i, entries.error);
        return Failure(BadMetadata(entries.error));
      }
      CollectedLonger(storage.start, before, storage.log, n, m, scopes[..i], all);
      CollectOne(States(storage.start, storage.log), n, m, scopes[..i], all, scopes[i], |before|, entries.value);
      all := all + entries.value;
    }
    assert scopes[..|scopes|] == scopes;
    CollectedIsValid(States(storage.start, storage.log), n, m, scopes, all);
    var index := Assemble(all, priority, r, budget);
    if index.None? {
      AloneFails(storage.flat, m, all, priority, r, budget);
      NotRendered(States(storage.start, storage.log), n, m, all, r);
      return Failure(BadMetadata(LAST_UPDATED_KEY));
    }
    AloneSucceeds(storage.flat, m, index.value, all, priority, r, budget);
    AnswersRead(States(storage.start, storage.log), n, m, index.value, all, priority, r, budget);
    return Success(index.value);
  }

  /** One scope's listing: a scan of the call, or the call's failure. */
  lemma EndsWithin(hist: seq<S.Flat>, n: nat, began: nat, m: ScopeMap, s: string, entries: Result<seq<FileEntry>, string>,
                   r: Rendering)
    requires s in m && n <= began && ScanEnds(hist, began, PrefixOf(m, s), entries)
    ensures match entries
            case Success(es) => ScanOk(hist, 0, PrefixOf(m, s), Scan(began, 0, es, None, true))
            case Failure(key) => ReadFails(hist, n, m, key, r)
  {
    hide ScanOk, FailsAfter, PrefixOf;
    if entries.Failure? {
      var scan, size :| FailsAfter(hist, scan, size, PrefixOf(m, s), entries.error) && began <= scan.began;
      assert ScanFails(hist, n, PrefixOf(m, s), entries.error);
    }
  }

  /** What was collected was stored, exactly so, under one of the scopes done. */
  lemma CollectedStored(hist: seq<S.Flat>, n: nat, m: ScopeMap, done: seq<string>, all: seq<FileEntry>, e: FileEntry)
    returns (s: string)
    requires Collected(hist, n, m, done, all) && e in all
    ensures s in done && s in m && PrefixOf(m, s) <= e.path && StoredSince(hist, n, e)
  {
    hide AllValid, PrefixOf;
    s :| s in done && s in m && PrefixOf(m, s) <= e.path;
    assert SeenSince(all, hist, n, e.path);
    SeenIsStoredSince(hist, n, all, e);
  }

  lemma SeenIsStoredSince(hist: seq<S.Flat>, n: nat, all: seq<FileEntry>, e: FileEntry)
    requires DistinctPaths(all) && e in all && SeenSince(all, hist, n, e.path)
    ensures StoredSince(hist, n, e)
  {
    hide Sees, StoredAs;
    var t :| n <= t < |hist| && Sees(all, hist[t], e.path);
    StoredAsShown(all, hist[t], e);
  }

  lemma NotRendered(hist: seq<S.Flat>, n: nat, m: ScopeMap, all: seq<FileEntry>, r: Rendering)
    requires Collected(hist, n, m, Sorted(m.Keys), all) && exists e :: e in all && !Renderable(e, r)
    ensures ReadFails(hist, n, m, LAST_UPDATED_KEY, r)
  {
    hide Collected, PrefixOf, StoredSince, Renderable;
    var e :| e in all && !Renderable(e, r);
    var s := CollectedStored(hist, n, m, Sorted(m.Keys), all, e);
    assert Unrenderable(hist, n, PrefixOf(m, s), e, r);
  }

  lemma PairErrorIsPlain(m: ScopeMap)
    ensures forall s :: s in m ==> PairError(m, s) != None ==> !PairError(m, s).value.BadMetadata?
  {
  }

  lemma CollectedIsValid(hist: seq<S.Flat>, n: nat, m: ScopeMap, done: seq<string>, all: seq<FileEntry>)
    requires Collected(hist, n, m, done, all)
    ensures AllValid(all) && DistinctPaths(all)
  {
  }

  lemma ListFailsAt(f: S.Flat, m: ScopeMap, scopes: seq<string>, i: nat, key: string)
    requires scopes == Sorted(m.Keys) && i < |scopes| && scopes[i] in m
    requires forall s :: s in scopes[..i] ==> s in m
    ensures ListAll(f, m, scopes[..i]).Success? && EntriesOf(S.Listing(f, PrefixOf(m, scopes[i]))) == Failure(key) ==>
              forall priority, r, budget :: ReadAlone(f, m, Failure(BadMetadata(key)), priority, r, budget)
  {
    if ListAll(f, m, scopes[..i]).Success? && EntriesOf(S.Listing(f, PrefixOf(m, scopes[i]))) == Failure(key) {
      ListOneMore(f, m, scopes, i);
      ListFails(f, m, scopes, i + 1);
    }
  }

  lemma AloneSucceeds(f: S.Flat, m: ScopeMap, index: MemoryIndex, all: seq<FileEntry>, priority: seq<string>,
                      r: Rendering, budget: nat)
    requires IsIndex(index, all, priority, r, budget) && !exists e :: e in all && !Renderable(e, r)
    ensures ListAll(f, m, Sorted(m.Keys)) == Success(all) ==> ReadAlone(f, m, Success(index), priority, r, budget)
  {
  }

  lemma AloneFails(f: S.Flat, m: ScopeMap, all: seq<FileEntry>, priority: seq<string>, r: Rendering, budget: nat)
    requires exists e :: e in all && !Renderable(e, r)
    ensures ListAll(f, m, Sorted(m.Keys)) == Success(all) ==>
              ReadAlone(f, m, Failure(BadMetadata(LAST_UPDATED_KEY)), priority, r, budget)
  {
  }

  lemma AnswersRead(hist: seq<S.Flat>, n: nat, m: ScopeMap, index: MemoryIndex, all: seq<FileEntry>,
                    priority: seq<string>, r: Rendering, budget: nat)
    requires Collected(hist, n, m, Sorted(m.Keys), all) && IsIndex(index, all, priority, r, budget)
    ensures ReadOk(hist, n, m, index, priority, r, budget)
  {
  }

  /** Every file an index read shows is one that was stored, exactly so, during the call. */
  lemma ReadShowsStored(hist: seq<S.Flat>, n: nat, m: ScopeMap, index: MemoryIndex, priority: seq<string>,
                        r: Rendering, budget: nat, e: FileEntry)
    requires ReadOk(hist, n, m, index, priority, r, budget) && e in index.entries
    ensures StoredSince(hist, n, e)
  {
    var all :| Collected(hist, n, m, Sorted(m.Keys), all) && IsIndex(index, all, priority, r, budget);
    var omitted := OmittedFrom(index, all, priority, r, budget);
    assert e in index.entries + omitted;
    hide IsIndex, Collected;
    var s := CollectedStored(hist, n, m, Sorted(m.Keys), all, e);
  }

  /** A file there throughout the call is shown, or its area is reported as capped. */
  lemma ReadMissesNothing(hist: seq<S.Flat>, n: nat, m: ScopeMap, index: MemoryIndex, priority: seq<string>,
                          r: Rendering, budget: nat, scope: string, path: Key)
    requires ReadOk(hist, n, m, index, priority, r, budget)
    requires scope in m && PrefixOf(m, scope) <= path && ValidPath(path)
    requires forall t :: n <= t < |hist| ==> path in hist[t].objects
    ensures (exists e :: e in index.entries && e.path == path) || HasPrefix(index.capped, AreaOf(path))
    ensures AreaOf(path) <= path
  {
    var all :| Collected(hist, n, m, Sorted(m.Keys), all) && IsIndex(index, all, priority, r, budget);
    hide IsIndex, AllValid, DistinctPaths, Lt, AreaOf, ValidPath, PrefixOf;
    AreaIsPrefix(path, path);
    assert scope in Sorted(m.Keys);
    assert SeenSince(all, hist, n, path);
    IndexShows(hist, n, index, all, priority, r, budget, path);
  }

  /** What an index says of a path that its entries show as it was at some time since `n`. */
  lemma IndexShows(hist: seq<S.Flat>, n: nat, index: MemoryIndex, all: seq<FileEntry>, priority: seq<string>,
                   r: Rendering, budget: nat, path: Key)
    requires IsIndex(index, all, priority, r, budget) && AllValid(all) && DistinctPaths(all) && SeenSince(all, hist, n, path)
    ensures forall e :: e in index.entries && e.path == path ==> StoredSince(hist, n, e)
    ensures ValidPath(path) && (forall t :: n <= t < |hist| ==> path in hist[t].objects) ==>
              (exists e :: e in index.entries && e.path == path) || HasPrefix(index.capped, AreaOf(path))
  {
    var omitted := OmittedFrom(index, all, priority, r, budget);
    hide IsIndex, AllValid, DistinctPaths, Lt, FromMap, AreaOf, ValidPath, InOrder, FillsBudget;
    forall e | e in index.entries && e.path == path
      ensures StoredSince(hist, n, e)
    {
      assert e in index.entries + omitted;
      SeenIsStoredSince(hist, n, all, e);
    }
    if ValidPath(path) && forall t :: n <= t < |hist| ==> path in hist[t].objects {
      var t :| n <= t < |hist| && Sees(all, hist[t], path);
      var e := FileEntry(path, FromMap(hist[t].objects[path].metadata).value, hist[t].objects[path].version);
      assert e in index.entries + omitted;
      if e in omitted {
        var i :| 0 <= i < |omitted| && omitted[i] == e;
        assert HasPrefix(index.capped, AreaOf(omitted[i].path));
      }
    }
  }

  lemma StoredAsShown(all: seq<FileEntry>, f: S.Flat, e: FileEntry)
    requires DistinctPaths(all) && e in all && Sees(all, f, e.path)
    ensures StoredAs(f, e)
  {
    hide FromMap, ValidPath;
    if e.path in f.objects && ValidPath(e.path) {
      var shown := FileEntry(e.path, FromMap(f.objects[e.path].metadata).value, f.objects[e.path].version);
      OnePathOneEntry(all, e, shown);
    }
  }
}
