/** `get_memory_index` with a cache: every entity's listing comes from the cache protocol, and the
    listings become one index. */
module CachedIndex {
  import opened Wrappers
  import opened KeyOrder
  import opened Paths
  import opened Metadata
  import opened Listing
  import opened PagedScan
  import opened ScanOutcome
  import opened CacheProtocol
  import opened CacheSafety
  import opened CacheRuns
  import opened CacheClient
  import opened MemoryIndex
  import opened IndexRead
  import S = Storage

  /** Some process was served these entries between the two states, having read its token after the first. */
  ghost predicate ServedBetween(c: Config, began: State, now: State, e: Entity, entries: seq<FileEntry>) {
    exists s, p :: ServedAt(c, began, s, now, p, e, entries)
  }

  ghost predicate ServedAt(c: Config, began: State, s: State, now: State, p: Pid, e: Entity, entries: seq<FileEntry>) {
    && Reachable(c, s) && Leads(c, s, now) && HasServed(Local(s, p), e, entries)
    && |began.hist| <= s.procs[p].readAt
  }

  lemma ServedStill(c: Config, began: State, now: State, later: State, e: Entity, entries: seq<FileEntry>)
    requires ServedBetween(c, began, now, e, entries) && Leads(c, now, later)
    ensures ServedBetween(c, began, later, e, entries)
  {
    hide Leads, Reachable;
    var s, p :| ServedAt(c, began, s, now, p, e, entries);
    LeadsTransitive(c, s, now, later);
    assert ServedAt(c, began, s, later, p, e, entries);
  }

  lemma ServedNow(c: Config, began: State, now: State, p: Pid, e: Entity, entries: seq<FileEntry>)
    requires Reachable(c, now) && HasServed(Local(now, p), e, entries) && |began.hist| <= now.procs[p].readAt
    ensures ServedBetween(c, began, now, e, entries)
  {
    hide Leads, Reachable;
    LeadsNone(c, now);
    assert ServedAt(c, began, now, now, p, e, entries);
  }

  /** What was served is a complete scan of the entity: each key as it was at some time in history. */
  lemma ServedIsScan(c: Config, s: State, p: Pid, e: Entity, entries: seq<FileEntry>) returns (began: nat)
    requires Reachable(c, s) && HasServed(Local(s, p), e, entries)
    ensures ScanOk(s.hist, 0, e, Scan(began, 0, entries, None, true))
  {
    ServedMeans(c, s, p);
    began := s.procs[p].scan.began;
    hide Reachable, PathsAscend, Sees;
    assert SeenSince(entries, s.hist, began, e);
  }

  /** Every change to an entity of the map so far was followed by a token replacement before the first state. */
  ghost predicate AllInvalidatedBefore(began: State, now: State, m: ScopeMap) {
    forall scope :: scope in m ==> AllInvalidatedBy(now, PrefixOf(m, scope), |began.hist|)
  }

  lemma ServedIsCurrent(c: Config, began: State, now: State, e: Entity, entries: seq<FileEntry>)
    requires ServedBetween(c, began, now, e, entries) && AllInvalidatedBy(now, e, |began.hist|)
    ensures now.hist != [] && IsListing(entries, Now(now), e)
  {
    hide Leads, Reachable, ChangedAt, IsListing;
    var s, p :| ServedAt(c, began, s, now, p, e, entries);
    InvalidatedEarlier(now, e, |began.hist|, s.procs[p].readAt);
    ServedStaysCurrent(c, s, now, p);
  }

  lemma InvalidatedEarlier(now: State, e: Entity, until: nat, later: nat)
    requires AllInvalidatedBy(now, e, until) && until <= later
    ensures forall t :: ChangedAt(now, e, t) ==> InvalidatedSince(now, e, t, later)
  {
    hide ChangedAt;
    forall t: nat | ChangedAt(now, e, t)
      ensures InvalidatedSince(now, e, t, later)
    {
      var p :| p in now.puts && now.puts[p].entity == e && t < now.puts[p].time <= until;
    }
  }

  /** The parts so far, one for each scope, in order. */
  ghost predicate Parts(c: Config, began: State, now: State, m: ScopeMap, scopes: seq<string>, parts: seq<seq<FileEntry>>) {
    && |parts| == |scopes|
    && forall i :: 0 <= i < |scopes| ==> scopes[i] in m && ServedBetween(c, began, now, PrefixOf(m, scopes[i]), parts[i])
  }

  ghost function Flatten(parts: seq<seq<FileEntry>>): seq<FileEntry> {
    if parts == [] then [] else Flatten(parts[..|parts| - 1]) + parts[|parts| - 1]
  }

  lemma PartsStill(c: Config, began: State, now: State, later: State, m: ScopeMap, scopes: seq<string>,
                   parts: seq<seq<FileEntry>>)
    requires Parts(c, began, now, m, scopes, parts) && Leads(c, now, later)
    ensures Parts(c, began, later, m, scopes, parts)
  {
    hide Leads, ServedBetween, PrefixOf;
    forall i | 0 <= i < |scopes|
      ensures ServedBetween(c, began, later, PrefixOf(m, scopes[i]), parts[i])
    {
      ServedStill(c, began, now, later, PrefixOf(m, scopes[i]), parts[i]);
    }
  }

  /** If the cache was in agreement, the parts are the entities' current listings, one after the other. */
  lemma {:induction false} PartsAreListings(c: Config, began: State, now: State, m: ScopeMap, scopes: seq<string>,
                                            parts: seq<seq<FileEntry>>)
    requires Parts(c, began, now, m, scopes, parts) && AllInvalidatedBefore(began, now, m) && now.hist != []
    ensures (forall s :: s in scopes ==> s in m) && ListAll(Now(now), m, scopes) == Success(Flatten(parts))
    decreases |scopes|
  {
    hide ServedBetween, AllInvalidatedBy, PrefixOf, EntriesOf, S.Listing;
    if scopes == [] {
    } else {
      var n := |scopes| - 1;
      var last := scopes[n];
      PartsAreListings(c, began, now, m, scopes[..n], parts[..n]);
      assert scopes == scopes[..n] + [last];
      ServedIsCurrent(c, began, now, PrefixOf(m, last), parts[n]);
      ListingIs(parts[n], Now(now), PrefixOf(m, last));
      ListLast(Now(now), m, scopes[..n], last);
    }
  }

  /** Every key of the entities done is shown as it was no earlier than any replacement of its
      entity's token that the call found in place. */
  ghost predicate Fresh(began: State, hist: seq<S.Flat>, m: ScopeMap, done: seq<string>, all: seq<FileEntry>) {
    && (forall s :: s in done ==> s in m)
    && forall s, time: nat, k {:trigger PutAt(began, PrefixOf(m, s), time), SeenSince(all, hist, time, k)} ::
         s in done && PutAt(began, PrefixOf(m, s), time) && PrefixOf(m, s) <= k ==> SeenSince(all, hist, time, k)
  }

  /** One entity's entries, each key as it was no earlier than any replacement found in place. */
  ghost predicate FreshPart(began: State, hist: seq<S.Flat>, e: Entity, entries: seq<FileEntry>) {
    forall time: nat, k {:trigger SeenSince(entries, hist, time, k)} ::
      PutAt(began, e, time) && e <= k ==> SeenSince(entries, hist, time, k)
  }

  lemma FreshStill(began: State, shorter: seq<S.Flat>, hist: seq<S.Flat>, m: ScopeMap, done: seq<string>, all: seq<FileEntry>)
    requires Fresh(began, shorter, m, done, all) && shorter <= hist
    ensures Fresh(began, hist, m, done, all)
  {
    hide Sees, PutAt, PrefixOf;
    forall s, time: nat, k | s in done && PutAt(began, PrefixOf(m, s), time) && PrefixOf(m, s) <= k
      ensures SeenSince(all, hist, time, k)
    {
      assert SeenSince(all, shorter, time, k);
      var t :| time <= t < |shorter| && Sees(all, shorter[t], k);
      assert Sees(all, hist[t], k);
    }
  }

  lemma FreshOne(began: State, hist: seq<S.Flat>, m: ScopeMap, done: seq<string>, all: seq<FileEntry>, s: string,
                 entries: seq<FileEntry>)
    requires Fresh(began, hist, m, done, all) && WellFormed(m) && s in m && s !in done
    requires NoneUnder(all, PrefixOf(m, s)) && AllUnder(entries, PrefixOf(m, s))
    requires FreshPart(began, hist, PrefixOf(m, s), entries)
    ensures Fresh(began, hist, m, done + [s], all + entries)
  {
    hide SeenSince, PutAt, EntityPrefix, ValidSegment;
    forall t, time: nat, k | t in done + [s] && PutAt(began, PrefixOf(m, t), time) && PrefixOf(m, t) <= k
      ensures SeenSince(all + entries, hist, time, k)
    {
      if t == s {
        SeenEither(all, entries, PrefixOf(m, s), hist, time, time, k);
      } else {
        OneEntity(m, s, t, k);
        SeenEither(all, entries, PrefixOf(m, s), hist, time, time, k);
      }
    }
  }

  lemma OneEntity(m: ScopeMap, s: string, t: string, k: Key)
    requires WellFormed(m) && s in m && t in m && s != t && PrefixOf(m, t) <= k
    ensures !(PrefixOf(m, s) <= k)
  {
    if PrefixOf(m, s) <= k {
      EntitiesDisjoint(s, m[s], t, m[t], k);
    }
  }

  /** An index of entries that are fresh in this sense. */
  ghost predicate FreshRead(began: State, hist: seq<S.Flat>, m: ScopeMap, index: MemoryIndex, priority: seq<string>,
                            r: Rendering, budget: nat)
  {
    exists all :: && Collected(hist, 0, m, Sorted(m.Keys), all) && IsIndex(index, all, priority, r, budget)
                  && Fresh(began, hist, m, Sorted(m.Keys), all)
  }

  /** An entry of the index was stored, exactly so, no earlier than any replacement of its entity's token
      that the call found in place; and a file there ever since one is shown, or its area is capped. */
  lemma IndexIsFresh(began: State, hist: seq<S.Flat>, m: ScopeMap, index: MemoryIndex, priority: seq<string>,
                     r: Rendering, budget: nat, scope: string, time: nat, path: Key)
    requires FreshRead(began, hist, m, index, priority, r, budget)
    requires scope in m && PutAt(began, PrefixOf(m, scope), time) && PrefixOf(m, scope) <= path
    ensures forall e :: e in index.entries && e.path == path ==> StoredSince(hist, time, e)
    ensures ValidPath(path) && (forall t :: time <= t < |hist| ==> path in hist[t].objects) ==>
              (exists e :: e in index.entries && e.path == path) || HasPrefix(index.capped, AreaOf(path))
  {
    var all :| && Collected(hist, 0, m, Sorted(m.Keys), all) && IsIndex(index, all, priority, r, budget)
               && Fresh(began, hist, m, Sorted(m.Keys), all);
    InSorted(m, Sorted(m.Keys));
    assert SeenSince(all, hist, time, path);
    IndexShows(hist, time, index, all, priority, r, budget, path);
  }

  /** Why the read may report a metadata key: an entity's listing fails, during the call, on an object
      that is there; or an entry, stored no earlier than any replacement of its entity's token that the
      call found in place, has a time that cannot be rendered. */
  ghost predicate CachedReadFails(began: State, hist: seq<S.Flat>, m: ScopeMap, key: string, r: Rendering) {
    || (exists s :: s in m && ScanFails(hist, |began.hist|, PrefixOf(m, s), key))
    || (key == LAST_UPDATED_KEY
        && exists s, e :: s in m && Unrenderable(hist, 0, PrefixOf(m, s), e, r) && FreshEntry(began, hist, PrefixOf(m, s), e))
  }

  ghost predicate FreshEntry(began: State, hist: seq<S.Flat>, prefix: Entity, e: FileEntry) {
    forall time: nat :: PutAt(began, prefix, time) ==> StoredSince(hist, time, e)
  }

  lemma CachedNotRendered(began: State, hist: seq<S.Flat>, m: ScopeMap, all: seq<FileEntry>, r: Rendering)
    requires Collected(hist, 0, m, Sorted(m.Keys), all) && Fresh(began, hist, m, Sorted(m.Keys), all)
    requires exists e :: e in all && !Renderable(e, r)
    ensures CachedReadFails(began, hist, m, LAST_UPDATED_KEY, r)
  {
    hide PrefixOf, StoredSince, Renderable, PutAt, SeenSince, AllValid, Sorted;
    var e :| e in all && !Renderable(e, r);
    var s := CollectedStored(hist, 0, m, Sorted(m.Keys), all, e);
    forall time: nat | PutAt(began, PrefixOf(m, s), time)
      ensures StoredSince(hist, time, e)
    {
      assert SeenSince(all, hist, time, e.path);
      SeenIsStoredSince(hist, time, all, e);
    }
    assert Unrenderable(hist, 0, PrefixOf(m, s), e, r) && FreshEntry(began, hist, PrefixOf(m, s), e);
  }

  /** Where every change was invalidated before the first state, the entities have not changed since. */
  lemma UnchangedMeanwhile(began: State, now: State, m: ScopeMap, s: string)
    requires AllInvalidatedBefore(began, now, m) && s in m && now.hist != []
    ensures SameSince(now.hist, |began.hist|, PrefixOf(m, s))
  {
    hide PrefixOf, ChangedAt;
    var e := PrefixOf(m, s);
    forall t: nat | ChangedAt(now, e, t)
      ensures t <= |began.hist|
    {
      assert InvalidatedSince(now, e, t, |began.hist|);
    }
    forall t, k | |began.hist| <= t < |now.hist| && e <= k
      ensures S.Get(now.hist[t], k) == S.Get(now.hist[|now.hist| - 1], k)
    {
      UnchangedSince(now, e, t, |now.hist| - 1, k);
    }
  }

  /** If the cache was in agreement, the read fails where and as the read without a cache does. */
  lemma FailureAgrees(c: Config, began: State, before: State, now: State, m: ScopeMap, scopes: seq<string>, i: nat,
                      parts: seq<seq<FileEntry>>, key: string, priority: seq<string>, r: Rendering, budget: nat)
    requires scopes == Sorted(m.Keys) && i < |scopes| && scopes[i] in m && forall s :: s in scopes[..i] ==> s in m
    requires Parts(c, began, before, m, scopes[..i], parts) && Leads(c, before, now) && now.hist != []
    requires ScanFails(now.hist, |began.hist|, PrefixOf(m, scopes[i]), key)
    ensures AllInvalidatedBefore(began, now, m) ==>
              ReadAlone(Now(now), m, Failure(BadMetadata(key)), priority, r, budget)
  {
    hide *;
    if AllInvalidatedBefore(began, now, m) {
      PartsStill(c, began, before, now, m, scopes[..i], parts);
      PartsAreListings(c, began, now, m, scopes[..i], parts);
      UnchangedMeanwhile(began, now, m, scopes[i]);
      FailsAsListing(now.hist, |began.hist|, PrefixOf(m, scopes[i]), key);
      LastIs(now);
      ListFailsAt(Now(now), m, scopes, i, key);
    }
  }

  lemma LastIs(s: State)
    requires s.hist != []
    ensures s.hist[|s.hist| - 1] == Now(s)
  {
  }

  lemma FailsAsListing(hist: seq<S.Flat>, n: nat, prefix: Key, key: string)
    requires ScanFails(hist, n, prefix, key) && SameSince(hist, n, prefix)
    ensures EntriesOf(S.Listing(hist[|hist| - 1], prefix)) == Failure(key)
  {
    hide ScanFails;
    EndsAsListing(hist, n, prefix, Failure(key));
  }

  function PidsFrom(s: State, p: Pid): set<Pid> {
    set q | q in s.procs && p <= q
  }

  /** A process identity that is not in use. */
  method FreshPid(w: World) returns (p: Pid)
    ensures p !in w.state.procs
  {
    p := 0;
    while p in w.state.procs
      decreases |PidsFrom(w.state, p)|
    {
      assert PidsFrom(w.state, p + 1) <= PidsFrom(w.state, p) - {p};
      SubsetCardinality(PidsFrom(w.state, p + 1), PidsFrom(w.state, p) - {p});
      p := p + 1;
    }
  }

  /** `get_memory_index` with a cache. A bad pair is refused before any call. The index is of entries each
      as it was stored at some time, no earlier than any token replacement that the call found in place.
      A metadata error is one of an object or entry that was there. And if every change to the entities
      so far was followed by a token replacement before the call, the outcome, index or error, is exactly
      that of an undisturbed call without a cache. */
  method GetCachedIndex(w: World, m: ScopeMap, priority: seq<string>, r: Rendering, size: nat, budget: nat, ttl: Option<nat>)
    returns (result: Result<MemoryIndex, IndexError>)
    requires w.Valid() && size >= 1 && TtlAllowed(w.config, ttl)
    modifies w
    ensures w.Valid() && Leads(w.config, old(w.state), w.state)
    ensures result.Failure? && !result.error.BadMetadata? <==> !WellFormed(m)
    ensures !WellFormed(m) ==> w.state == old(w.state)
    ensures result.Success? ==> ReadOk(w.state.hist, 0, m, result.value, priority, r, budget)
    ensures result.Success? ==> FreshRead(old(w.state), w.state.hist, m, result.value, priority, r, budget)
    ensures result.Failure? && result.error.BadMetadata? ==>
              CachedReadFails(old(w.state), w.state.hist, m, result.error.key, r)
    ensures WellFormed(m) && AllInvalidatedBefore(old(w.state), w.state, m) ==>
              ReadAlone(Now(w.state), m, result, priority, r, budget)
  {
    hide *;
    var scopes := Sorted(m.Keys);
    LeadsNone(w.config, w.state);
    var error := CheckPairs(m, scopes);
    PairErrorIsPlain(m);
    if error.Some? {
      return Failure(error.value);
    }
    var all: seq<FileEntry> := [];
    ghost var parts: seq<seq<FileEntry>> := [];
    Begins(w, m, scopes);
    WorldReachable(w);
    for i := 0 to |scopes|
      invariant w.Valid() && Leads(w.config, old(w.state), w.state)
      invariant Parts(w.config, old(w.state), w.state, m, scopes[..i], parts) && Flatten(parts) == all
      invariant Collected(w.state.hist, 0, m, scopes[..i], all) && Fresh(old(w.state), w.state.hist, m, scopes[..i], all)
    {
      ghost var before := w.state;
      ScopesSplit(m, scopes, i);
      WorldReachable(w);
      LeadsKeeps(w.config, old(w.state), before);
      Prefixed(old(w.state), before);
      var p := FreshPid(w);
      var entries := CachedEntityEntries(w, p, PrefixOf(m, scopes[i]), size, ttl);
      LeadsTransitive(w.config, old(w.state), before, w.state);
      WorldReachable(w);
      if entries.Failure? {
        CallFails(w, old(w.state), before, m, scopes, i, parts, entries.error, priority, r, budget);
        return Failure(BadMetadata(entries.error));
      }
      FreshCall(w, old(w.state), before, PrefixOf(m, scopes[i]), entries.value);
      OneMorePart(w, old(w.state), before, p, m, scopes, i, parts, all, entries.value);
      parts := parts + [entries.value];
      all := all + entries.value;
    }
    assert scopes[..|scopes|] == scopes;
    CollectedIsValid(w.state.hist, 0, m, scopes, all);
    var index := Assemble(all, priority, r, budget);
    if index.None? {
      CachedNotRendered(old(w.state), w.state.hist, m, all, r);
      ErrorAgrees(w, old(w.state), m, scopes, parts, priority, r, budget);
      return Failure(BadMetadata(LAST_UPDATED_KEY));
    }
    AnswersRead(w.state.hist, 0, m, index.value, all, priority, r, budget);
    IndexAgrees(w, old(w.state), m, scopes, parts, index.value, priority, r, budget);
    ReadIsFresh(old(w.state), w.state.hist, m, all, index.value, priority, r, budget);
    return Success(index.value);
  }

  lemma WorldReachable(w: World)
    requires w.Valid()
    ensures Reachable(w.config, w.state)
  {
  }

  lemma Prefixed(s: State, s': State)
    requires NoEarlier(s, s')
    ensures s.hist <= s'.hist
  {
  }

  lemma Begins(w: World, m: ScopeMap, scopes: seq<string>)
    ensures Parts(w.config, w.state, w.state, m, scopes[..0], []) && Flatten([]) == []
    ensures Collected(w.state.hist, 0, m, scopes[..0], []) && Fresh(w.state, w.state.hist, m, scopes[..0], [])
  {
  }

  lemma CollectedStill(shorter: seq<S.Flat>, hist: seq<S.Flat>, n: nat, m: ScopeMap, done: seq<string>, all: seq<FileEntry>)
    requires Collected(shorter, n, m, done, all) && shorter <= hist
    ensures Collected(hist, n, m, done, all)
  {
    hide AllValid, DistinctPaths, Sees, PrefixOf;
    forall s, k | s in done && PrefixOf(m, s) <= k
      ensures SeenSince(all, hist, n, k)
    {
      assert SeenSince(all, shorter, n, k);
    }
  }

  lemma OneMorePart(w: World, began: State, before: State, p: Pid, m: ScopeMap, scopes: seq<string>, i: nat,
                    parts: seq<seq<FileEntry>>, all: seq<FileEntry>, entries: seq<FileEntry>)
    requires w.Valid() && WellFormed(m) && scopes == Sorted(m.Keys) && i < |scopes| && scopes[i] in m && scopes[i] !in scopes[..i]
    requires scopes[..i + 1] == scopes[..i] + [scopes[i]]
    requires Reachable(w.config, before) && Leads(w.config, before, w.state) && began.hist <= before.hist
    requires Parts(w.config, began, before, m, scopes[..i], parts) && Flatten(parts) == all
    requires Collected(before.hist, 0, m, scopes[..i], all) && Fresh(began, before.hist, m, scopes[..i], all)
    requires FreshPart(began, w.state.hist, PrefixOf(m, scopes[i]), entries)
    requires HasServed(Local(w.state, p), PrefixOf(m, scopes[i]), entries) && |before.hist| <= w.state.procs[p].readAt
    ensures Parts(w.config, began, w.state, m, scopes[..i + 1], parts + [entries]) && Flatten(parts + [entries]) == all + entries
    ensures Collected(w.state.hist, 0, m, scopes[..i + 1], all + entries)
    ensures Fresh(began, w.state.hist, m, scopes[..i + 1], all + entries)
  {
    hide *;
    WorldReachable(w);
    LeadsKeeps(w.config, before, w.state);
    Prefixed(before, w.state);
    PartsStill(w.config, began, before, w.state, m, scopes[..i], parts);
    ServedNow(w.config, began, w.state, p, PrefixOf(m, scopes[i]), entries);
    PartsOn(w.config, began, w.state, m, scopes[..i], parts, scopes[i], entries);
    CollectedStill(before.hist, w.state.hist, 0, m, scopes[..i], all);
    var start := ServedIsScan(w.config, w.state, p, PrefixOf(m, scopes[i]), entries);
    FreshStill(began, before.hist, w.state.hist, m, scopes[..i], all);
    OthersElsewhere(w.state.hist, 0, m, scopes[..i], all, scopes[i]);
    ScanIsListing(w.state.hist, PrefixOf(m, scopes[i]), start, entries);
    FreshOne(began, w.state.hist, m, scopes[..i], all, scopes[i], entries);
    CollectOne(w.state.hist, 0, m, scopes[..i], all, scopes[i], start, entries);
  }

  /** What a call inside found in place, it found in place if the outer one did. */
  lemma FreshCall(w: World, began: State, before: State, e: Entity, entries: seq<FileEntry>)
    requires NoEarlier(began, before)
    requires forall time: nat, k: Key {:trigger SeenSince(entries, w.state.hist, time, k)} ::
               PutAt(before, e, time) && e <= k ==> SeenSince(entries, w.state.hist, time, k)
    ensures FreshPart(began, w.state.hist, e, entries)
  {
    hide NoEarlier, PutAt, SeenSince;
    forall time: nat, k | PutAt(began, e, time) && e <= k
      ensures SeenSince(entries, w.state.hist, time, k)
    {
      PutAtLater(began, before, e, time);
    }
  }

  lemma CallFails(w: World, began: State, before: State, m: ScopeMap, scopes: seq<string>, i: nat,
                  parts: seq<seq<FileEntry>>, key: string, priority: seq<string>, r: Rendering, budget: nat)
    requires w.Valid() && scopes == Sorted(m.Keys) && i < |scopes| && scopes[i] in m && forall s :: s in scopes[..i] ==> s in m
    requires Parts(w.config, began, before, m, scopes[..i], parts) && Leads(w.config, before, w.state)
    requires began.hist <= before.hist && ScanFails(w.state.hist, |before.hist|, PrefixOf(m, scopes[i]), key)
    ensures CachedReadFails(began, w.state.hist, m, key, r)
    ensures AllInvalidatedBefore(began, w.state, m) ==>
              ReadAlone(Now(w.state), m, Failure(BadMetadata(key)), priority, r, budget)
  {
    hide Parts, Leads, AllInvalidatedBefore, ReadAlone, Unreadable, ScanFails, PrefixOf, Sorted, Reachable;
    FailedFacts(w.state.hist, |began.hist|, |before.hist|, PrefixOf(m, scopes[i]), key);
    FailureAgrees(w.config, began, before, w.state, m, scopes, i, parts, key, priority, r, budget);
  }

  lemma ReadIsFresh(began: State, hist: seq<S.Flat>, m: ScopeMap, all: seq<FileEntry>, index: MemoryIndex,
                    priority: seq<string>, r: Rendering, budget: nat)
    requires Collected(hist, 0, m, Sorted(m.Keys), all) && IsIndex(index, all, priority, r, budget)
    requires Fresh(began, hist, m, Sorted(m.Keys), all)
    ensures FreshRead(began, hist, m, index, priority, r, budget)
  {
  }

  lemma ErrorAgrees(w: World, began: State, m: ScopeMap, scopes: seq<string>, parts: seq<seq<FileEntry>>,
                    priority: seq<string>, r: Rendering, budget: nat)
    requires w.Valid() && scopes == Sorted(m.Keys) && Parts(w.config, began, w.state, m, scopes, parts)
    requires exists e :: e in Flatten(parts) && !Renderable(e, r)
    ensures AllInvalidatedBefore(began, w.state, m) ==>
              ReadAlone(Now(w.state), m, Failure(BadMetadata(LAST_UPDATED_KEY)), priority, r, budget)
  {
    hide Parts, AllInvalidatedBefore, ListAll, ReadAlone;
    if AllInvalidatedBefore(began, w.state, m) {
      PartsAreListings(w.config, began, w.state, m, scopes, parts);
      AloneFails(Now(w.state), m, Flatten(parts), priority, r, budget);
    }
  }

  lemma PartsOn(c: Config, began: State, now: State, m: ScopeMap, scopes: seq<string>, parts: seq<seq<FileEntry>>,
                s: string, entries: seq<FileEntry>)
    requires Parts(c, began, now, m, scopes, parts) && s in m && ServedBetween(c, began, now, PrefixOf(m, s), entries)
    ensures Parts(c, began, now, m, scopes + [s], parts + [entries]) && Flatten(parts + [entries]) == Flatten(parts) + entries
  {
    hide ServedBetween, PrefixOf;
    assert (parts + [entries])[..|parts|] == parts;
  }

  lemma IndexAgrees(w: World, began: State, m: ScopeMap, scopes: seq<string>, parts: seq<seq<FileEntry>>,
                    index: MemoryIndex, priority: seq<string>, r: Rendering, budget: nat)
    requires w.Valid() && scopes == Sorted(m.Keys) && Parts(w.config, began, w.state, m, scopes, parts)
    requires IsIndex(index, Flatten(parts), priority, r, budget)
    requires !exists e :: e in Flatten(parts) && !Renderable(e, r)
    ensures AllInvalidatedBefore(began, w.state, m) ==> ReadAlone(Now(w.state), m, Success(index), priority, r, budget)
  {
    hide Parts, IsIndex, AllInvalidatedBefore, ListAll, ReadAlone;
    if AllInvalidatedBefore(began, w.state, m) {
      PartsAreListings(w.config, began, w.state, m, scopes, parts);
      AloneSucceeds(Now(w.state), m, index, Flatten(parts), priority, r, budget);
    }
  }
}
