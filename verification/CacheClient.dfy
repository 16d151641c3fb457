/** The store's own cache code, as imperative bodies whose every cache or storage call is one step
    of the protocol, with any finite number of steps of other processes before it. */
module CacheClient {
  import opened Wrappers
  import opened KeyOrder
  import opened Utf8
  import opened Metadata
  import opened Paths
  import opened Listing
  import opened PagedScan
  import opened ScanOutcome
  import opened CacheProtocol
  import opened CacheSafety
  import opened CacheRuns
  import S = Storage

  function Local(s: State, p: Pid): Option<Process> {
    if p in s.procs then Some(s.procs[p]) else None
  }

  lemma StepsExtendHistory(c: Config, s: State, step: Step, s': State)
    requires s.hist != [] && Apply(c, s, step) == Some(s')
    ensures s.hist <= s'.hist && |s'.hist| == |s.hist| + 1
  {
  }

  /** A fresh scan of `e` under some token, as the slow path starts it. */
  predicate AtScanStart(q: Option<Process>, e: Entity) {
    && q.Some? && q.value.Scanning? && q.value.entity == e
    && q.value.scan.entries == [] && q.value.scan.cursor.None? && !q.value.scan.complete
  }

  predicate HasServed(q: Option<Process>, e: Entity, entries: seq<FileEntry>) {
    q.Some? && q.value.Served? && q.value.entity == e && q.value.scan.entries == entries
  }

  predicate ReadsToken(q: Process) {
    q.Looking? || q.Minting? || q.Scanning? || q.Served?
  }

  /** The reader goes on from the same token read. */
  predicate KeepsReadAt(q: Process, before: Process) {
    ReadsToken(q) && ReadsToken(before) && q.readAt == before.readAt
  }

  /** The same scan, further on: begun when that one was, under the same token and token read. */
  predicate ScanOn(q: Process, before: Process, e: Entity) {
    && q.Scanning? && q.entity == e && before.Scanning? && q.readAt == before.readAt
    && q.token == before.token && q.scan.began == before.scan.began
  }

  /** The entity's token, as a cache call that does not fail sees it. */
  function LiveToken(s: State, e: Entity): Option<Token> {
    if e in s.tokens && Live(s.tokens[e], s.clock) then Some(s.tokens[e].value) else None
  }

  /** The entity's listing under the token, as a cache call that does not fail sees it. */
  function TaggedListing(s: State, e: Entity, token: Token): Option<seq<FileEntry>> {
    if e in s.listings && Live(s.listings[e], s.clock) && s.listings[e].value.Tagged? && s.listings[e].value.tag == token
    then Some(s.listings[e].value.scan.entries) else None
  }

  /** The storage and the clock have stood still, and this is what the cache has become. */
  ghost predicate Becomes(s: State, s': State, tokens: map<Entity, Cell<Token>>, listings: map<Entity, Cell<Cached>>) {
    && s.hist != [] && s.hist <= s'.hist && (forall t :: |s.hist| <= t < |s'.hist| ==> s'.hist[t] == Now(s))
    && s'.clock == s.clock && s'.tokens == tokens && s'.listings == listings
  }

  /** The clock and the cache have stood still. */
  predicate SameCache(s: State, s': State) {
    s'.clock == s.clock && s'.tokens == s.tokens && s'.listings == s.listings && s'.supply == s.supply
  }

  ghost predicate Still(s: State, s': State) {
    Becomes(s, s', s.tokens, s.listings)
  }

  lemma BecomesOn(s: State, t: State, u: State, tokens: map<Entity, Cell<Token>>, listings: map<Entity, Cell<Cached>>)
    requires Becomes(s, t, t.tokens, t.listings) && Becomes(t, u, tokens, listings)
    ensures Becomes(s, u, tokens, listings) && Now(u) == Now(t) == Now(s)
  {
  }

  datatype Outcome = Committed(version: S.Version) | PreconditionFailed | Raised

  /** The storage and the cache, shared with other processes. */
  class World {
    const config: Config
    var state: State
    /** How many steps the others will still take: any number, but finite. */
    var others: nat
    /** How many of this client's own calls will still fail. */
    var faults: nat

    ghost predicate Valid()
      reads this
    {
      state.hist != [] && Reachable(config, state)
    }

    constructor (config: Config, state: State, others: nat, faults: nat)
      requires state.hist != [] && Reachable(config, state)
      ensures Valid() && this.state == state && this.config == config
    {
      this.config, this.state, this.others, this.faults := config, state, others, faults;
    }

    /** Does this client's next call fail? */
    method Fails() returns (fails: bool)
      modifies this`faults
      ensures faults <= old(faults) && (faults == old(faults) ==> !fails)
    {
      fails := *;
      fails := fails && faults > 0;
      if fails {
        faults := faults - 1;
      }
    }

    /** Any steps that leave process `p` alone: other processes, the clock, lost keys. */
    method Interfere(p: Pid)
      requires Valid()
      modifies this`state, this`others
      ensures Valid() && others <= old(others) && old(state).hist <= state.hist
      ensures Local(state, p) == Local(old(state), p) && Leads(config, old(state), state)
      ensures others == old(others) ==> state == old(state)
    {
      hide Leads;
      var go: bool := *;
      LeadsNone(config, state);
      while go && others > 0
        invariant Leads(config, old(state), state)
        invariant Valid() && others <= old(others) && old(state).hist <= state.hist
        invariant Local(state, p) == Local(old(state), p)
        invariant others == old(others) ==> state == old(state)
        decreases others
      {
        var step: Step := *;
        var next := Apply(config, state, step);
        if next.Some? && Local(next.value, p) == Local(state, p) {
          ReachableNext(config, state, step, next.value);
          StepsExtendHistory(config, state, step, next.value);
          NextBy(config, state, step, next.value);
          LeadsOn(config, old(state), state, next.value);
          state := next.value;
        }
        others := others - 1;
        go := *;
      }
    }

    method Take(step: Step)
      requires Valid() && Apply(config, state, step).Some?
      modifies this`state
      ensures Valid() && Apply(config, old(state), step) == Some(state)
      ensures old(state).hist <= state.hist && |state.hist| == |old(state).hist| + 1
      ensures Leads(config, old(state), state)
    {
      hide Leads;
      var next := Apply(config, state, step).value;
      ReachableNext(config, state, step, next);
      StepsExtendHistory(config, state, step, next);
      NextBy(config, state, step, next);
      LeadsNone(config, state);
      LeadsOn(config, state, state, next);
      state := next;
    }

    /** The token key's value; None if absent, expired, lost or failing. */
    method GetToken(p: Pid, e: Entity) returns (token: Option<Token>)
      requires Valid() && Local(state, p) == Some(Reading(e))
      modifies this
      ensures Valid() && p in state.procs && others <= old(others)
      ensures var q := state.procs[p];
              if token.Some? then q.Looking? && q.entity == e && q.token == token.value
              else q.Minting? && q.entity == e
      ensures Leads(config, old(state), state)
      ensures state.procs[p].readAt >= |old(state).hist| && old(state).hist <= state.hist
      ensures others <= old(others) && (others == old(others) ==> Now(state) == Now(old(state)))
      ensures faults <= old(faults)
      ensures others == old(others) && faults == old(faults) ==>
                Still(old(state), state) && token == LiveToken(old(state), e) && |state.hist| == |old(state).hist| + 1
    {
      hide Leads;
      Interfere(p);
      ghost var began := state;
      var fails := Fails();
      TokenEffect(config, state, p, e);
      if !fails && e in state.tokens && Live(state.tokens[e], state.clock) {
        token := Some(state.tokens[e].value);
        Take(SeeToken(p));
      } else {
        token := None;
        Take(MissToken(p));
      }
      LeadsTransitive(config, old(state), began, state);
    }

    /** The listing key's value if it decodes under `token`; None for any kind of miss. */
    method GetListing(p: Pid, e: Entity, token: Token) returns (entries: Option<seq<FileEntry>>)
      requires Valid() && p in state.procs
      requires state.procs[p].Looking? && state.procs[p].entity == e && state.procs[p].token == token
      modifies this
      ensures Valid() && others <= old(others)
      ensures if entries.Some? then HasServed(Local(state, p), e, entries.value)
              else AtScanStart(Local(state, p), e) && state.procs[p].scan.began >= |old(state).hist|
      ensures Leads(config, old(state), state)
      ensures p in state.procs && KeepsReadAt(state.procs[p], old(state.procs[p]))
      ensures others <= old(others) && (others == old(others) ==> Now(state) == Now(old(state)))
      ensures faults <= old(faults) && (entries.None? ==> state.procs[p].scan.began == |state.hist| - 1)
      ensures others == old(others) && faults == old(faults) ==>
                && Still(old(state), state) && entries == TaggedListing(old(state), e, token)
                && |state.hist| == |old(state).hist| + 1
      ensures entries.None? ==> state.procs[p].token == token
    {
      hide Leads;
      Interfere(p);
      ghost var began := state;
      hide Apply;
      LookingEffect(config, state, p);
      var fails := Fails();
      if !fails && e in state.listings && Live(state.listings[e], state.clock)
         && state.listings[e].value.Tagged? && state.listings[e].value.tag == token
      {
        entries := Some(state.listings[e].value.scan.entries);
        Take(Hit(p));
      } else {
        entries := None;
        Take(MissListing(p));
      }
      LeadsTransitive(config, old(state), began, state);
    }

    /** `_cache_set` of the token key to a new token; a failure is swallowed. */
    method SetOwnToken(p: Pid, e: Entity, ttl: Option<nat>)
      requires Valid() && Local(state, p).Some? && Local(state, p).value.Minting?
      requires Local(state, p).value.entity == e && TtlAllowed(config, ttl)
      modifies this
      ensures Valid() && others <= old(others) && AtScanStart(Local(state, p), e)
      ensures state.procs[p].scan.began >= |old(state).hist|
      ensures Leads(config, old(state), state)
      ensures p in state.procs && KeepsReadAt(state.procs[p], old(state.procs[p]))
      ensures others <= old(others) && (others == old(others) ==> Now(state) == Now(old(state)))
      ensures faults <= old(faults) && state.procs[p].scan.began == |state.hist| - 1
      ensures others == old(others) && faults == old(faults) ==>
                && Becomes(old(state), state,
                           old(state).tokens[e := Cell(state.procs[p].token, Expiry(config, state.clock, ttl))],
                           old(state).listings)
    {
      hide Leads;
      Interfere(p);
      ghost var began := state;
      var fails := Fails();
      var landed: bool := *;
      MintEffect(config, state, p, ttl, !fails || landed);
      Take(MintToken(p, ttl, !fails || landed));
      LeadsTransitive(config, old(state), began, state);
    }

    method SetListing(p: Pid, e: Entity, ttl: Option<nat>)
      requires Valid() && Local(state, p).Some? && Local(state, p).value.Scanning?
      requires Local(state, p).value.entity == e && Local(state, p).value.scan.complete
      requires TtlAllowed(config, ttl)
      modifies this
      ensures Valid() && HasServed(Local(state, p), e, old(state.procs[p].scan.entries))
      ensures Leads(config, old(state), state)
      ensures p in state.procs && KeepsReadAt(state.procs[p], old(state.procs[p]))
      ensures others <= old(others) && (others == old(others) ==> Now(state) == Now(old(state)))
      ensures faults <= old(faults)
      ensures others == old(others) && faults == old(faults) ==>
                Becomes(old(state), state, old(state).tokens,
                        old(state).listings[e := Cell(Tagged(old(state.procs[p].token), old(state.procs[p].scan)),
                                                      Expiry(config, state.clock, ttl))])
    {
      hide Leads;
      Interfere(p);
      ghost var began := state;
      var fails := Fails();
      var landed: bool := *;
      StoreEffect(config, state, p, ttl, !fails || landed);
      Take(StoreListing(p, ttl, !fails || landed));
      LeadsTransitive(config, old(state), began, state);
    }

    /** One `list_prefix` call of the drain, at the process's own cursor. */
    method NextPage(p: Pid, e: Entity, size: nat) returns (page: Result<Page, string>)
      requires Valid() && size >= 1 && Local(state, p).Some? && Local(state, p).value.Scanning?
      requires Local(state, p).value.entity == e && !Local(state, p).value.scan.complete
      modifies this
      ensures Valid() && others <= old(others)
      ensures page.Success? ==> p in state.procs && state.procs[p].Scanning? && state.procs[p].entity == e
                                && state.procs[p].scan == AddPage(old(state.procs[p].scan), page.value)
      ensures page.Success? && others == old(others) && page.value.next.Some? ==>
                Remaining(state, e, page.value.next) < Remaining(old(state), e, old(state.procs[p].scan.cursor))
      ensures page.Failure? ==> && Local(state, p) == Some(Stopped)
                                && FailsAfter(state.hist, old(state.procs[p].scan), size, e, page.error)
      ensures Leads(config, old(state), state)
      ensures page.Success? ==> ScanOn(state.procs[p], old(state.procs[p]), e)
      ensures others <= old(others) && (others == old(others) ==> Now(state) == Now(old(state)))
      ensures faults == old(faults) && (others == old(others) ==> Still(old(state), state))
    {
      hide Leads, Apply;
      Interfere(p);
      ghost var began := state;
      page := ReadAt(p, e, state.procs[p].scan.cursor, size);
      if page.Success? {
        TakePage(p, e, size, page.value);
      } else {
        PageFails(config, state, p, e, size, page.error);
        Fail(p);
      }
      LeadsTransitive(config, old(state), began, state);
    }

    /** The process ends with an exception. */
    method Fail(p: Pid)
      requires Valid() && p in state.procs
      modifies this`state
      ensures Valid() && Local(state, p) == Some(Stopped)
      ensures Leads(config, old(state), state)
      ensures state.hist == old(state).hist + [Now(old(state))]
      ensures Still(old(state), state)
    {
      Take(Stop(p));
    }

    method ReadAt(p: Pid, e: Entity, cursor: Option<Key>, size: nat) returns (page: Result<Page, string>)
      requires Valid() && size >= 1
      ensures page == ListPrefix(Now(state), e, cursor, size)
    {
      page := ListPrefix(Now(state), e, cursor, size);
    }

    method TakePage(p: Pid, e: Entity, size: nat, page: Page)
      requires Valid() && size >= 1 && p in state.procs && state.procs[p].Scanning?
      requires state.procs[p].entity == e && !state.procs[p].scan.complete
      requires ListPrefix(Now(state), e, state.procs[p].scan.cursor, size) == Success(page)
      modifies this`state
      ensures Valid() && p in state.procs && state.procs[p].Scanning? && state.procs[p].entity == e
      ensures state.procs[p].scan == AddPage(old(state.procs[p].scan), page)
      ensures page.next.Some? ==>
                Remaining(state, e, page.next) < Remaining(old(state), e, old(state.procs[p].scan.cursor))
      ensures Leads(config, old(state), state)
      ensures ScanOn(state.procs[p], old(state.procs[p]), e)
      ensures Now(state) == Now(old(state))
      ensures Still(old(state), state)
    {
      ghost var before := state;
      PageStepPossible(config, state, p, size, page);
      Take(ReadPage(p, size));
      ghost var same := PageEffect(config, before, state, p, size);
      PageShrinks(before, state, p, e, size, page);
    }

    /** `put_if_version` itself. A call that raises may have landed. */
    method PutCall(p: Pid, e: Entity, key: Key, data: seq<Byte>, metadata: TextMap, expected: Option<S.Version>)
      returns (r: Outcome, ghost committed: Option<nat>)
      requires Valid() && Local(state, p) == Some(Mutating(e, key, false))
      modifies this
      ensures Valid() && Local(state, p) == Some(Invalidating(e, false, committed))
      ensures (r.Committed? ==> committed.Some?) && (r.PreconditionFailed? ==> committed.None?)
      ensures committed.Some? ==> Wrote(state.hist, committed.value, key, data, metadata, expected)
      ensures r.Committed? ==> r.version == state.hist[committed.value - 1].next
      ensures r.PreconditionFailed? ==> Missed(state.hist, |old(state).hist|, key, expected)
      ensures Leads(config, old(state), state)
      ensures committed.Some? ==> |old(state).hist| <= committed.value < |state.hist|
      ensures old(state).hist <= state.hist
      ensures others <= old(others) && faults <= old(faults)
      ensures others == old(others) && faults == old(faults) ==>
                && SameCache(old(state), state)
                && (if S.AtVersion(Now(old(state)), key, expected)
                    then r == Committed(Now(old(state)).next) && Now(state) == S.Put(Now(old(state)), key, data, metadata)
                    else r == PreconditionFailed && Now(state) == Now(old(state)))
    {
      hide Leads, Apply;
      Interfere(p);
      ghost var began := state;
      var f := Now(state);
      var fails := Fails();
      var lands: bool := *;
      if S.AtVersion(f, key, expected) && (lands || !fails) {
        r, committed := if fails then Raised else Committed(f.next), Some(|state.hist|);
        CommitEffect(config, state, p, e, key, false, Some(S.Object(data, metadata, f.next)));
        Take(Commit(p, Some(S.Object(data, metadata, f.next))));
      } else {
        r, committed := if fails then Raised else PreconditionFailed, None;
        NoCommitEffect(config, state, p, e, key, false);
        Take(NoCommit(p));
        assert state.hist[|state.hist| - 1] == f;
      }
      LeadsTransitive(config, old(state), began, state);
    }

    method DeleteCall(p: Pid, e: Entity, key: Key, expected: S.Version)
      returns (r: Outcome, ghost committed: Option<nat>)
      requires Valid() && Local(state, p) == Some(Mutating(e, key, true))
      modifies this
      ensures Valid() && Local(state, p) == Some(Invalidating(e, true, committed))
      ensures (r.Committed? ==> committed.Some? && r.version == expected)
      ensures r.PreconditionFailed? ==> committed.None?
      ensures committed.Some? ==> Removed(state.hist, committed.value, key, expected)
      ensures r.PreconditionFailed? ==> Missed(state.hist, |old(state).hist|, key, Some(expected))
      ensures Leads(config, old(state), state)
      ensures committed.Some? ==> |old(state).hist| <= committed.value < |state.hist|
      ensures old(state).hist <= state.hist
      ensures others <= old(others) && faults <= old(faults)
      ensures others == old(others) && faults == old(faults) ==>
                && SameCache(old(state), state)
                && (if S.AtVersion(Now(old(state)), key, Some(expected))
                    then r == Committed(expected) && Now(state) == S.Remove(Now(old(state)), key)
                    else r == PreconditionFailed && Now(state) == Now(old(state)))
    {
      hide Leads, Apply;
      Interfere(p);
      ghost var began := state;
      var f := Now(state);
      var fails := Fails();
      var lands: bool := *;
      if S.AtVersion(f, key, Some(expected)) && (lands || !fails) {
        r, committed := if fails then Raised else Committed(expected), Some(|state.hist|);
        CommitEffect(config, state, p, e, key, true, None);
        Take(Commit(p, None));
      } else {
        r, committed := if fails then Raised else PreconditionFailed, None;
        NoCommitEffect(config, state, p, e, key, true);
        Take(NoCommit(p));
        assert state.hist[|state.hist| - 1] == f;
      }
      LeadsTransitive(config, old(state), began, state);
    }

    /** `cache.set` of the token key to a new token, by a writer. */
    method ReplaceCall(p: Pid, e: Entity, tombstone: bool, ghost committed: Option<nat>, ttl: Option<nat>)
      returns (stored: bool, ghost replaced: Option<nat>)
      requires Valid() && Local(state, p) == Some(Invalidating(e, tombstone, committed)) && TtlAllowed(config, ttl)
      modifies this
      ensures Valid() && old(state).hist <= state.hist
      ensures Local(state, p) == Some(if tombstone then Tombstoning(e, committed, replaced)
                                      else Finished(e, committed, replaced))
      ensures stored <==> replaced.Some?
      ensures stored ==> |old(state).hist| <= replaced.value < |state.hist|
      ensures Leads(config, old(state), state)
      ensures others <= old(others) && faults <= old(faults)
      ensures others == old(others) && faults == old(faults) ==>
                && stored
                && Becomes(old(state), state, old(state).tokens[e := Cell(old(state).supply, Expiry(config, state.clock, ttl))],
                           old(state).listings)
    {
      hide Leads, Apply;
      Interfere(p);
      ghost var began := state;
      var fails := Fails();
      var landed: bool := *;
      stored := !fails || landed;
      replaced := if stored then Some(|state.hist|) else None;
      ReplaceEffect(config, state, p, e, tombstone, committed, ttl, stored);
      Take(ReplaceToken(p, ttl, stored));
      LeadsTransitive(config, old(state), began, state);
    }

    /** `cache.set` of the listing key to the tombstone. */
    method TombstoneCall(p: Pid, e: Entity, ghost committed: Option<nat>, ghost replaced: Option<nat>,
                         ttl: Option<nat>) returns (stored: bool)
      requires Valid() && Local(state, p) == Some(Tombstoning(e, committed, replaced)) && TtlAllowed(config, ttl)
      modifies this
      ensures Valid() && old(state).hist <= state.hist
      ensures Local(state, p) == Some(Finished(e, committed, replaced))
      ensures Leads(config, old(state), state)
      ensures others <= old(others) && faults <= old(faults)
      ensures others == old(others) && faults == old(faults) ==>
                && stored
                && Becomes(old(state), state, old(state).tokens,
                           old(state).listings[e := Cell(Tombstone, Expiry(config, state.clock, ttl))])
    {
      hide Leads;
      Interfere(p);
      ghost var began := state;
      var fails := Fails();
      var landed: bool := *;
      stored := !fails || landed;
      TombstoneEffect(config, state, p, e, committed, replaced, ttl, stored);
      Take(WriteTombstone(p, ttl, stored));
      LeadsTransitive(config, old(state), began, state);
    }
  }

  /** Step `t` put the object at `key`, which was at the expected version. */
  ghost predicate Wrote(hist: seq<S.Flat>, t: nat, key: Key, data: seq<Byte>, metadata: TextMap,
                        expected: Option<S.Version>)
  {
    0 < t < |hist| && S.AtVersion(hist[t - 1], key, expected) && hist[t] == S.Put(hist[t - 1], key, data, metadata)
  }

  ghost predicate Removed(hist: seq<S.Flat>, t: nat, key: Key, expected: S.Version) {
    0 < t < |hist| && S.AtVersion(hist[t - 1], key, Some(expected)) && hist[t] == S.Remove(hist[t - 1], key)
  }

  /** Some storage no older than `n` did not have the object at the expected version. */
  ghost predicate Missed(hist: seq<S.Flat>, n: nat, key: Key, expected: Option<S.Version>) {
    exists t :: n <= t < |hist| && !S.AtVersion(hist[t], key, expected)
  }

  lemma MissedStill(shorter: seq<S.Flat>, hist: seq<S.Flat>, m: nat, n: nat, key: Key, expected: Option<S.Version>)
    requires n <= m && shorter <= hist && Missed(shorter, m, key, expected)
    ensures Missed(hist, n, key, expected)
  {
    hide S.AtVersion;
    var t :| m <= t < |shorter| && !S.AtVersion(shorter[t], key, expected);
    assert !S.AtVersion(hist[t], key, expected);
  }

  /** How many keys a drain at `cursor` still has ahead of it. */
  ghost function Remaining(s: State, e: Entity, cursor: Option<Key>): nat
    requires s.hist != []
  {
    |Beyond(Now(s).objects.Keys, e, cursor)|
  }

  lemma PageStepPossible(c: Config, s: State, p: Pid, size: nat, page: Page)
    requires s.hist != [] && size >= 1 && p in s.procs && s.procs[p].Scanning? && !s.procs[p].scan.complete
    requires ListPrefix(Now(s), s.procs[p].entity, s.procs[p].scan.cursor, size) == Success(page)
    ensures Apply(c, s, ReadPage(p, size)).Some?
  {
    hide ReadPageStep, ListPrefix, SeeTokenStep, MissTokenStep, MintTokenStep, HitStep, MissListingStep, StoreListingStep,
         CommitStep, NoCommitStep, ReplaceTokenStep, WriteTombstoneStep, TickStep, StartStep;
    ReadablePage(s, p, s.procs[p], size, page);
  }

  lemma ReadablePage(s: State, p: Pid, r: Process, size: nat, page: Page)
    requires s.hist != [] && size >= 1 && r.Scanning? && !r.scan.complete
    requires ListPrefix(Now(s), r.entity, r.scan.cursor, size) == Success(page)
    ensures ReadPageStep(s, p, r, size).Some?
  {
    hide ListPrefix;
  }

  lemma StartEffect(c: Config, s: State, p: Pid, e: Entity)
    requires s.hist != [] && p !in s.procs
    ensures Apply(c, s, StartRead(p, e)) == Some(Move(Advance(s, Now(s)), p, Reading(e)))
  {
  }

  /** Both ways on from a known token: the tagged listing is served, or a scan begins. */
  lemma LookingEffect(c: Config, s: State, p: Pid)
    requires s.hist != [] && p in s.procs && s.procs[p].Looking?
    ensures var r := s.procs[p];
            && (r.entity in s.listings && Live(s.listings[r.entity], s.clock)
                && s.listings[r.entity].value.Tagged? && s.listings[r.entity].value.tag == r.token ==>
                  Apply(c, s, Hit(p))
                  == Some(Move(Advance(s, Now(s)), p,
                               Served(r.entity, r.token, r.readAt, r.readClock, s.listings[r.entity].value.scan, true))))
            && Apply(c, s, MissListing(p))
               == Some(Move(Advance(s, Now(s)), p, Scanning(r.entity, r.token, r.readAt, r.readClock, NewScan(s))))
  {
  }

  /** What each way on from a token read does. */
  lemma TokenEffect(c: Config, s: State, p: Pid, e: Entity)
    requires s.hist != [] && Local(s, p) == Some(Reading(e))
    ensures LiveToken(s, e).Some? ==>
              Apply(c, s, SeeToken(p))
              == Some(Move(Advance(s, Now(s)), p, Looking(e, LiveToken(s, e).value, |s.hist|, s.clock)))
    ensures Apply(c, s, MissToken(p)) == Some(Move(Advance(s, Now(s)), p, Minting(e, |s.hist|, s.clock)))
  {
  }

  lemma MintEffect(c: Config, s: State, p: Pid, ttl: Option<nat>, stored: bool)
    requires s.hist != [] && p in s.procs && s.procs[p].Minting? && TtlAllowed(c, ttl)
    ensures var r := s.procs[p];
            Apply(c, s, MintToken(p, ttl, stored))
            == Some(Move(Advance(PutToken(c, s, r.entity, ttl, stored), Now(s)), p,
                         Scanning(r.entity, s.supply, r.readAt, r.readClock, NewScan(s))))
  {
  }

  lemma StoreEffect(c: Config, s: State, p: Pid, ttl: Option<nat>, stored: bool)
    requires s.hist != [] && p in s.procs && s.procs[p].Scanning? && s.procs[p].scan.complete && TtlAllowed(c, ttl)
    ensures var r := s.procs[p];
            Apply(c, s, StoreListing(p, ttl, stored))
            == Some(Move(Advance(PutListing(c, s, r.entity, Tagged(r.token, r.scan), ttl, stored), Now(s)), p,
                         Served(r.entity, r.token, r.readAt, r.readClock, r.scan, false)))
  {
  }

  lemma TombstoneEffect(c: Config, s: State, p: Pid, e: Entity, committed: Option<nat>, replaced: Option<nat>,
                        ttl: Option<nat>, stored: bool)
    requires s.hist != [] && Local(s, p) == Some(Tombstoning(e, committed, replaced)) && TtlAllowed(c, ttl)
    ensures Apply(c, s, WriteTombstone(p, ttl, stored))
            == Some(Move(Advance(PutListing(c, s, e, Tombstone, ttl, stored), Now(s)), p, Finished(e, committed, replaced)))
  {
  }

  lemma CommitEffect(c: Config, s: State, p: Pid, e: Entity, key: Key, delete: bool, written: Option<S.Object>)
    requires s.hist != [] && Local(s, p) == Some(Mutating(e, key, delete)) && delete == written.None?
    ensures Apply(c, s, Commit(p, written))
            == Some(Move(Advance(s, if written.Some? then S.Put(Now(s), key, written.value.data, written.value.metadata)
                                    else S.Remove(Now(s), key)),
                         p, Invalidating(e, delete, Some(|s.hist|))))
  {
  }

  lemma NoCommitEffect(c: Config, s: State, p: Pid, e: Entity, key: Key, delete: bool)
    requires s.hist != [] && Local(s, p) == Some(Mutating(e, key, delete))
    ensures Apply(c, s, NoCommit(p)) == Some(Move(Advance(s, Now(s)), p, Invalidating(e, delete, None)))
  {
  }

  lemma ReplaceEffect(c: Config, s: State, p: Pid, e: Entity, tombstone: bool, committed: Option<nat>,
                      ttl: Option<nat>, stored: bool)
    requires s.hist != [] && Local(s, p) == Some(Invalidating(e, tombstone, committed)) && TtlAllowed(c, ttl)
    ensures var replaced := if stored then Some(|s.hist|) else None;
            Apply(c, s, ReplaceToken(p, ttl, stored))
            == Some(Move(Advance(PutToken(c, s, e, ttl, stored), Now(s)), p,
                         if tombstone then Tombstoning(e, committed, replaced) else Finished(e, committed, replaced)))
  {
  }

  lemma PageShrinks(s: State, s': State, p: Pid, e: Entity, size: nat, page: Page)
    requires s.hist != [] && s'.hist != [] && Now(s') == Now(s) && size >= 1
    requires p in s.procs && s.procs[p].Scanning?
    requires ListPrefix(Now(s), e, s.procs[p].scan.cursor, size) == Success(page)
    ensures page.next.Some? ==> Remaining(s', e, page.next) < Remaining(s, e, s.procs[p].scan.cursor)
  {
    PageSees(Now(s), e, s.procs[p].scan.cursor, size);
    if page.next.Some? {
      CursorAdvances(Now(s).objects.Keys, e, s.procs[p].scan.cursor, page.next.value);
    }
  }

  /** A page that cannot be read ends the scan, at the state after the process has stopped. */
  lemma PageFails(c: Config, s: State, p: Pid, e: Entity, size: nat, key: string)
    requires Reachable(c, s) && s.hist != [] && size >= 1 && p in s.procs && s.procs[p].Scanning?
    requires s.procs[p].entity == e && !s.procs[p].scan.complete
    requires ListPrefix(Now(s), e, s.procs[p].scan.cursor, size) == Failure(key)
    ensures FailsAfter(s.hist + [Now(s)], s.procs[p].scan, size, e, key)
  {
    ScanningMeans(c, s, p);
    hide ScanOk, ListPrefix, Reachable;
    StillScan(s.hist, Now(s), s.clock, e, s.procs[p].scan);
  }

  lemma ScanningMeans(c: Config, s: State, p: Pid)
    requires Reachable(c, s) && p in s.procs && s.procs[p].Scanning?
    ensures ScanOk(s.hist, s.clock, s.procs[p].entity, s.procs[p].scan)
  {
    ReachableInv(c, s);
    assert ProcessOk(c, s, s.procs[p]);
  }

  lemma StillScan(hist: seq<S.Flat>, f: S.Flat, clock: nat, e: Entity, scan: Scan)
    requires ScanOk(hist, clock, e, scan)
    ensures ScanOk(hist + [f], scan.beganClock, e, scan)
  {
    hide Sees, PathsAscend;
    forall k | e <= k && Reached(scan, k)
      ensures SeenSince(scan.entries, hist + [f], scan.began, k)
    {
      assert SeenSince(scan.entries, hist, scan.began, k);
      var t :| scan.began <= t < |hist| && Sees(scan.entries, hist[t], k);
      assert (hist + [f])[t] == hist[t];
    }
  }

  /** `_drain`: pages until there is no next cursor, all of one scan: the one the process was at the
      start of when it was called. It fails on an object that is stored and cannot be read. */
  method Drain(w: World, p: Pid, e: Entity, size: nat) returns (entries: Result<seq<FileEntry>, string>)
    requires w.Valid() && size >= 1 && AtScanStart(Local(w.state, p), e)
    modifies w
    ensures w.Valid() && Leads(w.config, old(w.state), w.state)
    ensures match entries
            case Success(es) => && p in w.state.procs && ScanOn(w.state.procs[p], old(w.state.procs[p]), e)
                             && w.state.procs[p].scan.complete && w.state.procs[p].scan.entries == es
            case Failure(key) => && Local(w.state, p) == Some(Stopped)
                                 && ScanFails(w.state.hist, old(w.state.procs[p]).scan.began, e, key)
    ensures w.others <= old(w.others) && (w.others == old(w.others) ==> Now(w.state) == Now(old(w.state)))
    ensures w.faults == old(w.faults) && (w.others == old(w.others) ==> Still(old(w.state), w.state))
    ensures w.others == old(w.others) && old(w.state.procs[p]).scan.began == |old(w.state).hist| - 1 ==>
              entries == EntriesOf(S.Listing(Now(old(w.state)), e))
  {
    hide Leads, Still, EntriesOf, ScanFails;
    var collected := [];
    var cursor: Option<Key> := None;
    LeadsNone(w.config, w.state);
    StillHere(w.state);
    while true
      invariant w.Valid() && Leads(w.config, old(w.state), w.state)
      invariant w.others <= old(w.others) && (w.others == old(w.others) ==> Now(w.state) == Now(old(w.state)))
      invariant w.faults == old(w.faults) && (w.others == old(w.others) ==> Still(old(w.state), w.state))
      invariant p in w.state.procs && ScanOn(w.state.procs[p], old(w.state.procs[p]), e)
      invariant !w.state.procs[p].scan.complete
      invariant w.state.procs[p].scan.entries == collected && w.state.procs[p].scan.cursor == cursor
      decreases w.others, Remaining(w.state, e, cursor)
    {
      ghost var before := w.state;
      var page := w.NextPage(p, e, size);
      LeadsTransitive(w.config, old(w.state), before, w.state);
      if w.others == old(w.others) {
        StillOn(old(w.state), before, w.state);
      }
      if page.Failure? {
        entries := Failure(page.error);
        FailsSince(w.state.hist, before.procs[p].scan, size, e, page.error);
        break;
      }
      collected := collected + page.value.entries;
      cursor := page.value.next;
      if cursor.None? {
        entries := Success(collected);
        break;
      }
    }
    ghost var began := old(w.state.procs[p]).scan.began;
    if w.others == old(w.others) && began == |old(w.state).hist| - 1 {
      if entries.Success? {
        ScanningMeans(w.config, w.state, p);
        CompleteEnds(w.state.hist, w.state.clock, e, w.state.procs[p].scan);
      }
      EndsAlone(old(w.state), w.state, began, e, entries);
    }
  }

  lemma StillHere(s: State)
    requires s.hist != []
    ensures Still(s, s)
  {
  }

  lemma StillOn(s: State, t: State, u: State)
    requires Still(s, t) && Still(t, u)
    ensures Still(s, u)
  {
  }

  lemma FailsSince(hist: seq<S.Flat>, scan: Scan, size: nat, e: Entity, key: string)
    requires FailsAfter(hist, scan, size, e, key)
    ensures ScanFails(hist, scan.began, e, key)
  {
    hide FailsAfter;
  }

  lemma CompleteEnds(hist: seq<S.Flat>, clock: nat, e: Entity, scan: Scan)
    requires ScanOk(hist, clock, e, scan) && scan.complete
    ensures ScanEnds(hist, scan.began, e, Success(scan.entries))
  {
    hide Sees, PathsAscend, SeenSince;
    assert forall k :: Reached(scan, k);
  }

  /** With the storage standing still since the scan began, it ends as one listing does. */
  lemma EndsAlone(s: State, s': State, began: nat, e: Entity, entries: Result<seq<FileEntry>, string>)
    requires Still(s, s') && began == |s.hist| - 1 && ScanEnds(s'.hist, began, e, entries)
    ensures entries == EntriesOf(S.Listing(Now(s), e))
  {
    hide ScanEnds, EntriesOf, S.Listing;
    forall t | began <= t < |s'.hist|
      ensures s'.hist[t] == Now(s)
    {
    }
    EndsAsListing(s'.hist, began, e, entries);
  }

  /** Every change to the entity so far was followed by a token replacement no later than `readAt`. */
  ghost predicate AllInvalidatedBy(s: State, e: Entity, readAt: nat) {
    forall t :: ChangedAt(s, e, t) ==> InvalidatedSince(s, e, t, readAt)
  }

  lemma ServedListingAgrees(c: Config, s: State, p: Pid, e: Entity)
    requires s.hist != [] && Reachable(c, s) && p in s.procs && s.procs[p].Served? && s.procs[p].entity == e
    ensures AllInvalidatedBy(s, e, s.procs[p].readAt) ==> IsListing(s.procs[p].scan.entries, Now(s), e)
  {
    if AllInvalidatedBy(s, e, s.procs[p].readAt) {
      ServedIsCurrentListing(c, s, p);
    }
  }

  /** The read with nobody else at work and no call failing: a live listing under the live token is
      served in three steps, without a page being read; anything else is one listing of the storage,
      kept under the token, which is a new one if none was live. */
  ghost predicate CacheReadAlone(c: Config, s: State, s': State, e: Entity, entries: Result<seq<FileEntry>, string>,
                                 ttl: Option<nat>)
  {
    s.hist != []
    && var token := LiveToken(s, e);
       if token.Some? && TaggedListing(s, e, token.value).Some? then
         Still(s, s') && |s'.hist| == |s.hist| + 3 && entries == Success(TaggedListing(s, e, token.value).value)
       else
         && entries == EntriesOf(S.Listing(Now(s), e))
         && exists t, scan :: KeptUnder(c, s, s', e, t, scan, entries, ttl)
  }

  ghost predicate KeptUnder(c: Config, s: State, s': State, e: Entity, t: Token, scan: Scan,
                            entries: Result<seq<FileEntry>, string>, ttl: Option<nat>)
  {
    && (LiveToken(s, e).Some? ==> t == LiveToken(s, e).value)
    && (entries.Success? ==> scan.entries == entries.value)
    && Becomes(s, s',
               if LiveToken(s, e).Some? then s.tokens else s.tokens[e := Cell(t, Expiry(c, s.clock, ttl))],
               Kept(c, s, e, t, scan, entries, ttl))
  }

  /** So a second such read finds what the first one kept. */
  lemma SecondReadHits(c: Config, s: State, s': State, e: Entity, entries: seq<FileEntry>, ttl: Option<nat>)
    requires CacheReadAlone(c, s, s', e, Success(entries), ttl) && TtlAllowed(c, ttl)
    ensures LiveToken(s', e).Some? && TaggedListing(s', e, LiveToken(s', e).value) == Some(entries)
  {
  }

  /** `_cached_entity_entries`, run by process `p`. Only steps of the protocol lead from the state it
      is called in to the state it returns in. It reads the token after the call, and ends `Served`
      with exactly what it returns, or stops on an object under the prefix that is stored and cannot be
      read. Every theorem about served
      listings is therefore a theorem about this method's result; two are spelled out: what it
      returns was scanned after every token replacement that the call found in place, and it is the
      current listing if all changes were invalidated by its token read. */
  method CachedEntityEntries(w: World, p: Pid, e: Entity, size: nat, ttl: Option<nat>)
    returns (entries: Result<seq<FileEntry>, string>)
    requires w.Valid() && size >= 1 && p !in w.state.procs && TtlAllowed(w.config, ttl)
    modifies w
    ensures w.Valid() && Leads(w.config, old(w.state), w.state)
    ensures entries.Success? ==>
              && HasServed(Local(w.state, p), e, entries.value)
              && |old(w.state).hist| <= w.state.procs[p].readAt < |w.state.hist|
    ensures entries.Success? ==>
              forall time: nat, k: Key {:trigger SeenSince(entries.value, w.state.hist, time, k)} ::
                PutAt(old(w.state), e, time) && e <= k ==> SeenSince(entries.value, w.state.hist, time, k)
    ensures entries.Success? && AllInvalidatedBy(w.state, e, w.state.procs[p].readAt) ==>
              IsListing(entries.value, Now(w.state), e)
    ensures entries.Failure? ==> && Local(w.state, p) == Some(Stopped)
                                 && ScanFails(w.state.hist, |old(w.state).hist|, e, entries.error)
                                 && Unreadable(Now(w.state), e, entries.error)
    ensures w.others <= old(w.others) && (w.others == old(w.others) ==> Now(w.state) == Now(old(w.state)))
    ensures w.faults <= old(w.faults)
    ensures w.others == old(w.others) && w.faults == old(w.faults) ==>
              CacheReadAlone(w.config, old(w.state), w.state, e, entries, ttl)
  {
    hide Leads, Reachable, PutAt, AllInvalidatedBy, SeenSince, IsListing, TtlAllowed, Apply, ScanFails, Unreadable, Becomes,
         EntriesOf, CacheReadAlone, LookAlone, Still, ScanOk;
    ghost var s0 := w.state;
    var hit;
    ghost var t, scan;
    hit, t := LookUp(w, p, e, ttl);
    if hit.Some? {
      ServedFacts(w, s0, p, e);
      if w.others == old(w.others) && w.faults == old(w.faults) {
        HitAlone(w.config, s0, w.state, e, hit, t, ttl);
      }
      return Success(hit.value);
    }
    ghost var s3 := w.state;
    ghost var began := s3.procs[p].scan.began;
    entries, scan := ListAndKeep(w, p, e, size, ttl);
    LeadsTransitive(w.config, s0, s3, w.state);
    if entries.Success? {
      ServedFacts(w, s0, p, e);
    } else {
      FailedFacts(w.state.hist, |s0.hist|, began, e, entries.error);
    }
    if w.others == old(w.others) && w.faults == old(w.faults) {
      MissAlone(w.config, s0, s3, w.state, e, t, scan, entries, ttl);
    }
  }

  /** The cache calls before any listing: the token, and then the listing kept under it or, without a
      token, a new one. */
  method LookUp(w: World, p: Pid, e: Entity, ttl: Option<nat>) returns (hit: Option<seq<FileEntry>>, ghost t: Token)
    requires w.Valid() && p !in w.state.procs && TtlAllowed(w.config, ttl)
    modifies w
    ensures w.Valid() && Leads(w.config, old(w.state), w.state)
    ensures if hit.Some? then HasServed(Local(w.state, p), e, hit.value)
            else && AtScanStart(Local(w.state, p), e) && w.state.procs[p].token == t
                 && w.state.procs[p].scan.began == |w.state.hist| - 1
    ensures p in w.state.procs && ReadsToken(w.state.procs[p]) && w.state.procs[p].readAt >= |old(w.state).hist|
    ensures hit.None? ==> w.state.procs[p].scan.began >= |old(w.state).hist|
    ensures w.others <= old(w.others) && w.faults <= old(w.faults)
    ensures w.others == old(w.others) ==> Now(w.state) == Now(old(w.state))
    ensures w.others == old(w.others) && w.faults == old(w.faults) ==>
              LookAlone(w.config, old(w.state), w.state, e, hit, t, ttl)
  {
    hide Leads, Reachable, TtlAllowed, Apply, Becomes, LiveToken, TaggedListing, Still, LookAlone;
    ghost var s0 := w.state;
    StartEffect(w.config, w.state, p, e);
    w.Take(StartRead(p, e));
    ghost var s1 := w.state;
    StartsStill(s0, s1, p, e);
    hide Move, Advance;
    var token := w.GetToken(p, e);
    LeadsTransitive(w.config, s0, s1, w.state);
    ghost var s2 := w.state;
    hit := None;
    if token.Some? {
      hit := w.GetListing(p, e, token.value);
      t := token.value;
    } else {
      w.SetOwnToken(p, e, ttl);
      t := w.state.procs[p].token;
    }
    LeadsTransitive(w.config, s0, s2, w.state);
    if w.others == old(w.others) && w.faults == old(w.faults) {
      LooksAlone(w.config, s0, s1, s2, w.state, e, token, hit, t, ttl);
    }
  }

  /** What these calls find, and leave, with nobody else at work and no call failing. */
  ghost predicate LookAlone(c: Config, s: State, s': State, e: Entity, hit: Option<seq<FileEntry>>, t: Token, ttl: Option<nat>) {
    && s.hist != []
    && (LiveToken(s, e).Some? ==> t == LiveToken(s, e).value && hit == TaggedListing(s, e, t) && Still(s, s'))
    && (LiveToken(s, e).None? ==>
          hit.None? && Becomes(s, s', s.tokens[e := Cell(t, Expiry(c, s.clock, ttl))], s.listings))
    && (hit.Some? ==> |s'.hist| == |s.hist| + 3)
  }

  lemma LooksAlone(c: Config, s0: State, s1: State, s2: State, s3: State, e: Entity, token: Option<Token>,
                   hit: Option<seq<FileEntry>>, t: Token, ttl: Option<nat>)
    requires Still(s0, s1) && Still(s1, s2) && token == LiveToken(s1, e)
    requires |s1.hist| == |s0.hist| + 1 && |s2.hist| == |s1.hist| + 1
    requires if token.Some? then
               Still(s2, s3) && hit == TaggedListing(s2, e, token.value) && t == token.value && |s3.hist| == |s2.hist| + 1
             else hit.None? && Becomes(s2, s3, s2.tokens[e := Cell(t, Expiry(c, s3.clock, ttl))], s2.listings)
    ensures LookAlone(c, s0, s3, e, hit, t, ttl)
  {
    hide LiveToken, TaggedListing;
    SameSeen(s0, s1, e, t);
    StillOn(s0, s1, s2);
    SameSeen(s0, s2, e, t);
    BecomesOn(s0, s2, s3, s3.tokens, s3.listings);
  }

  /** The slow path: a scan of the storage, and the cache call that keeps its result. */
  method ListAndKeep(w: World, p: Pid, e: Entity, size: nat, ttl: Option<nat>)
    returns (entries: Result<seq<FileEntry>, string>, ghost scan: Scan)
    requires w.Valid() && size >= 1 && AtScanStart(Local(w.state, p), e) && TtlAllowed(w.config, ttl)
    requires w.state.procs[p].scan.began == |w.state.hist| - 1
    modifies w
    ensures w.Valid() && Leads(w.config, old(w.state), w.state)
    ensures entries.Success? ==> && HasServed(Local(w.state, p), e, entries.value) && scan.entries == entries.value
                                 && w.state.procs[p].readAt == old(w.state.procs[p]).readAt
    ensures entries.Failure? ==> && Local(w.state, p) == Some(Stopped)
                                 && ScanFails(w.state.hist, old(w.state.procs[p]).scan.began, e, entries.error)
    ensures w.others <= old(w.others) && w.faults <= old(w.faults)
    ensures w.others == old(w.others) ==> Now(w.state) == Now(old(w.state))
    ensures w.others == old(w.others) && w.faults == old(w.faults) ==>
              && entries == EntriesOf(S.Listing(Now(old(w.state)), e))
              && Becomes(old(w.state), w.state, old(w.state).tokens,
                         Kept(w.config, old(w.state), e, old(w.state.procs[p]).token, scan, entries, ttl))
  {
    hide Leads, TtlAllowed, ScanFails, EntriesOf, Becomes, S.Listing;
    ghost var s3 := w.state;
    scan := NewScan(s3);
    entries := Drain(w, p, e, size);
    ghost var s4 := w.state;
    if w.others == old(w.others) {
      StillMeans(s3, s4);
    }
    if entries.Success? {
      scan := s4.procs[p].scan;
      w.SetListing(p, e, ttl);
      LeadsTransitive(w.config, s3, s4, w.state);
      if w.others == old(w.others) && w.faults == old(w.faults) {
        KeepAfter(w.config, s3, s4, w.state, e, s4.procs[p].token, scan, ttl);
      }
    }
  }

  /** The listing registers with what a scan of this entity found, if it succeeded. */
  function Kept(c: Config, s: State, e: Entity, t: Token, scan: Scan, entries: Result<seq<FileEntry>, string>, ttl: Option<nat>)
    : map<Entity, Cell<Cached>>
  {
    if entries.Success? then s.listings[e := Cell(Tagged(t, scan), Expiry(c, s.clock, ttl))] else s.listings
  }

  lemma KeepAfter(c: Config, s3: State, s4: State, s5: State, e: Entity, t: Token, scan: Scan, ttl: Option<nat>)
    requires Still(s3, s4)
    requires Becomes(s4, s5, s4.tokens, s4.listings[e := Cell(Tagged(t, scan), Expiry(c, s5.clock, ttl))])
    ensures Becomes(s3, s5, s3.tokens, s3.listings[e := Cell(Tagged(t, scan), Expiry(c, s3.clock, ttl))])
    ensures Now(s5) == Now(s3)
  {
  }

  lemma StartsStill(s: State, s': State, p: Pid, e: Entity)
    requires s.hist != [] && s' == Move(Advance(s, Now(s)), p, Reading(e))
    ensures Still(s, s') && |s'.hist| == |s.hist| + 1
  {
  }

  lemma SameSeen(s: State, s': State, e: Entity, token: Token)
    requires Still(s, s')
    ensures LiveToken(s', e) == LiveToken(s, e) && TaggedListing(s', e, token) == TaggedListing(s, e, token)
  {
  }

  lemma HitAlone(c: Config, s: State, s': State, e: Entity, hit: Option<seq<FileEntry>>, t: Token, ttl: Option<nat>)
    requires LookAlone(c, s, s', e, hit, t, ttl) && hit.Some?
    ensures CacheReadAlone(c, s, s', e, Success(hit.value), ttl)
  {
    hide LiveToken, TaggedListing, Still, Becomes;
  }

  lemma StillMeans(s: State, s': State)
    requires Still(s, s')
    ensures s.hist != [] && s'.hist != [] && s'.clock == s.clock && s'.tokens == s.tokens && s'.listings == s.listings
    ensures Now(s') == Now(s)
  {
  }

  lemma MissAlone(c: Config, s: State, t: State, u: State, e: Entity, token: Token, scan: Scan,
                  entries: Result<seq<FileEntry>, string>, ttl: Option<nat>)
    requires LookAlone(c, s, t, e, None, token, ttl)
    requires entries == EntriesOf(S.Listing(Now(t), e)) && (entries.Success? ==> scan.entries == entries.value)
    requires Becomes(t, u, t.tokens, Kept(c, t, e, token, scan, entries, ttl))
    ensures CacheReadAlone(c, s, u, e, entries, ttl)
  {
    hide LiveToken, TaggedListing, Live, EntriesOf, S.Listing;
    BecomesOn(s, t, u, u.tokens, u.listings);
    hide Becomes;
    assert KeptUnder(c, s, u, e, token, scan, entries, ttl);
  }

  lemma FailedFacts(hist: seq<S.Flat>, n: nat, began: nat, e: Entity, key: string)
    requires ScanFails(hist, began, e, key) && n <= began
    ensures hist != [] && ScanFails(hist, n, e, key) && Unreadable(hist[|hist| - 1], e, key)
  {
    hide FailsAfter, Unreadable;
    var scan, size :| FailsAfter(hist, scan, size, e, key) && began <= scan.began;
    assert ScanFails(hist, n, e, key);
    FailureIsStored(hist, n, e, key);
  }

  lemma ServedFacts(w: World, began: State, p: Pid, e: Entity)
    requires w.Valid() && Reachable(w.config, began) && Leads(w.config, began, w.state)
    requires p in w.state.procs && w.state.procs[p].Served? && w.state.procs[p].entity == e
    requires |began.hist| <= w.state.procs[p].readAt
    ensures w.state.procs[p].readAt < |w.state.hist|
    ensures forall time: nat, k: Key {:trigger SeenSince(w.state.procs[p].scan.entries, w.state.hist, time, k)} ::
              PutAt(began, e, time) && e <= k ==> SeenSince(w.state.procs[p].scan.entries, w.state.hist, time, k)
    ensures AllInvalidatedBy(w.state, e, w.state.procs[p].readAt) ==> IsListing(w.state.procs[p].scan.entries, Now(w.state), e)
  {
    ServedListingAgrees(w.config, w.state, p, e);
    LeadsKeeps(w.config, began, w.state);
    ServedReadAt(w.config, w.state, p);
    hide Leads, Reachable, AllInvalidatedBy, IsListing, SeenSince, PutAt;
    forall time: nat, k: Key | PutAt(began, e, time) && e <= k
      ensures SeenSince(w.state.procs[p].scan.entries, w.state.hist, time, k)
    {
      PutAtLater(began, w.state, e, time);
      PutBefore(w.config, began, e, time);
      ServedAfterPut(w.config, w.state, p, time, k);
    }
  }

  lemma ServedReadAt(c: Config, s: State, p: Pid)
    requires Reachable(c, s) && p in s.procs && s.procs[p].Served?
    ensures s.procs[p].readAt < |s.hist|
  {
    ReachableInv(c, s);
    assert ProcessOk(c, s, s.procs[p]);
  }

  lemma PutBefore(c: Config, s: State, e: Entity, time: nat)
    requires Reachable(c, s) && PutAt(s, e, time)
    ensures time < |s.hist|
  {
    ReachableInv(c, s);
  }

  /** The token registers with this entity's replaced. */
  function Replaced(c: Config, s: State, e: Entity, t: Token, ttl: Option<nat>): map<Entity, Cell<Token>> {
    s.tokens[e := Cell(t, Expiry(c, s.clock, ttl))]
  }

  /** The listing registers with this entity's a tombstone. */
  function Tombstoned(c: Config, s: State, e: Entity, ttl: Option<nat>): map<Entity, Cell<Cached>> {
    s.listings[e := Cell(Tombstone, Expiry(c, s.clock, ttl))]
  }

  /** `_invalidate_path`: replace the token, then perhaps write the tombstone; failures are swallowed. */
  method InvalidatePath(w: World, p: Pid, e: Entity, tombstone: bool, ghost committed: Option<nat>, ttl: Option<nat>)
    returns (ghost replaced: Option<nat>)
    requires w.Valid() && TtlAllowed(w.config, ttl)
    requires Local(w.state, p) == Some(Invalidating(e, tombstone, committed))
    modifies w
    ensures w.Valid() && Leads(w.config, old(w.state), w.state) && old(w.state).hist <= w.state.hist
    ensures Local(w.state, p) == Some(Finished(e, committed, replaced))
    ensures replaced.Some? ==> |old(w.state).hist| <= replaced.value < |w.state.hist| && PutAt(w.state, e, replaced.value)
    ensures committed.Some? && replaced.Some? ==> committed.value < replaced.value
    ensures w.others <= old(w.others) && w.faults <= old(w.faults)
    ensures w.others == old(w.others) && w.faults == old(w.faults) ==>
              && replaced.Some?
              && Becomes(old(w.state), w.state, Replaced(w.config, old(w.state), e, old(w.state).supply, ttl),
                         if tombstone then Tombstoned(w.config, old(w.state), e, ttl) else old(w.state).listings)
  {
    hide Leads, PutAt;
    var stored;
    stored, replaced := w.ReplaceCall(p, e, tombstone, committed, ttl);
    if tombstone {
      ghost var s := w.state;
      stored := w.TombstoneCall(p, e, committed, replaced, ttl);
      LeadsTransitive(w.config, old(w.state), s, w.state);
      if w.others == old(w.others) && w.faults == old(w.faults) {
        BecomesOn(old(w.state), s, w.state, w.state.tokens, w.state.listings);
      }
    }
    FinishedPut(w.config, w.state, p);
  }

  /** The entity of a path, named by its listing prefix. */
  function EntityOf(path: Key): (e: Entity)
    requires ValidPath(path)
    ensures e <= path
  {
    var p := Parts(path);
    EntityPrefixSegments(p.scope, p.entity, path);
    EntityPrefix(p.scope, p.entity)
  }

  lemma EntityOfPath(scope: string, entity: string, area: string, name: string)
    requires BuildPath(scope, entity, area, name).Some?
    ensures var path := BuildPath(scope, entity, area, name).value;
            ValidPath(path) && EntityOf(path) == scope + "/" + entity + "/"
  {
    BuildThenParse(scope, entity, area, name);
    PrefixText(scope, entity);
  }

  /** What a mutation of `key` did between two states: when it committed, and when it replaced the
      token of the key's entity, if it did. */
  ghost predicate Mutated(c: Config, s: State, s': State, p: Pid, e: Entity, committed: Option<nat>, replaced: Option<nat>) {
    && Leads(c, s, s') && Local(s', p) == Some(Finished(e, committed, replaced))
    && (committed.Some? ==> |s.hist| <= committed.value < |s'.hist|)
    && (replaced.Some? ==> |s.hist| <= replaced.value < |s'.hist| && PutAt(s', e, replaced.value))
    && (committed.Some? && replaced.Some? ==> committed.value < replaced.value)
  }

  lemma InvalidationStarts(c: Config, s: State, p: Pid, e: Entity)
    requires s.hist != [] && p !in s.procs
    ensures Apply(c, s, StartInvalidation(p, e)) == Some(Move(Advance(s, Now(s)), p, Invalidating(e, true, None)))
  {
  }

  lemma MutationStarts(c: Config, s: State, p: Pid, e: Entity, key: Key, delete: bool)
    requires s.hist != [] && p !in s.procs && e <= key
    ensures Apply(c, s, StartMutation(p, e, key, delete)) == Some(Move(Advance(s, Now(s)), p, Mutating(e, key, delete)))
  {
  }

  /** `_put_if_version`: the conditional put, then the invalidation, whether it returned or raised. */
  method PutIfVersion(w: World, p: Pid, key: Key, data: seq<Byte>, metadata: TextMap,
                      expected: Option<S.Version>, ttl: Option<nat>)
    returns (r: Outcome, ghost committed: Option<nat>, ghost replaced: Option<nat>)
    requires w.Valid() && p !in w.state.procs && ValidPath(key) && TtlAllowed(w.config, ttl)
    modifies w
    ensures w.Valid() && Mutated(w.config, old(w.state), w.state, p, EntityOf(key), committed, replaced)
    ensures (r.Committed? ==> committed.Some?) && (r.PreconditionFailed? ==> committed.None?)
    ensures committed.Some? ==> Wrote(w.state.hist, committed.value, key, data, metadata, expected)
    ensures r.Committed? ==> r.version == w.state.hist[committed.value - 1].next
    ensures r.PreconditionFailed? ==> Missed(w.state.hist, |old(w.state).hist|, key, expected)
    ensures w.others <= old(w.others) && w.faults <= old(w.faults)
    ensures w.others == old(w.others) && w.faults == old(w.faults) ==>
              && replaced.Some? && w.state.clock == old(w.state).clock
              && w.state.tokens == Replaced(w.config, old(w.state), EntityOf(key), old(w.state).supply, ttl)
              && w.state.listings == old(w.state).listings
              && if S.AtVersion(Now(old(w.state)), key, expected)
                 then r == Committed(Now(old(w.state)).next) && Now(w.state) == S.Put(Now(old(w.state)), key, data, metadata)
                 else r == PreconditionFailed && Now(w.state) == Now(old(w.state))
  {
    hide Leads, PutAt, ValidPath, Missed, Apply, S.AtVersion, S.Put, S.Remove;
    var e := EntityOf(key);
    MutationStarts(w.config, w.state, p, e, key, false);
    w.Take(StartMutation(p, e, key, false));
    ghost var s := w.state;
    r, committed := w.PutCall(p, e, key, data, metadata, expected);
    LeadsTransitive(w.config, old(w.state), s, w.state);
    ghost var n := |s.hist|;
    s := w.state;
    replaced := InvalidatePath(w, p, e, false, committed, ttl);
    LeadsTransitive(w.config, old(w.state), s, w.state);
    if r.PreconditionFailed? {
      MissedStill(s.hist, w.state.hist, n, |old(w.state).hist|, key, expected);
    }
  }

  /** `_delete_if_version`: the conditional delete, then the invalidation with a tombstone. */
  method DeleteIfVersion(w: World, p: Pid, key: Key, expected: S.Version, ttl: Option<nat>)
    returns (r: Outcome, ghost committed: Option<nat>, ghost replaced: Option<nat>)
    requires w.Valid() && p !in w.state.procs && ValidPath(key) && TtlAllowed(w.config, ttl)
    modifies w
    ensures w.Valid() && Mutated(w.config, old(w.state), w.state, p, EntityOf(key), committed, replaced)
    ensures (r.Committed? ==> committed.Some?) && (r.PreconditionFailed? ==> committed.None?)
    ensures committed.Some? ==> Removed(w.state.hist, committed.value, key, expected)
    ensures r.PreconditionFailed? ==> Missed(w.state.hist, |old(w.state).hist|, key, Some(expected))
    ensures w.others <= old(w.others) && w.faults <= old(w.faults)
    ensures w.others == old(w.others) && w.faults == old(w.faults) ==>
              && replaced.Some? && w.state.clock == old(w.state).clock
              && w.state.tokens == Replaced(w.config, old(w.state), EntityOf(key), old(w.state).supply, ttl)
              && w.state.listings == Tombstoned(w.config, old(w.state), EntityOf(key), ttl)
              && if S.AtVersion(Now(old(w.state)), key, Some(expected))
                 then r == Committed(expected) && Now(w.state) == S.Remove(Now(old(w.state)), key)
                 else r == PreconditionFailed && Now(w.state) == Now(old(w.state))
  {
    hide Leads, PutAt, ValidPath, Missed, Apply, S.AtVersion, S.Put, S.Remove;
    var e := EntityOf(key);
    MutationStarts(w.config, w.state, p, e, key, true);
    w.Take(StartMutation(p, e, key, true));
    ghost var s := w.state;
    r, committed := w.DeleteCall(p, e, key, expected);
    LeadsTransitive(w.config, old(w.state), s, w.state);
    ghost var n := |s.hist|;
    s := w.state;
    replaced := InvalidatePath(w, p, e, true, committed, ttl);
    LeadsTransitive(w.config, old(w.state), s, w.state);
    if r.PreconditionFailed? {
      MissedStill(s.hist, w.state.hist, n, |old(w.state).hist|, key, Some(expected));
    }
  }

  /** `invalidate_index`: token first, then tombstone; a cache call that raises, landed or
      not, ends the call. When it returns, the token was replaced during it. */
  method InvalidateIndex(w: World, p: Pid, e: Entity, ttl: Option<nat>) returns (raised: bool, ghost replaced: Option<nat>)
    requires w.Valid() && p !in w.state.procs && TtlAllowed(w.config, ttl)
    modifies w
    ensures w.Valid() && Leads(w.config, old(w.state), w.state)
    ensures !raised ==> Mutated(w.config, old(w.state), w.state, p, e, None, replaced) && replaced.Some?
    ensures w.others <= old(w.others) && w.faults <= old(w.faults)
    ensures w.others == old(w.others) && w.faults == old(w.faults) ==>
              && !raised
              && Becomes(old(w.state), w.state, Replaced(w.config, old(w.state), e, old(w.state).supply, ttl),
                         Tombstoned(w.config, old(w.state), e, ttl))
  {
    hide Leads, PutAt, Apply;
    InvalidationStarts(w.config, w.state, p, e);
    w.Take(StartInvalidation(p, e));
    ghost var s := w.state;
    var stored;
    stored, replaced := w.ReplaceCall(p, e, true, None, ttl);
    LeadsTransitive(w.config, old(w.state), s, w.state);
    var lost := w.Fails();
    raised := !stored || lost;
    if !raised {
      s := w.state;
      stored := w.TombstoneCall(p, e, None, replaced, ttl);
      LeadsTransitive(w.config, old(w.state), s, w.state);
      if w.others == old(w.others) && w.faults == old(w.faults) {
        BecomesOn(old(w.state), s, w.state, w.state.tokens, w.state.listings);
      }
      lost := w.Fails();
      raised := !stored || lost;
      FinishedPut(w.config, w.state, p);
    }
  }

  /** A completed mutation is never missed: a read called after it returned, by any process, was
      scanned after its commit, so its listing shows every key of the entity as it was later. */
  lemma CompletedMutationIsSeen(c: Config, before: State, done: State, e: Entity, writer: Pid, committed: nat,
                                replaced: nat, hist: seq<S.Flat>, entries: seq<FileEntry>, k: Key)
    requires Mutated(c, before, done, writer, e, Some(committed), Some(replaced)) && e <= k
    requires forall time: nat, k: Key {:trigger SeenSince(entries, hist, time, k)} ::
               PutAt(done, e, time) && e <= k ==> SeenSince(entries, hist, time, k)
    ensures SeenSince(entries, hist, committed + 1, k)
  {
    hide Sees, Leads, PutAt;
    assert SeenSince(entries, hist, replaced, k);
    var t :| replaced <= t < |hist| && Sees(entries, hist[t], k);
  }

  /** The two calls in a row, with anything in between: the read shows the file as it was written, or
      as someone left it later. */
  method PutThenRead(w: World, writer: Pid, reader: Pid, key: Key, data: seq<Byte>, metadata: TextMap,
                     expected: Option<S.Version>, size: nat, ttl: Option<nat>)
    returns (r: Outcome, entries: Option<Result<seq<FileEntry>, string>>, ghost committed: Option<nat>,
             ghost replaced: Option<nat>)
    requires w.Valid() && writer !in w.state.procs && ValidPath(key) && size >= 1 && TtlAllowed(w.config, ttl)
    modifies w
    ensures w.Valid() && Leads(w.config, old(w.state), w.state)
    ensures committed.Some? ==> Wrote(w.state.hist, committed.value, key, data, metadata, expected)
    ensures entries.None? ==> reader in w.state.procs
    ensures committed.Some? && replaced.Some? && entries.Some? && entries.value.Success? ==>
              SeenSince(entries.value.value, w.state.hist, committed.value + 1, key)
  {
    hide Leads, PutAt, SeenSince, IsListing, AllInvalidatedBy, ValidPath;
    entries := None;
    r, committed, replaced := PutIfVersion(w, writer, key, data, metadata, expected, ttl);
    if reader !in w.state.procs {
      ghost var done := w.state;
      var read := CachedEntityEntries(w, reader, EntityOf(key), size, ttl);
      entries := Some(read);
      LeadsTransitive(w.config, old(w.state), done, w.state);
      LeadsKeeps(w.config, done, w.state);
      if committed.Some? && replaced.Some? && read.Success? {
        CompletedMutationIsSeen(w.config, old(w.state), done, EntityOf(key), writer, committed.value, replaced.value,
                                w.state.hist, read.value, key);
      }
    }
  }
}
