/** What every run of the cache protocol keeps, and what that means for the listings it serves. */
module CacheSafety {
  import opened Wrappers
  import opened KeyOrder
  import opened Listing
  import opened PagedScan
  import opened CacheProtocol
  import S = Storage

  ghost predicate PutsOk(s: State) {
    forall t :: t in s.puts ==>
      t < s.supply && s.puts[t].time < |s.hist| && s.puts[t].clock <= s.clock
  }

  /** No token reached the entity's register after time `since`, up to and at time `until`. */
  ghost predicate NoPutBetween(s: State, e: Entity, since: nat, until: nat) {
    forall t :: t in s.puts && s.puts[t].entity == e && s.puts[t].time <= until ==> s.puts[t].time <= since
  }

  /** Wherever the clock still shows the cell live, less than the bound has passed since the put. */
  predicate ExpiresInTime(c: Config, expires: Option<nat>, putClock: nat) {
    c.ttlBound.Some? ==>
      if expires.Some? then expires.value <= putClock + c.ttlBound.value
      else c.maxClock < putClock + c.ttlBound.value
  }

  /** The current token is the last one put in its register. */
  ghost predicate TokenOk(c: Config, s: State, e: Entity, cell: Cell<Token>) {
    && cell.value in s.puts && s.puts[cell.value].entity == e
    && NoPutBetween(s, e, s.puts[cell.value].time, |s.hist|)
    && ExpiresInTime(c, cell.expires, s.puts[cell.value].clock)
  }

  /** A listing tagged `token` began after that token was put, if it ever was; it never will be. */
  ghost predicate TagOk(s: State, token: Token, scan: Scan) {
    && token < s.supply
    && (token in s.puts ==>
          s.puts[token].time <= scan.began && s.puts[token].clock <= scan.beganClock)
  }

  ghost predicate CachedOk(s: State, e: Entity, v: Cached) {
    v.Tagged? ==> v.scan.complete && ScanOk(s.hist, s.clock, e, v.scan) && TagOk(s, v.tag, v.scan)
  }

  /** What a scan started by a reader that read the token register at `readAt` may rely on. */
  ghost predicate FreshOk(c: Config, s: State, e: Entity, readAt: nat, readClock: nat, scan: Scan) {
    && readAt < |s.hist| && readClock <= s.clock
    && NoPutBetween(s, e, scan.began, readAt)
    && (c.ttlBound.Some? && c.ttlBound.value > 0 ==> readClock < scan.beganClock + c.ttlBound.value)
  }

  ghost predicate LookingOk(c: Config, s: State, e: Entity, token: Token, readAt: nat, readClock: nat) {
    && token in s.puts && s.puts[token].entity == e
    && readAt < |s.hist| && readClock <= s.clock
    && NoPutBetween(s, e, s.puts[token].time, readAt)
    && (c.ttlBound.Some? ==> readClock < s.puts[token].clock + c.ttlBound.value)
  }

  /** A finished invalidation put a token in its entity's register, after the commit it follows. */
  ghost predicate ReplacedOk(s: State, e: Entity, committed: Option<nat>, replaced: Option<nat>) {
    && (committed.Some? ==> committed.value < |s.hist|)
    && (replaced.Some? ==>
          && (committed.Some? ==> committed.value < replaced.value)
          && exists t :: t in s.puts && s.puts[t].entity == e && s.puts[t].time == replaced.value)
  }

  ghost predicate ProcessOk(c: Config, s: State, q: Process) {
    match q
    case Looking(e, token, readAt, readClock) => LookingOk(c, s, e, token, readAt, readClock)
    case Minting(e, readAt, readClock) => readAt < |s.hist| && readClock <= s.clock
    case Scanning(e, token, readAt, readClock, scan) =>
      ScanOk(s.hist, s.clock, e, scan) && TagOk(s, token, scan) && FreshOk(c, s, e, readAt, readClock, scan)
    case Served(e, token, readAt, readClock, scan, hit) =>
      && ScanOk(s.hist, s.clock, e, scan) && TagOk(s, token, scan) && FreshOk(c, s, e, readAt, readClock, scan)
      && scan.complete
      && (hit ==> token in s.puts && NoPutBetween(s, e, s.puts[token].time, readAt))
    case Invalidating(e, tombstone, committed) => ReplacedOk(s, e, committed, None)
    case Tombstoning(e, committed, replaced) => ReplacedOk(s, e, committed, replaced)
    case Finished(e, committed, replaced) => ReplacedOk(s, e, committed, replaced)
    case _ => true
  }

  ghost predicate Inv(c: Config, s: State) {
    && s.hist != [] && s.clock <= c.maxClock
    && PutsOk(s)
    && (forall e :: e in s.tokens ==> TokenOk(c, s, e, s.tokens[e]))
    && (forall e :: e in s.listings ==> CachedOk(s, e, s.listings[e].value))
    && (forall p :: p in s.procs ==> ProcessOk(c, s, s.procs[p]))
  }

  /** Time only moves on: history grows, and new puts happen later than everything recorded. */
  ghost predicate Grows(s: State, s': State) {
    && |s.hist| < |s'.hist| && s.hist == s'.hist[..|s.hist|] && s.clock <= s'.clock && s.supply <= s'.supply
    && (forall t :: t in s.puts ==> t in s'.puts && s'.puts[t] == s.puts[t])
    && (forall t :: t in s'.puts && t !in s.puts ==> s'.puts[t].time >= |s.hist| && t >= s.supply)
  }

  lemma ScanGrows(s: State, s': State, e: Entity, scan: Scan)
    requires Grows(s, s') && ScanOk(s.hist, s.clock, e, scan)
    ensures ScanOk(s'.hist, s'.clock, e, scan)
  {
    forall k | e <= k && Reached(scan, k)
      ensures SeenSince(scan.entries, s'.hist, scan.began, k)
    {
      assert SeenSince(scan.entries, s.hist, scan.began, k);
      var t :| scan.began <= t < |s.hist| && Sees(scan.entries, s.hist[t], k);
      assert s'.hist[t] == s.hist[t];
    }
  }

  lemma ProcessGrows(c: Config, s: State, s': State, q: Process)
    requires PutsOk(s) && Grows(s, s') && ProcessOk(c, s, q)
    ensures ProcessOk(c, s', q)
  {
    if q.Scanning? || q.Served? {
      ScanGrows(s, s', q.entity, q.scan);
    }
  }

  lemma ProcessesGrow(c: Config, s: State, s': State)
    requires Inv(c, s) && Grows(s, s')
    ensures forall p :: p in s.procs ==> ProcessOk(c, s', s.procs[p])
  {
    forall p | p in s.procs
      ensures ProcessOk(c, s', s.procs[p])
    {
      ProcessGrows(c, s, s', s.procs[p]);
    }
  }

  lemma ListingsGrow(c: Config, s: State, s': State)
    requires Inv(c, s) && Grows(s, s')
    ensures forall e :: e in s.listings ==> CachedOk(s', e, s.listings[e].value)
  {
    forall e | e in s.listings
      ensures CachedOk(s', e, s.listings[e].value)
    {
      if s.listings[e].value.Tagged? {
        ScanGrows(s, s', e, s.listings[e].value.scan);
      }
    }
  }

  /** A step that moves at most one process, draws no token and stores no listing. */
  lemma QuietStep(c: Config, s: State, s': State)
    requires Inv(c, s) && Grows(s, s') && s'.puts == s.puts && s'.clock <= c.maxClock
    requires forall e :: e in s'.tokens ==> e in s.tokens && s'.tokens[e] == s.tokens[e]
    requires forall e :: e in s'.listings ==>
               (e in s.listings && s'.listings[e] == s.listings[e]) || CachedOk(s', e, s'.listings[e].value)
    requires forall p :: p in s'.procs ==>
               (p in s.procs && s'.procs[p] == s.procs[p]) || ProcessOk(c, s', s'.procs[p])
    ensures Inv(c, s')
  {
    ProcessesGrow(c, s, s');
    ListingsGrow(c, s, s');
    forall e | e in s'.tokens
      ensures TokenOk(c, s', e, s'.tokens[e])
    {
      assert TokenOk(c, s, e, s.tokens[e]);
    }
  }

  /** A step in which process `p` draws a token, and perhaps puts it in its entity's register. */
  lemma TokenStep(c: Config, s: State, s': State, e: Entity, p: Pid, ttl: Option<nat>, stored: bool)
    requires Inv(c, s) && TtlAllowed(c, ttl) && p in s'.procs
    requires s' == Move(Advance(PutToken(c, s, e, ttl, stored), Now(s)), p, s'.procs[p])
    requires ProcessOk(c, s', s'.procs[p])
    ensures Inv(c, s')
  {
    assert Grows(s, s');
    ProcessesGrow(c, s, s');
    ListingsGrow(c, s, s');
    forall x | x in s'.tokens
      ensures TokenOk(c, s', x, s'.tokens[x])
    {
      if x != e || !stored {
        assert TokenOk(c, s, x, s.tokens[x]);
      }
    }
  }

  lemma MintKeepsInv(c: Config, s: State, s': State, p: Pid, ttl: Option<nat>, stored: bool)
    requires Inv(c, s) && Apply(c, s, MintToken(p, ttl, stored)) == Some(s')
    ensures Inv(c, s')
  {
    assert ProcessOk(c, s, s.procs[p]);
    assert ProcessOk(c, s', s'.procs[p]);
    TokenStep(c, s, s', s.procs[p].entity, p, ttl, stored);
  }

  lemma ReplaceKeepsInv(c: Config, s: State, s': State, p: Pid, ttl: Option<nat>, stored: bool)
    requires Inv(c, s) && Apply(c, s, ReplaceToken(p, ttl, stored)) == Some(s')
    ensures Inv(c, s')
  {
    assert ProcessOk(c, s, s.procs[p]);
    if stored {
      assert s'.puts[s.supply].entity == s.procs[p].entity && s'.puts[s.supply].time == |s.hist|;
    }
    assert ProcessOk(c, s', s'.procs[p]);
    TokenStep(c, s, s', s.procs[p].entity, p, ttl, stored);
  }

  lemma HitKeepsInv(c: Config, s: State, s': State, p: Pid)
    requires Inv(c, s) && Apply(c, s, Hit(p)) == Some(s')
    ensures Inv(c, s')
  {
    var r := s.procs[p];
    assert ProcessOk(c, s, r);
    var cached := s.listings[r.entity].value;
    assert CachedOk(s, r.entity, cached);
    ScanGrows(s, s', r.entity, cached.scan);
    assert ProcessOk(c, s', s'.procs[p]);
    QuietStep(c, s, s');
  }

  /** A step that only moves process `p` to `q` and leaves storage at `f`. */
  lemma MoveKeepsInv(c: Config, s: State, s': State, f: S.Flat, p: Pid, q: Process)
    requires Inv(c, s) && s' == Move(Advance(s, f), p, q) && ProcessOk(c, s', q)
    ensures Inv(c, s')
  {
    QuietStep(c, s, s');
  }

  lemma PageEffect(c: Config, s: State, s': State, p: Pid, size: nat) returns (page: Page)
    requires s.hist != [] && Apply(c, s, ReadPage(p, size)) == Some(s')
    ensures p in s.procs && s.procs[p].Scanning? && size >= 1
    ensures var r := s.procs[p];
            && !r.scan.complete && ListPrefix(Now(s), r.entity, r.scan.cursor, size) == Success(page)
            && s' == Move(Advance(s, Now(s)), p,
                          Scanning(r.entity, r.token, r.readAt, r.readClock, AddPage(r.scan, page)))
  {
    page := ListPrefix(Now(s), s.procs[p].entity, s.procs[p].scan.cursor, size).value;
  }

  lemma PageKeepsInv(c: Config, s: State, s': State, p: Pid, size: nat)
    requires Inv(c, s) && Apply(c, s, ReadPage(p, size)) == Some(s')
    ensures Inv(c, s')
  {
    hide Apply, ScanOk, ListPrefix;
    var page := PageEffect(c, s, s', p, size);
    var r := s.procs[p];
    assert ProcessOk(c, s, r);
    PageExtendsScan(s.hist, s.clock, r.entity, r.scan, size);
    ScanningGrows(c, s, s', r, AddPage(r.scan, page));
    MoveKeepsInv(c, s, s', Now(s), p, s'.procs[p]);
  }

  lemma ScanningGrows(c: Config, s: State, s': State, r: Process, scan: Scan)
    requires PutsOk(s) && Grows(s, s') && r.Scanning? && ProcessOk(c, s, r)
    requires scan.began == r.scan.began && scan.beganClock == r.scan.beganClock
    requires ScanOk(s'.hist, s'.clock, r.entity, scan)
    ensures ProcessOk(c, s', Scanning(r.entity, r.token, r.readAt, r.readClock, scan))
  {
    ProcessGrows(c, s, s', r);
  }

  lemma StoreKeepsInv(c: Config, s: State, s': State, p: Pid, ttl: Option<nat>, stored: bool)
    requires Inv(c, s) && Apply(c, s, StoreListing(p, ttl, stored)) == Some(s')
    ensures Inv(c, s')
  {
    var r := s.procs[p];
    assert ProcessOk(c, s, r);
    ProcessGrows(c, s, s', r);
    assert CachedOk(s', r.entity, Tagged(r.token, r.scan));
    QuietStep(c, s, s');
  }

  lemma NewScanOk(s: State, s': State, e: Entity)
    requires |s'.hist| == |s.hist| + 1 && s'.clock == s.clock
    ensures ScanOk(s'.hist, s'.clock, e, NewScan(s))
  {
  }

  lemma MissListingKeepsInv(c: Config, s: State, s': State, p: Pid)
    requires Inv(c, s) && Apply(c, s, MissListing(p)) == Some(s')
    ensures Inv(c, s')
  {
    assert ProcessOk(c, s, s.procs[p]);
    NewScanOk(s, s', s.procs[p].entity);
    assert ProcessOk(c, s', s'.procs[p]);
    QuietStep(c, s, s');
  }

  lemma SeeTokenKeepsInv(c: Config, s: State, s': State, p: Pid)
    requires Inv(c, s) && Apply(c, s, SeeToken(p)) == Some(s')
    ensures Inv(c, s')
  {
    assert TokenOk(c, s, s.procs[p].entity, s.tokens[s.procs[p].entity]);
    assert ProcessOk(c, s', s'.procs[p]);
    QuietStep(c, s, s');
  }

  lemma CommitKeepsInv(c: Config, s: State, s': State, p: Pid, written: Option<S.Object>)
    requires Inv(c, s) && Apply(c, s, Commit(p, written)) == Some(s')
    ensures Inv(c, s')
  {
    MoveKeepsInv(c, s, s', s'.hist[|s.hist|], p, s'.procs[p]);
  }

  lemma NoCommitKeepsInv(c: Config, s: State, s': State, p: Pid)
    requires Inv(c, s) && Apply(c, s, NoCommit(p)) == Some(s')
    ensures Inv(c, s')
  {
    MoveKeepsInv(c, s, s', Now(s), p, s'.procs[p]);
  }

  lemma TombstoneKeepsInv(c: Config, s: State, s': State, p: Pid, ttl: Option<nat>, stored: bool)
    requires Inv(c, s) && Apply(c, s, WriteTombstone(p, ttl, stored)) == Some(s')
    ensures Inv(c, s')
  {
    assert ProcessOk(c, s, s.procs[p]);
    ProcessGrows(c, s, s', s.procs[p]);
    assert ProcessOk(c, s', s'.procs[p]);
    QuietStep(c, s, s');
  }

  lemma StartOrStopKeepsInv(c: Config, s: State, s': State, p: Pid, step: Step)
    requires Inv(c, s) && Apply(c, s, step) == Some(s')
    requires step.StartRead? || step.StartMutation? || step.StartInvalidation? || step.MissToken? || step.Stop?
    requires step.p == p
    ensures Inv(c, s')
  {
    assert ProcessOk(c, s', s'.procs[p]);
    QuietStep(c, s, s');
  }

  lemma EnvironmentKeepsInv(c: Config, s: State, s': State, step: Step)
    requires Inv(c, s) && Apply(c, s, step) == Some(s')
    requires step.Tick? || step.LoseToken? || step.LoseListing? || step.Bypass?
    ensures Inv(c, s')
  {
    QuietStep(c, s, s');
  }

  lemma StepKeepsInv(c: Config, s: State, s': State, step: Step)
    requires Inv(c, s) && Apply(c, s, step) == Some(s')
    ensures Inv(c, s')
  {
    match step
    case MintToken(p, ttl, stored) => MintKeepsInv(c, s, s', p, ttl, stored);
    case ReplaceToken(p, ttl, stored) => ReplaceKeepsInv(c, s, s', p, ttl, stored);
    case Hit(p) => HitKeepsInv(c, s, s', p);
    case ReadPage(p, size) => PageKeepsInv(c, s, s', p, size);
    case StoreListing(p, ttl, stored) => StoreKeepsInv(c, s, s', p, ttl, stored);
    case MissListing(p) => MissListingKeepsInv(c, s, s', p);
    case SeeToken(p) => SeeTokenKeepsInv(c, s, s', p);
    case Commit(p, written) => CommitKeepsInv(c, s, s', p, written);
    case NoCommit(p) => NoCommitKeepsInv(c, s, s', p);
    case WriteTombstone(p, ttl, stored) => TombstoneKeepsInv(c, s, s', p, ttl, stored);
    case StartRead(p, _) => StartOrStopKeepsInv(c, s, s', p, step);
    case StartMutation(p, _, _, _) => StartOrStopKeepsInv(c, s, s', p, step);
    case StartInvalidation(p, _) => StartOrStopKeepsInv(c, s, s', p, step);
    case MissToken(p) => StartOrStopKeepsInv(c, s, s', p, step);
    case Stop(p) => StartOrStopKeepsInv(c, s, s', p, step);
    case _ => EnvironmentKeepsInv(c, s, s', step);
  }

  lemma {:induction false} RunsKeepInv(c: Config, run: seq<State>, i: nat)
    requires IsRun(c, run) && i < |run|
    ensures Inv(c, run[i])
  {
    if i == 0 {
    } else {
      RunsKeepInv(c, run, i - 1);
      assert Next(c, run[i - 1], run[i]);
      var step :| Apply(c, run[i - 1], step) == Some(run[i]);
      StepKeepsInv(c, run[i - 1], run[i], step);
    }
  }

  lemma ReachableInv(c: Config, s: State)
    requires Reachable(c, s)
    ensures Inv(c, s)
  {
    var run :| IsRun(c, run) && run[|run| - 1] == s;
    RunsKeepInv(c, run, |run| - 1);
  }

  /** Real-time freshness, with mutations in flight: a listing returned from the cache or from a
      scan was scanned wholly after the commit of every mutation whose invalidation finished before
      the reader read the token, so each key is shown as it was at some time after that commit. */
  lemma ServedAfterFinishedMutations(c: Config, s: State, reader: Pid, writer: Pid, k: Key)
    requires Reachable(c, s) && reader in s.procs && writer in s.procs
    requires s.procs[reader].Served? && s.procs[writer].Finished?
    requires s.procs[writer].entity == s.procs[reader].entity
    requires s.procs[writer].committed.Some? && s.procs[writer].replaced.Some?
    requires s.procs[writer].replaced.value <= s.procs[reader].readAt
    requires s.procs[reader].entity <= k
    ensures s.procs[writer].committed.value < s.procs[reader].scan.began
    ensures SeenSince(s.procs[reader].scan.entries, s.hist, s.procs[writer].committed.value + 1, k)
  {
    ReachableInv(c, s);
    var r, w := s.procs[reader], s.procs[writer];
    assert ProcessOk(c, s, r) && ProcessOk(c, s, w);
    assert SeenSince(r.scan.entries, s.hist, r.scan.began, k);
  }

  /** The storage objects of an entity changed at step `t`. */
  ghost predicate ChangedAt(s: State, e: Entity, t: nat) {
    0 < t < |s.hist| && exists k :: e <= k && S.Get(s.hist[t], k) != S.Get(s.hist[t - 1], k)
  }

  /** A token put in the entity's register after step `t`, by any invalidation or reader, and no
      later than `until`. */
  ghost predicate InvalidatedSince(s: State, e: Entity, t: nat, until: nat) {
    exists p :: p in s.puts && s.puts[p].entity == e && t < s.puts[p].time <= until
  }

  lemma {:induction false} UnchangedSince(s: State, e: Entity, from: nat, to: nat, k: Key)
    requires from <= to < |s.hist| && e <= k
    requires forall t :: from < t < |s.hist| ==> !ChangedAt(s, e, t)
    ensures S.Get(s.hist[from], k) == S.Get(s.hist[to], k)
  {
    if from == to {
    } else {
      UnchangedSince(s, e, from, to - 1, k);
      assert !ChangedAt(s, e, to);
    }
  }

  /** What the invariant says of a process that has served a listing. */
  lemma ServedMeans(c: Config, s: State, reader: Pid)
    requires Reachable(c, s) && reader in s.procs && s.procs[reader].Served?
    ensures var r := s.procs[reader];
            && r.readAt < |s.hist| && NoPutBetween(s, r.entity, r.scan.began, r.readAt)
            && PathsAscend(r.scan.entries) && (forall e :: e in r.scan.entries ==> r.entity <= e.path)
            && (forall k :: r.entity <= k ==> SeenSince(r.scan.entries, s.hist, r.scan.began, k))
  {
    ReachableInv(c, s);
    assert ProcessOk(c, s, s.procs[reader]);
  }

  /** A key seen since the scan began is seen as it is now, if nothing has changed since then. */
  lemma StillSeen(s: State, s': State, scan: Scan, e: Entity, k: Key)
    requires s.hist <= s'.hist && s'.hist != [] && e <= k
    requires SeenSince(scan.entries, s.hist, scan.began, k)
    requires forall t: nat :: scan.began < t < |s'.hist| ==> !ChangedAt(s', e, t)
    ensures Sees(scan.entries, Now(s'), k)
  {
    hide Sees, ChangedAt;
    var t :| scan.began <= t < |s.hist| && Sees(scan.entries, s.hist[t], k);
    UnchangedSince(s', e, t, |s'.hist| - 1, k);
    SameObjectSeen(scan.entries, s.hist[t], Now(s'), k);
  }

  /** Cache agreement over all interleavings: if every change to the entity so far, by whatever
      writer, was followed by a token replacement before the reader read the token, then what
      the reader is served is exactly the entity's current storage listing. */
  lemma ServedIsCurrentListing(c: Config, s: State, reader: Pid)
    requires Reachable(c, s) && reader in s.procs && s.procs[reader].Served?
    requires forall t :: ChangedAt(s, s.procs[reader].entity, t) ==>
               InvalidatedSince(s, s.procs[reader].entity, t, s.procs[reader].readAt)
    ensures s.hist != []
    ensures IsListing(s.procs[reader].scan.entries, Now(s), s.procs[reader].entity)
  {
    ServedMeans(c, s, reader);
    var r := s.procs[reader];
    assert |s.hist| > 0;
    hide Reachable, Sees, PathsAscend, ChangedAt;
    forall t: nat | ChangedAt(s, r.entity, t)
      ensures t <= r.scan.began
    {
      assert InvalidatedSince(s, r.entity, t, r.readAt);
    }
    forall k | r.entity <= k
      ensures Sees(r.scan.entries, Now(s), k)
    {
      StillSeen(s, s, r.scan, r.entity, k);
    }
  }

  /** The same agreement of the two cache registers, whether or not anybody is reading: when every
      change was followed by a token replacement, a cached listing tagged with the current token
      is the current storage listing. */
  lemma CachedIsCurrentListing(c: Config, s: State, e: Entity)
    requires Reachable(c, s) && e in s.tokens && e in s.listings
    requires s.listings[e].value.Tagged? && s.listings[e].value.tag == s.tokens[e].value
    requires forall t :: ChangedAt(s, e, t) ==> InvalidatedSince(s, e, t, |s.hist|)
    ensures s.hist != [] && IsListing(s.listings[e].value.scan.entries, Now(s), e)
  {
    CachedMeans(c, s, e);
    var scan := s.listings[e].value.scan;
    hide Reachable, Sees, PathsAscend, ChangedAt;
    forall t: nat | ChangedAt(s, e, t)
      ensures t <= scan.began
    {
      assert InvalidatedSince(s, e, t, |s.hist|);
    }
    forall k | e <= k
      ensures Sees(scan.entries, Now(s), k)
    {
      StillSeen(s, s, scan, e, k);
    }
  }

  /** What the invariant says of a cached listing under the current token. */
  lemma CachedMeans(c: Config, s: State, e: Entity)
    requires Reachable(c, s) && e in s.tokens && e in s.listings
    requires s.listings[e].value.Tagged? && s.listings[e].value.tag == s.tokens[e].value
    ensures var scan := s.listings[e].value.scan;
            && s.hist != [] && NoPutBetween(s, e, scan.began, |s.hist|)
            && PathsAscend(scan.entries) && (forall x :: x in scan.entries ==> e <= x.path)
            && (forall k :: e <= k ==> SeenSince(scan.entries, s.hist, scan.began, k))
  {
    ReachableInv(c, s);
    assert TokenOk(c, s, e, s.tokens[e]) && CachedOk(s, e, s.listings[e].value);
  }

  /** A finished writer's own invalidation is such a replacement. */
  lemma FinishedWriterInvalidated(c: Config, s: State, writer: Pid)
    requires Reachable(c, s) && writer in s.procs && s.procs[writer].Finished?
    requires s.procs[writer].committed.Some? && s.procs[writer].replaced.Some?
    ensures InvalidatedSince(s, s.procs[writer].entity, s.procs[writer].committed.value,
                             s.procs[writer].replaced.value)
  {
    ReachableInv(c, s);
    assert ProcessOk(c, s, s.procs[writer]);
  }

  /** A listing whose tag was replaced before the reader's token read is never served, even if it
      was stored last: the tag of a hit is the last token put by then. */
  lemma ReplacedTagNeverServed(c: Config, s: State, reader: Pid, stale: Token, newer: Token)
    requires Reachable(c, s) && reader in s.procs && s.procs[reader].Served? && s.procs[reader].hit
    requires stale in s.puts && newer in s.puts
    requires s.puts[stale].entity == s.puts[newer].entity == s.procs[reader].entity
    requires s.puts[stale].time < s.puts[newer].time <= s.procs[reader].readAt
    ensures s.procs[reader].token != stale
  {
    ReachableInv(c, s);
    assert ProcessOk(c, s, s.procs[reader]);
  }

  /** With a finite ttl, staleness is bounded whatever else happens: bypassing writers, failed
      cache calls, lost keys. Every served listing began later than the token read minus the ttl. */
  lemma TtlBoundsStaleness(c: Config, s: State, reader: Pid)
    requires Reachable(c, s) && reader in s.procs && s.procs[reader].Served?
    requires c.ttlBound.Some? && c.ttlBound.value > 0
    ensures s.procs[reader].readClock < s.procs[reader].scan.beganClock + c.ttlBound.value
  {
    ReachableInv(c, s);
    assert ProcessOk(c, s, s.procs[reader]);
  }

  /** Every change to the entity was committed by a writer that has finished replacing its token. */
  ghost predicate WritersFinished(s: State, e: Entity) {
    forall t :: ChangedAt(s, e, t) ==> exists w :: FinishedWrite(s, e, t, w)
  }

  ghost predicate FinishedWrite(s: State, e: Entity, t: nat, w: Pid) {
    && w in s.procs && s.procs[w].Finished? && s.procs[w].entity == e
    && s.procs[w].committed == Some(t) && s.procs[w].replaced.Some?
  }

  /** Agreement in the writers' own terms: with no mutation of the entity in flight, a read that hits
      the cache gets exactly the entity's current storage listing. */
  lemma HitIsCurrentWhenWritersFinished(c: Config, s: State, e: Entity)
    requires Reachable(c, s) && WritersFinished(s, e) && e in s.tokens && e in s.listings
    requires s.listings[e].value.Tagged? && s.listings[e].value.tag == s.tokens[e].value
    ensures s.hist != [] && IsListing(s.listings[e].value.scan.entries, Now(s), e)
  {
    forall t | ChangedAt(s, e, t)
      ensures InvalidatedSince(s, e, t, |s.hist|)
    {
      var w :| FinishedWrite(s, e, t, w);
      FinishedWriterInvalidated(c, s, w);
      ReplacedEarlier(c, s, w);
    }
    CachedIsCurrentListing(c, s, e);
  }

  lemma ReplacedEarlier(c: Config, s: State, w: Pid)
    requires Reachable(c, s) && w in s.procs && s.procs[w].Finished? && s.procs[w].replaced.Some?
    ensures s.procs[w].replaced.value < |s.hist|
  {
    ReachableInv(c, s);
    assert ProcessOk(c, s, s.procs[w]);
  }
}
