/** What a stretch of protocol steps keeps, from any state on: the calls of one client happen inside
    such a stretch, between the states they start and end in. */
module CacheRuns {
  import opened Wrappers
  import opened KeyOrder
  import opened Paths
  import opened Metadata
  import opened Listing
  import opened PagedScan
  import opened CacheProtocol
  import opened CacheSafety
  import S = Storage

  /** Any number of possible steps lead from `s` to `s'`. */
  ghost predicate Leads(c: Config, s: State, s': State) {
    exists run :: LeadsBy(c, run, s, s')
  }

  ghost predicate LeadsBy(c: Config, run: seq<State>, s: State, s': State) {
    && run != [] && run[0] == s && run[|run| - 1] == s'
    && forall i {:trigger Next(c, run[i - 1], run[i])} :: 0 < i < |run| ==> Next(c, run[i - 1], run[i])
  }

  lemma LeadsNone(c: Config, s: State)
    ensures Leads(c, s, s)
  {
    assert LeadsBy(c, [s], s, s);
  }

  lemma LeadsOn(c: Config, s: State, t: State, u: State)
    requires Leads(c, s, t) && Next(c, t, u)
    ensures Leads(c, s, u)
  {
    hide Next;
    var run :| LeadsBy(c, run, s, t);
    var longer := run + [u];
    forall i | 0 < i < |longer|
      ensures Next(c, longer[i - 1], longer[i])
    {
      if i < |run| {
        assert Next(c, run[i - 1], run[i]);
      }
    }
    assert LeadsBy(c, longer, s, u);
  }

  lemma LeadsTransitive(c: Config, s: State, t: State, u: State)
    requires Leads(c, s, t) && Leads(c, t, u)
    ensures Leads(c, s, u)
  {
    var run :| LeadsBy(c, run, t, u);
    LeadsAlong(c, s, t, run, |run| - 1);
  }

  lemma {:induction false} LeadsAlong(c: Config, s: State, t: State, run: seq<State>, i: nat)
    requires Leads(c, s, t) && run != [] && LeadsBy(c, run, t, run[|run| - 1]) && i < |run|
    ensures Leads(c, s, run[i])
  {
    hide Next, Leads;
    if i == 0 {
    } else {
      LeadsAlong(c, s, t, run, i - 1);
      assert Next(c, run[i - 1], run[i]);
      LeadsOn(c, s, run[i - 1], run[i]);
    }
  }

  /** The later state is no earlier in any respect. */
  ghost predicate NoEarlier(s: State, s': State) {
    && s.hist <= s'.hist && s.clock <= s'.clock
    && (forall t :: t in s.puts ==> t in s'.puts && s'.puts[t] == s.puts[t])
    && (forall t :: t in s'.puts && t !in s.puts ==> s'.puts[t].time >= |s.hist|)
  }

  lemma NoEarlierTransitive(s: State, t: State, u: State)
    requires NoEarlier(s, t) && NoEarlier(t, u)
    ensures NoEarlier(s, u)
  {
    forall x | x in u.puts && x !in s.puts
      ensures u.puts[x].time >= |s.hist|
    {
      if x in t.puts {
        assert u.puts[x] == t.puts[x];
      }
    }
  }

  lemma StepIsLater(c: Config, s: State, s': State, step: Step)
    requires s.hist != [] && PutsOk(s) && Apply(c, s, step) == Some(s')
    ensures NoEarlier(s, s')
  {
    hide ListPrefix, ScanOk;
  }

  lemma {:induction false} AlongIsLater(c: Config, s: State, run: seq<State>, i: nat)
    requires Reachable(c, s) && run != [] && LeadsBy(c, run, s, run[|run| - 1]) && i < |run|
    ensures NoEarlier(s, run[i]) && Reachable(c, run[i])
  {
    hide Apply, NoEarlier, Reachable, Inv;
    if i == 0 {
      SameIsNoEarlier(s);
    } else {
      AlongIsLater(c, s, run, i - 1);
      assert Next(c, run[i - 1], run[i]);
      var step :| Apply(c, run[i - 1], step) == Some(run[i]);
      ReachableInv(c, run[i - 1]);
      InvPuts(c, run[i - 1]);
      StepIsLater(c, run[i - 1], run[i], step);
      NoEarlierTransitive(s, run[i - 1], run[i]);
      ReachableNext(c, run[i - 1], step, run[i]);
    }
  }

  lemma SameIsNoEarlier(s: State)
    ensures NoEarlier(s, s)
  {
  }

  lemma InvPuts(c: Config, s: State)
    requires Inv(c, s)
    ensures PutsOk(s) && s.hist != []
  {
  }

  /** A stretch of steps from a reachable state ends in a reachable state, and only adds to history. */
  lemma LeadsKeeps(c: Config, s: State, s': State)
    requires Reachable(c, s) && Leads(c, s, s')
    ensures NoEarlier(s, s') && Reachable(c, s')
  {
    var run :| LeadsBy(c, run, s, s');
    AlongIsLater(c, s, run, |run| - 1);
  }

  lemma ReachableNext(c: Config, s: State, step: Step, s': State)
    requires s.hist != [] && Reachable(c, s) && Apply(c, s, step) == Some(s')
    ensures Reachable(c, s')
  {
    hide Apply;
    assert Next(c, s, s');
    var run :| IsRun(c, run) && run[|run| - 1] == s;
    RunExtends(c, run, s');
    assert (run + [s'])[|run + [s']| - 1] == s';
  }

  lemma NextBy(c: Config, s: State, step: Step, s': State)
    requires s.hist != [] && Apply(c, s, step) == Some(s')
    ensures Next(c, s, s')
  {
  }

  lemma RunExtends(c: Config, run: seq<State>, s': State)
    requires IsRun(c, run) && Next(c, run[|run| - 1], s')
    ensures IsRun(c, run + [s'])
  {
    hide Next;
    var longer := run + [s'];
    forall i | 0 < i < |longer|
      ensures Next(c, longer[i - 1], longer[i])
    {
      if i < |run| {
        assert Next(c, run[i - 1], run[i]);
      }
    }
  }

  /** A token entered the entity's register at this time. */
  ghost predicate PutAt(s: State, e: Entity, time: nat) {
    exists t :: t in s.puts && s.puts[t].entity == e && s.puts[t].time == time
  }

  /** What is served was scanned after every replacement that preceded the token read, whoever made
      it: each key is shown as it was at some time since. */
  lemma ServedAfterPut(c: Config, s: State, reader: Pid, time: nat, k: Key)
    requires Reachable(c, s) && reader in s.procs && s.procs[reader].Served?
    requires PutAt(s, s.procs[reader].entity, time) && time <= s.procs[reader].readAt && s.procs[reader].entity <= k
    ensures time <= s.procs[reader].scan.began && SeenSince(s.procs[reader].scan.entries, s.hist, time, k)
  {
    ServedMeans(c, s, reader);
    var r := s.procs[reader];
    hide Sees, Reachable;
    assert SeenSince(r.scan.entries, s.hist, r.scan.began, k);
  }

  lemma PutAtLater(s: State, s': State, e: Entity, time: nat)
    requires NoEarlier(s, s') && PutAt(s, e, time)
    ensures PutAt(s', e, time)
  {
  }

  /** A finished invalidation replaced the token, after the commit it follows. */
  lemma FinishedPut(c: Config, s: State, p: Pid)
    requires Reachable(c, s) && p in s.procs && s.procs[p].Finished?
    ensures var w := s.procs[p];
            && (w.committed.Some? ==> w.committed.value < |s.hist|)
            && (w.replaced.Some? ==> PutAt(s, w.entity, w.replaced.value) && w.replaced.value < |s.hist|)
            && (w.committed.Some? && w.replaced.Some? ==> w.committed.value < w.replaced.value)
  {
    ReachableInv(c, s);
    assert ProcessOk(c, s, s.procs[p]);
  }

  /** A listing served stays the current one for as long as every change to the entity was followed
      by a token replacement that preceded the reader's token read. */
  lemma ServedStaysCurrent(c: Config, s: State, s': State, reader: Pid)
    requires Reachable(c, s) && Leads(c, s, s') && reader in s.procs && s.procs[reader].Served?
    requires forall t :: ChangedAt(s', s.procs[reader].entity, t) ==>
               InvalidatedSince(s', s.procs[reader].entity, t, s.procs[reader].readAt)
    ensures s'.hist != [] && IsListing(s.procs[reader].scan.entries, Now(s'), s.procs[reader].entity)
  {
    LeadsKeeps(c, s, s');
    ServedMeans(c, s, reader);
    var r := s.procs[reader];
    assert |s'.hist| > 0;
    hide Reachable, Leads, Sees, PathsAscend, ChangedAt, InvalidatedSince, NoPutBetween;
    NoChangeSince(s, s', r);
    forall k | r.entity <= k
      ensures Sees(r.scan.entries, Now(s'), k)
    {
      StillSeen(s, s', r.scan, r.entity, k);
    }
  }

  lemma NoChangeSince(s: State, s': State, r: Process)
    requires NoEarlier(s, s') && r.Served? && r.readAt < |s.hist| && NoPutBetween(s, r.entity, r.scan.began, r.readAt)
    requires forall t :: ChangedAt(s', r.entity, t) ==> InvalidatedSince(s', r.entity, t, r.readAt)
    ensures forall t: nat :: r.scan.began < t < |s'.hist| ==> !ChangedAt(s', r.entity, t)
  {
    hide ChangedAt;
    forall t: nat | ChangedAt(s', r.entity, t)
      ensures t <= r.scan.began
    {
      var p :| p in s'.puts && s'.puts[p].entity == r.entity && t < s'.puts[p].time <= r.readAt;
      assert p in s.puts && s.puts[p] == s'.puts[p];
    }
  }

  /** After an invalidation, nothing removed before it is served: every entry a later reader is given
      was stored, exactly so, at some time since. */
  lemma ServedStoredSince(c: Config, s: State, reader: Pid, time: nat, entry: FileEntry)
    requires Reachable(c, s) && reader in s.procs && s.procs[reader].Served?
    requires PutAt(s, s.procs[reader].entity, time) && time <= s.procs[reader].readAt
    requires entry in s.procs[reader].scan.entries
    ensures StoredSince(s.hist, time, entry)
  {
    ServedMeans(c, s, reader);
    var r := s.procs[reader];
    hide Reachable, PutAt, Sees;
    ServedAfterPut(c, s, reader, time, entry.path);
    var t :| time <= t < |s.hist| && Sees(r.scan.entries, s.hist[t], entry.path);
    SeenIsStored(r.scan.entries, s.hist[t], entry);
  }

  lemma SeenIsStored(entries: seq<FileEntry>, f: S.Flat, entry: FileEntry)
    requires PathsAscend(entries) && entry in entries && Sees(entries, f, entry.path)
    ensures StoredAs(f, entry)
  {
    if entry.path in f.objects && ValidPath(entry.path) {
      var same := FileEntry(entry.path, FromMap(f.objects[entry.path].metadata).value, f.objects[entry.path].version);
      OnePath(entries, entry, same);
    }
  }

  /** A purge that left the entity empty, then an invalidation: as long as nothing is written, every
      reader that reads the token later is served the empty listing. */
  lemma PurgedIsNeverServed(c: Config, s: State, reader: Pid, emptied: nat, replaced: nat)
    requires Reachable(c, s) && reader in s.procs && s.procs[reader].Served?
    requires emptied <= replaced && PutAt(s, s.procs[reader].entity, replaced) && replaced <= s.procs[reader].readAt
    requires forall t, k :: emptied <= t < |s.hist| && s.procs[reader].entity <= k ==> k !in s.hist[t].objects
    ensures s.procs[reader].scan.entries == []
  {
    var entries := s.procs[reader].scan.entries;
    if entries != [] {
      ServedMeans(c, s, reader);
      assert forall t :: replaced <= t < |s.hist| ==> !StoredAs(s.hist[t], entries[0]);
      ServedStoredSince(c, s, reader, replaced, entries[0]);
    }
  }
}
