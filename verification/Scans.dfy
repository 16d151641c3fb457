/** Listing an entity page by page while others commit: `list_prefix` and the drain. */
module Scans {
  import opened Wrappers
  import opened KeyOrder
  import opened Paths
  import opened Metadata
  import opened Listing
  import opened PagedScan
  import opened ScanOutcome
  import opened SharedStorage
  import S = Storage

  /** Every storage state of the log, in order. */
  ghost function States(start: S.Flat, log: seq<Commit>): (states: seq<S.Flat>)
    ensures |states| == |log| + 1
    ensures forall i :: 0 <= i <= |log| ==> states[i] == StateAt(start, log, i)
  {
    seq(|log| + 1, i requires 0 <= i <= |log| => StateAt(start, log, i))
  }

  lemma StatesGrow(start: S.Flat, shorter: seq<Commit>, log: seq<Commit>)
    requires shorter <= log
    ensures States(start, shorter) <= States(start, log)
  {
    forall i | 0 <= i <= |shorter|
      ensures States(start, shorter)[i] == States(start, log)[i]
    {
    }
  }

  lemma ScanSurvives(start: S.Flat, shorter: seq<Commit>, log: seq<Commit>, prefix: Key, scan: Scan)
    requires shorter <= log && ScanOk(States(start, shorter), 0, prefix, scan)
    ensures ScanOk(States(start, log), 0, prefix, scan)
  {
    StatesGrow(start, shorter, log);
    forall k | prefix <= k && Reached(scan, k)
      ensures SeenSince(scan.entries, States(start, log), scan.began, k)
    {
      assert SeenSince(scan.entries, States(start, shorter), scan.began, k);
    }
  }

  /** A page read from the latest state extends the scan. */
  lemma PageExtendsLog(start: S.Flat, log: seq<Commit>, prefix: Key, scan: Scan, size: nat)
    requires size >= 1 && !scan.complete && ScanOk(States(start, log), 0, prefix, scan)
    requires ListPrefix(StateAt(start, log, |log|), prefix, scan.cursor, size).Success?
    ensures var page := ListPrefix(StateAt(start, log, |log|), prefix, scan.cursor, size).value;
            ScanOk(States(start, log), 0, prefix, AddPage(scan, page))
  {
    var hist := States(start, log);
    var page := ListPrefix(hist[|log|], prefix, scan.cursor, size).value;
    var scan' := AddPage(scan, page);
    PageExtendsScan(hist, 0, prefix, scan, size);
    var longer := hist + [hist[|log|]];
    forall k | prefix <= k && Reached(scan', k)
      ensures SeenSince(scan'.entries, hist, scan'.began, k)
    {
      assert SeenSince(scan'.entries, longer, scan'.began, k);
      var t :| scan'.began <= t < |longer| && Sees(scan'.entries, longer[t], k);
      var t' := if t == |hist| then |log| else t;
      assert Sees(scan'.entries, hist[t'], k);
    }
  }

  method Shown(ghost f: S.Flat, ghost prefix: Key, ghost cursor: Option<Key>, size: nat, objs: seq<S.Listed>)
    returns (page: Result<Page, string>)
    requires size >= 1 && objs == S.ListPage(f, prefix, cursor, size + 1)
    ensures page == ListPrefix(f, prefix, cursor, size)
  {
    page := PageFrom(objs, size);
  }

  /** `list_prefix`'s one storage call. */
  method ListPage(storage: SharedStorage, me: Client, prefix: Key, cursor: Option<Key>, size: nat)
    returns (page: Result<Page, string>)
    requires storage.Valid() && size >= 1
    modifies storage`flat, storage`log, storage`others, storage`pages
    ensures storage.Valid() && old(storage.log) <= storage.log && storage.others <= old(storage.others)
    ensures Mine(me, storage.log, |old(storage.log)|) == []
    ensures storage.others == old(storage.others) ==> storage.flat == old(storage.flat) && storage.log == old(storage.log)
    ensures page == ListPrefix(storage.flat, prefix, cursor, size)
  {
    hide *;
    var objs := storage.ListPage(me, prefix, cursor, size + 1);
    page := Shown(storage.flat, prefix, cursor, size, objs);
  }

  /** There is a next cursor exactly if there is more than the page may pass, and then it has passed just that. */
  predicate Ends(f: S.Flat, prefix: Key, cursor: Option<Key>, next: Option<Key>, size: nat) {
    && (next.Some? <==> |Beyond(f.objects.Keys, prefix, cursor)| > size)
    && (next.Some? ==> |Beyond(f.objects.Keys, prefix, next)| == |Beyond(f.objects.Keys, prefix, cursor)| - size)
  }

  datatype ListError = InvalidPrefix | InvalidCursor | MalformedMetadata(key: string)

  /** `list_prefix`: one page, from a cursor that must belong to the prefix. The cursor it returns is
      one the next call for the same prefix accepts. */
  method ListPrefixCall(storage: SharedStorage, me: Client, prefix: Key, cursor: Option<Key>, size: nat)
    returns (r: Result<Page, ListError>)
    requires storage.Valid() && size >= 1
    modifies storage`flat, storage`log, storage`others, storage`pages
    ensures storage.Valid() && old(storage.log) <= storage.log && storage.others <= old(storage.others)
    ensures Mine(me, storage.log, |old(storage.log)|) == []
    ensures r.Failure? && r.error.InvalidPrefix? <==> !ValidPrefix(prefix)
    ensures r.Failure? && r.error.InvalidCursor? <==> ValidPrefix(prefix) && cursor.Some? && !(prefix <= cursor.value)
    ensures r.Failure? && !r.error.MalformedMetadata? ==> storage.log == old(storage.log)
    ensures r.Failure? && r.error.MalformedMetadata? ==> ListPrefix(storage.flat, prefix, cursor, size) == Failure(r.error.key)
    ensures r.Success? ==> && ListPrefix(storage.flat, prefix, cursor, size) == Success(r.value)
                           && (r.value.next.Some? ==> prefix <= r.value.next.value)
                           && (forall k :: Covered(k, prefix, cursor, r.value.next) ==> Sees(r.value.entries, storage.flat, k))
                           && Ends(storage.flat, prefix, cursor, r.value.next, size)
  {
    hide LogOk, Sees, Covered, ValidPrefix;
    if !ValidPrefix(prefix) {
      return Failure(InvalidPrefix);
    }
    if cursor.Some? && !(prefix <= cursor.value) {
      return Failure(InvalidCursor);
    }
    var page := ListPage(storage, me, prefix, cursor, size);
    if page.Failure? {
      return Failure(MalformedMetadata(page.error));
    }
    PageSees(storage.flat, prefix, cursor, size);
    PageEnds(storage.flat, prefix, cursor, size);
    return Success(page.value);
  }

  /** `_drain`: every page, whatever others do meanwhile. Each key is shown as it was at some time
      during the call; a failure is that of a page of the last state. Undisturbed, the result is that
      of one scan of everything. */
  method Drain(storage: SharedStorage, me: Client, prefix: Key, size: nat) returns (r: Result<seq<FileEntry>, string>)
    requires storage.Valid() && size >= 1
    modifies storage`flat, storage`log, storage`others, storage`pages
    ensures storage.Valid() && old(storage.log) <= storage.log && storage.others <= old(storage.others)
    ensures Mine(me, storage.log, |old(storage.log)|) == []
    ensures ScanEnds(States(storage.start, storage.log), |old(storage.log)|, prefix, r)
    ensures r.Failure? ==> Unreadable(storage.flat, prefix, r.error)
    ensures storage.others == old(storage.others) ==>
              && storage.flat == old(storage.flat) && storage.log == old(storage.log)
              && r == EntriesOf(S.Listing(storage.flat, prefix))
  {
    hide *;
    ghost var n := |storage.log|;
    DrainBegins(storage.start, storage.log, prefix);
    MineEndsEmpty(me, storage.log);
    var collected: seq<FileEntry> := [];
    var cursor: Option<Key> := None;
    while true
      invariant storage.Valid() && old(storage.log) <= storage.log && storage.others <= old(storage.others)
      invariant Mine(me, storage.log, n) == []
      invariant ScanOk(States(storage.start, storage.log), 0, prefix, Scan(n, 0, collected, cursor, false))
      invariant storage.others == old(storage.others) ==> storage.flat == old(storage.flat) && storage.log == old(storage.log)
      decreases storage.others, |Beyond(storage.flat.objects.Keys, prefix, cursor)|
    {
      ghost var before, scan := storage.log, Scan(n, 0, collected, cursor, false);
      var page := ListPage(storage, me, prefix, cursor, size);
      MineGrows(me, before, storage.log, n);
      LatestState(storage);
      DrainPage(storage.start, before, storage.log, n, prefix, scan, size, page);
      if page.Failure? {
        r := Failure(page.error);
        break;
      }
      ScanOn(scan, n, collected, cursor, page.value);
      collected := collected + page.value.entries;
      cursor := page.value.next;
      if cursor.None? {
        r := Success(collected);
        break;
      }
    }
    LatestState(storage);
    EndsAlone(storage.start, storage.log, n, prefix, r);
  }

  /** The next page moves the drain on, or ends it. */
  lemma DrainPage(start: S.Flat, before: seq<Commit>, log: seq<Commit>, n: nat, prefix: Key, scan: Scan, size: nat,
                  page: Result<Page, string>)
    requires size >= 1 && before <= log && !scan.complete && scan.began == n && scan.beganClock == 0
    requires ScanOk(States(start, before), 0, prefix, scan)
    requires page == ListPrefix(StateAt(start, log, |log|), prefix, scan.cursor, size)
    ensures page.Failure? ==> ScanFails(States(start, log), n, prefix, page.error)
                              && Unreadable(StateAt(start, log, |log|), prefix, page.error)
    ensures page.Success? ==> ScanOk(States(start, log), 0, prefix, AddPage(scan, page.value))
    ensures page.Success? && page.value.next.Some? ==>
              |Beyond(StateAt(start, log, |log|).objects.Keys, prefix, page.value.next)|
              < |Beyond(StateAt(start, log, |log|).objects.Keys, prefix, scan.cursor)|
  {
    hide ScanOk, ListPrefix, Unreadable, PathsAscend, Sees;
    ScanSurvives(start, before, log, prefix, scan);
    if page.Failure? {
      assert FailsAfter(States(start, log), scan, size, prefix, page.error);
      FailureIsStored(States(start, log), n, prefix, page.error);
    } else {
      PageExtendsLog(start, log, prefix, scan, size);
      PageSees(StateAt(start, log, |log|), prefix, scan.cursor, size);
      if page.value.next.Some? {
        CursorAdvances(StateAt(start, log, |log|).objects.Keys, prefix, scan.cursor, page.value.next.value);
      }
    }
  }

  lemma ScanOn(scan: Scan, n: nat, collected: seq<FileEntry>, cursor: Option<Key>, page: Page)
    requires scan == Scan(n, 0, collected, cursor, false)
    ensures AddPage(scan, page) == Scan(n, 0, collected + page.entries, page.next, page.next.None?)
  {
  }

  /** Where the log has not grown, the drain ends as one listing does. */
  lemma EndsAlone(start: S.Flat, log: seq<Commit>, n: nat, prefix: Key, r: Result<seq<FileEntry>, string>)
    requires match r
             case Success(entries) => ScanOk(States(start, log), 0, prefix, Scan(n, 0, entries, None, true))
             case Failure(key) => ScanFails(States(start, log), n, prefix, key)
    ensures ScanEnds(States(start, log), n, prefix, r)
    ensures n == |log| ==> r == EntriesOf(S.Listing(StateAt(start, log, n), prefix))
  {
    hide ScanOk, ScanFails, EntriesOf;
    if n == |log| {
      EndsAsListing(States(start, log), n, prefix, r);
    }
  }

  lemma DrainBegins(start: S.Flat, log: seq<Commit>, prefix: Key)
    ensures ScanOk(States(start, log), 0, prefix, Scan(|log|, 0, [], None, false))
  {
  }

  /** A file that was there throughout a complete drain is in its result; one that never was is not. */
  lemma PresentThroughoutIsShown(hist: seq<S.Flat>, prefix: Key, began: nat, entries: seq<FileEntry>, k: Key)
    requires ScanOk(hist, 0, prefix, Scan(began, 0, entries, None, true)) && prefix <= k && ValidPath(k)
    ensures (forall t :: began <= t < |hist| ==> k in hist[t].objects) ==> exists e :: e in entries && e.path == k
    ensures (forall t :: began <= t < |hist| ==> k !in hist[t].objects) ==> forall e :: e in entries ==> e.path != k
  {
    hide ValidPath, FromMap;
    assert Reached(Scan(began, 0, entries, None, true), k);
    assert SeenSince(entries, hist, began, k);
    var t :| began <= t < |hist| && Sees(entries, hist[t], k);
  }
}
