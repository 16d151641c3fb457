/** A listing read page by page while the storage changes: every key it passes is shown as it was
    at some time since the listing began. */
module PagedScan {
  import opened Wrappers
  import opened KeyOrder
  import opened Listing
  import S = Storage

  /** A paged listing in progress or complete. `began` and `beganClock` are history: the step and
      the clock reading at which it started. */
  datatype Scan = Scan(began: nat, beganClock: nat, entries: seq<FileEntry>, cursor: Option<Key>, complete: bool)

  function AddPage(scan: Scan, page: Page): Scan {
    scan.(entries := scan.entries + page.entries, cursor := page.next, complete := page.next.None?)
  }

  /** Some storage no older than `began` shows `k` as `entries` does. */
  ghost predicate SeenSince(entries: seq<FileEntry>, hist: seq<S.Flat>, began: nat, k: Key) {
    exists t :: began <= t < |hist| && Sees(entries, hist[t], k)
  }

  /** Some storage no older than `began` held the file exactly as the entry describes it. */
  ghost predicate StoredSince(hist: seq<S.Flat>, began: nat, e: FileEntry) {
    exists t :: began <= t < |hist| && StoredAs(hist[t], e)
  }

  predicate Reached(scan: Scan, k: Key) {
    scan.complete || (scan.cursor.Some? && Le(k, scan.cursor.value))
  }

  /** Every key the scan has passed is shown as it was at some time since the scan began. */
  ghost predicate ScanOk(hist: seq<S.Flat>, clock: nat, prefix: Key, scan: Scan) {
    && scan.began < |hist| && scan.beganClock <= clock
    && PathsAscend(scan.entries)
    && (forall e :: e in scan.entries ==> prefix <= e.path && Reached(scan, e.path))
    && (forall k :: prefix <= k && Reached(scan, k) ==> SeenSince(scan.entries, hist, scan.began, k))
  }

  /** Reading the next page keeps what was passed as it was seen, and adds the page's keys as
      the storage has them now. */
  lemma PageExtendsScan(hist: seq<S.Flat>, clock: nat, prefix: Key, scan: Scan, size: nat)
    requires hist != [] && size >= 1 && !scan.complete
    requires ScanOk(hist, clock, prefix, scan)
    requires ListPrefix(hist[|hist| - 1], prefix, scan.cursor, size).Success?
    ensures var f := hist[|hist| - 1];
            var page := ListPrefix(f, prefix, scan.cursor, size).value;
            ScanOk(hist + [f], clock, prefix, AddPage(scan, page))
  {
    var f := hist[|hist| - 1];
    var page := ListPrefix(f, prefix, scan.cursor, size).value;
    PageSees(f, prefix, scan.cursor, size);
    var scan' := AddPage(scan, page);
    forall e | e in page.entries
      ensures scan.cursor.Some? ==> Lt(scan.cursor.value, e.path)
    {
      assert Covered(e.path, prefix, scan.cursor, page.next);
    }
    EntriesJoin(scan.entries, page.entries, scan.cursor);
    forall e | e in scan.entries
      ensures Reached(scan', e.path)
    {
      ReachedOn(scan, scan', e.path);
    }
    forall k | prefix <= k && Reached(scan', k)
      ensures SeenSince(scan'.entries, hist + [f], scan.began, k)
    {
      LeOrLt(k, scan.cursor);
      if Reached(scan, k) {
        assert SeenSince(scan.entries, hist, scan.began, k);
        var t :| scan.began <= t < |hist| && Sees(scan.entries, hist[t], k);
        SeesMore(scan.entries, page.entries, scan.cursor, hist[t], k);
        assert (hist + [f])[t] == hist[t];
      } else {
        assert Covered(k, prefix, scan.cursor, page.next);
        SeesLater(scan.entries, page.entries, scan.cursor, f, k);
        assert (hist + [f])[|hist|] == f;
      }
    }
  }

  lemma LeOrLt(k: Key, cursor: Option<Key>)
    ensures cursor.Some? ==> Le(k, cursor.value) || Lt(cursor.value, k)
    ensures cursor.Some? ==> !(Le(k, cursor.value) && Lt(cursor.value, k))
  {
    if cursor.Some? {
      LtTotal(k, cursor.value);
      LtIrreflexive(k);
      if Lt(cursor.value, k) {
        LtAsymmetric(cursor.value, k);
      }
    }
  }

  lemma ReachedOn(scan: Scan, scan': Scan, k: Key)
    requires Reached(scan, k) && !scan.complete
    requires scan'.complete
             || (scan'.cursor.Some? && Lt(scan.cursor.value, scan'.cursor.value))
    ensures Reached(scan', k)
  {
    if !scan'.complete && k != scan.cursor.value {
      LtTransitive(k, scan.cursor.value, scan'.cursor.value);
    }
  }

  predicate UpTo(entries: seq<FileEntry>, cursor: Option<Key>) {
    forall e :: e in entries ==> cursor.Some? && Le(e.path, cursor.value)
  }

  predicate After(entries: seq<FileEntry>, cursor: Option<Key>) {
    forall e :: e in entries ==> (cursor.Some? ==> Lt(cursor.value, e.path))
  }

  lemma EntriesJoin(a: seq<FileEntry>, b: seq<FileEntry>, cursor: Option<Key>)
    requires PathsAscend(a) && PathsAscend(b) && UpTo(a, cursor) && After(b, cursor)
    ensures PathsAscend(a + b)
  {
    forall i, j | 0 <= i < |a| <= j < |a| + |b|
      ensures Lt((a + b)[i].path, (a + b)[j].path)
    {
      assert a[i] in a && b[j - |a|] in b;
      if a[i].path != cursor.value {
        LtTransitive(a[i].path, cursor.value, b[j - |a|].path);
      }
    }
  }

  lemma SeesMore(a: seq<FileEntry>, b: seq<FileEntry>, cursor: Option<Key>, f: S.Flat, k: Key)
    requires Sees(a, f, k) && After(b, cursor) && cursor.Some? && Le(k, cursor.value)
    ensures Sees(a + b, f, k)
  {
    forall e | e in b
      ensures e.path != k
    {
      LeOrLt(k, cursor);
    }
  }

  lemma SeesLater(a: seq<FileEntry>, b: seq<FileEntry>, cursor: Option<Key>, f: S.Flat, k: Key)
    requires Sees(b, f, k) && UpTo(a, cursor) && (cursor.Some? ==> Lt(cursor.value, k))
    ensures Sees(a + b, f, k)
  {
    forall e | e in a
      ensures e.path != k
    {
      LeOrLt(e.path, cursor);
    }
  }
}
