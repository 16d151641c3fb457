/** Exporting an entity: its objects, raw and in key order, and what putting them back restores. */
module Export {
  import opened Wrappers
  import opened KeyOrder
  import opened Utf8
  import opened Paths
  import opened Metadata
  import opened SharedStorage
  import opened Purge
  import S = Storage

  datatype Exported = Exported(key: Key, data: seq<Byte>, metadata: TextMap, version: S.Version)

  function ExportedAt(f: S.Flat, key: Key): Exported
    requires key in f.objects
  {
    var o := f.objects[key];
    Exported(key, o.data, o.metadata, o.version)
  }

  function ExportOf(f: S.Flat, keys: seq<Key>): (out: seq<Exported>)
    requires forall k :: k in keys ==> k in f.objects
    ensures |out| == |keys| && forall i :: 0 <= i < |keys| ==> out[i] == ExportedAt(f, keys[i])
  {
    seq(|keys|, i requires 0 <= i < |keys| => ExportedAt(f, keys[i]))
  }

  /** Everything under the prefix, raw, in key order. */
  function ExportAll(f: S.Flat, prefix: Key): seq<Exported> {
    ExportOf(f, Sorted(KeysUnder(f, prefix)))
  }

  predicate ExportAscends(out: seq<Exported>) {
    forall i, j :: 0 <= i < j < |out| ==> Lt(out[i].key, out[j].key)
  }

  /** Each exported object was stored, exactly so, at some time since the first `n` commits. */
  ghost predicate WasStored(start: S.Flat, log: seq<Commit>, n: nat, e: Exported) {
    exists i :: n <= i <= |log| && e.key in StateAt(start, log, i).objects && ExportedAt(StateAt(start, log, i), e.key) == e
  }

  lemma WasStoredLonger(start: S.Flat, shorter: seq<Commit>, log: seq<Commit>, n: nat, e: Exported)
    requires shorter <= log && WasStored(start, shorter, n, e)
    ensures WasStored(start, log, n, e)
  {
    var i :| n <= i <= |shorter| && e.key in StateAt(start, shorter, i).objects
           && ExportedAt(StateAt(start, shorter, i), e.key) == e;
    assert StateAt(start, log, i) == StateAt(start, shorter, i);
  }

  predicate HasKey(out: seq<Exported>, k: Key) {
    exists i :: 0 <= i < |out| && out[i].key == k
  }

  /** Nothing was stored at the key at some time since the first `n` commits. */
  ghost predicate AbsentOnce(start: S.Flat, log: seq<Commit>, n: nat, k: Key) {
    exists i :: n <= i <= |log| && k !in StateAt(start, log, i).objects
  }

  predicate Passed(upto: Option<Key>, all: bool, k: Key) {
    all || (upto.Some? && Le(k, upto.value))
  }

  /** The export so far: ascending, every object as it was stored at some time of the call, and
      no key up to `upto` (or at all) left out that was there the whole time. */
  ghost predicate ExportOk(start: S.Flat, log: seq<Commit>, n: nat, prefix: Key, out: seq<Exported>,
                           upto: Option<Key>, all: bool)
  {
    && ExportAscends(out)
    && (forall i :: 0 <= i < |out| ==> prefix <= out[i].key && Passed(upto, all, out[i].key)
                                       && WasStored(start, log, n, out[i]))
    && (forall k :: prefix <= k && Passed(upto, all, k) ==> HasKey(out, k) || AbsentOnce(start, log, n, k))
  }

  lemma ExportOkLonger(start: S.Flat, shorter: seq<Commit>, log: seq<Commit>, n: nat, prefix: Key,
                       out: seq<Exported>, upto: Option<Key>, all: bool)
    requires shorter <= log && ExportOk(start, shorter, n, prefix, out, upto, all)
    ensures ExportOk(start, log, n, prefix, out, upto, all)
  {
    forall i | 0 <= i < |out|
      ensures WasStored(start, log, n, out[i])
    {
      WasStoredLonger(start, shorter, log, n, out[i]);
    }
    forall k | prefix <= k && Passed(upto, all, k)
      ensures HasKey(out, k) || AbsentOnce(start, log, n, k)
    {
      if !HasKey(out, k) {
        AbsentLonger(start, shorter, log, n, k);
      }
    }
  }

  lemma AbsentLonger(start: S.Flat, shorter: seq<Commit>, log: seq<Commit>, n: nat, k: Key)
    requires shorter <= log && AbsentOnce(start, shorter, n, k)
    ensures AbsentOnce(start, log, n, k)
  {
    var i :| n <= i <= |shorter| && k !in StateAt(start, shorter, i).objects;
    assert StateAt(start, log, i) == StateAt(start, shorter, i);
  }

  /** Every key strictly between two positions was absent at some time. */
  ghost predicate Vacant(start: S.Flat, log: seq<Commit>, n: nat, prefix: Key, after: Option<Key>, before: Option<Key>) {
    forall k :: prefix <= k && (after.Some? ==> Lt(after.value, k)) && (before.Some? ==> Lt(k, before.value)) ==>
                  AbsentOnce(start, log, n, k)
  }

  lemma VacantLonger(start: S.Flat, shorter: seq<Commit>, log: seq<Commit>, n: nat, prefix: Key,
                     after: Option<Key>, before: Option<Key>)
    requires shorter <= log && Vacant(start, shorter, n, prefix, after, before)
    ensures Vacant(start, log, n, prefix, after, before)
  {
    forall k | prefix <= k && (after.Some? ==> Lt(after.value, k)) && (before.Some? ==> Lt(k, before.value))
      ensures AbsentOnce(start, log, n, k)
    {
      AbsentLonger(start, shorter, log, n, k);
    }
  }

  /** The position before the `i`th object of a page. */
  function Before(cursor: Option<Key>, page: seq<S.Listed>, i: nat): Option<Key>
    requires i <= |page|
  {
    if i == 0 then cursor else Some(page[i - 1].key)
  }

  /** A page leaves nothing out between its objects, and nothing after them if it is short. */
  ghost predicate PageVacant(start: S.Flat, log: seq<Commit>, n: nat, prefix: Key, cursor: Option<Key>,
                             page: seq<S.Listed>, size: nat)
  {
    && (forall i :: 0 <= i < |page| ==> Vacant(start, log, n, prefix, Before(cursor, page, i), Some(page[i].key)))
    && (|page| < size ==> Vacant(start, log, n, prefix, Before(cursor, page, |page|), None))
  }

  lemma PageIsVacant(start: S.Flat, log: seq<Commit>, n: nat, prefix: Key, cursor: Option<Key>, size: nat)
    requires n <= |log|
    ensures PageVacant(start, log, n, prefix, cursor, S.ListPage(StateAt(start, log, |log|), prefix, cursor, size), size)
  {
    hide *;
    var f := StateAt(start, log, |log|);
    var page := S.ListPage(f, prefix, cursor, size);
    PageOfWindow(f, prefix, cursor, size);
    forall i | 0 <= i < |page|
      ensures Vacant(start, log, n, prefix, Before(cursor, page, i), Some(page[i].key))
    {
      BeforeIs(cursor, page, i);
      GapIsVacant(start, log, n, prefix, cursor, i);
    }
    if |page| < size {
      BeforeIs(cursor, page, |page|);
      GapIsVacant(start, log, n, prefix, cursor, |page|);
    }
    NoGaps(start, log, n, prefix, cursor, page, size);
  }

  lemma NoGaps(start: S.Flat, log: seq<Commit>, n: nat, prefix: Key, cursor: Option<Key>, page: seq<S.Listed>, size: nat)
    requires forall i :: 0 <= i < |page| ==> Vacant(start, log, n, prefix, Before(cursor, page, i), Some(page[i].key))
    requires |page| < size ==> Vacant(start, log, n, prefix, Before(cursor, page, |page|), None)
    ensures PageVacant(start, log, n, prefix, cursor, page, size)
  {
  }

  lemma PageOfWindow(f: S.Flat, prefix: Key, cursor: Option<Key>, size: nat)
    ensures var s := Sorted(Beyond(f.objects.Keys, prefix, cursor));
            var page := S.ListPage(f, prefix, cursor, size);
            && |page| == (if size < |s| then size else |s|)
            && forall i :: 0 <= i < |page| ==> page[i].key == s[i]
  {
  }

  /** The position `i` of the whole window: its predecessor, or the cursor. */
  lemma GapIsVacant(start: S.Flat, log: seq<Commit>, n: nat, prefix: Key, cursor: Option<Key>, i: nat)
    requires n <= |log| && i <= |Sorted(Beyond(StateAt(start, log, |log|).objects.Keys, prefix, cursor))|
    ensures var s := Sorted(Beyond(StateAt(start, log, |log|).objects.Keys, prefix, cursor));
            Vacant(start, log, n, prefix, if i == 0 then cursor else Some(s[i - 1]), if i < |s| then Some(s[i]) else None)
  {
    hide Lt, Sorted, Beyond;
    var f := StateAt(start, log, |log|);
    var s := Sorted(Beyond(f.objects.Keys, prefix, cursor));
    var after, before := if i == 0 then cursor else Some(s[i - 1]), if i < |s| then Some(s[i]) else None;
    forall k | prefix <= k && (after.Some? ==> Lt(after.value, k)) && (before.Some? ==> Lt(k, before.value))
      ensures AbsentOnce(start, log, n, k)
    {
      BetweenIsAbsent(f.objects.Keys, prefix, cursor, i, k);
    }
  }

  lemma BetweenIsAbsent(stored: set<Key>, prefix: Key, cursor: Option<Key>, i: nat, k: Key)
    requires var s := Sorted(Beyond(stored, prefix, cursor));
             && i <= |s| && prefix <= k
             && (if i == 0 then cursor.Some? ==> Lt(cursor.value, k) else Lt(s[i - 1], k))
             && (i < |s| ==> Lt(k, s[i]))
    ensures k !in stored
  {
    hide Lt, Sorted;
    var window := Beyond(stored, prefix, cursor);
    var s := Sorted(window);
    if k in stored {
      if i > 0 && cursor.Some? {
        assert s[i - 1] in s;
        LtTransitive(cursor.value, s[i - 1], k);
      }
      assert k in s;
      var j :| 0 <= j < |s| && s[j] == k;
      LtIrreflexive(k);
      if j < i - 1 {
        LtAsymmetric(s[j], s[i - 1]);
      }
      if j > i {
        LtAsymmetric(s[i], s[j]);
      }
    }
  }

  /** The next listed object, read: its current state is added, or it is gone and skipped. */
  lemma ExportNext(start: S.Flat, log: seq<Commit>, n: nat, prefix: Key, out: seq<Exported>, upto: Option<Key>, key: Key,
                   stored: Option<S.Object>)
    requires n <= |log| && stored == S.Get(StateAt(start, log, |log|), key) && prefix <= key
           && (upto.Some? ==> Lt(upto.value, key))
    requires ExportOk(start, log, n, prefix, out, upto, false) && Vacant(start, log, n, prefix, upto, Some(key))
    ensures ExportOk(start, log, n, prefix,
                     if stored.Some? then out + [Exported(key, stored.value.data, stored.value.metadata, stored.value.version)]
                     else out, Some(key), false)
  {
    var f := StateAt(start, log, |log|);
    var out' := if key in f.objects then out + [ExportedAt(f, key)] else out;
    hide Lt;
    forall i | 0 <= i < |out|
      ensures Lt(out[i].key, key)
    {
      PassedThenLt(upto, key, out[i].key);
    }
    if key in f.objects {
      assert WasStored(start, log, n, ExportedAt(f, key));
      assert out'[|out|].key == key;
    } else {
      assert AbsentOnce(start, log, n, key);
    }
    forall k | prefix <= k && Passed(Some(key), false, k)
      ensures HasKey(out', k) || AbsentOnce(start, log, n, k)
    {
      Between(upto, k);
      if Passed(upto, false, k) && HasKey(out, k) {
        var i :| 0 <= i < |out| && out[i].key == k;
        assert out'[i].key == k;
      }
    }
  }

  lemma PassedThenLt(upto: Option<Key>, key: Key, k: Key)
    requires Passed(upto, false, k) && (upto.Some? ==> Lt(upto.value, key))
    ensures Lt(k, key)
  {
    if k != upto.value {
      LtTransitive(k, upto.value, key);
    }
  }

  lemma Between(upto: Option<Key>, k: Key)
    ensures Passed(upto, false, k) || (upto.Some? ==> Lt(upto.value, k))
  {
    if upto.Some? {
      LtTotal(k, upto.value);
    }
  }

  lemma ExportEnds(start: S.Flat, log: seq<Commit>, n: nat, prefix: Key, out: seq<Exported>, upto: Option<Key>)
    requires ExportOk(start, log, n, prefix, out, upto, false) && Vacant(start, log, n, prefix, upto, None)
    ensures ExportOk(start, log, n, prefix, out, None, true)
  {
    forall k | prefix <= k
      ensures HasKey(out, k) || AbsentOnce(start, log, n, k)
    {
      Between(upto, k);
    }
  }

  /** Undisturbed, what was stored during the call is what is stored. */
  lemma QuietExport(start: S.Flat, log: seq<Commit>, prefix: Key, out: seq<Exported>)
    requires ExportOk(start, log, |log|, prefix, out, None, true)
    ensures out == ExportAll(StateAt(start, log, |log|), prefix)
  {
    var f := StateAt(start, log, |log|);
    var keys := seq(|out|, i requires 0 <= i < |out| => out[i].key);
    forall i | 0 <= i < |out|
      ensures out[i].key in KeysUnder(f, prefix) && out[i] == ExportedAt(f, out[i].key)
    {
      assert WasStored(start, log, |log|, out[i]);
    }
    forall k | k in KeysUnder(f, prefix)
      ensures k in keys
    {
      assert Passed(None, true, k) && !AbsentOnce(start, log, |log|, k);
      assert HasKey(out, k);
      var i :| 0 <= i < |out| && out[i].key == k;
      assert keys[i] == k;
    }
    SortedIs(KeysUnder(f, prefix), keys);
  }

  predicate PageAscends(cursor: Option<Key>, prefix: Key, page: seq<S.Listed>) {
    forall i :: 0 <= i < |page| ==> prefix <= page[i].key
                                    && (Before(cursor, page, i).Some? ==> Lt(Before(cursor, page, i).value, page[i].key))
  }

  lemma ListedAscends(f: S.Flat, prefix: Key, cursor: Option<Key>, size: nat)
    ensures PageAscends(cursor, prefix, S.ListPage(f, prefix, cursor, size))
  {
    var keys := PageKeys(f.objects.Keys, prefix, cursor, size);
    forall i | 0 <= i < |keys|
      ensures keys[i] in Beyond(f.objects.Keys, prefix, cursor)
    {
      assert keys[i] in keys;
    }
  }

  method ExportPage(storage: SharedStorage, me: Client, prefix: Key, ghost cursor: Option<Key>, page: seq<S.Listed>,
                    ghost size: nat, ghost n: nat, out: seq<Exported>)
    returns (out': seq<Exported>)
    requires storage.Valid() && n <= |storage.log| && PageAscends(cursor, prefix, page)
    requires ExportOk(storage.start, storage.log, n, prefix, out, cursor, false)
    requires PageVacant(storage.start, storage.log, n, prefix, cursor, page, size)
    modifies storage`flat, storage`log, storage`others
    ensures storage.Valid() && old(storage.log) <= storage.log && storage.others <= old(storage.others)
    ensures Mine(me, storage.log, |old(storage.log)|) == []
    ensures storage.others == old(storage.others) ==> storage.flat == old(storage.flat) && storage.log == old(storage.log)
    ensures ExportOk(storage.start, storage.log, n, prefix, out', Before(cursor, page, |page|), false)
    ensures PageVacant(storage.start, storage.log, n, prefix, cursor, page, size)
  {
    hide *;
    out' := out;
    BeforeIs(cursor, page, 0);
    MineEndsEmpty(me, storage.log);
    for i := 0 to |page|
      invariant storage.Valid() && old(storage.log) <= storage.log && storage.others <= old(storage.others)
      invariant Mine(me, storage.log, |old(storage.log)|) == []
      invariant storage.others == old(storage.others) ==> storage.flat == old(storage.flat) && storage.log == old(storage.log)
      invariant ExportOk(storage.start, storage.log, n, prefix, out', Before(cursor, page, i), false)
      invariant PageVacant(storage.start, storage.log, n, prefix, cursor, page, size)
    {
      ghost var before := storage.log;
      var stored := storage.Get(me, page[i].key);
      MineGrows(me, before, storage.log, |old(storage.log)|);
      ExportOkLonger(storage.start, before, storage.log, n, prefix, out', Before(cursor, page, i), false);
      PageVacantLonger(storage.start, before, storage.log, n, prefix, cursor, page, size);
      GapBefore(storage.start, storage.log, n, prefix, cursor, page, size, i);
      NextIsLater(cursor, prefix, page, i);
      Latest(storage);
      ExportNext(storage.start, storage.log, n, prefix, out', Before(cursor, page, i), page[i].key, stored);
      if stored.Some? {
        out' := out' + [Exported(page[i].key, stored.value.data, stored.value.metadata, stored.value.version)];
      }
      BeforeIs(cursor, page, i + 1);
    }
  }

  lemma PageVacantLonger(start: S.Flat, shorter: seq<Commit>, log: seq<Commit>, n: nat, prefix: Key,
                         cursor: Option<Key>, page: seq<S.Listed>, size: nat)
    requires shorter <= log && PageVacant(start, shorter, n, prefix, cursor, page, size)
    ensures PageVacant(start, log, n, prefix, cursor, page, size)
  {
    hide Vacant;
    forall i | 0 <= i < |page|
      ensures Vacant(start, log, n, prefix, Before(cursor, page, i), Some(page[i].key))
    {
      VacantLonger(start, shorter, log, n, prefix, Before(cursor, page, i), Some(page[i].key));
    }
    if |page| < size {
      VacantLonger(start, shorter, log, n, prefix, Before(cursor, page, |page|), None);
    }
  }

  lemma BeforeIs(cursor: Option<Key>, page: seq<S.Listed>, i: nat)
    requires i <= |page|
    ensures Before(cursor, page, i) == if i == 0 then cursor else Some(page[i - 1].key)
  {
  }

  lemma NextIsLater(cursor: Option<Key>, prefix: Key, page: seq<S.Listed>, i: nat)
    requires PageAscends(cursor, prefix, page) && i < |page|
    ensures prefix <= page[i].key && (Before(cursor, page, i).Some? ==> Lt(Before(cursor, page, i).value, page[i].key))
  {
  }

  lemma Latest(storage: SharedStorage)
    requires storage.Valid()
    ensures StateAt(storage.start, storage.log, |storage.log|) == storage.flat
  {
  }

  lemma GapBefore(start: S.Flat, log: seq<Commit>, n: nat, prefix: Key, cursor: Option<Key>, page: seq<S.Listed>,
                  size: nat, i: nat)
    requires PageVacant(start, log, n, prefix, cursor, page, size) && i < |page|
    ensures Vacant(start, log, n, prefix, Before(cursor, page, i), Some(page[i].key))
  {
  }

  lemma GapAfter(start: S.Flat, log: seq<Commit>, n: nat, prefix: Key, cursor: Option<Key>, page: seq<S.Listed>, size: nat)
    requires PageVacant(start, log, n, prefix, cursor, page, size) && |page| < size
    ensures Vacant(start, log, n, prefix, Before(cursor, page, |page|), None)
  {
  }

  lemma ExportBegins(start: S.Flat, log: seq<Commit>, prefix: Key)
    ensures ExportOk(start, log, |log|, prefix, [], None, false)
  {
  }

  lemma LastBeyond(f: S.Flat, prefix: Key, cursor: Option<Key>, size: nat)
    requires S.ListPage(f, prefix, cursor, size) != []
    ensures var page := S.ListPage(f, prefix, cursor, size);
            page[|page| - 1].key in Beyond(f.objects.Keys, prefix, cursor)
  {
    var keys := PageKeys(f.objects.Keys, prefix, cursor, size);
    assert keys[|keys| - 1] in keys;
  }

  /** `export`. Whatever others do, the result ascends, shows each object as it was stored at some
      time of the call, and misses no key that was there throughout; undisturbed, it is everything
      under the prefix. It writes nothing. */
  method Export(storage: SharedStorage, me: Client, prefix: Key, size: nat) returns (out: seq<Exported>)
    requires storage.Valid() && size >= 1
    modifies storage`flat, storage`log, storage`others, storage`pages
    ensures storage.Valid() && old(storage.log) <= storage.log && Mine(me, storage.log, |old(storage.log)|) == []
    ensures ExportOk(storage.start, storage.log, |old(storage.log)|, prefix, out, None, true)
    ensures storage.others == old(storage.others) ==>
              storage.flat == old(storage.flat) && out == ExportAll(storage.flat, prefix)
  {
    hide *;
    out := [];
    var cursor: Option<Key> := None;
    ghost var n := |storage.log|;
    ExportBegins(storage.start, storage.log, prefix);
    MineEndsEmpty(me, storage.log);
    while true
      invariant storage.Valid() && old(storage.log) <= storage.log && storage.others <= old(storage.others)
      invariant Mine(me, storage.log, n) == []
      invariant storage.others == old(storage.others) ==> storage.flat == old(storage.flat) && storage.log == old(storage.log)
      invariant ExportOk(storage.start, storage.log, n, prefix, out, cursor, false)
      decreases storage.others, |Beyond(storage.flat.objects.Keys, prefix, cursor)|
    {
      ghost var before, previous := storage.log, cursor;
      var page := storage.ListPage(me, prefix, cursor, size);
      MineGrows(me, before, storage.log, n);
      ExportOkLonger(storage.start, before, storage.log, n, prefix, out, cursor, false);
      Latest(storage);
      PageIsVacant(storage.start, storage.log, n, prefix, cursor, size);
      ListedAscends(storage.flat, prefix, cursor, size);
      ghost var listedAt, listedFlat := storage.log, storage.flat;
      out := ExportPage(storage, me, prefix, cursor, page, size, n, out);
      MineGrows(me, listedAt, storage.log, n);
      Latest(storage);
      BeforeIs(cursor, page, |page|);
      if |page| < size {
        GapAfter(storage.start, storage.log, n, prefix, cursor, page, size);
        ExportEnds(storage.start, storage.log, n, prefix, out, Before(cursor, page, |page|));
        if storage.others == old(storage.others) {
          QuietExport(storage.start, storage.log, prefix, out);
        }
        return;
      }
      LastBeyond(listedFlat, prefix, cursor, size);
      CursorAdvances(listedFlat.objects.Keys, prefix, cursor, page[|page| - 1].key);
      cursor := Some(page[|page| - 1].key);
    }
  }

  /** Putting exported objects back, one unconditional put each. */
  function PutBack(f: S.Flat, out: seq<Exported>): S.Flat
    decreases |out|
  {
    if out == [] then f else PutBack(S.Put(f, out[0].key, out[0].data, out[0].metadata), out[1..])
  }

  predicate SameObject(o: S.Object, e: Exported) {
    o.data == e.data && o.metadata == e.metadata
  }

  /** What putting back leaves: the exported objects at new versions, every other one untouched. */
  lemma {:induction false} PutBackStores(f: S.Flat, out: seq<Exported>)
    requires ExportAscends(out)
    ensures var g := PutBack(f, out);
            && g.next == f.next + |out|
            && (forall i :: 0 <= i < |out| ==> out[i].key in g.objects && SameObject(g.objects[out[i].key], out[i])
                                               && g.objects[out[i].key].version >= f.next)
            && (forall k :: !HasKey(out, k) ==> S.Get(g, k) == S.Get(f, k))
    decreases |out|
  {
    if out == [] {
    } else {
      var e, rest := out[0], out[1..];
      var h := S.Put(f, e.key, e.data, e.metadata);
      forall i | 0 <= i < |rest|
        ensures rest[i].key != e.key
      {
        LtIrreflexive(e.key);
        assert Lt(out[0].key, out[i + 1].key);
      }
      PutBackStores(h, rest);
      assert !HasKey(rest, e.key);
      forall k | !HasKey(out, k)
        ensures !HasKey(rest, k) && k != e.key
      {
        assert out[0].key == e.key;
        TailKey(out, k);
      }
      assert S.Get(PutBack(h, rest), e.key) == S.Get(h, e.key);
    }
  }

  lemma TailKey(out: seq<Exported>, k: Key)
    requires out != []
    ensures HasKey(out[1..], k) ==> HasKey(out, k)
  {
    if HasKey(out[1..], k) {
      var i :| 0 <= i < |out| - 1 && out[1..][i].key == k;
      assert out[i + 1].key == k;
    }
  }

  predicate SameButVersions(a: seq<Exported>, b: seq<Exported>) {
    |a| == |b| && forall i :: 0 <= i < |a| ==> b[i] == a[i].(version := b[i].version)
  }

  /** Export, purge, put everything back, export again: the same objects in the same order, every
      one at a version never used before, and nothing outside the prefix has changed. */
  lemma RestoredAfterPurge(f: S.Flat, prefix: Key)
    requires S.Issued(f)
    ensures var out := ExportAll(f, prefix);
            var g := PutBack(Purged(f, prefix), out);
            var again := ExportAll(g, prefix);
            && SameButVersions(out, again)
            && (forall i :: 0 <= i < |again| ==> again[i].version >= f.next)
            && (forall k :: !(prefix <= k) ==> S.Get(g, k) == S.Get(f, k))
            && KeysUnder(Purged(f, prefix), prefix) == {}
  {
    hide *;
    var out, purged := ExportAll(f, prefix), Purged(f, prefix);
    var g := PutBack(purged, out);
    ExportAllIs(f, prefix);
    PutBackStores(purged, out);
    RestoredKeys(f, g, prefix);
    ExportAllIs(g, prefix);
    PurgedIs(f, prefix);
    forall i | 0 <= i < |out|
      ensures ExportAll(g, prefix)[i] == out[i].(version := g.objects[out[i].key].version)
    {
      assert out[i].key in g.objects && SameObject(g.objects[out[i].key], out[i]);
      SameExported(g, out[i]);
    }
    RestoredIsSame(out, ExportAll(g, prefix));
  }

  lemma SameExported(g: S.Flat, e: Exported)
    requires e.key in g.objects && SameObject(g.objects[e.key], e)
    ensures ExportedAt(g, e.key) == e.(version := g.objects[e.key].version)
  {
  }

  lemma RestoredIsSame(a: seq<Exported>, b: seq<Exported>)
    requires |a| == |b| && forall i :: 0 <= i < |a| ==> b[i] == a[i].(version := b[i].version)
    ensures SameButVersions(a, b)
  {
  }

  lemma PurgedIs(f: S.Flat, prefix: Key)
    ensures Purged(f, prefix).next == f.next && KeysUnder(Purged(f, prefix), prefix) == {}
    ensures forall k :: !(prefix <= k) ==> S.Get(Purged(f, prefix), k) == S.Get(f, k)
    ensures forall k :: prefix <= k ==> k !in Purged(f, prefix).objects
  {
  }

  /** An export lists the keys in ascending order, each with its object. */
  lemma ExportAllIs(f: S.Flat, prefix: Key)
    ensures var out := ExportAll(f, prefix);
            && ExportAscends(out) && |out| == |Sorted(KeysUnder(f, prefix))|
            && (forall i :: 0 <= i < |out| ==> out[i].key == Sorted(KeysUnder(f, prefix))[i] && out[i].key in f.objects
                                               && prefix <= out[i].key && out[i] == ExportedAt(f, out[i].key))
            && (forall k :: HasKey(out, k) <==> k in KeysUnder(f, prefix))
  {
    var keys := Sorted(KeysUnder(f, prefix));
    var out := ExportAll(f, prefix);
    forall i | 0 <= i < |out|
      ensures out[i].key in f.objects && prefix <= out[i].key
    {
      assert keys[i] in KeysUnder(f, prefix);
    }
    forall k
      ensures HasKey(out, k) <==> k in keys
    {
      if k in keys {
        var i :| 0 <= i < |keys| && keys[i] == k;
        assert out[i].key == k;
      }
    }
  }

  lemma RestoredKeys(f: S.Flat, g: S.Flat, prefix: Key)
    requires forall i :: 0 <= i < |ExportAll(f, prefix)| ==> ExportAll(f, prefix)[i].key in g.objects
    requires forall k :: !HasKey(ExportAll(f, prefix), k) ==> S.Get(g, k) == S.Get(Purged(f, prefix), k)
    ensures KeysUnder(g, prefix) == KeysUnder(f, prefix)
    ensures forall k :: !(prefix <= k) ==> S.Get(g, k) == S.Get(f, k)
  {
    hide *;
    var out, purged := ExportAll(f, prefix), Purged(f, prefix);
    ExportAllIs(f, prefix);
    PurgedIs(f, prefix);
    forall k
      ensures k in KeysUnder(g, prefix) <==> k in KeysUnder(f, prefix)
      ensures !(prefix <= k) ==> S.Get(g, k) == S.Get(f, k)
    {
      UnderIs(f, prefix, k);
      UnderIs(g, prefix, k);
      if HasKey(out, k) {
        var i := KeyIndex(out, k);
      } else {
        assert S.Get(g, k) == S.Get(purged, k);
      }
      GetIs(g, purged, k);
    }
  }

  lemma KeyIndex(out: seq<Exported>, k: Key) returns (i: nat)
    requires HasKey(out, k)
    ensures i < |out| && out[i].key == k
  {
    i :| 0 <= i < |out| && out[i].key == k;
  }

  lemma UnderIs(f: S.Flat, prefix: Key, k: Key)
    ensures k in KeysUnder(f, prefix) <==> k in f.objects && prefix <= k
  {
  }

  lemma GetIs(f: S.Flat, g: S.Flat, k: Key)
    ensures S.Get(f, k) == S.Get(g, k) ==> (k in f.objects <==> k in g.objects)
  {
  }

  /** Restoring one entity leaves every other entity exactly as it was. */
  lemma NeighboursUntouched(f: S.Flat, scope: string, entity: string, scope': string, entity': string)
    requires S.Issued(f)
    requires '/' !in scope && '/' !in entity && '/' !in scope' && '/' !in entity'
    requires scope != scope' || entity != entity'
    ensures var prefix := EntityPrefix(scope, entity);
            var other := EntityPrefix(scope', entity');
            var g := PutBack(Purged(f, prefix), ExportAll(f, prefix));
            ExportAll(Purged(f, prefix), other) == ExportAll(f, other) && ExportAll(g, other) == ExportAll(f, other)
  {
    var prefix, other := EntityPrefix(scope, entity), EntityPrefix(scope', entity');
    RestoredAfterPurge(f, prefix);
    var g := PutBack(Purged(f, prefix), ExportAll(f, prefix));
    forall k | other <= k
      ensures S.Get(g, k) == S.Get(f, k) && S.Get(Purged(f, prefix), k) == S.Get(f, k)
    {
      if prefix <= k {
        EntitiesDisjoint(scope, entity, scope', entity', k);
      }
    }
    SameExport(f, g, other);
    SameExport(f, Purged(f, prefix), other);
  }

  lemma SameExport(f: S.Flat, g: S.Flat, prefix: Key)
    requires forall k :: prefix <= k ==> S.Get(g, k) == S.Get(f, k)
    ensures ExportAll(g, prefix) == ExportAll(f, prefix)
  {
    forall k
      ensures k in KeysUnder(f, prefix) <==> k in KeysUnder(g, prefix)
    {
      if prefix <= k {
        assert S.Get(g, k) == S.Get(f, k);
      }
    }
    assert KeysUnder(f, prefix) == KeysUnder(g, prefix);
    hide Lt, Beyond;
    var keys := Sorted(KeysUnder(f, prefix));
    forall i | 0 <= i < |keys|
      ensures keys[i] in f.objects && keys[i] in g.objects && ExportedAt(f, keys[i]) == ExportedAt(g, keys[i])
    {
      assert keys[i] in KeysUnder(f, prefix);
      UnderIs(f, prefix, keys[i]);
      assert S.Get(g, keys[i]) == S.Get(f, keys[i]);
    }
  }
}
