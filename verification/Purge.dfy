/** Purging an entity: paged passes of conditional deletes, until a pass finds nothing. */
module Purge {
  import opened Wrappers
  import opened KeyOrder
  import opened SharedStorage
  import S = Storage

  function KeysUnder(f: S.Flat, prefix: Key): set<Key> {
    Beyond(f.objects.Keys, prefix, None)
  }

  /** What a complete purge leaves: every other object, untouched. */
  function Purged(f: S.Flat, prefix: Key): S.Flat {
    S.Flat(map k | k in f.objects && !(prefix <= k) :: f.objects[k], f.next)
  }

  /** A purge part-way: only objects under the prefix are gone, the rest are as they were. */
  predicate PartlyPurged(f: S.Flat, now: S.Flat, prefix: Key) {
    && now.next == f.next && now.objects.Keys <= f.objects.Keys
    && (forall k :: k in now.objects ==> now.objects[k] == f.objects[k])
    && (forall k :: k in f.objects && !(prefix <= k) ==> k in now.objects)
  }

  lemma PurgedWhenEmpty(f: S.Flat, now: S.Flat, prefix: Key)
    requires PartlyPurged(f, now, prefix) && KeysUnder(now, prefix) == {}
    ensures now == Purged(f, prefix)
  {
    forall k | k in now.objects
      ensures !(prefix <= k)
    {
      assert k !in KeysUnder(now, prefix);
    }
    assert now.objects == Purged(f, prefix).objects;
  }

  /** The `j`th commit removes an object under the prefix, at the version that a page listed since
      `p0`, no later than the commit, shows for it. */
  ghost predicate DeletesOneListed(c: Commit, j: nat, me: Client, prefix: Key, pages: seq<ListCall>, p0: nat) {
    && c.request == Deleting && prefix <= c.key && c.key in c.before.objects && c.after == S.Remove(c.before, c.key)
    && exists q: nat, i: nat :: p0 <= q < |pages| && pages[q].client == me && pages[q].at <= j && ShowsVersion(pages[q], i, c)
  }

  ghost predicate ShowsVersion(listed: ListCall, i: nat, c: Commit)
    requires c.key in c.before.objects
  {
    i < |listed.page| && listed.page[i].key == c.key && listed.page[i].version == c.before.objects[c.key].version
  }

  /** All of a client's commits since the first `n` are such deletions, and the pages since `p0` list
      what was stored when they were read. */
  ghost predicate DeletesListed(start: S.Flat, log: seq<Commit>, n: nat, me: Client, prefix: Key, pages: seq<ListCall>, p0: nat) {
    && (forall j :: n <= j < |log| && log[j].author == me ==> DeletesOneListed(log[j], j, me, prefix, pages, p0))
    && (forall q :: p0 <= q < |pages| ==>
          n <= pages[q].at <= |log| && ListsStored(StateAt(start, log, pages[q].at), pages[q].page))
  }

  ghost predicate ListsStored(f: S.Flat, page: seq<S.Listed>) {
    forall i :: 0 <= i < |page| ==> IsListed(f, page[i])
  }

  /** Others' commits and further pages change nothing about that. */
  lemma DeletesKept(start: S.Flat, shorter: seq<Commit>, log: seq<Commit>, n: nat, me: Client, prefix: Key,
                    fewer: seq<ListCall>, pages: seq<ListCall>, p0: nat)
    requires n <= |shorter| && shorter <= log && fewer <= pages && Mine(me, log, |shorter|) == []
    requires DeletesListed(start, shorter, n, me, prefix, fewer, p0)
    requires forall q :: |fewer| <= q < |pages| ==>
               n <= pages[q].at <= |log| && ListsStored(StateAt(start, log, pages[q].at), pages[q].page)
    ensures DeletesListed(start, log, n, me, prefix, pages, p0)
  {
    hide ListsStored, DeletesOneListed;
    forall j | n <= j < |log| && log[j].author == me
      ensures DeletesOneListed(log[j], j, me, prefix, pages, p0)
    {
      if j >= |shorter| {
        MineEmpty(me, log, |shorter|, j);
      } else {
        assert log[j] == shorter[j];
        OneListedKept(log[j], j, me, prefix, fewer, pages, p0);
      }
    }
    forall q | p0 <= q < |fewer|
      ensures n <= pages[q].at <= |log| && ListsStored(StateAt(start, log, pages[q].at), pages[q].page)
    {
      assert pages[q] == fewer[q] && StateAt(start, log, pages[q].at) == StateAt(start, shorter, pages[q].at);
    }
  }

  lemma OneListedKept(c: Commit, j: nat, me: Client, prefix: Key, fewer: seq<ListCall>, pages: seq<ListCall>, p0: nat)
    requires fewer <= pages && DeletesOneListed(c, j, me, prefix, fewer, p0)
    ensures DeletesOneListed(c, j, me, prefix, pages, p0)
  {
    hide ShowsVersion;
    var q: nat, i: nat :| p0 <= q < |fewer| && fewer[q].client == me && fewer[q].at <= j && ShowsVersion(fewer[q], i, c);
    assert pages[q] == fewer[q];
  }

  /** One more confirmed delete, of the `i`th object of the `q`th page. */
  lemma OneMoreListed(start: S.Flat, shorter: seq<Commit>, log: seq<Commit>, n: nat, me: Client, mine: seq<Commit>, prefix: Key,
                      pages: seq<ListCall>, p0: nat, q: nat, i: nat)
    requires n <= |shorter| && shorter <= log && mine == Mine(me, log, |shorter|)
    requires DeletesListed(start, shorter, n, me, prefix, pages, p0)
    requires p0 <= q < |pages| && pages[q].client == me && pages[q].at <= |shorter| && i < |pages[q].page|
    requires prefix <= pages[q].page[i].key
    requires mine == [] || (|mine| == 1 && Deleted(mine[0], me, pages[q].page[i].key, pages[q].page[i].version))
    ensures DeletesListed(start, log, n, me, prefix, pages, p0)
  {
    hide ListsStored, DeletesOneListed, Deleted;
    MineHasAll(me, log, |shorter|);
    forall j | n <= j < |log| && log[j].author == me
      ensures DeletesOneListed(log[j], j, me, prefix, pages, p0)
    {
      if j >= |shorter| {
        assert log[j] in mine;
        DeletedAsListed(log[j], j, me, prefix, pages, p0, q, i);
      } else {
        assert log[j] == shorter[j];
      }
    }
    forall q | p0 <= q < |pages|
      ensures n <= pages[q].at <= |log| && ListsStored(StateAt(start, log, pages[q].at), pages[q].page)
    {
      assert StateAt(start, log, pages[q].at) == StateAt(start, shorter, pages[q].at);
    }
  }

  lemma DeletedAsListed(c: Commit, j: nat, me: Client, prefix: Key, pages: seq<ListCall>, p0: nat, q: nat, i: nat)
    requires p0 <= q < |pages| && pages[q].client == me && pages[q].at <= j && i < |pages[q].page|
    requires prefix <= pages[q].page[i].key && Deleted(c, me, pages[q].page[i].key, pages[q].page[i].version)
    ensures DeletesOneListed(c, j, me, prefix, pages, p0)
  {
    assert ShowsVersion(pages[q], i, c);
  }

  /** Some state after the last of my commits since `n` had nothing under the prefix. */
  ghost predicate SeenEmpty(start: S.Flat, log: seq<Commit>, n: nat, me: Client, prefix: Key) {
    exists i :: n <= i <= |log| && Mine(me, log, i) == [] && KeysUnder(StateAt(start, log, i), prefix) == {}
  }

  lemma PartlyPurgedOn(f: S.Flat, g: S.Flat, h: S.Flat, prefix: Key)
    requires PartlyPurged(f, g, prefix) && PartlyPurged(g, h, prefix)
    ensures PartlyPurged(f, h, prefix)
  {
  }

  lemma RemoveShrinks(f: S.Flat, now: S.Flat, prefix: Key, key: Key)
    requires PartlyPurged(f, now, prefix) && key in KeysUnder(now, prefix)
    ensures PartlyPurged(f, S.Remove(now, key), prefix)
    ensures KeysUnder(S.Remove(now, key), prefix) == KeysUnder(now, prefix) - {key}
    ensures |KeysUnder(S.Remove(now, key), prefix)| == |KeysUnder(now, prefix)| - 1
  {
    assert KeysUnder(S.Remove(now, key), prefix) == KeysUnder(now, prefix) - {key};
  }

  /** Listed now, exactly so. */
  predicate IsListed(f: S.Flat, obj: S.Listed) {
    obj.key in f.objects && obj == S.ListedAt(f, obj.key)
  }

  predicate DistinctKeys(page: seq<S.Listed>) {
    forall i, j :: 0 <= i < j < |page| ==> page[i].key != page[j].key
  }

  function PageSet(page: seq<S.Listed>): set<Key> {
    set i | 0 <= i < |page| :: page[i].key
  }

  /** The first `i` objects of a listed page are deleted, undisturbed. */
  ghost predicate PageProgress(f: S.Flat, now: S.Flat, prefix: Key, page: seq<S.Listed>, i: nat)
    requires i <= |page|
  {
    && PartlyPurged(f, now, prefix)
    && KeysUnder(now, prefix) == KeysUnder(f, prefix) - PageSet(page[..i])
    && |KeysUnder(now, prefix)| == |KeysUnder(f, prefix)| - i
    && forall j :: i <= j < |page| ==> IsListed(now, page[j]) && prefix <= page[j].key
  }

  lemma PageBegins(f: S.Flat, prefix: Key, page: seq<S.Listed>)
    requires forall i :: 0 <= i < |page| ==> prefix <= page[i].key && IsListed(f, page[i])
    ensures PageProgress(f, f, prefix, page, 0)
  {
    assert PageSet(page[..0]) == {};
  }

  lemma DeleteAdvances(f: S.Flat, now: S.Flat, prefix: Key, page: seq<S.Listed>, i: nat)
    requires i < |page| && DistinctKeys(page) && PageProgress(f, now, prefix, page, i)
    ensures S.AtVersion(now, page[i].key, Some(page[i].version))
    ensures PageProgress(f, S.Remove(now, page[i].key), prefix, page, i + 1)
  {
    assert IsListed(now, page[i]) && prefix <= page[i].key;
    RemoveShrinks(f, now, prefix, page[i].key);
    PageSetGrows(page, i);
  }

  method DeleteOne(storage: SharedStorage, me: Client, ghost prefix: Key, key: Key, version: S.Version, ghost n: nat,
                   ghost p0: nat, ghost q: nat, ghost i: nat) returns (done: bool)
    requires storage.Valid() && n <= |storage.log| && prefix <= key
    requires DeletesListed(storage.start, storage.log, n, me, prefix, storage.pages, p0)
    requires p0 <= q < |storage.pages| && storage.pages[q].client == me && storage.pages[q].at <= |storage.log|
    requires i < |storage.pages[q].page| && storage.pages[q].page[i].key == key && storage.pages[q].page[i].version == version
    modifies storage`flat, storage`log, storage`others
    ensures storage.Valid() && old(storage.log) <= storage.log && storage.others <= old(storage.others)
    ensures DeletesListed(storage.start, storage.log, n, me, prefix, storage.pages, p0)
    ensures |Mine(me, storage.log, n)| == |Mine(me, old(storage.log), n)| + if done then 1 else 0
    ensures storage.others == old(storage.others) ==> done == S.AtVersion(old(storage.flat), key, Some(version))
    ensures storage.others == old(storage.others) && done ==> storage.flat == S.Remove(old(storage.flat), key)
  {
    ghost var mine;
    var r;
    r, mine := storage.DeleteIfVersion(me, key, version);
    MineGrows(me, old(storage.log), storage.log, n);
    done := r.Success?;
    OneMoreListed(storage.start, old(storage.log), storage.log, n, me, mine, prefix, storage.pages, p0, q, i);
  }

  /** Deletes the objects of one listed page at their listed versions, counting the confirmed
      deletes. Undisturbed, all of them go. */
  method DeletePage(storage: SharedStorage, me: Client, prefix: Key, page: seq<S.Listed>, ghost n: nat, ghost p0: nat)
    returns (deleted: nat)
    requires storage.Valid() && n <= |storage.log|
    requires DeletesListed(storage.start, storage.log, n, me, prefix, storage.pages, p0)
    requires p0 < |storage.pages| && storage.pages[|storage.pages| - 1] == ListCall(me, |storage.log|, page)
    requires forall i :: 0 <= i < |page| ==> prefix <= page[i].key && IsListed(storage.flat, page[i])
    requires DistinctKeys(page)
    modifies storage`flat, storage`log, storage`others
    ensures storage.Valid() && old(storage.log) <= storage.log && storage.others <= old(storage.others)
    ensures DeletesListed(storage.start, storage.log, n, me, prefix, storage.pages, p0)
    ensures |Mine(me, storage.log, n)| == |Mine(me, old(storage.log), n)| + deleted
    ensures page == [] ==> storage.flat == old(storage.flat) && storage.others == old(storage.others) && deleted == 0
    ensures storage.others == old(storage.others) ==>
              deleted == |page| && PageProgress(old(storage.flat), storage.flat, prefix, page, |page|)
  {
    hide *;
    deleted := 0;
    PageBegins(storage.flat, prefix, page);
    for i := 0 to |page|
      invariant storage.Valid() && old(storage.log) <= storage.log && storage.others <= old(storage.others)
      invariant DeletesListed(storage.start, storage.log, n, me, prefix, storage.pages, p0)
      invariant |Mine(me, storage.log, n)| == |Mine(me, old(storage.log), n)| + deleted
      invariant i == 0 ==> storage.flat == old(storage.flat) && storage.others == old(storage.others) && deleted == 0
      invariant storage.others == old(storage.others) ==>
                  deleted == i && PageProgress(old(storage.flat), storage.flat, prefix, page, i)
    {
      if storage.others == old(storage.others) {
        DeleteAdvances(old(storage.flat), storage.flat, prefix, page, i);
      }
      var done := DeleteOne(storage, me, prefix, page[i].key, page[i].version, n, p0, |storage.pages| - 1, i);
      if done {
        deleted := deleted + 1;
      }
    }
  }

  lemma PageSetGrows(page: seq<S.Listed>, i: nat)
    requires i < |page|
    ensures PageSet(page[..i + 1]) == PageSet(page[..i]) + {page[i].key}
  {
    forall k
      ensures k in PageSet(page[..i + 1]) <==> k in PageSet(page[..i]) + {page[i].key}
    {
      if k in PageSet(page[..i]) {
        var j :| 0 <= j < i && page[..i][j].key == k;
        assert page[..i + 1][j].key == k;
      }
      assert page[..i + 1][i].key == page[i].key;
      if k in PageSet(page[..i + 1]) {
        var j :| 0 <= j < i + 1 && page[..i + 1][j].key == k;
        assert j < i ==> page[..i][j].key == k;
      }
    }
  }

  lemma PageListed(f: S.Flat, prefix: Key, cursor: Option<Key>, size: nat)
    ensures var page := S.ListPage(f, prefix, cursor, size);
            && (forall i :: 0 <= i < |page| ==> prefix <= page[i].key && IsListed(f, page[i]))
            && DistinctKeys(page)
            && (size >= 1 && |page| >= size ==> page[|page| - 1].key in Beyond(f.objects.Keys, prefix, cursor))
  {
    var keys := PageKeys(f.objects.Keys, prefix, cursor, size);
    AscendingDistinct(keys);
    assert forall i :: 0 <= i < |keys| ==> keys[i] in keys;
  }

  /** What is left under the cursor's window once all of a page is deleted. */
  lemma PageLeaves(f: S.Flat, prefix: Key, cursor: Option<Key>, size: nat)
    requires size >= 1
    ensures var page := S.ListPage(f, prefix, cursor, size);
            Beyond(f.objects.Keys, prefix, cursor) - PageSet(page)
            == if |page| < size then {} else Beyond(f.objects.Keys, prefix, Some(page[|page| - 1].key))
  {
    var keys := PageKeys(f.objects.Keys, prefix, cursor, size);
    var page := S.ListPage(f, prefix, cursor, size);
    PageSetIs(page, keys);
    if |page| < size {
      ShortPageIsAll(f.objects.Keys, prefix, cursor, size);
    } else {
      LeftAfterPage(f.objects.Keys, prefix, cursor, size, keys);
    }
  }

  lemma AscendingDistinct(keys: seq<Key>)
    requires Ascending(keys)
    ensures forall i, j :: 0 <= i < j < |keys| ==> keys[i] != keys[j]
  {
    forall i, j | 0 <= i < j < |keys|
      ensures keys[i] != keys[j]
    {
      LtIrreflexive(keys[i]);
    }
  }

  lemma PageSetIs(page: seq<S.Listed>, keys: seq<Key>)
    requires |page| == |keys| && forall i :: 0 <= i < |keys| ==> page[i].key == keys[i]
    ensures forall k :: k in PageSet(page) <==> k in keys
  {
  }

  lemma LeftAfterPage(stored: set<Key>, prefix: Key, cursor: Option<Key>, size: nat, keys: seq<Key>)
    requires keys == PageKeys(stored, prefix, cursor, size) && keys != []
    ensures forall k :: k in Beyond(stored, prefix, cursor) && k !in keys <==> k in Beyond(stored, prefix, Some(keys[|keys| - 1]))
  {
    hide *;
    PageSplit(stored, prefix, cursor, size);
    var last := keys[|keys| - 1];
    forall k
      ensures k in Beyond(stored, prefix, cursor) && k !in keys <==> k in Beyond(stored, prefix, Some(last))
    {
      NotBeyondLast(keys, k);
      InEither(Sorted(Beyond(stored, prefix, cursor)), keys, Sorted(Beyond(stored, prefix, Some(last))), k);
    }
  }

  lemma InEither(all: seq<Key>, a: seq<Key>, b: seq<Key>, k: Key)
    requires all == a + b
    ensures k in all <==> k in a || k in b
  {
  }

  lemma NotBeyondLast(keys: seq<Key>, k: Key)
    requires Ascending(keys) && keys != []
    ensures k in keys ==> !Lt(keys[|keys| - 1], k)
  {
    if k in keys {
      var i :| 0 <= i < |keys| && keys[i] == k;
      LtIrreflexive(k);
      if i < |keys| - 1 {
        LtAsymmetric(keys[i], keys[|keys| - 1]);
      }
    }
  }

  /** How far a pass has come, undisturbed: everything up to the cursor is gone. */
  ghost predicate PassProgress(f: S.Flat, now: S.Flat, prefix: Key, cursor: Option<Key>, deleted: nat) {
    && PartlyPurged(f, now, prefix)
    && Beyond(now.objects.Keys, prefix, cursor) == KeysUnder(now, prefix)
    && deleted + |KeysUnder(now, prefix)| == |KeysUnder(f, prefix)|
  }

  lemma PassBegins(f: S.Flat, prefix: Key)
    ensures PassProgress(f, f, prefix, None, 0)
  {
  }

  lemma PassAdvances(f: S.Flat, now: S.Flat, after: S.Flat, prefix: Key, cursor: Option<Key>, size: nat, deleted: nat)
    requires size >= 1 && PassProgress(f, now, prefix, cursor, deleted)
    requires var page := S.ListPage(now, prefix, cursor, size); PageProgress(now, after, prefix, page, |page|)
    ensures var page := S.ListPage(now, prefix, cursor, size);
            && PartlyPurged(f, after, prefix)
            && deleted + |page| + |KeysUnder(after, prefix)| == |KeysUnder(f, prefix)|
            && (|page| < size ==> KeysUnder(after, prefix) == {})
            && (|page| >= size ==> PassProgress(f, after, prefix, Some(page[|page| - 1].key), deleted + |page|))
  {
    var page := S.ListPage(now, prefix, cursor, size);
    assert page[..|page|] == page;
    PartlyPurgedOn(f, now, after, prefix);
    PageLeaves(now, prefix, cursor, size);
    if |page| >= size {
      SameBeyond(now, after, prefix, page[|page| - 1].key);
    }
  }

  lemma SameBeyond(now: S.Flat, after: S.Flat, prefix: Key, last: Key)
    requires after.objects.Keys <= now.objects.Keys
    requires KeysUnder(after, prefix) == Beyond(now.objects.Keys, prefix, Some(last))
    ensures Beyond(after.objects.Keys, prefix, Some(last)) == KeysUnder(after, prefix)
  {
    forall k
      ensures k in Beyond(after.objects.Keys, prefix, Some(last)) <==> k in KeysUnder(after, prefix)
    {
      assert k in KeysUnder(after, prefix) ==> k in Beyond(now.objects.Keys, prefix, Some(last));
    }
  }

  /** The cursor and the deletions leave fewer keys ahead. */
  lemma FewerAhead(now: S.Flat, after: S.Flat, prefix: Key, cursor: Option<Key>, page: seq<S.Listed>, last: Key)
    requires PageProgress(now, after, prefix, page, |page|) && last in Beyond(now.objects.Keys, prefix, cursor)
    ensures |Beyond(after.objects.Keys, prefix, Some(last))| < |Beyond(now.objects.Keys, prefix, cursor)|
  {
    CursorAdvances(now.objects.Keys, prefix, cursor, last);
    SubsetCardinality(Beyond(after.objects.Keys, prefix, Some(last)), Beyond(now.objects.Keys, prefix, Some(last)));
  }

  /** An entity that was empty when the pass began, and met at most one commit, is empty; and if it met
      none, nothing was found. */
  ghost predicate CostsTwo(spent: int, began: S.Flat, now: S.Flat, prefix: Key, found: bool) {
    KeysUnder(began, prefix) == {} && spent <= 1 ==> KeysUnder(now, prefix) == {} && (spent <= 0 ==> !found)
  }

  /** One listing and the deletes of its page keep it so. The states are those before the listing,
      after it, and after the deletes. */
  lemma CostStep(began: S.Flat, f: S.Flat, listed: S.Flat, now: S.Flat, prefix: Key, page: seq<S.Listed>, found: bool,
                 cursor: Option<Key>, spent: int, spentListed: int, spentNow: int)
    requires CostsTwo(spent, began, f, prefix, found) && 0 <= spent <= spentListed <= spentNow && (!found ==> cursor.None?)
    requires spentListed == spent ==> listed == f
    requires spentListed <= spent + 1 ==> |KeysUnder(listed, prefix)| <= |KeysUnder(f, prefix)| + 1
    requires cursor.None? && |KeysUnder(listed, prefix)| <= 1 ==> KeysUnder(listed, prefix) <= PageSet(page)
    requires forall i :: 0 <= i < |page| ==> prefix <= page[i].key && IsListed(listed, page[i])
    requires page == [] ==> now == listed && spentNow == spentListed
    requires spentNow == spentListed ==> PageProgress(listed, now, prefix, page, |page|)
    ensures CostsTwo(spentNow, began, now, prefix, found || page != [])
  {
    hide PartlyPurged;
    if KeysUnder(began, prefix) == {} && spentNow <= 1 {
      if page != [] {
        assert page[0].key in KeysUnder(listed, prefix);
      }
      assert page[..|page|] == page;
    }
  }

  /** One pass of the purge: list from the start, delete what each page shows. */
  method PurgePass(storage: SharedStorage, me: Client, prefix: Key, size: nat, ghost n: nat, ghost p0: nat)
    returns (found: bool, deleted: nat)
    requires storage.Valid() && size >= 1 && n <= |storage.log| && p0 <= |storage.pages|
    requires DeletesListed(storage.start, storage.log, n, me, prefix, storage.pages, p0)
    modifies storage`flat, storage`log, storage`others, storage`pages
    ensures storage.Valid() && old(storage.log) <= storage.log && storage.others <= old(storage.others)
    ensures DeletesListed(storage.start, storage.log, n, me, prefix, storage.pages, p0) && old(storage.pages) <= storage.pages
    ensures |Mine(me, storage.log, n)| == |Mine(me, old(storage.log), n)| + deleted
    ensures !found ==> deleted == 0 && KeysUnder(storage.flat, prefix) == {}
    ensures storage.others == old(storage.others) ==>
              && PartlyPurged(old(storage.flat), storage.flat, prefix) && KeysUnder(storage.flat, prefix) == {}
              && deleted == |KeysUnder(old(storage.flat), prefix)|
    ensures KeysUnder(old(storage.flat), prefix) == {} && found ==>
              storage.others + (if KeysUnder(storage.flat, prefix) == {} then 1 else 2) <= old(storage.others)
  {
    hide *;
    found, deleted := false, 0;
    PassBegins(storage.flat, prefix);
    CostBegins(storage.flat, prefix);
    var cursor: Option<Key> := None;
    while true
      invariant storage.Valid() && old(storage.log) <= storage.log && storage.others <= old(storage.others)
      invariant DeletesListed(storage.start, storage.log, n, me, prefix, storage.pages, p0) && old(storage.pages) <= storage.pages
      invariant |Mine(me, storage.log, n)| == |Mine(me, old(storage.log), n)| + deleted
      invariant !found ==> cursor.None? && deleted == 0
      invariant storage.others == old(storage.others) ==>
                  PassProgress(old(storage.flat), storage.flat, prefix, cursor, deleted)
      invariant CostsTwo(old(storage.others) - storage.others, old(storage.flat), storage.flat, prefix, found)
      decreases storage.others, |Beyond(storage.flat.objects.Keys, prefix, cursor)|
    {
      ghost var before, spent := storage.flat, old(storage.others) - storage.others;
      var page := NextPage(storage, me, prefix, cursor, size, n, p0);
      ghost var flat, others := storage.flat, storage.others;
      var count := DeletePage(storage, me, prefix, page, n, p0);
      CostStep(old(storage.flat), before, flat, storage.flat, prefix, page, found, cursor, spent,
               old(storage.others) - others, old(storage.others) - storage.others);
      if storage.others == old(storage.others) {
        PassAdvances(old(storage.flat), flat, storage.flat, prefix, cursor, size, deleted);
      }
      found, deleted := found || page != [], deleted + count;
      if |page| < size {
        CostMeans(old(storage.others) - storage.others, old(storage.flat), storage.flat, prefix, found);
        return;
      }
      if storage.others == others {
        FewerAhead(flat, storage.flat, prefix, cursor, page, page[|page| - 1].key);
      }
      cursor := Some(page[|page| - 1].key);
    }
  }

  lemma CostBegins(f: S.Flat, prefix: Key)
    ensures CostsTwo(0, f, f, prefix, false)
  {
  }

  lemma CostMeans(spent: int, began: S.Flat, now: S.Flat, prefix: Key, found: bool)
    requires CostsTwo(spent, began, now, prefix, found)
    ensures KeysUnder(began, prefix) == {} && found ==> spent >= if KeysUnder(now, prefix) == {} then 1 else 2
  {
  }

  method NextPage(storage: SharedStorage, me: Client, prefix: Key, cursor: Option<Key>, size: nat, ghost n: nat,
                  ghost p0: nat) returns (page: seq<S.Listed>)
    requires storage.Valid() && size >= 1 && n <= |storage.log| && p0 <= |storage.pages|
    requires DeletesListed(storage.start, storage.log, n, me, prefix, storage.pages, p0)
    modifies storage`flat, storage`log, storage`others, storage`pages
    ensures storage.Valid() && old(storage.log) <= storage.log && storage.others <= old(storage.others)
    ensures DeletesListed(storage.start, storage.log, n, me, prefix, storage.pages, p0)
    ensures storage.pages == old(storage.pages) + [ListCall(me, |storage.log|, page)]
    ensures Mine(me, storage.log, n) == Mine(me, old(storage.log), n)
    ensures storage.others == old(storage.others) ==> storage.flat == old(storage.flat)
    ensures page == S.ListPage(storage.flat, prefix, cursor, size)
    ensures forall i :: 0 <= i < |page| ==> prefix <= page[i].key && IsListed(storage.flat, page[i])
    ensures DistinctKeys(page)
    ensures |page| >= size ==> page[|page| - 1].key in Beyond(storage.flat.objects.Keys, prefix, cursor)
    ensures cursor.None? ==> (page == [] <==> KeysUnder(storage.flat, prefix) == {})
    ensures cursor.None? && |KeysUnder(storage.flat, prefix)| <= 1 ==> KeysUnder(storage.flat, prefix) <= PageSet(page)
    ensures old(storage.others) <= storage.others + 1 ==>
              |KeysUnder(storage.flat, prefix)| <= |KeysUnder(old(storage.flat), prefix)| + 1
  {
    hide *;
    LatestState(storage);
    page := storage.ListPage(me, prefix, cursor, size);
    MineGrows(me, old(storage.log), storage.log, n);
    NextListed(storage, old(storage.log), n, me, prefix, cursor, size, old(storage.pages), p0);
    PageListed(storage.flat, prefix, cursor, size);
    PageLeaves(storage.flat, prefix, cursor, size);
    FirstPage(storage.flat, prefix, size);
    if old(storage.others) <= storage.others + 1 {
      AtMostOneMore(storage, old(storage.log), prefix);
    }
  }

  /** A first page is empty if nothing is there, and is all there is if that is one key. */
  lemma FirstPage(f: S.Flat, prefix: Key, size: nat)
    requires size >= 1
    ensures S.ListPage(f, prefix, None, size) == [] <==> KeysUnder(f, prefix) == {}
    ensures |KeysUnder(f, prefix)| <= 1 ==> KeysUnder(f, prefix) <= PageSet(S.ListPage(f, prefix, None, size))
  {
    PageLeaves(f, prefix, None, size);
    PageListed(f, prefix, None, size);
    if |KeysUnder(f, prefix)| <= 1 {
      OnePageIsAll(f, prefix, size);
    }
    assert S.ListPage(f, prefix, None, size) != [] ==> S.ListPage(f, prefix, None, size)[0].key in KeysUnder(f, prefix);
  }

  /** A single key is on the first page. */
  lemma OnePageIsAll(f: S.Flat, prefix: Key, size: nat)
    requires size >= 1 && |KeysUnder(f, prefix)| <= 1
    ensures KeysUnder(f, prefix) <= PageSet(S.ListPage(f, prefix, None, size))
  {
    var page := S.ListPage(f, prefix, None, size);
    PageLeaves(f, prefix, None, size);
    PageListed(f, prefix, None, size);
    if |page| >= size {
      var k := page[0].key;
      assert k in KeysUnder(f, prefix);
      SubsetCardinality({k}, KeysUnder(f, prefix));
      OnlyOne(KeysUnder(f, prefix), k);
      assert page[0].key in PageSet(page);
    }
  }

  lemma OnlyOne(keys: set<Key>, k: Key)
    requires k in keys && |keys| <= 1
    ensures keys == {k}
  {
    assert |keys - {k}| == |keys| - 1;
  }

  /** One commit adds at most one key. */
  lemma AtMostOneMore(storage: SharedStorage, shorter: seq<Commit>, prefix: Key)
    requires storage.Valid() && shorter <= storage.log && |storage.log| <= |shorter| + 1
    ensures |KeysUnder(storage.flat, prefix)| <= |KeysUnder(StateAt(storage.start, shorter, |shorter|), prefix)| + 1
  {
    var log := storage.log;
    var before := StateAt(storage.start, shorter, |shorter|);
    if |log| == |shorter| {
      assert log == shorter;
    } else {
      assert IsCommit(log[|shorter|]) && log[|shorter|].before == StateAt(storage.start, log, |shorter|) == before;
      SubsetCardinality(KeysUnder(storage.flat, prefix), KeysUnder(before, prefix) + {log[|shorter|].key});
    }
  }

  lemma NextListed(storage: SharedStorage, shorter: seq<Commit>, n: nat, me: Client, prefix: Key, cursor: Option<Key>,
                   size: nat, fewer: seq<ListCall>, p0: nat)
    requires storage.Valid() && n <= |shorter| && shorter <= storage.log && Mine(me, storage.log, |shorter|) == []
    requires DeletesListed(storage.start, shorter, n, me, prefix, fewer, p0)
    requires storage.pages == fewer + [ListCall(me, |storage.log|, S.ListPage(storage.flat, prefix, cursor, size))]
    ensures DeletesListed(storage.start, storage.log, n, me, prefix, storage.pages, p0)
  {
    hide DeletesListed, DeletesOneListed;
    PageListed(storage.flat, prefix, cursor, size);
    DeletesKept(storage.start, shorter, storage.log, n, me, prefix, fewer, storage.pages, p0);
  }

  /** `_purge_passes`. The count is the number of confirmed deletes, each of an object under the prefix
      at a version that one of the call's own listings shows. On success some state after the last of
      them had nothing under the prefix; undisturbed, one pass is enough, everything under the prefix
      is gone and nothing else has changed. It gives up only if something is left and the others
      were at work at least as often as it made a pass. */
  method PurgePasses(storage: SharedStorage, me: Client, prefix: Key, size: nat, maxPasses: nat)
    returns (r: Option<nat>, ghost mine: seq<Commit>)
    requires storage.Valid() && size >= 1 && maxPasses >= 1
    modifies storage`flat, storage`log, storage`others, storage`pages
    ensures storage.Valid() && old(storage.log) <= storage.log
    ensures mine == Mine(me, storage.log, |old(storage.log)|)
    ensures DeletesListed(storage.start, storage.log, |old(storage.log)|, me, prefix, storage.pages, |old(storage.pages)|)
    ensures r.None? ==> KeysUnder(storage.flat, prefix) != {} && storage.others + maxPasses <= old(storage.others)
    ensures r.Some? ==> r.value == |mine| && SeenEmpty(storage.start, storage.log, |old(storage.log)|, me, prefix)
    ensures storage.others == old(storage.others) ==>
              r == Some(|KeysUnder(old(storage.flat), prefix)|) && storage.flat == Purged(old(storage.flat), prefix)
  {
    hide *;
    ghost var n, p0 := |storage.log|, |storage.pages|;
    PurgeBegins(storage.start, me, storage.log, storage.pages, storage.flat, prefix);
    var deleted := 0;
    var pass := 0;
    while pass < maxPasses
      invariant 0 <= pass <= maxPasses
      invariant storage.Valid() && old(storage.log) <= storage.log && storage.others <= old(storage.others)
      invariant DeletesListed(storage.start, storage.log, n, me, prefix, storage.pages, p0)
      invariant deleted == |Mine(me, storage.log, n)| && p0 <= |storage.pages|
      invariant storage.others == old(storage.others) ==>
                  && PartlyPurged(old(storage.flat), storage.flat, prefix)
                  && deleted + |KeysUnder(storage.flat, prefix)| == |KeysUnder(old(storage.flat), prefix)|
                  && (pass > 0 ==> KeysUnder(storage.flat, prefix) == {})
      invariant storage.others + pass <= old(storage.others) + if KeysUnder(storage.flat, prefix) == {} then 1 else 0
    {
      ghost var before := storage.flat;
      var found, count := PurgePass(storage, me, prefix, size, n, p0);
      deleted := deleted + count;
      if storage.others == old(storage.others) {
        PartlyPurgedOn(old(storage.flat), before, storage.flat, prefix);
      }
      if !found {
        mine := Mine(me, storage.log, n);
        PurgeDone(storage, n, me, prefix, old(storage.flat));
        return Some(deleted), mine;
      }
      pass := pass + 1;
    }
    var rest := NextPage(storage, me, prefix, None, 1, n, p0);
    mine := Mine(me, storage.log, n);
    if |rest| == 0 {
      PurgeDone(storage, n, me, prefix, old(storage.flat));
      return Some(deleted), mine;
    }
    return None, mine;
  }

  lemma PurgeBegins(start: S.Flat, me: Client, log: seq<Commit>, pages: seq<ListCall>, f: S.Flat, prefix: Key)
    ensures Mine(me, log, |log|) == [] && DeletesListed(start, log, |log|, me, prefix, pages, |pages|)
    ensures PartlyPurged(f, f, prefix)
  {
  }

  lemma PurgeDone(storage: SharedStorage, n: nat, me: Client, prefix: Key, f: S.Flat)
    requires storage.Valid() && n <= |storage.log| && KeysUnder(storage.flat, prefix) == {}
    ensures SeenEmpty(storage.start, storage.log, n, me, prefix)
    ensures PartlyPurged(f, storage.flat, prefix) ==> storage.flat == Purged(f, prefix)
  {
    var log := storage.log;
    assert Mine(me, log, |log|) == [] && KeysUnder(StateAt(storage.start, log, |log|), prefix) == {};
    if PartlyPurged(f, storage.flat, prefix) {
      PurgedWhenEmpty(f, storage.flat, prefix);
    }
  }
}
