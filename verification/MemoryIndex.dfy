/** The memory index: every listed entry in one total order, cut at a byte budget, with counts of
    what was left out. */
module MemoryIndex {
  import opened Wrappers
  import opened KeyOrder
  import opened Utf8
  import opened Paths
  import opened Metadata
  import opened Listing
  import S = Storage

  datatype CappedPrefix = CappedPrefix(prefix: Key, omitted: nat)

  datatype MemoryIndex = MemoryIndex(entries: seq<FileEntry>, capped: seq<CappedPrefix>)

  /** What the index cannot see for itself: the UTF-8 of stored texts and versions, and which instants
      can be rendered in UTC. */
  datatype Rendering = Rendering(textBytes: Text -> seq<Byte>, versionBytes: S.Version -> seq<Byte>, inRange: int -> bool)

  function EntryBytes(e: FileEntry, r: Rendering): nat {
    var m := ToMap(e.metadata);
    |Encode(e.path)| + |r.versionBytes(e.version)|
    + |Encode(DESCRIPTION_KEY)| + |r.textBytes(m[DESCRIPTION_KEY])|
    + |Encode(ALIASES_KEY)| + |r.textBytes(m[ALIASES_KEY])|
    + |Encode(SOURCES_KEY)| + |r.textBytes(m[SOURCES_KEY])|
    + |Encode(LAST_UPDATED_KEY)| + |r.textBytes(m[LAST_UPDATED_KEY])|
  }

  function Total(entries: seq<FileEntry>, r: Rendering): nat {
    if entries == [] then 0 else Total(entries[..|entries| - 1], r) + EntryBytes(entries[|entries| - 1], r)
  }

  /** The items of a stored map, keys and values, one after the other. */
  function Items(m: TextMap, keys: seq<string>, r: Rendering): seq<Byte>
    requires forall k :: k in keys ==> k in m
  {
    if keys == [] then [] else Encode(keys[0]) + r.textBytes(m[keys[0]]) + Items(m, keys[1..], r)
  }

  /** The keys of the map, each once, in any order. */
  predicate Lists(keys: seq<string>, m: TextMap) {
    (forall k :: k in keys ==> k in m) && multiset(keys) == multiset(m.Keys)
  }

  lemma {:induction false} ItemsWithout(m: TextMap, keys: seq<string>, i: nat, r: Rendering)
    requires i < |keys| && forall k :: k in keys ==> k in m
    ensures forall k :: k in keys[..i] + keys[i + 1..] ==> k in m
    ensures |Items(m, keys, r)|
            == |Encode(keys[i])| + |r.textBytes(m[keys[i]])| + |Items(m, keys[..i] + keys[i + 1..], r)|
  {
    if i == 0 {
      assert keys[..0] + keys[1..] == keys[1..];
    } else {
      ItemsWithout(m, keys[1..], i - 1, r);
      var rest := keys[..i] + keys[i + 1..];
      assert rest[0] == keys[0] && rest[1..] == keys[1..][..i - 1] + keys[1..][i..];
      assert forall k :: k in rest ==> k == keys[0] || k in rest[1..];
    }
  }

  /** The order of the items does not change how long they are. */
  lemma {:induction false} ItemsAnyOrder(m: TextMap, a: seq<string>, b: seq<string>, r: Rendering)
    requires multiset(a) == multiset(b) && (forall k :: k in a ==> k in m) && (forall k :: k in b ==> k in m)
    ensures |Items(m, a, r)| == |Items(m, b, r)|
    decreases |a|
  {
    hide Encode;
    if a == [] {
      assert |multiset(b)| == 0;
    } else {
      assert a[0] in multiset(b);
      var i :| 0 <= i < |b| && b[i] == a[0];
      var rest := b[..i] + b[i + 1..];
      ItemsWithout(m, b, i, r);
      OneOff(a, b, i);
      ItemsAnyOrder(m, a[1..], rest, r);
    }
  }

  lemma OneOff(a: seq<string>, b: seq<string>, i: nat)
    requires a != [] && i < |b| && a[0] == b[i] && multiset(a) == multiset(b)
    ensures multiset(a[1..]) == multiset(b[..i] + b[i + 1..])
    ensures (forall k :: k in a[1..] ==> k in a) && (forall k :: k in b[..i] + b[i + 1..] ==> k in b)
  {
    assert a == [a[0]] + a[1..];
    assert b == b[..i] + ([b[i]] + b[i + 1..]);
    assert multiset(a) == multiset{a[0]} + multiset(a[1..]);
    assert multiset(b) == multiset(b[..i]) + (multiset{b[i]} + multiset(b[i + 1..]));
    assert multiset(b[..i] + b[i + 1..]) == multiset(b[..i]) + multiset(b[i + 1..]);
    assert multiset(a[1..]) == multiset(a) - multiset{a[0]};
    assert multiset(b[..i]) + multiset(b[i + 1..]) == multiset(b) - multiset{b[i]};
  }

  /** What the index shows of an entry: path, every key with its value, version. */
  function Shown(e: FileEntry, keys: seq<string>, r: Rendering): seq<Byte>
    requires Lists(keys, ToMap(e.metadata))
  {
    Encode(e.path) + Items(ToMap(e.metadata), keys, r) + r.versionBytes(e.version)
  }

  /** The size of an entry is the length of all of it, whatever the order of the map's items. */
  lemma EntrySizeIsLength(e: FileEntry, keys: seq<string>, r: Rendering)
    requires Lists(keys, ToMap(e.metadata))
    ensures EntryBytes(e, r) == |Shown(e, keys, r)|
  {
    var m := ToMap(e.metadata);
    hide Encode;
    KeysListed(e.metadata);
    ItemsAnyOrder(m, keys, KEYS, r);
    ItemsOfFour(m, r);
  }

  lemma KeysListed(m: FileMetadata)
    ensures Lists(KEYS, ToMap(m))
  {
    assert ToMap(m).Keys == {DESCRIPTION_KEY, ALIASES_KEY, SOURCES_KEY, LAST_UPDATED_KEY};
    assert KEYS[0] == DESCRIPTION_KEY && KEYS[1] == ALIASES_KEY && KEYS[2] == SOURCES_KEY && KEYS[3] == LAST_UPDATED_KEY;
  }

  lemma ItemsOfFour(m: TextMap, r: Rendering)
    requires Lists(KEYS, m)
    ensures forall k :: k in KEYS ==> k in m
    ensures DESCRIPTION_KEY in m && ALIASES_KEY in m && SOURCES_KEY in m && LAST_UPDATED_KEY in m
    ensures |Items(m, KEYS, r)|
            == |Encode(DESCRIPTION_KEY)| + |r.textBytes(m[DESCRIPTION_KEY])|
               + |Encode(ALIASES_KEY)| + |r.textBytes(m[ALIASES_KEY])|
               + |Encode(SOURCES_KEY)| + |r.textBytes(m[SOURCES_KEY])|
               + |Encode(LAST_UPDATED_KEY)| + |r.textBytes(m[LAST_UPDATED_KEY])|
  {
    hide Encode;
    assert KEYS[0] == DESCRIPTION_KEY && KEYS[1] == ALIASES_KEY && KEYS[2] == SOURCES_KEY && KEYS[3] == LAST_UPDATED_KEY;
    ItemsFirst(m, KEYS, [ALIASES_KEY, SOURCES_KEY, LAST_UPDATED_KEY], r);
    ItemsFirst(m, KEYS[1..], [SOURCES_KEY, LAST_UPDATED_KEY], r);
    ItemsFirst(m, KEYS[1..][1..], [LAST_UPDATED_KEY], r);
    ItemsFirst(m, KEYS[1..][1..][1..], [], r);
  }

  lemma ItemsFirst(m: TextMap, keys: seq<string>, rest: seq<string>, r: Rendering)
    requires keys != [] && keys[1..] == rest && forall k :: k in keys ==> k in m
    ensures forall k :: k in rest ==> k in m
    ensures |Items(m, keys, r)| == |Encode(keys[0])| + |r.textBytes(m[keys[0]])| + |Items(m, rest, r)|
  {
    hide Encode;
  }

  /** All that the index shows of several entries. */
  function ShownAll(entries: seq<FileEntry>, r: Rendering): seq<Byte> {
    if entries == [] then []
    else
      var last := entries[|entries| - 1];
      KeysListed(last.metadata);
      ShownAll(entries[..|entries| - 1], r) + Shown(last, KEYS, r)
  }

  lemma {:induction false} TotalIsLength(entries: seq<FileEntry>, r: Rendering)
    ensures Total(entries, r) == |ShownAll(entries, r)|
    decreases |entries|
  {
    hide EntryBytes, Shown, ToMap;
    if entries == [] {
    } else {
      var last := entries[|entries| - 1];
      KeysListed(last.metadata);
      EntrySizeIsLength(last, KEYS, r);
      TotalIsLength(entries[..|entries| - 1], r);
    }
  }

  datatype SortKey = SortKey(area: nat, tier: nat, minusMicros: int, path: Key)

  predicate KeyLt(a: SortKey, b: SortKey) {
    || a.area < b.area
    || (a.area == b.area && (a.tier < b.tier
    || (a.tier == b.tier && (a.minusMicros < b.minusMicros
    || (a.minusMicros == b.minusMicros && Lt(a.path, b.path))))))
  }

  /** The scope's position in the configured priority; scopes it does not list come last. */
  function Tier(priority: seq<string>, scope: string): (t: nat)
    ensures t <= |priority| && (t < |priority| ==> priority[t] == scope)
    ensures t == |priority| <==> scope !in priority
  {
    if priority == [] then 0 else if priority[0] == scope then 0 else 1 + Tier(priority[1..], scope)
  }

  function KeyOf(e: FileEntry, priority: seq<string>): SortKey
    requires ValidPath(e.path)
  {
    var parts := Parts(e.path);
    if parts.area == SYSTEM_AREA then SortKey(0, 0, -e.metadata.lastUpdated, e.path)
    else SortKey(1, Tier(priority, parts.scope), -e.metadata.lastUpdated, e.path)
  }

  predicate Before(a: FileEntry, b: FileEntry, priority: seq<string>)
    requires ValidPath(a.path) && ValidPath(b.path)
  {
    KeyLt(KeyOf(a, priority), KeyOf(b, priority))
  }

  predicate AllValid(entries: seq<FileEntry>) {
    forall i :: 0 <= i < |entries| ==> ValidPath(entries[i].path)
  }

  predicate DistinctPaths(entries: seq<FileEntry>) {
    forall i, j :: 0 <= i < j < |entries| ==> entries[i].path != entries[j].path
  }

  predicate InOrder(entries: seq<FileEntry>, priority: seq<string>)
    requires AllValid(entries)
  {
    forall i, j :: 0 <= i < j < |entries| ==> Before(entries[i], entries[j], priority)
  }

  /** Both in system areas, or both in scopes of one tier. */
  predicate SameGroup(a: PathParts, b: PathParts, priority: seq<string>) {
    || (a.area == SYSTEM_AREA && b.area == SYSTEM_AREA)
    || (a.area != SYSTEM_AREA && b.area != SYSTEM_AREA && Tier(priority, a.scope) == Tier(priority, b.scope))
  }

  /** `a` may stand before `b`: no system file after another one, no scope after one of a later tier,
      and within a group nothing older before anything newer, nor out of path order at the same time. */
  predicate MayPrecede(a: FileEntry, b: FileEntry, priority: seq<string>)
    requires ValidPath(a.path) && ValidPath(b.path)
  {
    var p, q := Parts(a.path), Parts(b.path);
    && (q.area == SYSTEM_AREA ==> p.area == SYSTEM_AREA)
    && (p.area != SYSTEM_AREA ==> Tier(priority, p.scope) <= Tier(priority, q.scope))
    && (SameGroup(p, q, priority) ==>
          && a.metadata.lastUpdated >= b.metadata.lastUpdated
          && (a.metadata.lastUpdated == b.metadata.lastUpdated ==> Lt(a.path, b.path)))
  }

  lemma BeforeMayPrecede(a: FileEntry, b: FileEntry, priority: seq<string>)
    requires ValidPath(a.path) && ValidPath(b.path) && Before(a, b, priority)
    ensures MayPrecede(a, b, priority)
  {
    hide ValidPath, Lt;
  }

  /** The order of an index: the system areas of all scopes, then tier by tier, newest first, then by path. */
  lemma IndexReadsInOrder(index: MemoryIndex, all: seq<FileEntry>, priority: seq<string>, r: Rendering, budget: nat,
                          i: nat, j: nat)
    requires IsIndex(index, all, priority, r, budget) && i < j < |index.entries|
    ensures ValidPath(index.entries[i].path) && ValidPath(index.entries[j].path)
    ensures MayPrecede(index.entries[i], index.entries[j], priority)
  {
    hide *;
    var omitted := OmittedFrom(index, all, priority, r, budget);
    InOrderAt(index, omitted, all, priority, r, budget, i, j);
    BeforeMayPrecede(index.entries[i], index.entries[j], priority);
  }

  lemma InOrderAt(index: MemoryIndex, omitted: seq<FileEntry>, all: seq<FileEntry>, priority: seq<string>, r: Rendering,
                  budget: nat, i: nat, j: nat)
    requires IndexWith(index, omitted, all, priority, r, budget) && i < j < |index.entries|
    ensures ValidPath(index.entries[i].path) && ValidPath(index.entries[j].path)
    ensures Before(index.entries[i], index.entries[j], priority)
  {
    hide FillsBudget, CountsOf, ValidPath, Before;
    var whole := index.entries + omitted;
    assert whole[i] == index.entries[i] && whole[j] == index.entries[j];
  }

  lemma BeforeTransitive(a: FileEntry, b: FileEntry, c: FileEntry, priority: seq<string>)
    requires ValidPath(a.path) && ValidPath(b.path) && ValidPath(c.path)
    requires Before(a, b, priority) && Before(b, c, priority)
    ensures Before(a, c, priority)
  {
    if Lt(a.path, b.path) && Lt(b.path, c.path) {
      LtTransitive(a.path, b.path, c.path);
    }
  }

  /** Distinct paths are never tied. */
  lemma BeforeTotal(a: FileEntry, b: FileEntry, priority: seq<string>)
    requires ValidPath(a.path) && ValidPath(b.path)
    ensures a.path != b.path ==> Before(a, b, priority) || Before(b, a, priority)
    ensures !(Before(a, b, priority) && Before(b, a, priority))
    ensures a.path == b.path && a.metadata == b.metadata ==> !Before(a, b, priority)
  {
    LtTotal(a.path, b.path);
    LtIrreflexive(a.path);
    if Lt(a.path, b.path) {
      LtAsymmetric(a.path, b.path);
    }
  }

  function Insert(e: FileEntry, entries: seq<FileEntry>, priority: seq<string>): seq<FileEntry>
    requires ValidPath(e.path) && AllValid(entries)
  {
    if entries == [] || Before(e, entries[0], priority) then [e] + entries
    else [entries[0]] + Insert(e, entries[1..], priority)
  }

  lemma {:induction false} InsertIsOrder(e: FileEntry, entries: seq<FileEntry>, priority: seq<string>)
    requires ValidPath(e.path) && AllValid(entries) && InOrder(entries, priority)
    requires forall i :: 0 <= i < |entries| ==> entries[i].path != e.path
    ensures var s := Insert(e, entries, priority);
            AllValid(s) && InOrder(s, priority) && |s| == |entries| + 1 && forall x :: x in s <==> x == e || x in entries
  {
    hide Before, ValidPath;
    if entries == [] {
    } else if Before(e, entries[0], priority) {
      var s := [e] + entries;
      forall j | 0 <= j < |entries|
        ensures Before(e, entries[j], priority)
      {
        if j > 0 {
          BeforeTransitive(e, entries[0], entries[j], priority);
        }
      }
    } else {
      BeforeTotal(e, entries[0], priority);
      InsertIsOrder(e, entries[1..], priority);
      var rest := Insert(e, entries[1..], priority);
      forall x
        ensures x in [entries[0]] + rest <==> x == e || x in entries
      {
        assert x in entries <==> x == entries[0] || x in entries[1..];
      }
      forall j | 0 <= j < |rest|
        ensures Before(entries[0], rest[j], priority)
      {
        assert rest[j] in rest;
        if rest[j] != e {
          assert rest[j] in entries[1..];
        }
      }
    }
  }

  /** `sorted` by the sort key. */
  function Ordered(entries: seq<FileEntry>, priority: seq<string>): (s: seq<FileEntry>)
    requires AllValid(entries) && DistinctPaths(entries)
    ensures AllValid(s) && InOrder(s, priority) && |s| == |entries|
    ensures forall x :: x in s <==> x in entries
  {
    if entries == [] then []
    else
      assert DistinctPaths(entries[1..]);
      var rest := Ordered(entries[1..], priority);
      assert forall i :: 0 <= i < |rest| ==> rest[i] in rest && rest[i] in entries[1..];
      InsertIsOrder(entries[0], rest, priority);
      assert forall x :: x in entries <==> x == entries[0] || x in entries[1..];
      Insert(entries[0], rest, priority)
  }

  /** Only the set of entries decides the order. */
  lemma {:induction false} OrderUnique(a: seq<FileEntry>, b: seq<FileEntry>, priority: seq<string>)
    requires AllValid(a) && AllValid(b) && InOrder(a, priority) && InOrder(b, priority)
    requires forall x :: x in a <==> x in b
    ensures a == b
  {
    hide Before, ValidPath;
    assert b != [] ==> b[0] in b;
    if a == [] {
    } else {
      SameFirst(a, b, priority);
      forall x
        ensures x in a[1..] <==> x in b[1..]
      {
        NotLater(a, priority);
        NotLater(b, priority);
        assert x in a <==> x == a[0] || x in a[1..];
        assert x in b <==> x == b[0] || x in b[1..];
      }
      OrderUnique(a[1..], b[1..], priority);
      assert a == [a[0]] + a[1..] && b == [b[0]] + b[1..];
    }
  }

  lemma NotLater(a: seq<FileEntry>, priority: seq<string>)
    requires a != [] && AllValid(a) && InOrder(a, priority)
    ensures a[0] !in a[1..]
  {
    hide Before, ValidPath;
    forall i | 1 <= i < |a|
      ensures a[i] != a[0]
    {
      BeforeTotal(a[0], a[i], priority);
    }
  }

  lemma SameFirst(a: seq<FileEntry>, b: seq<FileEntry>, priority: seq<string>)
    requires AllValid(a) && AllValid(b) && InOrder(a, priority) && InOrder(b, priority)
    requires a != [] && forall x :: x in a <==> x in b
    ensures b != [] && a[0] == b[0]
  {
    hide Before, ValidPath;
    assert a[0] in b;
    assert b[0] in a;
    if a[0] != b[0] {
      var i :| 0 <= i < |b| && b[i] == a[0];
      var j :| 0 <= j < |a| && a[j] == b[0];
      BeforeTotal(a[0], b[0], priority);
    }
  }

  function AreaOf(path: Key): Key
    requires ValidPath(path)
  {
    AreaPrefix(Parts(path).scope, Parts(path).entity, Parts(path).area)
  }

  /** The area a file is counted in. */
  lemma AreaOfPath(scope: string, entity: string, area: string, name: string)
    requires BuildPath(scope, entity, area, name).Some?
    ensures ValidPath(BuildPath(scope, entity, area, name).value)
    ensures AreaOf(BuildPath(scope, entity, area, name).value) == scope + "/" + entity + "/" + area + "/"
  {
    BuildThenParse(scope, entity, area, name);
    AreaText(scope, entity, area);
  }

  /** How many of the entries are in the area. */
  function InArea(entries: seq<FileEntry>, prefix: Key): nat
    requires AllValid(entries)
  {
    if entries == [] then 0
    else InArea(entries[..|entries| - 1], prefix) + if AreaOf(entries[|entries| - 1].path) == prefix then 1 else 0
  }

  /** An area's entries are exactly those whose path starts with its prefix. */
  lemma AreaIsPrefix(path: Key, other: Key)
    requires ValidPath(path) && ValidPath(other)
    ensures AreaOf(path) == AreaOf(other) <==> AreaOf(other) <= path
  {
    var p, q := Parts(path), Parts(other);
    AreaPrefixSegments(q.scope, q.entity, q.area, path);
    if AreaOf(path) == AreaOf(other) {
      AreaPrefixInjective(p, q);
    }
  }

  lemma AreaIsValidPrefix(path: Key)
    requires ValidPath(path)
    ensures ValidPrefix(AreaOf(path))
  {
    var p := Parts(path);
    BuildPrefixIsValid(p.scope, Some(p.entity), Some(p.area));
  }

  predicate PrefixesAscend(capped: seq<CappedPrefix>) {
    forall i, j :: 0 <= i < j < |capped| ==> Lt(capped[i].prefix, capped[j].prefix)
  }

  predicate HasPrefix(capped: seq<CappedPrefix>, prefix: Key) {
    exists i :: 0 <= i < |capped| && capped[i].prefix == prefix
  }

  /** The omitted entries, counted by area: ascending, each area once, none empty, none missing. */
  predicate CountsOf(capped: seq<CappedPrefix>, omitted: seq<FileEntry>)
    requires AllValid(omitted)
  {
    && PrefixesAscend(capped)
    && (forall i :: 0 <= i < |capped| ==> ValidPrefix(capped[i].prefix) && capped[i].omitted > 0
                                          && capped[i].omitted == InArea(omitted, capped[i].prefix))
    && (forall i :: 0 <= i < |omitted| ==> HasPrefix(capped, AreaOf(omitted[i].path)))
  }

  /** `included` is the longest start of the order that fits the budget. */
  predicate FillsBudget(included: seq<FileEntry>, omitted: seq<FileEntry>, r: Rendering, budget: nat) {
    && Total(included, r) <= budget
    && (omitted != [] ==> Total(included + [omitted[0]], r) > budget)
  }

  /** The index of a set of entries, and what it leaves out. */
  ghost predicate IndexWith(index: MemoryIndex, omitted: seq<FileEntry>, all: seq<FileEntry>, priority: seq<string>,
                            r: Rendering, budget: nat)
  {
    && AllValid(index.entries + omitted) && InOrder(index.entries + omitted, priority)
    && (forall e :: e in index.entries + omitted <==> e in all)
    && FillsBudget(index.entries, omitted, r, budget)
    && AllValid(omitted) && CountsOf(index.capped, omitted)
  }

  ghost predicate IsIndex(index: MemoryIndex, all: seq<FileEntry>, priority: seq<string>, r: Rendering, budget: nat) {
    exists omitted :: IndexWith(index, omitted, all, priority, r, budget)
  }

  lemma {:induction false} TotalGrows(a: seq<FileEntry>, n: nat, r: Rendering)
    requires n <= |a|
    ensures Total(a[..n], r) <= Total(a, r)
    decreases |a|
  {
    hide EntryBytes;
    if n < |a| {
      TotalGrows(a[..|a| - 1], n, r);
      assert a[..|a| - 1][..n] == a[..n];
    } else {
      assert a[..n] == a;
    }
  }

  /** One budget, one cut. */
  lemma SameCut(a: seq<FileEntry>, n: nat, m: nat, r: Rendering, budget: nat)
    requires n <= |a| && m <= |a|
    requires FillsBudget(a[..n], a[n..], r, budget) && FillsBudget(a[..m], a[m..], r, budget)
    ensures n == m
  {
    hide Total;
    if n < m {
      CutTooSoon(a, n, m, r, budget);
    } else if m < n {
      CutTooSoon(a, m, n, r, budget);
    }
  }

  lemma CutTooSoon(a: seq<FileEntry>, n: nat, m: nat, r: Rendering, budget: nat)
    requires n < m <= |a|
    ensures !(FillsBudget(a[..n], a[n..], r, budget) && FillsBudget(a[..m], a[m..], r, budget))
  {
    hide Total;
    assert a[..n] + [a[n..][0]] == a[..m][..n + 1];
    TotalGrows(a[..m], n + 1, r);
  }

  /** The index depends on the set of entries alone: not on the order in which scopes, pages or
      cached listings brought them. */
  lemma IndexUnique(a: MemoryIndex, b: MemoryIndex, all: seq<FileEntry>, all': seq<FileEntry>, priority: seq<string>,
                    r: Rendering, budget: nat)
    requires IsIndex(a, all, priority, r, budget) && IsIndex(b, all', priority, r, budget)
    requires forall e :: e in all <==> e in all'
    ensures a == b
  {
    var x :| IndexWith(a, x, all, priority, r, budget);
    var y :| IndexWith(b, y, all', priority, r, budget);
    var whole := a.entries + x;
    hide InOrder, FillsBudget, CountsOf, AllValid;
    OrderUnique(whole, b.entries + y, priority);
    assert whole[..|a.entries|] == a.entries && whole[|a.entries|..] == x;
    assert whole[..|b.entries|] == b.entries && whole[|b.entries|..] == y;
    SameCut(whole, |a.entries|, |b.entries|, r, budget);
    CountsUnique(a.capped, b.capped, x);
  }

  lemma {:induction false} PositiveInArea(omitted: seq<FileEntry>, prefix: Key)
    requires AllValid(omitted)
    ensures InArea(omitted, prefix) > 0 <==> exists i :: 0 <= i < |omitted| && AreaOf(omitted[i].path) == prefix
    decreases |omitted|
  {
    hide AreaOf, ValidPath;
    if omitted == [] {
    } else {
      var shorter := omitted[..|omitted| - 1];
      PositiveInArea(shorter, prefix);
      assert forall i :: 0 <= i < |shorter| ==> shorter[i] == omitted[i];
    }
  }

  function PrefixesOf(capped: seq<CappedPrefix>): (keys: seq<Key>)
    ensures |keys| == |capped| && forall i :: 0 <= i < |capped| ==> keys[i] == capped[i].prefix
  {
    seq(|capped|, i requires 0 <= i < |capped| => capped[i].prefix)
  }

  lemma CountedAreas(capped: seq<CappedPrefix>, omitted: seq<FileEntry>, k: Key)
    requires AllValid(omitted) && CountsOf(capped, omitted)
    ensures k in PrefixesOf(capped) <==> InArea(omitted, k) > 0
  {
    PositiveInArea(omitted, k);
    if k in PrefixesOf(capped) {
      var i :| 0 <= i < |capped| && PrefixesOf(capped)[i] == k;
      assert capped[i].omitted > 0;
    }
    if InArea(omitted, k) > 0 {
      var i :| 0 <= i < |omitted| && AreaOf(omitted[i].path) == k;
      assert HasPrefix(capped, k);
      var j :| 0 <= j < |capped| && capped[j].prefix == k;
      assert PrefixesOf(capped)[j] == k;
    }
  }

  lemma CountsUnique(a: seq<CappedPrefix>, b: seq<CappedPrefix>, omitted: seq<FileEntry>)
    requires AllValid(omitted) && CountsOf(a, omitted) && CountsOf(b, omitted)
    ensures a == b
  {
    forall k
      ensures k in PrefixesOf(a) <==> k in PrefixesOf(b)
    {
      CountedAreas(a, omitted, k);
      CountedAreas(b, omitted, k);
    }
    AscendingUnique(PrefixesOf(a), PrefixesOf(b));
    forall i | 0 <= i < |a|
      ensures a[i] == b[i]
    {
      assert PrefixesOf(a)[i] == PrefixesOf(b)[i];
    }
  }

  function SumOmitted(capped: seq<CappedPrefix>): nat {
    if capped == [] then 0 else SumOmitted(capped[..|capped| - 1]) + capped[|capped| - 1].omitted
  }

  function OmittedIn(capped: seq<CappedPrefix>, omitted: seq<FileEntry>): nat
    requires AllValid(omitted)
  {
    if capped == [] then 0
    else OmittedIn(capped[..|capped| - 1], omitted) + InArea(omitted, capped[|capped| - 1].prefix)
  }

  lemma {:induction false} SumIsOmittedIn(capped: seq<CappedPrefix>, omitted: seq<FileEntry>)
    requires AllValid(omitted)
    requires forall i :: 0 <= i < |capped| ==> capped[i].omitted == InArea(omitted, capped[i].prefix)
    ensures SumOmitted(capped) == OmittedIn(capped, omitted)
    decreases |capped|
  {
    if capped == [] {
    } else {
      SumIsOmittedIn(capped[..|capped| - 1], omitted);
    }
  }

  /** Adding one entry adds one to its own area, and to no other. */
  lemma {:induction false} OneMoreOmitted(capped: seq<CappedPrefix>, omitted: seq<FileEntry>)
    requires omitted != [] && AllValid(omitted) && PrefixesAscend(capped)
    ensures AllValid(omitted[..|omitted| - 1])
    ensures OmittedIn(capped, omitted)
            == OmittedIn(capped, omitted[..|omitted| - 1])
               + if HasPrefix(capped, AreaOf(omitted[|omitted| - 1].path)) then 1 else 0
    decreases |capped|
  {
    if capped == [] {
    } else {
      var shorter, last := capped[..|capped| - 1], capped[|capped| - 1];
      var area := AreaOf(omitted[|omitted| - 1].path);
      OneMoreOmitted(shorter, omitted);
      if HasPrefix(shorter, area) {
        var i :| 0 <= i < |shorter| && shorter[i].prefix == area;
        assert Lt(capped[i].prefix, last.prefix);
        LtIrreflexive(area);
        assert capped[i].prefix == area;
      }
      if HasPrefix(capped, area) {
        var i :| 0 <= i < |capped| && capped[i].prefix == area;
        assert i < |shorter| ==> shorter[i].prefix == area;
      }
      assert last.prefix == area ==> capped[|capped| - 1].prefix == area;
    }
  }

  lemma {:induction false} NothingOmitted(capped: seq<CappedPrefix>)
    ensures OmittedIn(capped, []) == 0
    decreases |capped|
  {
    if capped == [] {
    } else {
      NothingOmitted(capped[..|capped| - 1]);
    }
  }

  lemma {:induction false} EachCountedOnce(capped: seq<CappedPrefix>, omitted: seq<FileEntry>)
    requires AllValid(omitted) && PrefixesAscend(capped)
    requires forall i :: 0 <= i < |omitted| ==> HasPrefix(capped, AreaOf(omitted[i].path))
    ensures OmittedIn(capped, omitted) == |omitted|
    decreases |omitted|
  {
    if omitted == [] {
      NothingOmitted(capped);
    } else {
      var shorter := omitted[..|omitted| - 1];
      OneMoreOmitted(capped, omitted);
      forall i | 0 <= i < |shorter|
        ensures HasPrefix(capped, AreaOf(shorter[i].path))
      {
        assert shorter[i] == omitted[i];
      }
      EachCountedOnce(capped, shorter);
    }
  }

  lemma {:induction false} OrderHasDistinctPaths(entries: seq<FileEntry>, priority: seq<string>)
    requires AllValid(entries) && InOrder(entries, priority)
    requires forall e, e' :: e in entries && e' in entries && e.path == e'.path ==> e == e'
    ensures DistinctPaths(entries)
  {
    forall i, j | 0 <= i < j < |entries|
      ensures entries[i].path != entries[j].path
    {
      assert entries[i] in entries && entries[j] in entries;
      BeforeTotal(entries[i], entries[j], priority);
    }
  }

  lemma OnePathOneEntry(all: seq<FileEntry>, e: FileEntry, e': FileEntry)
    requires DistinctPaths(all) && e in all && e' in all && e.path == e'.path
    ensures e == e'
  {
  }

  lemma {:induction false} SameSize(a: seq<FileEntry>, b: seq<FileEntry>)
    requires DistinctPaths(a) && DistinctPaths(b) && forall e :: e in a <==> e in b
    ensures |a| == |b|
  {
    ghost var x, y := (set e | e in a), (set e | e in b);
    DistinctSize(a);
    DistinctSize(b);
    assert x == y;
  }

  lemma {:induction false} DistinctSize(a: seq<FileEntry>)
    requires DistinctPaths(a)
    ensures |set e | e in a| == |a|
    decreases |a|
  {
    if a == [] {
    } else {
      var shorter, last := a[..|a| - 1], a[|a| - 1];
      DistinctSize(shorter);
      assert last !in shorter;
      assert (set e | e in a) == (set e | e in shorter) + {last};
    }
  }

  /** Nothing is lost, nothing is counted twice, and the constructor has nothing to object to:
      included and omitted make up the whole, no path is in the index twice, no prefix is capped
      twice, every capped prefix is well-formed and every count positive. */
  lemma IndexConserves(index: MemoryIndex, all: seq<FileEntry>, priority: seq<string>, r: Rendering, budget: nat)
    requires DistinctPaths(all) && IsIndex(index, all, priority, r, budget)
    ensures |index.entries| + SumOmitted(index.capped) == |all|
    ensures DistinctPaths(index.entries) && forall e :: e in index.entries ==> e in all
    ensures forall i, j :: 0 <= i < j < |index.capped| ==> index.capped[i].prefix != index.capped[j].prefix
    ensures forall i :: 0 <= i < |index.capped| ==> ValidPrefix(index.capped[i].prefix) && index.capped[i].omitted > 0
    ensures index.capped == [] <==> |index.entries| == |all|
  {
    hide *;
    var omitted := OmittedFrom(index, all, priority, r, budget);
    WholeIsAll(index, omitted, all, priority, r, budget);
    CountsConserve(index.capped, omitted);
  }

  lemma OmittedFrom(index: MemoryIndex, all: seq<FileEntry>, priority: seq<string>, r: Rendering, budget: nat)
    returns (omitted: seq<FileEntry>)
    requires IsIndex(index, all, priority, r, budget)
    ensures IndexWith(index, omitted, all, priority, r, budget) && AllValid(omitted) && CountsOf(index.capped, omitted)
  {
    omitted :| IndexWith(index, omitted, all, priority, r, budget);
  }

  /** The budget is one of bytes shown: those of the entries in the index fit, and with the first entry
      left out they would not. */
  lemma IndexFitsBudget(index: MemoryIndex, all: seq<FileEntry>, priority: seq<string>, r: Rendering, budget: nat)
    returns (omitted: seq<FileEntry>)
    requires IsIndex(index, all, priority, r, budget)
    ensures IndexWith(index, omitted, all, priority, r, budget)
    ensures |ShownAll(index.entries, r)| <= budget
    ensures omitted != [] ==> |ShownAll(index.entries + [omitted[0]], r)| > budget
  {
    hide ShownAll, Total;
    omitted :| IndexWith(index, omitted, all, priority, r, budget);
    TotalIsLength(index.entries, r);
    if omitted != [] {
      TotalIsLength(index.entries + [omitted[0]], r);
    }
  }

  /** No entry is both in the index and left out. */
  lemma WholeIsAll(index: MemoryIndex, omitted: seq<FileEntry>, all: seq<FileEntry>, priority: seq<string>,
                   r: Rendering, budget: nat)
    requires DistinctPaths(all) && IndexWith(index, omitted, all, priority, r, budget)
    ensures |index.entries| + |omitted| == |all| && DistinctPaths(index.entries + omitted) && DistinctPaths(index.entries)
    ensures forall e :: e in index.entries ==> e in all
  {
    hide InOrder, FillsBudget, CountsOf, AllValid;
    var whole := index.entries + omitted;
    forall e, e' | e in whole && e' in whole && e.path == e'.path
      ensures e == e'
    {
      OnePathOneEntry(all, e, e');
    }
    OrderHasDistinctPaths(whole, priority);
    SameSize(whole, all);
    assert forall i :: 0 <= i < |index.entries| ==> whole[i] == index.entries[i];
  }

  lemma CountsConserve(capped: seq<CappedPrefix>, omitted: seq<FileEntry>)
    requires AllValid(omitted) && CountsOf(capped, omitted)
    ensures SumOmitted(capped) == |omitted| && (capped == [] <==> omitted == [])
    ensures forall i, j :: 0 <= i < j < |capped| ==> capped[i].prefix != capped[j].prefix
    ensures forall i :: 0 <= i < |capped| ==> ValidPrefix(capped[i].prefix) && capped[i].omitted > 0
  {
    hide ValidPath, ValidPrefix, AreaOf, InArea, Lt;
    EachCountedOnce(capped, omitted);
    SumIsOmittedIn(capped, omitted);
    forall i, j | 0 <= i < j < |capped|
      ensures capped[i].prefix != capped[j].prefix
    {
      LtIrreflexive(capped[i].prefix);
    }
    if omitted != [] {
      assert HasPrefix(capped, AreaOf(omitted[0].path));
    }
  }

  predicate Renderable(e: FileEntry, r: Rendering) {
    r.inRange(e.metadata.lastUpdated)
  }

  /** The sizes of all entries, or the failure of one that cannot be rendered. */
  method Sized(ordered: seq<FileEntry>, r: Rendering) returns (sizes: Option<seq<nat>>)
    ensures sizes.None? <==> exists i :: 0 <= i < |ordered| && !Renderable(ordered[i], r)
    ensures sizes.Some? ==> |sizes.value| == |ordered|
                            && forall i :: 0 <= i < |ordered| ==> sizes.value[i] == EntryBytes(ordered[i], r)
  {
    hide EntryBytes, Renderable;
    var found: seq<nat> := [];
    for i := 0 to |ordered|
      invariant |found| == i && forall j :: 0 <= j < i ==> Renderable(ordered[j], r)
      invariant forall j :: 0 <= j < i ==> found[j] == EntryBytes(ordered[j], r)
    {
      if !Renderable(ordered[i], r) {
        return None;
      }
      found := found + [EntryBytes(ordered[i], r)];
    }
    return Some(found);
  }

  /** How many entries fit, taken in order. */
  method Fit(ordered: seq<FileEntry>, sizes: seq<nat>, ghost r: Rendering, budget: nat) returns (n: nat)
    requires |sizes| == |ordered| && forall i :: 0 <= i < |ordered| ==> sizes[i] == EntryBytes(ordered[i], r)
    ensures n <= |ordered| && FillsBudget(ordered[..n], ordered[n..], r, budget)
  {
    hide EntryBytes;
    var total := 0;
    n := 0;
    while n < |ordered|
      invariant n <= |ordered| && total == Total(ordered[..n], r) && total <= budget
    {
      assert ordered[..n + 1][..n] == ordered[..n] && ordered[..n + 1][n] == ordered[n];
      if total + sizes[n] > budget {
        assert ordered[..n] + [ordered[n..][0]] == ordered[..n + 1];
        return;
      }
      total := total + sizes[n];
      n := n + 1;
    }
  }

  lemma InAreaStep(omitted: seq<FileEntry>, i: nat, prefix: Key)
    requires AllValid(omitted) && i < |omitted|
    ensures InArea(omitted[..i + 1], prefix)
            == InArea(omitted[..i], prefix) + if AreaOf(omitted[i].path) == prefix then 1 else 0
  {
    assert omitted[..i + 1][..i] == omitted[..i];
  }

  /** The omitted entries per area, in ascending order of area prefix. */
  method CountAreas(omitted: seq<FileEntry>) returns (capped: seq<CappedPrefix>)
    requires AllValid(omitted)
    ensures CountsOf(capped, omitted)
  {
    var counts: map<Key, nat> := map[];
    for i := 0 to |omitted|
      invariant Tallies(counts, omitted[..i])
    {
      ghost var before := counts;
      var area := AreaOf(omitted[i].path);
      counts := counts[area := (if area in counts then counts[area] else 0) + 1];
      TallyStep(before, counts, omitted, i);
    }
    assert omitted[..|omitted|] == omitted;
    CappedCounts(counts, omitted);
    capped := CappedOf(counts);
  }

  lemma TallyStep(before: map<Key, nat>, counts: map<Key, nat>, omitted: seq<FileEntry>, i: nat)
    requires AllValid(omitted) && i < |omitted| && Tallies(before, omitted[..i])
    requires var area := AreaOf(omitted[i].path);
             counts == before[area := (if area in before then before[area] else 0) + 1]
    ensures Tallies(counts, omitted[..i + 1])
  {
    hide AreaOf, InArea, ValidPath;
    forall k
      ensures InArea(omitted[..i + 1], k) == InArea(omitted[..i], k) + if AreaOf(omitted[i].path) == k then 1 else 0
    {
      InAreaStep(omitted, i, k);
    }
  }

  function CappedOf(counts: map<Key, nat>): (capped: seq<CappedPrefix>)
    ensures |capped| == |Sorted(counts.Keys)|
    ensures forall i :: 0 <= i < |capped| ==> Sorted(counts.Keys)[i] in counts
                                              && capped[i] == CappedPrefix(Sorted(counts.Keys)[i], counts[Sorted(counts.Keys)[i]])
  {
    var keys := Sorted(counts.Keys);
    assert forall i :: 0 <= i < |keys| ==> keys[i] in keys;
    seq(|keys|, i requires 0 <= i < |keys| => CappedPrefix(keys[i], counts[keys[i]]))
  }

  /** `counts` holds, for each area of the entries and no other key, how many are in it. */
  ghost predicate Tallies(counts: map<Key, nat>, entries: seq<FileEntry>)
    requires AllValid(entries)
  {
    forall k :: (k in counts <==> InArea(entries, k) > 0) && (k in counts ==> counts[k] == InArea(entries, k))
  }

  lemma TallyArea(counts: map<Key, nat>, omitted: seq<FileEntry>, k: Key)
    requires AllValid(omitted) && Tallies(counts, omitted) && k in counts
    ensures ValidPrefix(k) && counts[k] > 0 && counts[k] == InArea(omitted, k)
  {
    PositiveInArea(omitted, k);
    var j :| 0 <= j < |omitted| && AreaOf(omitted[j].path) == k;
    AreaIsValidPrefix(omitted[j].path);
  }

  lemma AreaTallied(counts: map<Key, nat>, omitted: seq<FileEntry>, j: nat)
    requires AllValid(omitted) && Tallies(counts, omitted) && j < |omitted|
    ensures AreaOf(omitted[j].path) in counts
  {
    PositiveInArea(omitted, AreaOf(omitted[j].path));
  }

  lemma CappedHasPrefix(counts: map<Key, nat>, k: Key)
    requires k in counts
    ensures HasPrefix(CappedOf(counts), k)
  {
    var keys := Sorted(counts.Keys);
    assert k in keys;
    var i :| 0 <= i < |keys| && keys[i] == k;
    assert CappedOf(counts)[i].prefix == k;
  }

  lemma CappedCounts(counts: map<Key, nat>, omitted: seq<FileEntry>)
    requires AllValid(omitted) && Tallies(counts, omitted)
    ensures CountsOf(CappedOf(counts), omitted)
  {
    hide Tallies, Lt, ValidPath, ValidPrefix, AreaOf, InArea, HasPrefix, Sorted;
    var capped := CappedOf(counts);
    forall i | 0 <= i < |capped|
      ensures ValidPrefix(capped[i].prefix) && capped[i].omitted > 0
              && capped[i].omitted == InArea(omitted, capped[i].prefix)
    {
      TallyArea(counts, omitted, capped[i].prefix);
    }
    forall j | 0 <= j < |omitted|
      ensures HasPrefix(capped, AreaOf(omitted[j].path))
    {
      AreaTallied(counts, omitted, j);
      CappedHasPrefix(counts, AreaOf(omitted[j].path));
    }
  }

  /** The index of the collected entries: it fails exactly when some entry cannot be rendered, even
      one past the cut. */
  method Assemble(collected: seq<FileEntry>, priority: seq<string>, r: Rendering, budget: nat)
    returns (index: Option<MemoryIndex>)
    requires AllValid(collected) && DistinctPaths(collected)
    ensures index.None? <==> exists e :: e in collected && !Renderable(e, r)
    ensures index.Some? ==> IsIndex(index.value, collected, priority, r, budget)
  {
    hide *;
    var ordered := Ordered(collected, priority);
    var sizes := Sized(ordered, r);
    SomeUnrenderable(collected, ordered, r);
    if sizes.None? {
      return None;
    }
    var n := Fit(ordered, sizes.value, r, budget);
    ValidFrom(ordered, n);
    var capped := CountAreas(ordered[n..]);
    CutIsIndex(ordered, n, capped, collected, priority, r, budget);
    return Some(MemoryIndex(ordered[..n], capped));
  }

  lemma SomeUnrenderable(all: seq<FileEntry>, ordered: seq<FileEntry>, r: Rendering)
    requires forall e :: e in ordered <==> e in all
    ensures (exists e :: e in all && !Renderable(e, r)) <==> exists i :: 0 <= i < |ordered| && !Renderable(ordered[i], r)
  {
    hide Renderable;
    if e :| e in all && !Renderable(e, r) {
      assert e in ordered;
    }
    if i :| 0 <= i < |ordered| && !Renderable(ordered[i], r) {
      assert ordered[i] in ordered;
    }
  }

  lemma ValidFrom(entries: seq<FileEntry>, n: nat)
    requires AllValid(entries) && n <= |entries|
    ensures AllValid(entries[n..])
  {
  }

  lemma CutIsIndex(ordered: seq<FileEntry>, n: nat, capped: seq<CappedPrefix>, all: seq<FileEntry>,
                   priority: seq<string>, r: Rendering, budget: nat)
    requires n <= |ordered| && AllValid(ordered) && AllValid(ordered[n..]) && InOrder(ordered, priority)
    requires forall e :: e in ordered <==> e in all
    requires FillsBudget(ordered[..n], ordered[n..], r, budget) && CountsOf(capped, ordered[n..])
    ensures IsIndex(MemoryIndex(ordered[..n], capped), all, priority, r, budget)
  {
    hide InOrder, FillsBudget, CountsOf, AllValid;
    assert ordered[..n] + ordered[n..] == ordered;
    assert IndexWith(MemoryIndex(ordered[..n], capped), ordered[n..], all, priority, r, budget);
  }
}
