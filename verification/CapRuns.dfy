/** What checking the file cap before each create guarantees over runs: never more than the limit
    one client at a time, and at most one file over it for each further client otherwise. */
module CapRuns {
  import opened Wrappers
  import opened KeyOrder
  import opened Utf8
  import opened Paths
  import opened FileFormat
  import opened Metadata
  import opened SharedStorage
  import opened MemoryStore
  import opened FileCap
  import S = Storage

  function Count(f: S.Flat, prefix: Key): nat {
    |CountedKeys(f, prefix)|
  }

  /** One whole operation of the store, with no other in between. */
  ghost predicate WholeOperation(f: S.Flat, g: S.Flat, limit: nat) {
    || (exists r, max, path, content, metadata, expected, source ::
          WriteAlone(f, g, r, max, AtLimit(f, path, limit), path, content, metadata, expected, source))
    || (exists r, max, path, before, after, expected, source, aliases, description ::
          ReplaceAlone(f, g, r, max, path, before, after, expected, source, aliases, description))
    || (exists r, max, path, line, expected, source, aliases, description ::
          AppendAlone(f, g, r, max, path, line, expected, source, aliases, description))
    || (exists r, path, expected :: DeleteAlone(f, g, r, path, expected))
  }

  /** The keys of `g` are those of `f`, or fewer, or one more that the cap allowed. */
  ghost predicate CappedChange(f: S.Flat, g: S.Flat, limit: nat) {
    || g.objects.Keys <= f.objects.Keys
    || exists path :: path !in f.objects && !AtLimit(f, path, limit) && g.objects.Keys == f.objects.Keys + {path}
  }

  lemma PutChange(f: S.Flat, g: S.Flat, r: Result<MemoryFile, Error>, path: string, content: string,
                  metadata: FileMetadata, limit: nat)
    requires PutDone(f, g, r, path, content, metadata) && (path in f.objects || !AtLimit(f, path, limit))
    ensures CappedChange(f, g, limit)
  {
    assert g.objects.Keys == f.objects.Keys + {path};
  }

  lemma OperationIsCapped(f: S.Flat, g: S.Flat, limit: nat)
    requires WholeOperation(f, g, limit)
    ensures CappedChange(f, g, limit)
  {
    if r, max, path, content, metadata, expected, source :|
      WriteAlone(f, g, r, max, AtLimit(f, path, limit), path, content, metadata, expected, source)
    {
      WriteIsCapped(f, g, r, max, limit, path, content, metadata, expected, source);
    } else if r, max, path, before, after, expected, source, aliases, description :|
      ReplaceAlone(f, g, r, max, path, before, after, expected, source, aliases, description)
    {
      ReplaceIsCapped(f, g, r, max, limit, path, before, after, expected, source, aliases, description);
    } else if r, max, path, line, expected, source, aliases, description :|
      AppendAlone(f, g, r, max, path, line, expected, source, aliases, description)
    {
      AppendIsCapped(f, g, r, max, limit, path, line, expected, source, aliases, description);
    } else {
      var r, path, expected :| DeleteAlone(f, g, r, path, expected);
    }
  }

  lemma WriteIsCapped(f: S.Flat, g: S.Flat, r: Result<MemoryFile, Error>, max: nat, limit: nat, path: string,
                      content: string, metadata: FileMetadata, expected: Option<S.Version>, source: string)
    requires WriteAlone(f, g, r, max, AtLimit(f, path, limit), path, content, metadata, expected, source)
    ensures CappedChange(f, g, limit)
  {
    hide CappedChange, AtLimit, ValidPath, Encode, Decode;
    if r.Failure? {
      Unchanged(f, g, limit);
    } else if expected.None? {
      PutChange(f, g, r, path, content, metadata.(sources := metadata.sources + {source}), limit);
    } else {
      var stored := FromMap(f.objects[path].metadata).value;
      PutChange(f, g, r, path, content, metadata.(sources := stored.sources + metadata.sources + {source}), limit);
    }
  }

  lemma Unchanged(f: S.Flat, g: S.Flat, limit: nat)
    requires f == g
    ensures CappedChange(f, g, limit)
  {
  }

  lemma ReplaceIsCapped(f: S.Flat, g: S.Flat, r: Result<MemoryFile, Error>, max: nat, limit: nat, path: string,
                        before: string, after: string, expected: S.Version, source: string,
                        aliases: Option<seq<string>>, description: Option<Text>)
    requires ReplaceAlone(f, g, r, max, path, before, after, expected, source, aliases, description)
    ensures CappedChange(f, g, limit)
  {
    hide CappedChange, AtLimit, ValidPath, Encode, Decode, FromMap;
    if r.Failure? {
      Unchanged(f, g, limit);
    } else {
      PutChange(f, g, r, path, r.value.content, r.value.metadata, limit);
    }
  }

  lemma AppendIsCapped(f: S.Flat, g: S.Flat, r: Result<MemoryFile, Error>, max: nat, limit: nat, path: string,
                       line: string, expected: S.Version, source: string,
                       aliases: Option<seq<string>>, description: Option<Text>)
    requires AppendAlone(f, g, r, max, path, line, expected, source, aliases, description)
    ensures CappedChange(f, g, limit)
  {
    hide CappedChange, AtLimit, ValidPath, Encode, Decode, FromMap, ParseFact;
    if r.Failure? {
      Unchanged(f, g, limit);
    } else {
      PutChange(f, g, r, path, r.value.content, r.value.metadata, limit);
    }
  }

  /** A counted key under an entity's prefix is checked against that very prefix. */
  lemma CheckedPrefix(scope: string, entity: string, path: string)
    requires '/' !in scope && '/' !in entity && Counted(path) && EntityPrefix(scope, entity) <= path
    ensures CapPrefix(path) == EntityPrefix(scope, entity)
  {
    EntityPrefixSegments(scope, entity, path);
  }

  lemma FewerCounted(f: S.Flat, g: S.Flat, prefix: Key)
    requires forall k :: k in CountedKeys(g, prefix) ==> k in f.objects
    ensures Count(g, prefix) <= Count(f, prefix)
  {
    SubsetCardinality(CountedKeys(g, prefix), CountedKeys(f, prefix));
  }

  lemma OneMoreCounted(f: S.Flat, g: S.Flat, prefix: Key, path: Key)
    requires path !in f.objects && g.objects.Keys == f.objects.Keys + {path}
    requires Counted(path) && prefix <= path
    ensures Count(g, prefix) == Count(f, prefix) + 1
  {
    assert CountedKeys(g, prefix) == CountedKeys(f, prefix) + {path};
  }

  lemma CapStep(f: S.Flat, g: S.Flat, limit: nat, scope: string, entity: string)
    requires '/' !in scope && '/' !in entity && WholeOperation(f, g, limit)
    ensures var prefix := EntityPrefix(scope, entity); Count(g, prefix) <= Max(Count(f, prefix), limit)
  {
    var prefix := EntityPrefix(scope, entity);
    OperationIsCapped(f, g, limit);
    if g.objects.Keys <= f.objects.Keys {
      FewerCounted(f, g, prefix);
    } else {
      var path :| path !in f.objects && !AtLimit(f, path, limit) && g.objects.Keys == f.objects.Keys + {path};
      if Counted(path) && prefix <= path {
        CheckedPrefix(scope, entity, path);
        OneMoreCounted(f, g, prefix, path);
      } else {
        FewerCounted(f, g, prefix);
      }
    }
  }

  /** One operation after another: no entity ever holds more files than the limit, or than it began with. */
  lemma {:induction false} SequentialRunsKeepCap(states: seq<S.Flat>, limit: nat, scope: string, entity: string, i: nat)
    requires '/' !in scope && '/' !in entity && i < |states|
    requires forall j :: 0 <= j < |states| - 1 ==> WholeOperation(states[j], states[j + 1], limit)
    ensures var prefix := EntityPrefix(scope, entity); Count(states[i], prefix) <= Max(Count(states[0], prefix), limit)
  {
    if i == 0 {
    } else {
      SequentialRunsKeepCap(states, limit, scope, entity, i - 1);
      assert WholeOperation(states[i - 1], states[i - 1 + 1], limit);
      CapStep(states[i - 1], states[i], limit, scope, entity);
    }
  }

  /** The commit adds a file that counts against the entity's cap. */
  predicate AddsCounted(c: Commit, prefix: Key) {
    c.key !in c.before.objects && c.key in c.after.objects && Counted(c.key) && prefix <= c.key
  }

  predicate SameAuthorAdds(c: Commit, d: Commit, prefix: Key) {
    AddsCounted(c, prefix) && AddsCounted(d, prefix) && c.author == d.author
  }

  /** Every create of this entity's files came after a count, over the window `counts[j]`, that found
      room; each client makes one create after another. That is what `write_file` does. */
  ghost predicate Checked(start: S.Flat, log: seq<Commit>, counts: seq<Window>, prefix: Key, limit: nat) {
    && |counts| == |log|
    && (forall j :: 0 <= j < |log| && AddsCounted(log[j], prefix) ==>
          counts[j].to <= j && RoomIn(start, log, counts[j], log[j].key, limit))
    && (forall i, j | 0 <= i < j < |log| && SameAuthorAdds(log[i], log[j], prefix) :: i < counts[j].from)
  }

  /** The files of the entity that have been there ever since state `t`, up to state `i`. */
  ghost function Since(start: S.Flat, log: seq<Commit>, t: nat, i: nat, prefix: Key): set<Key>
    requires t <= i <= |log|
  {
    Throughout(start, log, Window(t, i), prefix)
  }

  /** The files there since a later state are those there since the one before it and perhaps the one
      its commit created. */
  lemma SinceGrows(start: S.Flat, log: seq<Commit>, now: S.Flat, t: nat, i: nat, prefix: Key)
    requires LogOk(start, log, now) && t < i <= |log|
    ensures Since(start, log, t, i, prefix) <= Since(start, log, t + 1, i, prefix)
    ensures Since(start, log, t + 1, i, prefix) <= Since(start, log, t, i, prefix) + {log[t].key}
    ensures !AddsCounted(log[t], prefix) ==> Since(start, log, t + 1, i, prefix) == Since(start, log, t, i, prefix)
    ensures |Since(start, log, t + 1, i, prefix)| <= |Since(start, log, t, i, prefix)| + 1
  {
    hide Counted, S.Issued, S.Evolves;
    assert IsCommit(log[t]) && log[t].before == StateAt(start, log, t) && log[t].after == StateAt(start, log, t + 1);
    var earlier, later := Since(start, log, t, i, prefix), Since(start, log, t + 1, i, prefix);
    forall k | k in later && (k != log[t].key || !AddsCounted(log[t], prefix))
      ensures k in earlier
    {
      assert k in StateAt(start, log, t + 1).objects;
      assert k in StateAt(start, log, t).objects;
    }
    SubsetCardinality(later, earlier + {log[t].key});
  }

  /** Files there over a stretch were there over every part of it. */
  lemma SinceWithin(start: S.Flat, log: seq<Commit>, t: nat, i: nat, w: Window, prefix: Key)
    requires t <= w.from <= w.to <= i <= |log|
    ensures |Since(start, log, t, i, prefix)| <= |Throughout(start, log, w, prefix)|
  {
    hide Counted;
    SubsetCardinality(Since(start, log, t, i, prefix), Throughout(start, log, w, prefix));
  }

  /** If as many files as the limit have been there since state `t`, whoever created another since
      then had begun to count before `t`. */
  lemma CountedBefore(start: S.Flat, log: seq<Commit>, counts: seq<Window>, limit: nat, scope: string, entity: string,
                      t: nat, j: nat, i: nat)
    requires '/' !in scope && '/' !in entity && t <= j < i <= |log|
    requires Checked(start, log, counts, EntityPrefix(scope, entity), limit)
    requires AddsCounted(log[j], EntityPrefix(scope, entity))
    requires |Since(start, log, t, i, EntityPrefix(scope, entity))| >= limit
    ensures counts[j].from < t
  {
    hide Throughout, EntityPrefix, CapPrefix;
    CheckedPrefix(scope, entity, log[j].key);
    if t <= counts[j].from {
      SinceWithin(start, log, t, i, counts[j], EntityPrefix(scope, entity));
    }
  }

  lemma AnotherAuthor(start: S.Flat, log: seq<Commit>, counts: seq<Window>, limit: nat, scope: string, entity: string,
                      t: nat, j: nat, u: nat, i: nat)
    requires '/' !in scope && '/' !in entity && 0 < t <= j + 1 && j < u < i <= |log|
    requires Checked(start, log, counts, EntityPrefix(scope, entity), limit)
    requires AddsCounted(log[j], EntityPrefix(scope, entity)) && AddsCounted(log[u], EntityPrefix(scope, entity))
    requires |Since(start, log, t, i, EntityPrefix(scope, entity))| >= limit
    ensures log[j].author != log[u].author
  {
    hide AddsCounted, RoomIn, EntityPrefix, Since;
    CountedBefore(start, log, counts, limit, scope, entity, t, u, i);
  }

  /** The first state since which as many files as the limit have been there. */
  lemma {:induction false} FirstFull(start: S.Flat, log: seq<Commit>, prefix: Key, limit: nat, u: nat, i: nat) returns (t: nat)
    requires u <= i <= |log| && |Since(start, log, u, i, prefix)| >= limit
    ensures t <= u && |Since(start, log, t, i, prefix)| >= limit
    ensures t == 0 || |Since(start, log, t - 1, i, prefix)| < limit
  {
    t := u;
    if u > 0 && |Since(start, log, u - 1, i, prefix)| >= limit {
      t := FirstFull(start, log, prefix, limit, u - 1, i);
    }
  }

  /** The authors whose creates since state `t - 1` are still there at state `i`: each further file
      has an author of its own, because each of them counted before `t`. */
  lemma {:induction false} AuthorsSince(start: S.Flat, log: seq<Commit>, now: S.Flat, counts: seq<Window>, limit: nat,
                                        clients: set<Client>, scope: string, entity: string, t: nat, u: nat, i: nat)
    returns (authors: set<Client>)
    requires '/' !in scope && '/' !in entity && 0 < t <= u + 1 && t <= i && u <= i <= |log|
    requires LogOk(start, log, now) && Checked(start, log, counts, EntityPrefix(scope, entity), limit)
    requires forall j :: 0 <= j < |log| && AddsCounted(log[j], EntityPrefix(scope, entity)) ==> log[j].author in clients
    requires |Since(start, log, t, i, EntityPrefix(scope, entity))| >= limit
    requires |Since(start, log, t - 1, i, EntityPrefix(scope, entity))| < limit
    ensures authors <= clients && |Since(start, log, u, i, EntityPrefix(scope, entity))| <= limit - 1 + |authors|
    ensures forall a :: a in authors ==>
                          exists j :: t - 1 <= j < u && AddsCounted(log[j], EntityPrefix(scope, entity)) && log[j].author == a
    decreases u
  {
    hide AddsCounted, RoomIn, EntityPrefix, Since, IsCommit;
    var prefix := EntityPrefix(scope, entity);
    if u + 1 == t {
      authors := {};
    } else {
      authors := AuthorsSince(start, log, now, counts, limit, clients, scope, entity, t, u - 1, i);
      SinceGrows(start, log, now, u - 1, i, prefix);
      if AddsCounted(log[u - 1], prefix) {
        forall j | t - 1 <= j < u - 1 && AddsCounted(log[j], prefix)
          ensures log[j].author != log[u - 1].author
        {
          AnotherAuthor(start, log, counts, limit, scope, entity, t, j, u - 1, i);
        }
        authors := authors + {log[u - 1].author};
      }
    }
  }

  /** With as many files as the limit there from the start on, none is ever added to them. */
  lemma {:induction false} FullFromStart(start: S.Flat, log: seq<Commit>, now: S.Flat, counts: seq<Window>, limit: nat,
                                         scope: string, entity: string, u: nat, i: nat)
    requires '/' !in scope && '/' !in entity && u <= i <= |log|
    requires LogOk(start, log, now) && Checked(start, log, counts, EntityPrefix(scope, entity), limit)
    requires |Since(start, log, 0, i, EntityPrefix(scope, entity))| >= limit
    ensures |Since(start, log, u, i, EntityPrefix(scope, entity))| <= Count(start, EntityPrefix(scope, entity))
  {
    hide AddsCounted, RoomIn, EntityPrefix, IsCommit, Counted;
    var prefix := EntityPrefix(scope, entity);
    if u == 0 {
      SubsetCardinality(Since(start, log, 0, i, prefix), CountedKeys(start, prefix));
    } else {
      FullFromStart(start, log, now, counts, limit, scope, entity, u - 1, i);
      SinceGrows(start, log, now, u - 1, i, prefix);
      if AddsCounted(log[u - 1], prefix) {
        CountedBefore(start, log, counts, limit, scope, entity, 0, u - 1, i);
      }
    }
  }

  /** N clients at once, each counting page by page while the others commit: after every commit the
      entity holds at most limit + N - 1 files, or as many as it began with. */
  lemma ConcurrentRunsBoundCap(start: S.Flat, log: seq<Commit>, now: S.Flat, counts: seq<Window>, limit: nat,
                               clients: set<Client>, scope: string, entity: string, i: nat)
    requires '/' !in scope && '/' !in entity && clients != {} && i <= |log|
    requires LogOk(start, log, now) && Checked(start, log, counts, EntityPrefix(scope, entity), limit)
    requires forall j :: 0 <= j < |log| && AddsCounted(log[j], EntityPrefix(scope, entity)) ==> log[j].author in clients
    ensures Count(StateAt(start, log, i), EntityPrefix(scope, entity))
            <= Max(Count(start, EntityPrefix(scope, entity)), limit + |clients| - 1)
  {
    hide AddsCounted, RoomIn, EntityPrefix, IsCommit, Counted, Checked;
    var prefix := EntityPrefix(scope, entity);
    assert Since(start, log, i, i, prefix) == CountedKeys(StateAt(start, log, i), prefix);
    if Count(StateAt(start, log, i), prefix) >= limit {
      var t := FirstFull(start, log, prefix, limit, i, i);
      if t == 0 {
        FullFromStart(start, log, now, counts, limit, scope, entity, i, i);
      } else {
        var authors := AuthorsSince(start, log, now, counts, limit, clients, scope, entity, t, i, i);
        SubsetCardinality(authors, clients);
      }
    }
  }

  /** A successful create of `write_file`: the call ran from `began` to `ended` and counted in between. */
  datatype Create = Create(began: nat, counted: Window, ended: nat)

  /** What `write_file` promises of the call that made commit `j`: that is its only commit, it came
      after the count, and the count found room. */
  ghost predicate Created(start: S.Flat, log: seq<Commit>, j: nat, call: Create, limit: nat) {
    && j < |log| && call.began <= j < call.ended <= |log|
    && call.began <= call.counted.from <= call.counted.to <= call.ended
    && Mine(log[j].author, log[..call.ended], call.began) == [log[j]]
    && Mine(log[j].author, log[..call.ended], call.counted.to) == [log[j]]
    && RoomIn(start, log[..call.ended], call.counted, log[j].key, limit)
  }

  lemma CommitAfterCount(start: S.Flat, log: seq<Commit>, j: nat, call: Create, limit: nat)
    requires Created(start, log, j, call, limit)
    ensures call.counted.to <= j && RoomIn(start, log, call.counted, log[j].key, limit)
  {
    hide RoomIn;
    var me, done := log[j].author, log[..call.ended];
    MineSplit(me, done, call.began, call.counted.to);
    assert j < call.counted.to ==> done[..call.counted.to][j] == log[j];
    MineHasAll(me, done[..call.counted.to], call.began);
    RoomStill(start, done, log, call.counted, log[j].key, limit);
  }

  /** So the log is as the bound asks, if every create is one of `write_file`'s and no client runs two at once. */
  lemma CreatesAreChecked(start: S.Flat, log: seq<Commit>, calls: seq<Create>, counts: seq<Window>, prefix: Key, limit: nat)
    requires |calls| == |counts| == |log| && forall j :: 0 <= j < |log| ==> counts[j] == calls[j].counted
    requires forall j :: 0 <= j < |log| && AddsCounted(log[j], prefix) ==> Created(start, log, j, calls[j], limit)
    requires forall i, j | 0 <= i < j < |log| && SameAuthorAdds(log[i], log[j], prefix) :: calls[i].ended <= calls[j].began
    ensures Checked(start, log, counts, prefix, limit)
  {
    hide AddsCounted, RoomIn;
    forall j | 0 <= j < |log| && AddsCounted(log[j], prefix)
      ensures counts[j].to <= j && RoomIn(start, log, counts[j], log[j].key, limit)
    {
      CommitAfterCount(start, log, j, calls[j], limit);
    }
    forall i, j | 0 <= i < j < |log| && SameAuthorAdds(log[i], log[j], prefix)
      ensures i < counts[j].from
    {
      assert Created(start, log, i, calls[i], limit) && Created(start, log, j, calls[j], limit);
    }
  }

  /** A name of `n + 1` letters. */
  function Letters(n: nat): (name: string)
    ensures |name| == n + 1 && forall c :: c in name ==> c == 'a'
  {
    if n == 0 then "a" else "a" + Letters(n - 1)
  }

  /** A path of the entity, the longer the larger `n`. */
  function Numbered(scope: string, entity: string, n: nat): Key {
    Slash(scope, Slash(entity, Slash("notes", Letters(n) + MD_SUFFIX)))
  }

  lemma NumberedCounts(scope: string, entity: string, n: nat)
    requires ValidSegment(scope) && ValidSegment(entity)
    ensures Counted(Numbered(scope, entity, n)) && EntityPrefix(scope, entity) <= Numbered(scope, entity, n)
    ensures |Numbered(scope, entity, n)| > n && '/' !in scope && '/' !in entity
  {
    hide ValidPath;
    var name := Letters(n);
    LettersAreValid(n);
    BuildThenParse(scope, entity, "notes", name);
    assert BuildPath(scope, entity, "notes", name) == Some(Numbered(scope, entity, n));
    var rest := Slash("notes", name + MD_SUFFIX);
    assert Numbered(scope, entity, n) == EntityPrefix(scope, entity) + rest;
  }

  lemma LettersAreValid(n: nat)
    ensures ValidSegment(Letters(n) + MD_SUFFIX)
  {
    var segment := Letters(n) + MD_SUFFIX;
    assert segment[|segment| - 1] == 'd';
    assert forall c :: c in segment ==> c == 'a' || c in MD_SUFFIX;
  }

  /** Some length that no stored key reaches. */
  lemma {:induction false} LengthBound(keys: set<Key>) returns (bound: nat)
    ensures forall k :: k in keys ==> |k| <= bound
  {
    if keys == {} {
      bound := 0;
    } else {
      var k :| k in keys;
      bound := LengthBound(keys - {k});
      bound := Max(bound, |k|);
      assert forall x :: x in keys ==> x == k || x in keys - {k};
    }
  }

  /** The commit is a create of `write_file`: it stored the file that such a call returns. */
  ghost predicate CreatesFile(c: Commit, content: string, given: FileMetadata, source: string) {
    exists file :: Stored(c, file) && file.content == content && WritesFile(c, file.metadata, given, None, source)
  }

  /** The storage after the creates so far, each of a path longer than any before. */
  ghost predicate Grown(f: S.Flat, log: seq<Commit>, limit: nat, scope: string, entity: string, bound: nat) {
    && LogOk(f, log, StateAt(f, log, |log|))
    && Count(StateAt(f, log, |log|), EntityPrefix(scope, entity)) == limit + |log| - 1
    && forall k :: k in StateAt(f, log, |log|).objects ==> |k| < |Numbered(scope, entity, bound + |log|)|
  }

  /** The creates so far, each by another client that counted in the first state. */
  ghost predicate AllCreate(f: S.Flat, log: seq<Commit>, calls: seq<Create>, limit: nat, content: string,
                            given: FileMetadata, source: string)
  {
    && |calls| == |log|
    && (forall j :: 0 <= j < |log| ==> log[j].author == j && Created(f, log, j, calls[j], limit))
    && (forall j :: 0 <= j < |log| ==> CreatesFile(log[j], content, given, source))
  }

  /** The bound is reached, for any number of clients, from any storage where one file is missing to the
      limit: all of them create with `write_file`, and all count before any of them puts. */
  lemma BoundIsReached(f: S.Flat, limit: nat, scope: string, entity: string, content: string, given: FileMetadata,
                       source: string, n: nat) returns (log: seq<Commit>, calls: seq<Create>, counts: seq<Window>)
    requires ValidSegment(scope) && ValidSegment(entity) && S.Issued(f)
    requires Count(f, EntityPrefix(scope, entity)) + 1 == limit
    ensures |log| == |calls| == |counts| == n && LogOk(f, log, StateAt(f, log, n))
    ensures forall j :: 0 <= j < n ==> && log[j].author == j && Created(f, log, j, calls[j], limit)
                                       && CreatesFile(log[j], content, given, source)
    ensures Checked(f, log, counts, EntityPrefix(scope, entity), limit)
    ensures Count(StateAt(f, log, n), EntityPrefix(scope, entity)) == limit + n - 1
  {
    hide Created, CreatesFile, AddsCounted, RoomIn, EntityPrefix, Numbered, ValidSegment, LogOk, S.Issued;
    var bound := LengthBound(f.objects.Keys);
    log, calls := CreateAll(f, limit, scope, entity, bound, content, given, source, n);
    counts := seq(n, j requires 0 <= j < n => calls[j].counted);
    CreatesAreChecked(f, log, calls, counts, EntityPrefix(scope, entity), limit);
  }

  lemma {:induction false} CreateAll(f: S.Flat, limit: nat, scope: string, entity: string, bound: nat, content: string,
                                     given: FileMetadata, source: string, n: nat)
    returns (log: seq<Commit>, calls: seq<Create>)
    requires ValidSegment(scope) && ValidSegment(entity) && S.Issued(f)
    requires Count(f, EntityPrefix(scope, entity)) + 1 == limit && forall k :: k in f.objects ==> |k| <= bound
    ensures |log| == n && Grown(f, log, limit, scope, entity, bound) && AllCreate(f, log, calls, limit, content, given, source)
  {
    hide Count, EntityPrefix, Numbered, ValidSegment, S.Issued, Created, CreatesFile;
    if n == 0 {
      log, calls := [], [];
      NumberedCounts(scope, entity, bound);
    } else {
      log, calls := CreateAll(f, limit, scope, entity, bound, content, given, source, n - 1);
      hide Grown, AllCreate;
      var c := NextCreate(f, log, limit, scope, entity, bound, content, given, source);
      OneMoreCreate(f, log, calls, c, limit, content, given, source);
      log, calls := log + [c], calls + [Create(0, Window(0, 0), n)];
    }
  }

  /** One more client, that counted at the start as well, puts its file. */
  lemma NextCreate(f: S.Flat, log: seq<Commit>, limit: nat, scope: string, entity: string, bound: nat, content: string,
                   given: FileMetadata, source: string) returns (c: Commit)
    requires ValidSegment(scope) && ValidSegment(entity) && Count(f, EntityPrefix(scope, entity)) + 1 == limit
    requires Grown(f, log, limit, scope, entity, bound)
    ensures Grown(f, log + [c], limit, scope, entity, bound)
    ensures c.author == |log| && RoomIn(f, [], Window(0, 0), c.key, limit)
    ensures CreatesFile(c, content, given, source)
  {
    hide LogOk, Counted, EntityPrefix, Count, CreatesFile, RoomIn, Numbered, ValidSegment, Encode, ToMap;
    var n, last := |log|, StateAt(f, log, |log|);
    var path := Numbered(scope, entity, bound + n);
    var stamped := given.(sources := given.sources + {source});
    NumberedCounts(scope, entity, bound + n);
    assert path !in last.objects;
    c := Commit(n, path, Creating(stamped.sources, given.description), last, S.Put(last, path, Encode(content), ToMap(stamped)));
    LogRecords(f, log, last, c);
    assert StateAt(f, log + [c], n + 1) == c.after;
    OneMoreCounted(last, c.after, EntityPrefix(scope, entity), path);
    NumberedGrows(scope, entity, bound + n);
    IsCreate(c, MemoryFile(path, content, stamped, last.next), content, given, source);
    RoomAtStart(f, path, limit, scope, entity);
  }

  lemma OneMoreCreate(f: S.Flat, log: seq<Commit>, calls: seq<Create>, c: Commit, limit: nat, content: string,
                      given: FileMetadata, source: string)
    requires AllCreate(f, log, calls, limit, content, given, source)
    requires c.author == |log| && RoomIn(f, [], Window(0, 0), c.key, limit)
    requires CreatesFile(c, content, given, source)
    ensures AllCreate(f, log + [c], calls + [Create(0, Window(0, 0), |log| + 1)], limit, content, given, source)
  {
    hide Created, CreatesFile, RoomIn;
    var log', calls' := log + [c], calls + [Create(0, Window(0, 0), |log| + 1)];
    forall j | 0 <= j < |log'|
      ensures log'[j] == (if j < |log| then log[j] else c) && Created(f, log', j, calls'[j], limit)
    {
      if j < |log| {
        CreatedStill(f, log, log', j, calls[j], limit);
      } else {
        FirstCreate(f, log, c, limit);
      }
    }
  }

  lemma NumberedGrows(scope: string, entity: string, n: nat)
    ensures |Numbered(scope, entity, n)| < |Numbered(scope, entity, n + 1)|
  {
  }

  lemma IsCreate(c: Commit, file: MemoryFile, content: string, given: FileMetadata, source: string)
    requires c.key == file.path && file.content == content && file.path !in c.before.objects
    requires file.metadata == given.(sources := given.sources + {source}) && file.version == c.before.next
    requires c.request == Creating(file.metadata.sources, given.description)
    requires c.after == S.Put(c.before, file.path, Encode(content), ToMap(file.metadata))
    ensures CreatesFile(c, content, given, source)
  {
    hide Encode, ToMap;
    assert Stored(c, file) && WritesFile(c, file.metadata, given, None, source);
  }

  lemma CreatedStill(f: S.Flat, log: seq<Commit>, log': seq<Commit>, j: nat, call: Create, limit: nat)
    requires Created(f, log, j, call, limit) && log <= log'
    ensures Created(f, log', j, call, limit)
  {
    hide RoomIn;
    assert log'[..call.ended] == log[..call.ended];
  }

  /** A client that has committed nothing before creates its file, having counted in the first state. */
  lemma FirstCreate(f: S.Flat, log: seq<Commit>, c: Commit, limit: nat)
    requires RoomIn(f, [], Window(0, 0), c.key, limit) && forall j :: 0 <= j < |log| ==> log[j].author != c.author
    ensures Created(f, log + [c], |log|, Create(0, Window(0, 0), |log| + 1), limit)
  {
    hide RoomIn;
    var log' := log + [c];
    assert log'[..|log| + 1] == log' && log'[..|log|] == log;
    NoneMine(c.author, log);
    RoomStill(f, [], log', Window(0, 0), c.key, limit);
  }

  lemma {:induction false} NoneMine(me: Client, log: seq<Commit>)
    requires forall j :: 0 <= j < |log| ==> log[j].author != me
    ensures Mine(me, log, 0) == []
    decreases |log|
  {
    if log == [] {
    } else {
      NoneMine(me, log[..|log| - 1]);
    }
  }

  lemma RoomAtStart(f: S.Flat, key: Key, limit: nat, scope: string, entity: string)
    requires '/' !in scope && '/' !in entity && Counted(key) && EntityPrefix(scope, entity) <= key
    requires Count(f, EntityPrefix(scope, entity)) < limit
    ensures RoomIn(f, [], Window(0, 0), key, limit)
  {
    CheckedPrefix(scope, entity, key);
    assert Throughout(f, [], Window(0, 0), CapPrefix(key)) == CountedKeys(f, CapPrefix(key));
  }
}
