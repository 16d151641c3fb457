/** The storage as one client sees it: before each of its calls the other clients may make any
    finite number of commits the storage contract allows. The log of all commits is history. */
module SharedStorage {
  import opened Wrappers
  import opened KeyOrder
  import opened Utf8
  import opened Metadata
  import S = Storage

  type Client = nat

  /** History: what the client that made a commit asked for. */
  datatype Request =
    | Creating(sources: set<string>, given: Text)
    | Overwriting(sources: set<string>, given: Text)
    | Appending(line: string, source: string, description: Option<Text>)
    | Replacing(source: string, description: Option<Text>)
    | Deleting
    | Unspecified

  datatype Commit = Commit(author: Client, key: Key, request: Request, before: S.Flat, after: S.Flat)

  /** History: what one call of `list_page` returned, when the log had `at` commits. */
  datatype ListCall = ListCall(client: Client, at: nat, page: seq<S.Listed>)

  /** A commit puts or removes the object at its key, and nothing else. */
  ghost predicate IsCommit(c: Commit) {
    || (c.key in c.after.objects
        && c.after == S.Put(c.before, c.key, c.after.objects[c.key].data, c.after.objects[c.key].metadata))
    || (c.key in c.before.objects && c.after == S.Remove(c.before, c.key))
  }

  /** `log` leads from `start` to `now`, commit by commit. */
  ghost predicate LogOk(start: S.Flat, log: seq<Commit>, now: S.Flat) {
    && S.Issued(start)
    && now == StateAt(start, log, |log|)
    && (forall i {:trigger IsCommit(log[i])} :: 0 <= i < |log| ==> IsCommit(log[i]) && log[i].before == StateAt(start, log, i))
  }

  /** The storage after the first `n` commits. */
  ghost function StateAt(start: S.Flat, log: seq<Commit>, n: nat): S.Flat
    requires n <= |log|
  {
    if n == 0 then start else log[n - 1].after
  }

  lemma CommitEvolves(c: Commit)
    requires IsCommit(c)
    ensures S.Evolves(c.before, c.after) && (S.Issued(c.before) ==> S.Issued(c.after))
    ensures forall k :: k != c.key ==> S.Get(c.before, k) == S.Get(c.after, k)
  {
  }

  lemma {:induction false} LogEvolves(start: S.Flat, log: seq<Commit>, now: S.Flat, i: nat, j: nat)
    requires LogOk(start, log, now) && i <= j <= |log|
    ensures S.Evolves(StateAt(start, log, i), StateAt(start, log, j))
    decreases j
  {
    if i == j {
    } else {
      LogEvolves(start, log, now, i, j - 1);
      assert IsCommit(log[j - 1]) && log[j - 1].before == StateAt(start, log, j - 1);
      CommitEvolves(log[j - 1]);
      S.EvolvesTransitive(StateAt(start, log, i), log[j - 1].before, log[j - 1].after);
    }
  }

  lemma {:induction false} LogIssued(start: S.Flat, log: seq<Commit>, now: S.Flat, j: nat)
    requires LogOk(start, log, now) && j <= |log|
    ensures S.Issued(StateAt(start, log, j))
    decreases j
  {
    if j == 0 {
    } else {
      LogIssued(start, log, now, j - 1);
      assert IsCommit(log[j - 1]) && log[j - 1].before == StateAt(start, log, j - 1);
      CommitEvolves(log[j - 1]);
    }
  }

  /** The commits `me` made after the first `n`. */
  ghost function Mine(me: Client, log: seq<Commit>, n: nat): seq<Commit> {
    if |log| <= n then []
    else
      var last := log[|log| - 1];
      Mine(me, log[..|log| - 1], n) + if last.author == me then [last] else []
  }

  lemma MineAppend(me: Client, log: seq<Commit>, n: nat, c: Commit)
    requires n <= |log|
    ensures Mine(me, log + [c], n) == Mine(me, log, n) + if c.author == me then [c] else []
  {
    assert (log + [c])[..|log|] == log;
  }

  /** The commits of two consecutive stretches, one after the other. */
  lemma {:induction false} MineSplit(me: Client, log: seq<Commit>, n: nat, m: nat)
    requires n <= m <= |log|
    ensures Mine(me, log, n) == Mine(me, log[..m], n) + Mine(me, log, m)
    decreases |log|
  {
    if m == |log| {
      assert log[..m] == log;
    } else {
      var shorter := log[..|log| - 1];
      MineSplit(me, shorter, n, m);
      assert shorter[..m] == log[..m];
    }
  }

  lemma MineGrows(me: Client, shorter: seq<Commit>, log: seq<Commit>, n: nat)
    requires n <= |shorter| && shorter <= log
    ensures Mine(me, log, n) == Mine(me, shorter, n) + Mine(me, log, |shorter|)
  {
    MineSplit(me, log, n, |shorter|);
    assert log[..|shorter|] == shorter;
  }

  lemma MineEndsEmpty(me: Client, log: seq<Commit>)
    ensures Mine(me, log, |log|) == []
  {
  }

  lemma {:induction false} MineHasAll(me: Client, log: seq<Commit>, n: nat)
    requires n <= |log|
    ensures forall j :: n <= j < |log| && log[j].author == me ==> log[j] in Mine(me, log, n)
    decreases |log|
  {
    if |log| == n {
    } else {
      var shorter, last := log[..|log| - 1], log[|log| - 1];
      MineHasAll(me, shorter, n);
      forall j | n <= j < |log| && log[j].author == me
        ensures log[j] in Mine(me, log, n)
      {
        if j < |shorter| {
          assert log[j] == shorter[j] && shorter[j] in Mine(me, shorter, n);
        }
      }
    }
  }

  class SharedStorage {
    var flat: S.Flat
    /** How many commits the others will still make: any number, but finite. */
    var others: nat
    /** Whether the backend may retry a put that landed, and then report its precondition as failed. */
    const retries: bool
    ghost const start: S.Flat
    ghost var log: seq<Commit>
    /** How many conditional puts were attempted through this object. */
    ghost var attempts: nat
    /** Every listing that was returned. */
    ghost var pages: seq<ListCall>

    ghost predicate Valid()
      reads this
    {
      LogOk(start, log, flat) && S.Issued(flat)
    }

    constructor (flat: S.Flat, others: nat, retries: bool)
      requires S.Issued(flat)
      ensures Valid() && this.flat == flat && this.others == others && this.retries == retries
      ensures log == [] && attempts == 0 && pages == [] && start == flat
    {
      this.flat, this.others, this.retries := flat, others, retries;
      start, log, attempts, pages := flat, [], 0, [];
    }

    /** One commit enters the log. */
    method Record(author: Client, key: Key, after: S.Flat, ghost request: Request)
      requires Valid() && IsCommit(Commit(author, key, request, flat, after))
      modifies this`flat, this`log
      ensures Valid() && flat == after && log == old(log) + [Commit(author, key, request, old(flat), after)]
      ensures S.Evolves(old(flat), flat)
      ensures forall c: Client :: Mine(c, log, |old(log)|) == if c == author then [log[|log| - 1]] else []
    {
      ghost var c := Commit(author, key, request, flat, after);
      CommitEvolves(c);
      forall me: Client
        ensures Mine(me, log + [c], |log|) == if me == author then [c] else []
      {
        MineAppend(me, log, |log|, c);
      }
      LogRecords(start, log, flat, c);
      log := log + [c];
      flat := after;
    }

    /** Any finite number of commits by clients other than `me`. */
    method Interfere(me: Client)
      requires Valid()
      modifies this`flat, this`log, this`others
      ensures Valid() && old(log) <= log && others <= old(others) && S.Evolves(old(flat), flat)
      ensures Mine(me, log, |old(log)|) == []
      ensures others == old(others) ==> flat == old(flat) && log == old(log)
      ensures |log| + others <= |old(log)| + old(others)
    {
      var go: bool := *;
      while go && others > 0
        invariant Valid() && old(log) <= log && others <= old(others) && S.Evolves(old(flat), flat)
        invariant Mine(me, log, |old(log)|) == []
        invariant others == old(others) ==> flat == old(flat) && log == old(log)
        invariant |log| + others <= |old(log)| + old(others)
        decreases others
      {
        OneCommit(me, |old(log)|, old(flat));
        others := others - 1;
        go := *;
      }
    }

    method OneCommit(me: Client, ghost n: nat, ghost since: S.Flat)
      requires Valid() && n <= |log| && Mine(me, log, n) == [] && S.Evolves(since, flat)
      modifies this`flat, this`log
      ensures Valid() && old(log) <= log && Mine(me, log, n) == [] && S.Evolves(since, flat)
      ensures |log| <= |old(log)| + 1
    {
      var author: Client := *;
      var key: Key := *;
      var put: bool := *;
      var data: seq<Byte> := *;
      var metadata: TextMap := *;
      ghost var request: Request := *;
      if author != me && (put || key in flat.objects) {
        ghost var after := if put then S.Put(flat, key, data, metadata) else S.Remove(flat, key);
        ghost var last := Commit(author, key, request, flat, after);
        MineAppend(me, log, n, last);
        S.EvolvesTransitive(since, flat, last.after) by {
          CommitEvolves(last);
        }
        Record(author, key, if put then S.Put(flat, key, data, metadata) else S.Remove(flat, key), request);
      }
    }

    method Get(me: Client, key: Key) returns (r: Option<S.Object>)
      requires Valid()
      modifies this`flat, this`log, this`others
      ensures Valid() && old(log) <= log && others <= old(others) && S.Evolves(old(flat), flat)
      ensures Mine(me, log, |old(log)|) == []
      ensures others == old(others) ==> flat == old(flat) && log == old(log)
      ensures r == S.Get(flat, key)
    {
      Interfere(me);
      r := S.Get(flat, key);
    }

    method ListPage(me: Client, prefix: Key, after: Option<Key>, limit: nat) returns (page: seq<S.Listed>)
      requires Valid()
      modifies this`flat, this`log, this`others, this`pages
      ensures Valid() && old(log) <= log && others <= old(others) && S.Evolves(old(flat), flat)
      ensures Mine(me, log, |old(log)|) == []
      ensures others == old(others) ==> flat == old(flat) && log == old(log)
      ensures page == S.ListPage(flat, prefix, after, limit)
      ensures pages == old(pages) + [ListCall(me, |log|, page)]
      ensures |log| + others <= |old(log)| + old(others)
    {
      Interfere(me);
      page := S.ListPage(flat, prefix, after, limit);
      pages := pages + [ListCall(me, |log|, page)];
    }

    /** The put itself, at a version that matches. */
    method Land(me: Client, key: Key, data: seq<Byte>, metadata: TextMap, ghost expected: Option<S.Version>,
                ghost request: Request, ghost n: nat) returns (token: S.Version, ghost c: Commit)
      requires Valid() && n <= |log| && Mine(me, log, n) == [] && S.AtVersion(flat, key, expected)
      modifies this`flat, this`log
      ensures Valid() && old(log) <= log && S.Evolves(old(flat), flat)
      ensures Mine(me, log, n) == [c] && Landed(c, me, key, data, metadata, expected, request)
      ensures c.before == old(flat) && c.after == flat && token == old(flat).next
    {
      token := flat.next;
      Record(me, key, S.Put(flat, key, data, metadata), request);
      c := log[|old(log)|];
      MineGrows(me, old(log), log, n);
    }

    /** The conditional put. It either commits, or reports a failed precondition and leaves the
        object alone; a retrying backend may also report a failure after its put landed. */
    method PutIfVersion(me: Client, key: Key, data: seq<Byte>, metadata: TextMap,
                        expected: Option<S.Version>, ghost request: Request)
      returns (r: Result<S.Version, ()>, ghost mine: seq<Commit>)
      requires Valid()
      modifies this
      ensures Valid() && old(log) <= log && others <= old(others) && S.Evolves(old(flat), flat)
      ensures attempts == old(attempts) + 1 && mine == Mine(me, log, |old(log)|)
      ensures mine != [] ==> |mine| == 1 && Landed(mine[0], me, key, data, metadata, expected, request)
                             && S.Evolves(old(flat), mine[0].before) && S.Evolves(mine[0].after, flat)
      ensures r.Success? ==> mine != [] && r.value == mine[0].before.next && flat == mine[0].after
      ensures r.Failure? && !retries ==> mine == []
      ensures r.Failure? && mine == [] ==> !S.AtVersion(flat, key, expected)
      ensures r.Failure? && others == old(others) && mine == [] ==> flat == old(flat)
      ensures r.Failure? && mine == [] && S.AtVersion(old(flat), key, expected) ==> others < old(others)
      ensures others == old(others) && mine != [] ==> mine[0].before == old(flat) && flat == mine[0].after
      ensures pages == old(pages)
    {
      attempts := attempts + 1;
      Interfere(me);
      if !S.AtVersion(flat, key, expected) {
        return Failure(()), [];
      }
      ghost var c;
      var token;
      ghost var before := flat;
      token, c := Land(me, key, data, metadata, expected, request, |old(log)|);
      mine := [c];
      S.EvolvesTransitive(old(flat), before, flat);
      var lost: bool := *;
      if retries && lost {
        LoseAnswer(me, |old(log)|, mine);
        S.EvolvesTransitive(old(flat), c.after, flat);
        r := Failure(());
      } else {
        r := Success(token);
      }
    }

    /** The others go on while the backend retries and misreads its own put. */
    method LoseAnswer(me: Client, ghost n: nat, ghost mine: seq<Commit>)
      requires Valid() && n <= |log| && Mine(me, log, n) == mine
      modifies this`flat, this`log, this`others
      ensures Valid() && old(log) <= log && others <= old(others) && S.Evolves(old(flat), flat)
      ensures Mine(me, log, n) == mine && (others == old(others) ==> flat == old(flat))
    {
      Interfere(me);
      MineGrows(me, old(log), log, n);
    }

    /** The conditional delete. */
    method DeleteIfVersion(me: Client, key: Key, expected: S.Version)
      returns (r: Result<(), ()>, ghost mine: seq<Commit>)
      requires Valid()
      modifies this`flat, this`log, this`others
      ensures Valid() && old(log) <= log && others <= old(others) && S.Evolves(old(flat), flat)
      ensures mine == Mine(me, log, |old(log)|)
      ensures r.Success? ==> |mine| == 1 && Deleted(mine[0], me, key, expected) && flat == mine[0].after
                             && S.Evolves(old(flat), mine[0].before)
      ensures r.Failure? ==> mine == [] && !S.AtVersion(flat, key, Some(expected))
      ensures others == old(others) ==> flat == if r.Success? then S.Remove(old(flat), key) else old(flat)
      ensures others == old(others) ==> (r.Success? <==> S.AtVersion(old(flat), key, Some(expected)))
    {
      Interfere(me);
      if !S.AtVersion(flat, key, Some(expected)) {
        return Failure(()), [];
      }
      ghost var before := log;
      Record(me, key, S.Remove(flat, key), Deleting);
      mine := [log[|before|]];
      MineGrows(me, before, log, |old(log)|);
      r := Success(());
    }
  }

  ghost predicate Landed(c: Commit, me: Client, key: Key, data: seq<Byte>, metadata: TextMap,
                         expected: Option<S.Version>, request: Request)
  {
    && c.author == me && c.key == key && c.request == request
    && S.AtVersion(c.before, key, expected) && c.after == S.Put(c.before, key, data, metadata)
  }

  ghost predicate Deleted(c: Commit, me: Client, key: Key, expected: S.Version) {
    && c.author == me && c.key == key && c.request == Deleting
    && S.AtVersion(c.before, key, Some(expected)) && c.after == S.Remove(c.before, key)
  }

  lemma LogRecords(start: S.Flat, log: seq<Commit>, now: S.Flat, c: Commit)
    requires LogOk(start, log, now) && IsCommit(c) && c.before == now
    ensures LogOk(start, log + [c], c.after)
  {
    hide IsCommit, S.Issued;
    var longer := log + [c];
    forall i | 0 <= i < |longer|
      ensures IsCommit(longer[i]) && longer[i].before == StateAt(start, longer, i)
    {
      if i < |log| {
        assert longer[i] == log[i];
      }
    }
  }

  /** Whatever is stored under a key now was already there after the first `n` commits, or a later
      commit put it there. */
  lemma {:induction false} LastWriter(start: S.Flat, log: seq<Commit>, now: S.Flat, n: nat, key: Key)
    requires LogOk(start, log, now) && n <= |log|
    ensures S.Get(now, key) == S.Get(StateAt(start, log, n), key)
            || exists i :: n <= i < |log| && log[i].key == key && S.Get(log[i].after, key) == S.Get(now, key)
    decreases |log|
  {
    if n == |log| {
    } else {
      var last := log[|log| - 1];
      if last.key != key {
        CommitEvolves(last);
        var shorter := log[..|log| - 1];
        ShorterLog(start, log, now);
        LastWriter(start, shorter, last.before, n, key);
        assert StateAt(start, log, n) == StateAt(start, shorter, n);
        if i :| n <= i < |shorter| && shorter[i].key == key && S.Get(shorter[i].after, key) == S.Get(now, key) {
          assert log[i] == shorter[i];
        }
      }
    }
  }

  lemma ShorterLog(start: S.Flat, log: seq<Commit>, now: S.Flat)
    requires LogOk(start, log, now) && log != []
    ensures LogOk(start, log[..|log| - 1], log[|log| - 1].before)
  {
    hide IsCommit, S.Issued;
    var shorter := log[..|log| - 1];
    forall i | 0 <= i < |shorter|
      ensures IsCommit(shorter[i]) && shorter[i].before == StateAt(start, shorter, i)
    {
      assert shorter[i] == log[i];
    }
    assert IsCommit(log[|shorter|]) && log[|shorter|].before == StateAt(start, log, |shorter|);
  }

  lemma {:induction false} MineEmpty(me: Client, log: seq<Commit>, n: nat, i: nat)
    requires n <= i < |log| && Mine(me, log, n) == []
    ensures log[i].author != me
    decreases |log|
  {
    if i == |log| - 1 {
    } else {
      MineEmpty(me, log[..|log| - 1], n, i);
    }
  }

  /** The log's last state is the storage's. */
  lemma LatestState(storage: SharedStorage)
    requires storage.Valid()
    ensures StateAt(storage.start, storage.log, |storage.log|) == storage.flat
  {
  }
}
