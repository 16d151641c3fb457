/** The filesystem backend: the storage contract over a directory tree, step by step under a lock.
    Every tree between two steps is recorded, so that a crash at any of them can be judged. */
module FilesystemStorage {
  import opened Wrappers
  import opened KeyOrder
  import opened Utf8
  import opened Paths
  import opened Metadata
  import opened SegmentCodec
  import opened FileTree
  import opened TreeWalk
  import opened TreeSteps
  import S = Storage

  const LOCK_NAME := ".lock"
  const TEMP_PREFIX := ".tmp-"

  datatype StorageError = InvalidKey | PreconditionFailed(key: Key) | Unavailable

  /** What the tree may hold after a crash during a put of `o`: the objects as before, the objects
      with the put done, or, where the key existed, its new body under its old sidecar. */
  predicate PutCrash(before: map<Key, S.Object>, now: map<Key, S.Object>, key: Key, o: S.Object) {
    || now == before || now == before[key := o]
    || (key in before && now == before[key := before[key].(data := o.data)])
  }

  ghost predicate PutTrace(trace: seq<Tree>, n: nat, before: map<Key, S.Object>, key: Key, o: S.Object) {
    forall i :: n <= i < |trace| ==> TreeOk(trace[i]) && PutCrash(before, Objects(trace[i]), key, o)
  }

  /** At some step the body was in its new place and the sidecar still in its old one. */
  ghost predicate PassesTorn(trace: seq<Tree>, n: nat, before: map<Key, S.Object>, key: Key, data: seq<Byte>) {
    exists i :: n <= i < |trace| && TreeOk(trace[i]) && Objects(trace[i]) == TornObjects(before, key, data)
  }

  ghost predicate DeleteTrace(trace: seq<Tree>, n: nat, before: map<Key, S.Object>, key: Key) {
    forall i :: n <= i < |trace| ==> TreeOk(trace[i]) && (Objects(trace[i]) == before || Objects(trace[i]) == before - {key})
  }

  /** No object changed at any step. */
  ghost predicate QuietTrace(trace: seq<Tree>, n: nat, before: map<Key, S.Object>) {
    forall i :: n <= i < |trace| ==> TreeOk(trace[i]) && Objects(trace[i]) == before
  }

  predicate VersionsIssued(objects: map<Key, S.Object>, next: S.Version) {
    forall k :: k in objects ==> objects[k].version < next
  }

  class FilesystemStorage {
    var tree: Tree
    var next: S.Version
    /** How many system calls will still fail. */
    var faults: nat
    ghost var trace: seq<Tree>

    ghost predicate Valid()
      reads this
    {
      TreeOk(tree) && VersionsIssued(Objects(tree), next)
    }

    ghost function State(): S.Flat
      reads this
      requires Valid()
    {
      AsFlat(tree, next)
    }

    constructor (faults: nat)
      ensures Valid() && State() == S.Flat(map[], 1) && this.faults == faults
    {
      tree, next, this.faults, trace := Tree({[]}, map[]), 1, faults, [];
      new;
      assert DirOk(tree, []);
      assert Objects(tree) == map[];
    }

    /** One system call: the tree becomes `t`, and that state is recorded. */
    method Step(t: Tree)
      modifies this`tree, this`trace
      ensures tree == t && trace == old(trace) + [t]
    {
      tree, trace := t, trace + [t];
    }

    /** Whether the next system call fails. */
    method Fails() returns (fails: bool)
      modifies this`faults
      ensures faults == if fails then old(faults) - 1 else old(faults)
      ensures fails ==> old(faults) > 0
    {
      fails := *;
      fails := fails && faults > 0;
      if fails {
        faults := faults - 1;
      }
    }

    /** Opening the lock file creates it. */
    method Lock() returns (ok: bool)
      requires Valid()
      modifies this`tree, this`trace, this`faults
      ensures Valid() && Objects(tree) == old(Objects(tree)) && old(trace) <= trace
      ensures QuietTrace(trace, |old(trace)|, old(Objects(tree)))
      ensures faults <= old(faults)
      ensures if ok then faults == old(faults) else faults < old(faults)
      ensures HiddenFiles(tree) <= old(HiddenFiles(tree)) + {[".lock"]}
    {
      hide HiddenFiles, TreeOk, Objects, VersionsIssued;
      var fails := Fails();
      if fails {
        return false;
      }
      ScratchAdded(tree, [LOCK_NAME]) by {
        RootExists(tree);
      }
      HiddenSteps(tree, [LOCK_NAME], Scratch);
      Step(WithFile(tree, [LOCK_NAME], Scratch));
      ok := true;
    }

    /** `mkdir` with its parents, one directory at a time. */
    method MakeDirs(directory: Path) returns (ok: bool)
      requires Valid() && AreNames(directory)
      modifies this`tree, this`trace, this`faults
      ensures Valid() && Objects(tree) == old(Objects(tree)) && old(trace) <= trace
      ensures QuietTrace(trace, |old(trace)|, old(Objects(tree)))
      ensures ok ==> directory in tree.dirs
      ensures faults <= old(faults)
      ensures if ok then faults == old(faults) else faults < old(faults)
      ensures HiddenFiles(tree) == old(HiddenFiles(tree))
    {
      hide HiddenFiles, TreeOk, Objects, IsName, QuietTrace, VersionsIssued;
      RootExists(tree);
      NoQuietStates(trace, Objects(tree));
      for i := 0 to |directory|
        invariant Valid() && Objects(tree) == old(Objects(tree)) && old(trace) <= trace
        invariant QuietTrace(trace, |old(trace)|, old(Objects(tree)))
        invariant directory[..i] in tree.dirs && faults == old(faults)
        invariant HiddenFiles(tree) == old(HiddenFiles(tree))
      {
        var fails := Fails();
        if fails {
          return false;
        }
        assert Parent(directory[..i + 1]) == directory[..i];
        MakeDir(directory[..i + 1], |old(trace)|, old(Objects(tree)));
      }
      assert directory[..|directory|] == directory;
      ok := true;
    }

    /** One directory in an existing one. */
    method MakeDir(d: Path, ghost n: nat, ghost before: map<Key, S.Object>)
      requires Valid() && d != [] && AreNames(d) && Parent(d) in tree.dirs
      requires n <= |trace| && QuietTrace(trace, n, before) && Objects(tree) == before
      modifies this`tree, this`trace
      ensures Valid() && Objects(tree) == before && old(trace) <= trace && QuietTrace(trace, n, before)
      ensures d in tree.dirs && HiddenFiles(tree) == old(HiddenFiles(tree))
    {
      hide HiddenFiles, TreeOk, Objects, AreNames, VersionsIssued;
      DirAdded(tree, d);
      HiddenDirs(tree, d);
      Step(WithDir(tree, d));
    }

    /** A new temporary file. Its name is drawn at random; one that is taken is among the failures. If
        the file is created and its write then fails, it stays. */
    method WriteTemp(directory: Path) returns (temp: Option<Path>)
      requires Valid() && directory in tree.dirs
      modifies this`tree, this`trace, this`faults
      ensures Valid() && Objects(tree) == old(Objects(tree)) && old(trace) <= trace
      ensures QuietTrace(trace, |old(trace)|, old(Objects(tree)))
      ensures tree.dirs == old(tree).dirs
      ensures temp.Some? ==> temp.value != [] && Hidden(Last(temp.value)) && ".tmp-" <= Last(temp.value)
      ensures faults <= old(faults)
      ensures if temp.Some? then faults == old(faults) else faults < old(faults)
      ensures temp.Some? ==> HiddenFiles(tree) == old(HiddenFiles(tree)) + {temp.value}
      ensures temp.None? ==> OneMore(old(HiddenFiles(tree)), HiddenFiles(tree))
    {
      hide HiddenFiles, TreeOk, Objects, OneMore;
      var fails := Fails();
      var created: bool := *;
      var name: string := *;
      var path := directory + [TEMP_PREFIX + name];
      assert Parent(path) == directory && Last(path) == TEMP_PREFIX + name;
      ScratchAdded(tree, path);
      HiddenSteps(tree, path, Scratch);
      OneMoreHidden(old(HiddenFiles(tree)), path);
      if !fails || created {
        Step(WithFile(tree, path, Scratch));
      }
      temp := if fails then None else Some(path);
    }

    /** A temporary file is moved away or unlinked. */
    method Discard(temp: Path)
      requires Valid() && temp != [] && Hidden(Last(temp))
      modifies this`tree, this`trace
      ensures Valid() && Objects(tree) == old(Objects(tree)) && trace == old(trace) + [tree]
      ensures tree == WithoutFile(old(tree), temp)
      ensures HiddenFiles(tree) == old(HiddenFiles(tree)) - {temp}
    {
      ScratchRemoved(tree, temp);
      HiddenSteps(tree, temp, Scratch);
      Step(WithoutFile(tree, temp));
    }

    /** Both temporary files, as far as there are any. */
    method CleanUp(temps: seq<Path>, ghost n: nat, ghost before: map<Key, S.Object>, ghost key: Key, ghost o: S.Object)
      requires Valid() && forall i :: 0 <= i < |temps| ==> temps[i] != [] && Hidden(Last(temps[i]))
      requires n <= |trace| && PutTrace(trace, n, before, key, o) && PutCrash(before, Objects(tree), key, o)
      modifies this`tree, this`trace
      ensures Valid() && Objects(tree) == old(Objects(tree)) && old(trace) <= trace
      ensures PutTrace(trace, n, before, key, o)
      ensures HiddenFiles(tree) <= old(HiddenFiles(tree)) && forall i :: 0 <= i < |temps| ==> temps[i] !in HiddenFiles(tree)
    {
      hide HiddenFiles, TreeOk, Objects, PutCrash;
      for i := 0 to |temps|
        invariant Valid() && Objects(tree) == old(Objects(tree)) && old(trace) <= trace
        invariant PutTrace(trace, n, before, key, o)
        invariant HiddenFiles(tree) <= old(HiddenFiles(tree)) && forall j :: 0 <= j < i ==> temps[j] !in HiddenFiles(tree)
      {
        Discard(temps[i]);
      }
    }

    /** `_write`: directories, both temporary files, the body into place, and then the sidecar, which
        commits. A step that fails is cleaned up after, and nothing is committed. */
    method Write(key: Key, data: seq<Byte>, metadata: TextMap) returns (r: Result<S.Version, StorageError>)
      requires Valid() && Storable(key)
      modifies this
      ensures Valid() && old(trace) <= trace && next == old(next) + 1
      ensures PutTrace(trace, |old(trace)|, old(Objects(tree)), key, S.Object(data, metadata, old(next)))
      ensures r.Success? ==> r.value == old(next) && Objects(tree) == old(Objects(tree))[key := S.Object(data, metadata, r.value)]
      ensures r.Success? ==> PassesTorn(trace, |old(trace)|, old(Objects(tree)), key, data)
      ensures r.Failure? ==> r.error.Unavailable?
                             && (Objects(tree) == old(Objects(tree))
                                 || (key in old(Objects(tree))
                                     && Objects(tree) == old(Objects(tree))[key := old(Objects(tree))[key].(data := data)]))
      ensures faults <= old(faults)
      ensures if r.Success? then faults == old(faults) else faults < old(faults)
      ensures if r.Success? then HiddenFiles(tree) <= old(HiddenFiles(tree))
              else OneMore(old(HiddenFiles(tree)), HiddenFiles(tree))
    {
      hide *;
      ValidMeans(this);
      ghost var n, before := |trace|, Objects(tree);
      var token := next;
      ghost var o := S.Object(data, metadata, token);
      StillIssued(before, next);
      CrashStates(before, key, o);
      next := next + 1;
      ValidAfter(this);
      var directory := Parent(NamesOf(key));
      ParentNames(key);
      ghost var hidden := HiddenFiles(tree);
      var made := MakeDirs(directory);
      OneMoreHidden(hidden, []);
      QuietIsPut(trace, n, before, key, o);
      if !made {
        return Failure(Unavailable);
      }
      ghost var earlier := trace;
      var bodyTemp := WriteTemp(directory);
      MoreQuiet(earlier, trace, n, before, key, o);
      if bodyTemp.None? {
        return Failure(Unavailable);
      }
      earlier := trace;
      var sidecarTemp := WriteTemp(directory);
      MoreQuiet(earlier, trace, n, before, key, o);
      ghost var created := HiddenFiles(tree);
      if sidecarTemp.None? {
        var temps := [bodyTemp.value];
        CleanUp(temps, n, before, key, o);
        assert temps[0] !in HiddenFiles(tree);
        OneMoreCleaned(hidden, bodyTemp.value, created, HiddenFiles(tree));
        return Failure(Unavailable);
      }
      ValidMeans(this);
      earlier := trace;
      r := Replace(key, data, metadata, token, bodyTemp.value, sidecarTemp.value, n, before);
      if r.Success? {
        TornStill(trace, trace, |earlier|, n, before, key, data);
      }
      NoMore(hidden, HiddenFiles(tree));
    }

    /** The two replaces. */
    method Replace(key: Key, data: seq<Byte>, metadata: TextMap, token: S.Version, bodyTemp: Path, sidecarTemp: Path,
                   ghost n: nat, ghost before: map<Key, S.Object>) returns (r: Result<S.Version, StorageError>)
      requires TreeOk(tree) && VersionsIssued(Objects(tree), next) && Storable(key)
             && Parent(NamesOf(key)) in tree.dirs && token < next
      requires bodyTemp != [] && Hidden(Last(bodyTemp)) && sidecarTemp != [] && Hidden(Last(sidecarTemp))
      requires n <= |trace| && before == Objects(tree)
      requires PutTrace(trace, n, before, key, S.Object(data, metadata, token))
      modifies this`tree, this`trace, this`faults
      ensures Valid() && old(trace) <= trace && PutTrace(trace, n, before, key, S.Object(data, metadata, token))
      ensures r.Success? ==> r.value == token && Objects(tree) == before[key := S.Object(data, metadata, token)]
      ensures r.Success? ==> PassesTorn(trace, |old(trace)|, before, key, data)
      ensures r.Failure? ==> r.error.Unavailable?
                             && (Objects(tree) == before
                                 || (key in before && Objects(tree) == before[key := before[key].(data := data)]))
      ensures faults <= old(faults)
      ensures if r.Success? then faults == old(faults) else faults < old(faults)
      ensures HiddenFiles(tree) <= old(HiddenFiles(tree)) - {bodyTemp, sidecarTemp}
    {
      hide *;
      ghost var o := S.Object(data, metadata, token);
      CrashStates(before, key, o);
      TornOrNot(before, key, data);
      var temps := [bodyTemp, sidecarTemp];
      var fails := Fails();
      if fails {
        ValidAfter(this);
        CleanUp(temps, n, before, key, o);
        assert temps[0] !in HiddenFiles(tree) && temps[1] !in HiddenFiles(tree);
        return Failure(Unavailable);
      }
      ghost var earlier := trace;
      MoveBody(key, data, bodyTemp);
      IssuedTorn(before, next, key, data);
      OneMoreState(earlier, tree, n, before, key, o);
      TornNow(earlier, tree, |old(trace)|, before, key, data);
      fails := Fails();
      if fails {
        ValidAfter(this);
        CleanUp(temps, n, before, key, o);
        assert temps[0] !in HiddenFiles(tree) && temps[1] !in HiddenFiles(tree);
        return Failure(Unavailable);
      }
      ghost var torn := Objects(tree);
      earlier := trace;
      MoveSidecar(key, data, metadata, token, sidecarTemp);
      CommitOver(before, torn, key, data, o);
      TornStill(earlier, trace, |old(trace)|, |old(trace)|, before, key, data);
      OneMoreState(earlier, tree, n, before, key, o);
      IssuedPut(before, next, key, o);
      ValidAfter(this);
      r := Success(token);
    }

    /** `os.replace` of the body's temporary file. */
    method MoveBody(key: Key, data: seq<Byte>, temp: Path)
      requires TreeOk(tree) && Storable(key) && Parent(NamesOf(key)) in tree.dirs
      requires temp != [] && Hidden(Last(temp))
      modifies this`tree, this`trace
      ensures TreeOk(tree) && trace == old(trace) + [tree] && tree.dirs == old(tree).dirs
      ensures BodyPath(NamesOf(key)) in tree.files && tree.files[BodyPath(NamesOf(key))] == Body(data)
      ensures Objects(tree) == TornObjects(old(Objects(tree)), key, data)
      ensures HiddenFiles(tree) == old(HiddenFiles(tree)) - {temp}
    {
      hide HiddenFiles, TreeOk, Objects;
      ScratchRemoved(tree, temp);
      var without := WithoutFile(tree, temp);
      BodyReplaced(without, key, data);
      OwnPaths(key);
      HiddenSteps(tree, temp, Scratch);
      HiddenSteps(without, BodyPath(NamesOf(key)), Body(data));
      Step(WithFile(without, BodyPath(NamesOf(key)), Body(data)));
    }

    /** `os.replace` of the sidecar's temporary file: the commit point. */
    method MoveSidecar(key: Key, data: seq<Byte>, metadata: TextMap, token: S.Version, temp: Path)
      requires TreeOk(tree) && Storable(key) && Parent(NamesOf(key)) in tree.dirs
      requires temp != [] && Hidden(Last(temp))
      requires BodyPath(NamesOf(key)) in tree.files && tree.files[BodyPath(NamesOf(key))] == Body(data)
      modifies this`tree, this`trace
      ensures TreeOk(tree) && trace == old(trace) + [tree]
      ensures Objects(tree) == old(Objects(tree))[key := S.Object(data, metadata, token)]
      ensures HiddenFiles(tree) == old(HiddenFiles(tree)) - {temp}
    {
      hide HiddenFiles, TreeOk, Objects;
      OwnPaths(key);
      ScratchRemoved(tree, temp);
      var without := WithoutFile(tree, temp);
      SidecarReplaced(without, key, data, metadata, token);
      HiddenSteps(tree, temp, Scratch);
      HiddenSteps(without, SidecarPath(NamesOf(key)), Sidecar(metadata, token));
      Step(WithFile(without, SidecarPath(NamesOf(key)), Sidecar(metadata, token)));
    }

    method Get(key: Key) returns (r: Result<Option<S.Object>, StorageError>)
      requires Valid()
      modifies this`tree, this`trace, this`faults
      ensures Valid() && State() == old(State()) && old(trace) <= trace
      ensures QuietTrace(trace, |old(trace)|, old(State()).objects)
      ensures r.Success? ==> Storable(key) && r.value == S.Get(State(), key)
      ensures r.Failure? ==> r.error == if Storable(key) then Unavailable else InvalidKey
      ensures !Storable(key) ==> r.Failure?
      ensures faults <= old(faults)
      ensures r.Failure? && r.error.Unavailable? ==> faults < old(faults)
      ensures r.Success? ==> faults == old(faults)
      ensures HiddenFiles(tree) <= old(HiddenFiles(tree)) + {[".lock"]}
    {
      hide HiddenFiles, TreeOk, VersionsIssued;
      var stored := Storable(key);
      if !stored {
        return Failure(InvalidKey);
      }
      var ok := Lock();
      var fails := Fails();
      if !ok || fails {
        return Failure(Unavailable);
      }
      FlatGet(tree, next, key);
      KeyIn(tree, key);
      StemOfKey(key);
      if SidecarPath(NamesOf(key)) !in tree.files {
        return Success(None);
      }
      SidecarHasBody(tree, NamesOf(key));
      var sidecar, body := tree.files[SidecarPath(NamesOf(key))], tree.files[BodyPath(NamesOf(key))];
      return Success(Some(S.Object(body.data, sidecar.metadata, sidecar.version)));
    }

    method Put(key: Key, data: seq<Byte>, metadata: TextMap) returns (r: Result<S.Version, StorageError>)
      requires Valid()
      modifies this
      ensures Valid() && old(trace) <= trace
      ensures PutTrace(trace, |old(trace)|, old(State()).objects, key, S.Object(data, metadata, old(next)))
      ensures r.Success? ==> PassesTorn(trace, |old(trace)|, old(State()).objects, key, data)
      ensures r.Success? ==> Storable(key) && r.value == old(next) && State() == S.Put(old(State()), key, data, metadata)
      ensures !Storable(key) ==> r == Failure(InvalidKey) && State() == old(State())
      ensures r.Failure? && Storable(key) ==>
                r.error.Unavailable? && NotCommitted(old(State()).objects, State().objects, key, data)
      ensures r.Failure? && r.error.InvalidKey? <==> !Storable(key)
      ensures faults <= old(faults)
      ensures r.Failure? && r.error.Unavailable? ==> faults < old(faults)
      ensures r.Success? ==> faults == old(faults)
      ensures if r.Success? then HiddenFiles(tree) <= old(HiddenFiles(tree)) + {[".lock"]}
              else OneMore(old(HiddenFiles(tree)) + {[".lock"]}, HiddenFiles(tree))
    {
      hide HiddenFiles, TreeOk, VersionsIssued, PutTrace, PutCrash, QuietTrace, ObjectAt, Objects, Keys, PassesTorn;
      NoStates(trace, Objects(tree), key, S.Object(data, metadata, next));
      var stored := Storable(key);
      if !stored {
        return Failure(InvalidKey);
      }
      ghost var n, before, o := |trace|, Objects(tree), S.Object(data, metadata, next);
      var ok := Lock();
      QuietIsPut(trace, n, before, key, o);
      if !ok {
        return Failure(Unavailable);
      }
      ghost var earlier := trace;
      r := Write(key, data, metadata);
      PutTraces(earlier, trace, n, before, key, o);
      if r.Success? {
        TornStill(trace, trace, |earlier|, n, before, key, data);
      }
    }

    method PutIfVersion(key: Key, data: seq<Byte>, metadata: TextMap, expected: Option<S.Version>)
      returns (r: Result<S.Version, StorageError>)
      requires Valid()
      modifies this
      ensures Valid() && old(trace) <= trace
      ensures PutTrace(trace, |old(trace)|, old(State()).objects, key, S.Object(data, metadata, old(next)))
      ensures r.Success? ==> PassesTorn(trace, |old(trace)|, old(State()).objects, key, data)
      ensures r.Success? ==> Storable(key) && S.AtVersion(old(State()), key, expected)
                             && r.value == old(next) && State() == S.Put(old(State()), key, data, metadata)
      ensures r.Failure? && r.error.PreconditionFailed? ==>
                Storable(key) && !S.AtVersion(old(State()), key, expected) && State() == old(State())
      ensures !Storable(key) ==> r == Failure(InvalidKey) && State() == old(State())
      ensures r.Failure? && r.error.Unavailable? ==> NotCommitted(old(State()).objects, State().objects, key, data)
      ensures r.Failure? && r.error.InvalidKey? <==> !Storable(key)
      ensures faults <= old(faults)
      ensures r.Failure? && r.error.Unavailable? ==> faults < old(faults)
      ensures r.Success? ==> faults == old(faults)
      ensures if r.Success? then HiddenFiles(tree) <= old(HiddenFiles(tree)) + {[".lock"]}
              else OneMore(old(HiddenFiles(tree)) + {[".lock"]}, HiddenFiles(tree))
    {
      hide HiddenFiles, TreeOk, VersionsIssued, PutTrace, PutCrash, QuietTrace, ObjectAt, Objects, Keys, PassesTorn;
      NoStates(trace, Objects(tree), key, S.Object(data, metadata, next));
      var stored := Storable(key);
      if !stored {
        return Failure(InvalidKey);
      }
      ghost var n, before, o := |trace|, Objects(tree), S.Object(data, metadata, next);
      var ok := Lock();
      QuietIsPut(trace, n, before, key, o);
      if !ok {
        return Failure(Unavailable);
      }
      var current := CurrentVersion(key);
      if current != expected {
        return Failure(PreconditionFailed(key));
      }
      ghost var earlier := trace;
      r := Write(key, data, metadata);
      PutTraces(earlier, trace, n, before, key, o);
      if r.Success? {
        TornStill(trace, trace, |earlier|, n, before, key, data);
      }
    }

    /** The version in the key's sidecar. */
    method CurrentVersion(key: Key) returns (version: Option<S.Version>)
      requires Valid() && Storable(key)
      ensures version == match S.Get(State(), key) case None => None case Some(o) => Some(o.version)
      ensures forall expected :: version == expected <==> S.AtVersion(State(), key, expected)
    {
      hide HiddenFiles, TreeOk, VersionsIssued;
      FlatGet(tree, next, key);
      KeyIn(tree, key);
      StemOfKey(key);
      if SidecarPath(NamesOf(key)) !in tree.files {
        return None;
      }
      SidecarHasBody(tree, NamesOf(key));
      version := Some(tree.files[SidecarPath(NamesOf(key))].version);
    }

    /** The sidecar goes first, which removes the object; then its body, and the directories that are
        empty now. */
    method DeleteIfVersion(key: Key, expected: S.Version) returns (r: Result<(), StorageError>)
      requires Valid()
      modifies this`tree, this`trace, this`faults
      ensures Valid() && old(trace) <= trace
      ensures DeleteTrace(trace, |old(trace)|, old(State()).objects, key)
      ensures r.Success? ==> Storable(key) && S.AtVersion(old(State()), key, Some(expected))
                             && State() == S.Remove(old(State()), key)
                             && (faults == old(faults) ==> Pruned(tree, Parent(NamesOf(key))))
      ensures r.Failure? && r.error.PreconditionFailed? ==>
                Storable(key) && !S.AtVersion(old(State()), key, Some(expected)) && State() == old(State())
      ensures !Storable(key) ==> r == Failure(InvalidKey) && State() == old(State())
      ensures r.Failure? && r.error.Unavailable? ==> State() == old(State()) || State() == S.Remove(old(State()), key)
      ensures r.Failure? && r.error.InvalidKey? <==> !Storable(key)
      ensures faults <= old(faults)
      ensures r.Failure? && r.error.Unavailable? ==> faults < old(faults)
      ensures HiddenFiles(tree) <= old(HiddenFiles(tree)) + {[".lock"]}
    {
      hide HiddenFiles, TreeOk, VersionsIssued, ObjectAt;
      var stored := Storable(key);
      if !stored {
        return Failure(InvalidKey);
      }
      ghost var n, before := |trace|, Objects(tree);
      var ok := Lock();
      if !ok {
        return Failure(Unavailable);
      }
      var current := CurrentVersion(key);
      if current != Some(expected) {
        return Failure(PreconditionFailed(key));
      }
      var fails := Fails();
      if fails {
        return Failure(Unavailable);
      }
      IssuedWithout(before, next, key);
      r := Unlink(key, n, before);
    }

    method Unlink(key: Key, ghost n: nat, ghost before: map<Key, S.Object>) returns (r: Result<(), StorageError>)
      requires TreeOk(tree) && Storable(key) && before == Objects(tree) && VersionsIssued(before - {key}, next)
      requires n <= |trace| && DeleteTrace(trace, n, before, key) && key in before
      modifies this`tree, this`trace, this`faults
      ensures Valid() && old(trace) <= trace && DeleteTrace(trace, n, before, key)
      ensures Objects(tree) == before - {key} && (r.Failure? ==> r.error.Unavailable?)
      ensures faults == old(faults) ==> Pruned(tree, Parent(NamesOf(key)))
      ensures faults <= old(faults)
      ensures r.Failure? ==> faults < old(faults)
      ensures HiddenFiles(tree) <= old(HiddenFiles(tree))
    {
      hide *;
      ParentStored(tree, key);
      UnlinkSidecar(key, n, before);
      var fails := Fails();
      ValidAfter(this);
      if fails {
        return Failure(Unavailable);
      }
      UnlinkBody(key, n, before);
      ValidAfter(this);
      PruneEmpty(Parent(NamesOf(key)), n, before, key);
      r := Success(());
    }

    method UnlinkSidecar(key: Key, ghost n: nat, ghost before: map<Key, S.Object>)
      requires TreeOk(tree) && Storable(key) && NamesOf(key) != [] && before == Objects(tree)
      requires n <= |trace| && DeleteTrace(trace, n, before, key)
      modifies this`tree, this`trace
      ensures TreeOk(tree) && old(trace) <= trace && DeleteTrace(trace, n, before, key) && Objects(tree) == before - {key}
      ensures tree.dirs == old(tree).dirs && SidecarPath(NamesOf(key)) !in tree.files
      ensures HiddenFiles(tree) <= old(HiddenFiles(tree))
    {
      hide HiddenFiles, TreeOk, Objects, DeleteTrace;
      SidecarRemoved(tree, key);
      HiddenSteps(tree, SidecarPath(NamesOf(key)), Scratch);
      OneMoreAfter(trace, WithoutFile(tree, SidecarPath(NamesOf(key))), n, before, key);
      Step(WithoutFile(tree, SidecarPath(NamesOf(key))));
    }

    method UnlinkBody(key: Key, ghost n: nat, ghost before: map<Key, S.Object>)
      requires TreeOk(tree) && Storable(key) && NamesOf(key) != [] && SidecarPath(NamesOf(key)) !in tree.files
      requires n <= |trace| && DeleteTrace(trace, n, before, key) && Objects(tree) == before - {key}
      modifies this`tree, this`trace
      ensures TreeOk(tree) && old(trace) <= trace && DeleteTrace(trace, n, before, key) && Objects(tree) == before - {key}
      ensures tree.dirs == old(tree).dirs
      ensures HiddenFiles(tree) <= old(HiddenFiles(tree))
    {
      hide HiddenFiles, TreeOk, Objects, DeleteTrace;
      BodyRemoved(tree, key);
      HiddenSteps(tree, BodyPath(NamesOf(key)), Scratch);
      OneMoreAfter(trace, WithoutFile(tree, BodyPath(NamesOf(key))), n, before, key);
      Step(WithoutFile(tree, BodyPath(NamesOf(key))));
    }

    /** `_prune_empty`: upwards from the directory, as long as it is empty. */
    method PruneEmpty(directory: Path, ghost n: nat, ghost before: map<Key, S.Object>, ghost key: Key)
      requires Valid() && n <= |trace| && DeleteTrace(trace, n, before, key) && Objects(tree) == before - {key}
      requires directory in tree.dirs
      modifies this`tree, this`trace, this`faults
      ensures Valid() && old(trace) <= trace && DeleteTrace(trace, n, before, key) && Objects(tree) == before - {key}
      ensures tree.files == old(tree).files && [] in tree.dirs
      ensures faults <= old(faults)
      ensures faults == old(faults) ==> Pruned(tree, directory)
      ensures HiddenFiles(tree) <= old(HiddenFiles(tree))
    {
      hide HiddenFiles, TreeOk, Objects, VersionsIssued, RemovedBeyond, Entries, NoChildren;
      var d := directory;
      RootExists(tree);
      NoneRemoved(tree, directory);
      while d != []
        invariant Valid() && old(trace) <= trace && DeleteTrace(trace, n, before, key) && Objects(tree) == before - {key}
        invariant tree.files == old(tree).files && [] in tree.dirs
        invariant d in tree.dirs && RemovedBeyond(tree, directory, d) && faults == old(faults)
        invariant HiddenFiles(tree) <= old(HiddenFiles(tree))
        decreases |d|
      {
        var fails := Fails();
        if fails || Entries(tree, d) != {} {
          if !fails {
            AncestorsInUse(tree, directory, d);
          }
          return;
        }
        NoEntries(tree, d);
        DirRemoved(tree, d);
        OneMoreRemoved(tree, directory, d);
        HiddenDirs(tree, d);
        Step(WithoutDir(tree, d));
        RootExists(tree);
        d := Parent(d);
      }
      AllRemoved(tree, directory);
    }

    /** `list_page`: the walk finds exactly the keys with that plain string prefix, whatever the
        prefix, and the window of them in key order is returned. */
    method ListPage(prefix: Key, after: Option<Key>, limit: nat) returns (r: Result<seq<S.Listed>, StorageError>)
      requires Valid()
      modifies this`tree, this`trace, this`faults
      ensures Valid() && State() == old(State()) && old(trace) <= trace
      ensures QuietTrace(trace, |old(trace)|, old(State()).objects)
      ensures r.Success? ==> r.value == S.ListPage(State(), prefix, after, limit)
      ensures r.Failure? ==> r.error.Unavailable?
      ensures faults <= old(faults)
      ensures if r.Success? then faults == old(faults) else faults < old(faults)
      ensures HiddenFiles(tree) <= old(HiddenFiles(tree)) + {[".lock"]}
    {
      hide HiddenFiles, TreeOk, VersionsIssued, Objects;
      var segments := Split(prefix, '/');
      var complete, partial := segments[..|segments| - 1], segments[|segments| - 1];
      var base := Base(complete);
      if base.None? {
        NothingUnder(tree, next, prefix, after, limit);
        return Success([]);
      }
      var ok := Lock();
      var fails := Fails();
      if !ok || fails {
        return Failure(Unavailable);
      }
      BaseKey(base.value, complete);
      var page := PageOf(tree, next, base.value, Concat(complete), partial, prefix, after, limit);
      return Success(page);
    }
  }

  /** No directory on this path is left empty. */
  predicate Pruned(t: Tree, directory: Path) {
    forall n :: 1 <= n <= |directory| && directory[..n] in t.dirs ==> Entries(t, directory[..n]) != {}
  }

  /** The path has been removed down to `d`. */
  predicate RemovedBeyond(t: Tree, directory: Path, d: Path) {
    d <= directory && forall n :: |d| < n <= |directory| ==> directory[..n] !in t.dirs
  }

  lemma NoneRemoved(t: Tree, directory: Path)
    ensures RemovedBeyond(t, directory, directory)
  {
  }

  lemma AllRemoved(t: Tree, directory: Path)
    ensures RemovedBeyond(t, directory, []) ==> Pruned(t, directory)
  {
  }

  lemma OneMoreRemoved(t: Tree, directory: Path, d: Path)
    requires TreeOk(t) && d != [] && d in t.dirs && RemovedBeyond(t, directory, d)
    ensures RemovedBeyond(WithoutDir(t, d), directory, Parent(d)) && Parent(d) in WithoutDir(t, d).dirs
  {
    hide AreNames;
    assert DirOk(t, d);
    assert directory[..|d|] == d;
    assert forall n :: |d| < n <= |directory| ==> directory[..n] != d;
  }

  lemma AncestorsInUse(t: Tree, directory: Path, d: Path)
    requires TreeOk(t) && d in t.dirs && RemovedBeyond(t, directory, d) && Entries(t, d) != {}
    ensures Pruned(t, directory)
  {
    hide TreeOk, Entries;
    forall n | 1 <= n <= |directory| && directory[..n] in t.dirs
      ensures Entries(t, directory[..n]) != {}
    {
      if n < |d| {
        AncestorsExist(t, d, n + 1);
        assert d[..n + 1] == directory[..n] + [d[n]];
        DirEntry(t, directory[..n], d[n]);
      } else {
        assert directory[..n] == d;
      }
    }
  }

  lemma ParentStored(t: Tree, key: Key)
    requires TreeOk(t) && Storable(key) && key in Objects(t)
    ensures NamesOf(key) != [] && Parent(NamesOf(key)) in t.dirs
  {
    StemOfKey(key);
    SidecarInDir(t, key);
  }

  ghost predicate OneMore(before: set<Path>, now: set<Path>) {
    exists p :: now <= before + {p}
  }

  lemma OneMoreHidden(before: set<Path>, p: Path)
    ensures OneMore(before, before) && OneMore(before, before + {p})
  {
    assert before <= before + {p};
  }

  lemma NoMore(before: set<Path>, now: set<Path>)
    requires now <= before
    ensures OneMore(before, now)
  {
    assert now <= before + {[]};
  }

  lemma OneMoreCleaned(before: set<Path>, temp: Path, created: set<Path>, now: set<Path>)
    requires OneMore(before + {temp}, created) && now <= created && temp !in now
    ensures OneMore(before, now)
  {
    var p :| created <= before + {temp} + {p};
    assert now <= before + {p};
  }

  /** The body of a put, moved into place. */
  function TornObjects(objects: map<Key, S.Object>, key: Key, data: seq<Byte>): map<Key, S.Object> {
    if key in objects then objects[key := objects[key].(data := data)] else objects
  }

  predicate NotCommitted(before: map<Key, S.Object>, now: map<Key, S.Object>, key: Key, data: seq<Byte>) {
    now == before || (key in before && now == before[key := before[key].(data := data)])
  }

  lemma ValidMeans(storage: FilesystemStorage)
    requires storage.Valid()
    ensures TreeOk(storage.tree) && VersionsIssued(Objects(storage.tree), storage.next)
  {
  }

  lemma ValidAfter(storage: FilesystemStorage)
    requires TreeOk(storage.tree) && VersionsIssued(Objects(storage.tree), storage.next)
    ensures storage.Valid()
  {
  }

  lemma RootExists(t: Tree)
    requires TreeOk(t)
    ensures [] in t.dirs
  {
  }

  lemma ParentNames(key: Key)
    requires Storable(key)
    ensures NamesOf(key) != [] && AreNames(Parent(NamesOf(key)))
  {
    StemOfKey(key);
  }

  lemma StillIssued(objects: map<Key, S.Object>, next: S.Version)
    requires VersionsIssued(objects, next)
    ensures VersionsIssued(objects, next + 1)
  {
  }

  lemma IssuedTorn(objects: map<Key, S.Object>, next: S.Version, key: Key, data: seq<Byte>)
    requires VersionsIssued(objects, next)
    ensures VersionsIssued(TornObjects(objects, key, data), next)
  {
  }

  lemma IssuedPut(objects: map<Key, S.Object>, next: S.Version, key: Key, o: S.Object)
    requires VersionsIssued(objects, next) && o.version < next
    ensures VersionsIssued(objects[key := o], next)
  {
  }

  lemma IssuedWithout(objects: map<Key, S.Object>, next: S.Version, key: Key)
    requires VersionsIssued(objects, next)
    ensures VersionsIssued(objects - {key}, next)
  {
  }

  /** Committing over the torn state is committing over the state before. */
  lemma CommitOver(before: map<Key, S.Object>, torn: map<Key, S.Object>, key: Key, data: seq<Byte>, o: S.Object)
    requires torn == TornObjects(before, key, data)
    ensures torn[key := o] == before[key := o]
  {
  }

  lemma CrashStates(before: map<Key, S.Object>, key: Key, o: S.Object)
    ensures PutCrash(before, before, key, o) && PutCrash(before, before[key := o], key, o)
    ensures PutCrash(before, TornObjects(before, key, o.data), key, o)
  {
  }

  lemma TornOrNot(before: map<Key, S.Object>, key: Key, data: seq<Byte>)
    ensures TornObjects(before, key, data)
            == if key in before then before[key := before[key].(data := data)] else before
  {
  }

  lemma OneMoreState(trace: seq<Tree>, t: Tree, n: nat, before: map<Key, S.Object>, key: Key, o: S.Object)
    requires PutTrace(trace, n, before, key, o) && TreeOk(t) && PutCrash(before, Objects(t), key, o)
    ensures PutTrace(trace + [t], n, before, key, o)
  {
  }

  lemma TornNow(trace: seq<Tree>, t: Tree, n: nat, before: map<Key, S.Object>, key: Key, data: seq<Byte>)
    requires n <= |trace| && TreeOk(t) && Objects(t) == TornObjects(before, key, data)
    ensures PassesTorn(trace + [t], n, before, key, data)
  {
    hide Objects, TornObjects, TreeOk;
    assert (trace + [t])[|trace|] == t;
  }

  lemma TornStill(earlier: seq<Tree>, trace: seq<Tree>, m: nat, n: nat, before: map<Key, S.Object>, key: Key, data: seq<Byte>)
    requires n <= m && earlier <= trace && PassesTorn(earlier, m, before, key, data)
    ensures PassesTorn(trace, n, before, key, data)
  {
    hide Objects, TornObjects, TreeOk;
    var i :| m <= i < |earlier| && TreeOk(earlier[i]) && Objects(earlier[i]) == TornObjects(before, key, data);
    assert trace[i] == earlier[i];
  }

  lemma NoStates(trace: seq<Tree>, before: map<Key, S.Object>, key: Key, o: S.Object)
    ensures PutTrace(trace, |trace|, before, key, o)
  {
  }

  lemma OneMoreAfter(trace: seq<Tree>, t: Tree, n: nat, before: map<Key, S.Object>, key: Key)
    requires DeleteTrace(trace, n, before, key) && TreeOk(t) && Objects(t) == before - {key}
    ensures DeleteTrace(trace + [t], n, before, key)
  {
  }

  lemma NoQuietStates(trace: seq<Tree>, before: map<Key, S.Object>)
    ensures QuietTrace(trace, |trace|, before)
  {
  }

  lemma QuietIsPut(trace: seq<Tree>, n: nat, before: map<Key, S.Object>, key: Key, o: S.Object)
    requires QuietTrace(trace, n, before)
    ensures PutTrace(trace, n, before, key, o)
  {
  }

  lemma MoreQuiet(earlier: seq<Tree>, trace: seq<Tree>, n: nat, before: map<Key, S.Object>, key: Key, o: S.Object)
    requires earlier <= trace && PutTrace(earlier, n, before, key, o) && QuietTrace(trace, |earlier|, before)
    ensures PutTrace(trace, n, before, key, o)
  {
    QuietIsPut(trace, |earlier|, before, key, o);
    PutTraces(earlier, trace, n, before, key, o);
  }

  lemma PutTraces(earlier: seq<Tree>, trace: seq<Tree>, n: nat, before: map<Key, S.Object>, key: Key, o: S.Object)
    requires earlier <= trace && PutTrace(earlier, n, before, key, o) && PutTrace(trace, |earlier|, before, key, o)
    ensures PutTrace(trace, n, before, key, o)
  {
    forall i | n <= i < |trace|
      ensures TreeOk(trace[i]) && PutCrash(before, Objects(trace[i]), key, o)
    {
      assert i < |earlier| ==> trace[i] == earlier[i];
    }
  }

  lemma NoEntries(t: Tree, d: Path)
    requires Entries(t, d) == {}
    ensures NoChildren(t, d)
  {
    forall e | e in t.dirs && e != []
      ensures Parent(e) != d
    {
      if Parent(e) == d {
        EntryThere(t, d, e);
      }
    }
    forall p | p in t.files && p != []
      ensures Parent(p) != d
    {
      if Parent(p) == d {
        EntryThere(t, d, p);
      }
    }
  }

  lemma EntryThere(t: Tree, d: Path, e: Path)
    requires e != [] && (e in t.dirs || e in t.files) && Parent(e) == d
    ensures Last(e) in Entries(t, d)
  {
  }

  predicate AllEncode(segments: seq<string>) {
    forall i :: 0 <= i < |segments| ==> Encoded(segments[i]).Some?
  }

  /** The directory of the whole segments; None if one of them cannot be a name. */
  method Base(segments: seq<string>) returns (base: Option<Path>)
    requires forall i :: 0 <= i < |segments| ==> '/' !in segments[i]
    ensures base.None? <==> !AllEncode(segments)
    ensures base.Some? ==> |base.value| == |segments| && AreNames(base.value)
                           && forall i :: 0 <= i < |segments| ==> Encoded(segments[i]) == Some(base.value[i])
  {
    hide Encoded, Decoded;
    var names: Path := [];
    for i := 0 to |segments|
      invariant |names| == i && AreNames(names)
      invariant forall j :: 0 <= j < i ==> Encoded(segments[j]) == Some(names[j])
    {
      var name := EncodeSegment(segments[i]);
      if name.None? {
        return None;
      }
      CodecIsBijection(segments[i], name.value);
      names := names + [name.value];
    }
    return Some(names);
  }

  /** The keys with the prefix are below the directory of its whole segments, under its partial one. */
  lemma PrefixIsBelow(base: Path, prefix: Key, k: Key)
    requires Storable(k) && prefix <= k
    requires var c := Split(prefix, '/');
             |base| == |c| - 1 && forall i :: 0 <= i < |base| ==> Encoded(c[i]) == Some(base[i])
    ensures Below(base, Split(prefix, '/')[|base|], k)
  {
    hide Encoded;
    PrefixIsSegments(prefix, k, '/');
    var c, q := Split(prefix, '/'), Split(k, '/');
    forall i | 0 <= i < |base|
      ensures NamesOf(k)[i] == base[i]
    {
      assert c[..|c| - 1][i] == q[..|c| - 1][i];
    }
    assert NamesOf(k)[..|base|] == base;
  }

  /** A prefix with a segment that cannot be a name has no keys. */
  lemma NothingUnder(t: Tree, next: S.Version, prefix: Key, after: Option<Key>, limit: nat)
    requires TreeOk(t) && !AllEncode(Split(prefix, '/')[..|Split(prefix, '/')| - 1])
    ensures S.ListPage(AsFlat(t, next), prefix, after, limit) == []
  {
    hide TreeOk, Encoded;
    forall k | k in Keys(t)
      ensures !(prefix <= k)
    {
      KeyIn(t, k);
      if prefix <= k {
        PrefixEncodes(prefix, k);
      }
    }
    assert Beyond(Keys(t), prefix, after) == {};
  }

  lemma PrefixEncodes(prefix: Key, k: Key)
    requires Storable(k) && prefix <= k
    ensures AllEncode(Split(prefix, '/')[..|Split(prefix, '/')| - 1])
  {
    PrefixIsSegments(prefix, k, '/');
    var c, q := Split(prefix, '/'), Split(k, '/');
    var complete := c[..|c| - 1];
    forall i | 0 <= i < |complete|
      ensures Encoded(complete[i]).Some?
    {
      assert complete[i] == q[..|c| - 1][i];
    }
  }

  /** The listing, from what the walk found: filtered, sorted, cut, and each sidecar read. */
  method PageOf(t: Tree, ghost next: S.Version, base: Path, baseKey: string, partial: string, prefix: Key,
                after: Option<Key>, limit: nat)
    returns (page: seq<S.Listed>)
    requires TreeOk(t) && AreNames(base) && baseKey == DirKey(base)
    requires var c := Split(prefix, '/');
             && |base| == |c| - 1 && partial == c[|base|]
             && forall i :: 0 <= i < |base| ==> Encoded(c[i]) == Some(base[i])
    ensures page == S.ListPage(AsFlat(t, next), prefix, after, limit)
  {
    hide *;
    var found := Collect(t, base, baseKey, partial, []);
    var paths := Matching(found, prefix, after);
    MatchingIsBeyond(t, base, partial, prefix, after, found, paths);
    var keys := Take(Sorted(paths.Keys), limit);
    TakenFrom(paths, limit);
    BeyondStored(t, prefix, after);
    page := ReadSidecars(t, next, keys, paths);
    PageIs(t, next, prefix, after, limit, keys, page);
  }

  lemma BaseKey(base: Path, complete: seq<string>)
    requires AreNames(base) && |base| == |complete|
    requires forall i :: 0 <= i < |base| ==> Encoded(complete[i]) == Some(base[i])
    ensures DirKey(base) == Concat(complete)
  {
    hide Encoded, Decoded;
    DirKeyIsConcat(base);
    forall i | 0 <= i < |base|
      ensures SegmentsOf(base)[i] == complete[i]
    {
      CodecIsBijection(complete[i], base[i]);
    }
    assert SegmentsOf(base) == complete;
  }

  lemma TakenFrom(paths: map<Key, Path>, limit: nat)
    ensures forall k :: k in Take(Sorted(paths.Keys), limit) ==> k in paths
  {
    assert forall k :: k in Take(Sorted(paths.Keys), limit) ==> k in Sorted(paths.Keys);
  }

  lemma BeyondStored(t: Tree, prefix: Key, after: Option<Key>)
    ensures Beyond(Keys(t), prefix, after) <= Keys(t)
  {
  }

  predicate InWindow(k: Key, prefix: Key, after: Option<Key>) {
    prefix <= k && (after.Some? ==> Lt(after.value, k))
  }

  /** The collected keys in the window, each with its sidecar. */
  method Matching(found: seq<Found>, prefix: Key, after: Option<Key>) returns (paths: map<Key, Path>)
    ensures forall k :: k in paths <==> k in FoundKeys(found) && InWindow(k, prefix, after)
    ensures forall k :: k in paths ==> Found(k, paths[k]) in found
  {
    hide Lt;
    paths := map[];
    for i := 0 to |found|
      invariant forall k :: k in paths <==> (exists j :: 0 <= j < i && found[j].key == k) && InWindow(k, prefix, after)
      invariant forall k :: k in paths ==> Found(k, paths[k]) in found
    {
      if InWindow(found[i].key, prefix, after) {
        paths := paths[found[i].key := found[i].path];
      }
    }
  }

  predicate PathsAreSidecars(paths: map<Key, Path>) {
    forall k :: k in paths ==> Storable(k) && paths[k] == SidecarPath(NamesOf(k))
  }

  lemma MatchingIsBeyond(t: Tree, base: Path, partial: string, prefix: Key, after: Option<Key>,
                         found: seq<Found>, paths: map<Key, Path>)
    requires TreeOk(t) && Adds([], found, Within(t, base, partial))
    requires forall k :: k in paths <==> k in FoundKeys(found) && InWindow(k, prefix, after)
    requires forall k :: k in paths ==> Found(k, paths[k]) in found
    requires var c := Split(prefix, '/');
             && |base| == |c| - 1 && partial == c[|base|]
             && forall i :: 0 <= i < |base| ==> Encoded(c[i]) == Some(base[i])
    ensures paths.Keys == Beyond(Keys(t), prefix, after) && PathsAreSidecars(paths)
  {
    hide TreeOk, Encoded, Lt, Keys, Below;
    assert found[0..] == found;
    forall k
      ensures k in paths <==> k in Beyond(Keys(t), prefix, after)
    {
      if k in Beyond(Keys(t), prefix, after) {
        KeyIn(t, k);
        PrefixIsBelow(base, prefix, k);
      }
    }
  }

  /** Each key's sidecar, read from its path. */
  method ReadSidecars(t: Tree, ghost next: S.Version, keys: seq<Key>, paths: map<Key, Path>) returns (page: seq<S.Listed>)
    requires TreeOk(t) && PathsAreSidecars(paths) && paths.Keys <= Keys(t)
    requires forall k :: k in keys ==> k in paths
    ensures (forall k :: k in keys ==> k in AsFlat(t, next).objects) && page == S.ListedAll(AsFlat(t, next), keys)
  {
    hide TreeOk, Keys, ObjectAt;
    page := [];
    assert forall k :: k in keys ==> k in AsFlat(t, next).objects;
    for i := 0 to |keys|
      invariant |page| == i
      invariant forall j :: 0 <= j < i ==> keys[j] in AsFlat(t, next).objects
                                           && page[j] == S.ListedAt(AsFlat(t, next), keys[j])
    {
      assert keys[i] in keys;
      SidecarOf(t, keys[i]);
      var sidecar := t.files[paths[keys[i]]];
      page := page + [S.Listed(keys[i], sidecar.metadata, sidecar.version)];
    }
  }

  lemma SidecarOf(t: Tree, k: Key)
    requires TreeOk(t) && k in Keys(t) && Storable(k)
    ensures var p := SidecarPath(NamesOf(k));
            && p in t.files && t.files[p].Sidecar? && k in Objects(t)
            && Objects(t)[k].metadata == t.files[p].metadata && Objects(t)[k].version == t.files[p].version
  {
    KeyIn(t, k);
    StemOfKey(k);
    SidecarHasBody(t, NamesOf(k));
  }

  lemma PageIs(t: Tree, next: S.Version, prefix: Key, after: Option<Key>, limit: nat, keys: seq<Key>, page: seq<S.Listed>)
    requires TreeOk(t) && keys == Take(Sorted(Beyond(Keys(t), prefix, after)), limit)
    requires (forall k :: k in keys ==> k in AsFlat(t, next).objects) && page == S.ListedAll(AsFlat(t, next), keys)
    ensures page == S.ListPage(AsFlat(t, next), prefix, after, limit)
  {
    hide TreeOk, Sorted, Beyond;
  }

  /** After a crash during a put the next process finds every sidecar with its body, every version
      issued, and every other key's object as it was. */
  lemma CrashIsRecoverable(trace: seq<Tree>, n: nat, before: map<Key, S.Object>, key: Key, o: S.Object, i: nat)
    requires n <= i < |trace| && PutTrace(trace, n, before, key, o) && VersionsIssued(before, o.version)
    ensures TreeOk(trace[i]) && VersionsIssued(Objects(trace[i]), o.version + 1)
    ensures forall stem :: IsStem(stem) && SidecarPath(stem) in trace[i].files ==> HasBody(trace[i], stem)
    ensures forall k :: k != key ==> ObjectAt(trace[i], k) == if k in before then Some(before[k]) else None
  {
    hide PutTrace, TreeOk, ObjectAt, HasBody;
    TracedPut(trace, n, before, key, o, i);
    BodiesThere(trace[i]);
    OthersThere(trace[i], before, key);
  }

  /** The same after a crash during a delete; the key's own object is as it was, or gone. */
  lemma CrashedDeleteIsRecoverable(trace: seq<Tree>, n: nat, before: map<Key, S.Object>, next: S.Version, key: Key, i: nat)
    requires n <= i < |trace| && DeleteTrace(trace, n, before, key) && VersionsIssued(before, next)
    ensures TreeOk(trace[i]) && VersionsIssued(Objects(trace[i]), next)
    ensures forall stem :: IsStem(stem) && SidecarPath(stem) in trace[i].files ==> HasBody(trace[i], stem)
    ensures forall k :: k != key ==> ObjectAt(trace[i], k) == if k in before then Some(before[k]) else None
    ensures ObjectAt(trace[i], key).Some? ==> key in before && ObjectAt(trace[i], key) == Some(before[key])
  {
    hide TreeOk, ObjectAt, HasBody;
    BodiesThere(trace[i]);
    OthersThere(trace[i], before, key);
    KeyIn(trace[i], key);
  }

  predicate HasBody(t: Tree, stem: Path)
    requires stem != []
  {
    BodyPath(stem) in t.files && t.files[BodyPath(stem)].Body?
  }

  lemma TracedPut(trace: seq<Tree>, n: nat, before: map<Key, S.Object>, key: Key, o: S.Object, i: nat)
    requires n <= i < |trace| && PutTrace(trace, n, before, key, o)
    ensures TreeOk(trace[i]) && PutCrash(before, Objects(trace[i]), key, o)
  {
  }

  lemma BodiesThere(t: Tree)
    requires TreeOk(t)
    ensures forall stem :: IsStem(stem) && SidecarPath(stem) in t.files ==> HasBody(t, stem)
  {
    hide TreeOk;
    forall stem | IsStem(stem) && SidecarPath(stem) in t.files
      ensures HasBody(t, stem)
    {
      SidecarHasBody(t, stem);
    }
  }

  /** Objects that agree apart from one key are found where they were. */
  lemma OthersThere(t: Tree, before: map<Key, S.Object>, key: Key)
    requires TreeOk(t)
    requires forall k :: k != key ==> (k in Objects(t) <==> k in before) && (k in before ==> Objects(t)[k] == before[k])
    ensures forall k :: k != key ==> ObjectAt(t, k) == if k in before then Some(before[k]) else None
  {
    hide TreeOk, ObjectAt;
    forall k | k != key
      ensures ObjectAt(t, k) == if k in before then Some(before[k]) else None
    {
      KeyIn(t, k);
    }
  }

  /** What a crash between the two replaces costs: the state is one the storage contract allows
      exactly when the key was new, or its data is the same. */
  lemma TornBreaksContractIff(before: map<Key, S.Object>, next: S.Version, key: Key, data: seq<Byte>)
    requires VersionsIssued(before, next)
    ensures S.Evolves(S.Flat(before, next), S.Flat(TornObjects(before, key, data), next))
            <==> key !in before || before[key].data == data
  {
    if key in before && before[key].data != data {
      assert TornObjects(before, key, data)[key] != before[key];
    }
  }

  /** The storage contract allows going from `before` to the tree's objects. */
  ghost predicate Allowed(before: map<Key, S.Object>, next: S.Version, t: Tree) {
    TreeOk(t) && S.Evolves(S.Flat(before, next), S.Flat(Objects(t), next + 1))
  }

  /** A put that succeeds passes a state that breaks the contract exactly when it overwrites other data. */
  lemma OverwriteTearsIff(trace: seq<Tree>, n: nat, before: map<Key, S.Object>, key: Key, o: S.Object)
    requires PutTrace(trace, n, before, key, o) && PassesTorn(trace, n, before, key, o.data) && VersionsIssued(before, o.version)
    ensures (exists i :: n <= i < |trace| && !Allowed(before, o.version, trace[i]))
            <==> key in before && before[key].data != o.data
  {
    hide Allowed, Objects, TreeOk;
    if key in before && before[key].data != o.data {
      var j :| n <= j < |trace| && TreeOk(trace[j]) && Objects(trace[j]) == TornObjects(before, key, o.data);
      TornNotAllowed(before, key, o, trace[j]);
    } else {
      forall i | n <= i < |trace|
        ensures Allowed(before, o.version, trace[i])
      {
        CrashAllowed(before, key, o, trace[i]);
      }
    }
  }

  lemma TornNotAllowed(before: map<Key, S.Object>, key: Key, o: S.Object, t: Tree)
    requires TreeOk(t) && Objects(t) == TornObjects(before, key, o.data) && VersionsIssued(before, o.version)
    requires key in before && before[key].data != o.data
    ensures !Allowed(before, o.version, t)
  {
    hide Objects, TreeOk;
    assert Objects(t)[key] != before[key];
  }

  lemma CrashAllowed(before: map<Key, S.Object>, key: Key, o: S.Object, t: Tree)
    requires TreeOk(t) && PutCrash(before, Objects(t), key, o)
    requires key in before ==> before[key].data == o.data
    ensures Allowed(before, o.version, t)
  {
    hide Objects, TreeOk;
  }
}
