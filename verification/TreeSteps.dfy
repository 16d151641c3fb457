/** The single steps a write or a delete takes on the tree, and what each does to the objects. */
module TreeSteps {
  import opened KeyOrder
  import opened Utf8
  import opened Paths
  import opened Metadata
  import opened SegmentCodec
  import opened FileTree
  import S = Storage

  /** Both files of the key are the same in both trees. */
  predicate SameFiles(t: Tree, u: Tree, p: Path) {
    (p in t.files <==> p in u.files) && (p in t.files ==> t.files[p] == u.files[p])
  }

  lemma SameObject(t: Tree, u: Tree, k: Key)
    requires Storable(k) ==> SameFiles(t, u, SidecarPath(NamesOf(k))) && SameFiles(t, u, BodyPath(NamesOf(k)))
    ensures ObjectAt(t, k) == ObjectAt(u, k)
  {
  }

  /** Only hidden files differ, and directories. */
  ghost predicate SameVisible(t: Tree, u: Tree) {
    forall p :: p != [] && !Hidden(Last(p)) ==> SameFiles(t, u, p)
  }

  lemma SameVisibleObjects(t: Tree, u: Tree)
    requires SameVisible(t, u)
    ensures forall k :: ObjectAt(t, k) == ObjectAt(u, k)
    ensures TreeOk(t) && TreeOk(u) ==> Objects(t) == Objects(u)
  {
    hide SameFiles, ObjectAt, TreeOk;
    forall k
      ensures ObjectAt(t, k) == ObjectAt(u, k)
    {
      if Storable(k) {
        StemOfKey(k);
        SidecarOfStem(NamesOf(k));
      }
      SameObject(t, u, k);
    }
    if TreeOk(t) && TreeOk(u) {
      SameObjects(t, u);
    }
  }

  lemma NotAFile(t: Tree, d: Path)
    requires TreeOk(t) && AreNames(d)
    ensures d !in t.files
  {
    if d in t.files {
      assert FileOk(t, d);
      NamesAreSafe(d);
      LastOfPath(d);
    }
  }

  lemma LastOfPath(p: Path)
    ensures IsSidecarPath(p) ==> EndsWith(Last(p), SIDECAR_SUFFIX)
    ensures IsBodyPath(p) ==> EndsWith(Last(p), BODY_SUFFIX)
  {
  }

  function WithDir(t: Tree, d: Path): Tree {
    t.(dirs := t.dirs + {d})
  }

  lemma DirAdded(t: Tree, d: Path)
    requires TreeOk(t) && AreNames(d) && (d != [] ==> Parent(d) in t.dirs)
    ensures TreeOk(WithDir(t, d)) && Objects(WithDir(t, d)) == Objects(t)
  {
    var u := WithDir(t, d);
    NotAFile(t, d);
    forall e | e in u.dirs
      ensures DirOk(u, e)
    {
      assert e in t.dirs ==> DirOk(t, e);
    }
    forall p | p in u.files
      ensures FileOk(u, p)
    {
      assert FileOk(t, p);
    }
    SameVisibleObjects(t, u);
  }

  predicate NoChildren(t: Tree, d: Path) {
    && (forall e :: e in t.dirs && e != [] ==> Parent(e) != d)
    && (forall p :: p in t.files && p != [] ==> Parent(p) != d)
  }

  function WithoutDir(t: Tree, d: Path): Tree {
    t.(dirs := t.dirs - {d})
  }

  lemma DirRemoved(t: Tree, d: Path)
    requires TreeOk(t) && d != [] && NoChildren(t, d)
    ensures TreeOk(WithoutDir(t, d)) && Objects(WithoutDir(t, d)) == Objects(t)
  {
    var u := WithoutDir(t, d);
    forall e | e in u.dirs
      ensures DirOk(u, e)
    {
      assert DirOk(t, e);
    }
    forall p | p in u.files
      ensures FileOk(u, p)
    {
      assert FileOk(t, p);
    }
    SameVisibleObjects(t, u);
  }

  function WithFile(t: Tree, p: Path, f: File): Tree {
    t.(files := t.files[p := f])
  }

  function WithoutFile(t: Tree, p: Path): Tree {
    t.(files := t.files - {p})
  }

  lemma HiddenIsNotNamed(t: Tree, p: Path)
    requires TreeOk(t) && p != [] && Hidden(Last(p))
    ensures p !in t.dirs && !IsSidecarPath(p) && !IsBodyPath(p)
  {
    if p in t.dirs {
      assert DirOk(t, p);
      NamesAreSafe(p);
    }
    if IsSidecarPath(p) {
      StemOfSidecar(p);
      SidecarOfStem(SidecarStem(p));
    }
    if IsBodyPath(p) {
      BodyIsVisible(p);
    }
  }

  lemma BodyIsVisible(p: Path)
    requires IsBodyPath(p)
    ensures !Hidden(Last(p))
  {
    var stem := Parent(p) + [Last(p)[..|Last(p)| - 4]];
    NamesAreSafe(stem);
    assert SafeName(stem[|stem| - 1]);
  }

  /** A file in `t` other than a removed body stays fine when hidden files come and go. */
  lemma StillOk(t: Tree, u: Tree, p: Path)
    requires TreeOk(t) && u.dirs == t.dirs && p in t.files && p in u.files && t.files[p] == u.files[p]
    requires IsSidecarPath(p) ==> BodyPath(SidecarStem(p)) in u.files
    ensures FileOk(u, p)
  {
    assert FileOk(t, p);
  }

  lemma DirsStillOk(t: Tree, u: Tree)
    requires TreeOk(t) && u.dirs == t.dirs
    ensures [] in u.dirs && forall d :: d in u.dirs ==> DirOk(u, d)
  {
    forall d | d in u.dirs
      ensures DirOk(u, d)
    {
      assert DirOk(t, d);
    }
  }

  lemma BodyStays(t: Tree, u: Tree, p: Path)
    requires TreeOk(t) && p in t.files && IsSidecarPath(p)
    requires forall q :: q in t.files && q != [] && !Hidden(Last(q)) ==> q in u.files
    ensures BodyPath(SidecarStem(p)) in u.files
  {
    SidecarOfStem(SidecarStem(p));
    StemOfSidecar(p);
    SidecarHasBody(t, SidecarStem(p));
  }

  lemma ScratchAdded(t: Tree, p: Path)
    requires TreeOk(t) && p != [] && Hidden(Last(p)) && Parent(p) in t.dirs
    ensures TreeOk(WithFile(t, p, Scratch)) && Objects(WithFile(t, p, Scratch)) == Objects(t)
  {
    hide IsSidecarPath, IsBodyPath, AreNames;
    var u := WithFile(t, p, Scratch);
    HiddenIsNotNamed(t, p);
    DirsStillOk(t, u);
    forall q | q in u.files
      ensures FileOk(u, q)
    {
      if q != p {
        if IsSidecarPath(q) {
          BodyStays(t, u, q);
        }
        StillOk(t, u, q);
      }
    }
    SameVisibleObjects(t, u);
  }

  lemma ScratchRemoved(t: Tree, p: Path)
    requires TreeOk(t) && p != [] && Hidden(Last(p))
    ensures TreeOk(WithoutFile(t, p)) && Objects(WithoutFile(t, p)) == Objects(t)
  {
    hide IsSidecarPath, IsBodyPath, AreNames;
    var u := WithoutFile(t, p);
    DirsStillOk(t, u);
    forall q | q in u.files
      ensures FileOk(u, q)
    {
      if IsSidecarPath(q) {
        BodyStays(t, u, q);
      }
      StillOk(t, u, q);
    }
    SameVisibleObjects(t, u);
  }

  /** Another key's files are at other paths. */
  lemma OtherKeyPaths(key: Key, k: Key)
    requires Storable(key) && Storable(k) && k != key
    ensures SidecarPath(NamesOf(k)) != SidecarPath(NamesOf(key)) && BodyPath(NamesOf(k)) != BodyPath(NamesOf(key))
    ensures SidecarPath(NamesOf(k)) != BodyPath(NamesOf(key)) && BodyPath(NamesOf(k)) != SidecarPath(NamesOf(key))
  {
    StemOfKey(key);
    StemOfKey(k);
    PathsDiffer(NamesOf(key), NamesOf(k));
    PathsDiffer(NamesOf(k), NamesOf(key));
  }

  /** Changing one file of a key changes no other key's object. */
  lemma OthersUnchanged(t: Tree, u: Tree, key: Key)
    requires Storable(key)
    requires forall p :: p != SidecarPath(NamesOf(key)) && p != BodyPath(NamesOf(key)) ==> SameFiles(t, u, p)
    ensures forall k :: k != key ==> ObjectAt(u, k) == ObjectAt(t, k)
  {
    hide SameFiles, ObjectAt;
    forall k | k != key
      ensures ObjectAt(u, k) == ObjectAt(t, k)
    {
      if Storable(k) {
        OtherKeyPaths(key, k);
      }
      SameObject(t, u, k);
    }
  }

  lemma OwnPaths(key: Key)
    requires Storable(key)
    ensures IsStem(NamesOf(key)) && SidecarPath(NamesOf(key)) != BodyPath(NamesOf(key))
    ensures IsSidecarPath(SidecarPath(NamesOf(key))) && SidecarStem(SidecarPath(NamesOf(key))) == NamesOf(key)
    ensures IsBodyPath(BodyPath(NamesOf(key))) && !IsSidecarPath(BodyPath(NamesOf(key)))
    ensures !Hidden(Last(SidecarPath(NamesOf(key)))) && !Hidden(Last(BodyPath(NamesOf(key))))
    ensures Parent(SidecarPath(NamesOf(key))) == Parent(NamesOf(key)) && Parent(BodyPath(NamesOf(key))) == Parent(NamesOf(key))
  {
    StemOfKey(key);
    SidecarOfStem(NamesOf(key));
    PathsDiffer(NamesOf(key), NamesOf(key));
    BodyIsNotSidecar(NamesOf(key));
  }

  lemma NotADir(t: Tree, p: Path)
    requires TreeOk(t) && p != [] && (IsSidecarPath(p) || IsBodyPath(p))
    ensures p !in t.dirs
  {
    LastOfPath(p);
    if p in t.dirs {
      assert DirOk(t, p);
      NamesAreSafe(p);
    }
  }

  /** A new body under an old sidecar: only the data of that key changes, if it exists at all. */
  lemma BodyReplaced(t: Tree, key: Key, data: seq<Byte>)
    requires TreeOk(t) && Storable(key) && Parent(NamesOf(key)) in t.dirs
    ensures var u := WithFile(t, BodyPath(NamesOf(key)), Body(data));
            && TreeOk(u)
            && Objects(u) == if key in Objects(t) then Objects(t)[key := Objects(t)[key].(data := data)] else Objects(t)
  {
    hide IsSidecarPath, IsBodyPath, AreNames;
    var body, sidecar := BodyPath(NamesOf(key)), SidecarPath(NamesOf(key));
    var u := WithFile(t, body, Body(data));
    OwnPaths(key);
    NotADir(t, body);
    DirsStillOk(t, u);
    forall q | q in u.files
      ensures FileOk(u, q)
    {
      if q != body {
        if IsSidecarPath(q) {
          BodyStays(t, u, q);
        }
        StillOk(t, u, q);
      }
    }
    OthersUnchanged(t, u, key);
    KeyIn(t, key);
    if key in Objects(t) {
      SidecarHasBody(t, NamesOf(key));
      ObjectsWith(t, u, key, Objects(t)[key].(data := data));
    } else {
      SameObjects(t, u);
    }
  }

  /** The new sidecar commits. */
  lemma SidecarReplaced(t: Tree, key: Key, data: seq<Byte>, metadata: TextMap, version: S.Version)
    requires TreeOk(t) && Storable(key) && Parent(NamesOf(key)) in t.dirs
    requires BodyPath(NamesOf(key)) in t.files && t.files[BodyPath(NamesOf(key))] == Body(data)
    ensures var u := WithFile(t, SidecarPath(NamesOf(key)), Sidecar(metadata, version));
            TreeOk(u) && Objects(u) == Objects(t)[key := S.Object(data, metadata, version)]
  {
    hide IsSidecarPath, IsBodyPath, AreNames;
    var body, sidecar := BodyPath(NamesOf(key)), SidecarPath(NamesOf(key));
    var u := WithFile(t, sidecar, Sidecar(metadata, version));
    OwnPaths(key);
    NotADir(t, sidecar);
    DirsStillOk(t, u);
    forall q | q in u.files
      ensures FileOk(u, q)
    {
      if q != sidecar {
        if IsSidecarPath(q) {
          BodyStays(t, u, q);
        }
        StillOk(t, u, q);
      }
    }
    OthersUnchanged(t, u, key);
    ObjectsWith(t, u, key, S.Object(data, metadata, version));
  }

  /** Unlinking the sidecar removes the object. */
  lemma SidecarRemoved(t: Tree, key: Key)
    requires TreeOk(t) && Storable(key)
    ensures var u := WithoutFile(t, SidecarPath(NamesOf(key)));
            TreeOk(u) && Objects(u) == Objects(t) - {key}
  {
    hide IsSidecarPath, IsBodyPath, AreNames;
    var sidecar := SidecarPath(NamesOf(key));
    var u := WithoutFile(t, sidecar);
    OwnPaths(key);
    DirsStillOk(t, u);
    forall q | q in u.files
      ensures FileOk(u, q)
    {
      if IsSidecarPath(q) {
        BodyOfOther(t, q, key);
      }
      StillOk(t, u, q);
    }
    OthersUnchanged(t, u, key);
    ObjectsWithout(t, u, key);
  }

  lemma BodyOfOther(t: Tree, p: Path, key: Key)
    requires TreeOk(t) && p in t.files && IsSidecarPath(p) && Storable(key)
    ensures BodyPath(SidecarStem(p)) in t.files && BodyPath(SidecarStem(p)) != SidecarPath(NamesOf(key))
  {
    StemOfSidecar(p);
    SidecarHasBody(t, SidecarStem(p));
    OwnPaths(key);
    PathsDiffer(SidecarStem(p), NamesOf(key));
  }

  /** Unlinking a body that has no sidecar changes no object. */
  lemma BodyRemoved(t: Tree, key: Key)
    requires TreeOk(t) && Storable(key) && SidecarPath(NamesOf(key)) !in t.files
    ensures var u := WithoutFile(t, BodyPath(NamesOf(key)));
            TreeOk(u) && Objects(u) == Objects(t)
  {
    hide IsSidecarPath, IsBodyPath, AreNames;
    var body := BodyPath(NamesOf(key));
    var u := WithoutFile(t, body);
    OwnPaths(key);
    DirsStillOk(t, u);
    forall q | q in u.files
      ensures FileOk(u, q)
    {
      if IsSidecarPath(q) {
        SidecarElsewhere(t, q, key);
      }
      StillOk(t, u, q);
    }
    OthersUnchanged(t, u, key);
    SameObjects(t, u);
  }

  lemma SidecarElsewhere(t: Tree, p: Path, key: Key)
    requires TreeOk(t) && p in t.files && IsSidecarPath(p) && Storable(key) && SidecarPath(NamesOf(key)) !in t.files
    ensures BodyPath(SidecarStem(p)) in t.files && BodyPath(SidecarStem(p)) != BodyPath(NamesOf(key))
  {
    StemOfSidecar(p);
    SidecarHasBody(t, SidecarStem(p));
    OwnPaths(key);
    PathsDiffer(SidecarStem(p), NamesOf(key));
  }

  /** The hidden files: lock and temporary files. */
  function HiddenFiles(t: Tree): set<Path> {
    set p | p in t.files && p != [] && Hidden(Last(p))
  }

  lemma HiddenSteps(t: Tree, p: Path, f: File)
    requires p != []
    ensures Hidden(Last(p)) ==> HiddenFiles(WithFile(t, p, f)) == HiddenFiles(t) + {p}
    ensures !Hidden(Last(p)) ==> HiddenFiles(WithFile(t, p, f)) == HiddenFiles(t)
    ensures HiddenFiles(WithoutFile(t, p)) == HiddenFiles(t) - {p}
  {
  }

  lemma HiddenDirs(t: Tree, d: Path)
    ensures HiddenFiles(WithDir(t, d)) == HiddenFiles(t) && HiddenFiles(WithoutDir(t, d)) == HiddenFiles(t)
  {
  }
}
